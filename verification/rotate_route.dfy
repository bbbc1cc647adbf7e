/**
 * The rotation API route: it checks the request body, resolves an optional
 * 1-based target page, adds the rotation to that page's angle (or to every
 * page's) with JavaScript's `%` 360, and names the output file.
 */
module RotateRoute {
  import opened Wrappers
  import opened Text
  import opened JsNumbers
  import opened JsValues
  import opened FileNames
  import opened Pdf

  /** The fields a client may put in the JSON body. The route destructures
      only the first four; the page also sends `applyTo` and `pageNumbers`. */
  datatype RotateBody = RotateBody(
    pdfBytes: JsValue,
    rotation: JsValue,
    filename: JsValue,
    pageNumber: JsValue,
    applyTo: JsValue,
    pageNumbers: JsValue)

  const BadRotation := "Rotation must be a valid number."
  const RotatedSuffix := "-rotated.pdf"

  /** `(current + rotation) % 360`: strictly between -360 and 360, with the
      sign of the sum, and a whole number of turns away from it. */
  function NewAngle(current: int, rotation: int): (a: int)
    ensures -360 < a < 360
    ensures current + rotation >= 0 ==> a >= 0
    ensures current + rotation <= 0 ==> a <= 0
    ensures current + rotation == 360 * JsQuot(current + rotation, 360) + a
  {
    JsRem(current + rotation, 360)
  }

  /** One page turned; what is drawn on it is kept. */
  function RotatePage(p: Page, rotation: int): (q: Page)
    ensures q.stamps == p.stamps
    ensures q.angle == NewAngle(p.angle, rotation)
  {
    p.(angle := NewAngle(p.angle, rotation))
  }

  /** Every page turned, in place. */
  function RotateAll(pages: Document, rotation: int): (r: Document)
    ensures |r| == |pages|
    ensures forall i :: 0 <= i < |r| ==> r[i] == RotatePage(pages[i], rotation)
  {
    seq(|pages|, i requires 0 <= i < |pages| => RotatePage(pages[i], rotation))
  }

  /** Only page `index` turned; every other page is untouched. */
  function RotateOne(pages: Document, index: nat, rotation: int): (r: Document)
    requires index < |pages|
    ensures |r| == |pages|
    ensures r[index] == RotatePage(pages[index], rotation)
    ensures forall j :: 0 <= j < |r| && j != index ==> r[j] == pages[j]
  {
    pages[index := RotatePage(pages[index], rotation)]
  }

  /** pdf-lib's `setRotation` accepts only a multiple of 90 degrees and
      throws on any other angle. */
  predicate RightAngle(a: int) {
    a % 90 == 0
  }

  /** Every page of the document can take the turn. */
  predicate TurnsAll(pages: Document, rotation: int) {
    forall i :: 0 <= i < |pages| ==> RightAngle(NewAngle(pages[i].angle, rotation))
  }

  /** Taking whole turns off keeps whole quarter turns: the new angle is a
      multiple of 90 exactly when the sum is. */
  lemma RightAngleOfSum(current: int, rotation: int)
    ensures RightAngle(NewAngle(current, rotation)) <==> (current + rotation) % 90 == 0
  {
    var x := current + rotation;
    var a := NewAngle(current, rotation);
    var q := JsQuot(x, 360);
    assert x == 90 * (4 * q) + a;
    ShiftQuarter(a, 4 * q);
  }

  /** Adding quarter turns does not change the remainder by 90. */
  lemma ShiftQuarter(a: int, k: int)
    ensures (90 * k + a) % 90 == a % 90
  {
    var m := a % 90;
    var d := a / 90;
    assert a == 90 * d + m;
    assert 90 * k + a == 90 * (k + d) + m;
    ModUnique(90 * k + a, k + d, m);
  }

  lemma ModUnique(y: int, q: int, m: int)
    requires y == 90 * q + m && 0 <= m < 90
    ensures y % 90 == m
  {
  }

  /** Pages already at quarter turns take any quarter turn. */
  lemma QuarterTurns(pages: Document, rotation: int)
    requires forall i :: 0 <= i < |pages| ==> pages[i].angle % 90 == 0
    requires rotation % 90 == 0
    ensures TurnsAll(pages, rotation)
  {
    forall i | 0 <= i < |pages|
      ensures RightAngle(NewAngle(pages[i].angle, rotation))
    {
      var c := pages[i].angle;
      assert c == 90 * (c / 90) && rotation == 90 * (rotation / 90);
      assert c + rotation == 90 * (c / 90 + rotation / 90) + 0;
      ModUnique(c + rotation, c / 90 + rotation / 90, 0);
      RightAngleOfSum(c, rotation);
    }
  }

  /** The message for a page number outside the document. */
  function OutOfRange(count: nat): string {
    "Page number out of range. PDF has " + NatToString(count) + " pages."
  }

  /** The target page: none when `pageNumber` is undefined, null or not a
      number (then every page turns); otherwise the 0-based index
      `Number(pageNumber) - 1`, which must name a page of the document. */
  function Target(pageNumber: JsValue, count: nat): (r: Result<Option<nat>, string>)
    ensures pageNumber.Undefined? || pageNumber.Null? || ToNumber(pageNumber).None? ==> r == Success(None)
    ensures r.Failure? ==> r.error == OutOfRange(count)
    ensures r.Success? && r.value.Some? ==> r.value.value < count && ToNumber(pageNumber) == Some(r.value.value + 1)
    ensures !pageNumber.Undefined? && !pageNumber.Null? && ToNumber(pageNumber).Some? ==>
              (r.Failure? <==> !(1 <= ToNumber(pageNumber).value <= count))
  {
    if pageNumber.Undefined? || pageNumber.Null? || ToNumber(pageNumber).None? then Success(None)
    else
      var index := ToNumber(pageNumber).value - 1;
      if index < 0 || index >= count then Failure(OutOfRange(count)) else Success(Some(index))
  }

  /** The POST handler. `loaded` is what decoding and loading `pdfBytes`
      gives (None when that throws). The checks run in the source's order:
      missing bytes or name, then the rotation, then the load, then the
      target page; turning a page to an angle that is not a multiple of 90
      throws; the name is rewritten last, and a name that is not a string
      makes `replace` throw. */
  function Handle(body: RotateBody, loaded: Option<Document>): (r: Reply<Document>)
    ensures !Truthy(body.pdfBytes) || !Truthy(body.filename) ==> r == Error(400, MissingParameters)
    ensures Truthy(body.pdfBytes) && Truthy(body.filename) && ToNumber(body.rotation).None? ==>
              r == Error(400, BadRotation)
    ensures r.Ok? ==> body.filename.Str? && r.filename == OutputName(body.filename.s, RotatedSuffix)
    ensures r.Ok? ==> loaded.Some? && |r.result| == |loaded.value|
    ensures r.Error? ==> r.status == 400
    ensures r.Ok? ==> forall i :: 0 <= i < |r.result| && r.result[i] != loaded.value[i] ==> RightAngle(r.result[i].angle)
  {
    if !Truthy(body.pdfBytes) || !Truthy(body.filename) then Error(400, MissingParameters)
    else if ToNumber(body.rotation).None? then Error(400, BadRotation)
    else if loaded.None? then Crash
    else
      var pages := loaded.value;
      var rotation := ToNumber(body.rotation).value;
      match Target(body.pageNumber, |pages|)
      case Failure(message) => Error(400, message)
      case Success(target) =>
        if target.Some? && !RightAngle(NewAngle(pages[target.value].angle, rotation)) then Crash
        else if target.None? && !TurnsAll(pages, rotation) then Crash
        else
          var rotated := if target.Some? then RotateOne(pages, target.value, rotation) else RotateAll(pages, rotation);
          if body.filename.Str? then Ok(rotated, OutputName(body.filename.s, RotatedSuffix)) else Crash
  }

  /** The route never reads `applyTo` or `pageNumbers`. */
  lemma IgnoresApplyTo(body: RotateBody, applyTo: JsValue, pageNumbers: JsValue, loaded: Option<Document>)
    ensures Handle(body.(applyTo := applyTo, pageNumbers := pageNumbers), loaded) == Handle(body, loaded)
  {
  }

  /** With no page number every page turns by the rotation, unless one of
      them would land off a quarter turn, which throws. */
  lemma RotatesAllWithoutTarget(body: RotateBody, pages: Document, name: string, rotation: int)
    requires Truthy(body.pdfBytes) && body.filename == Str(name) && name != ""
    requires body.rotation == Num(rotation) && body.pageNumber == Undefined
    ensures TurnsAll(pages, rotation) ==>
              Handle(body, Some(pages)) == Ok(RotateAll(pages, rotation), OutputName(name, RotatedSuffix))
    ensures !TurnsAll(pages, rotation) ==> Handle(body, Some(pages)) == Crash
  {
  }

  /** With page number `k` of an `n`-page document, only page `k` turns
      (or the turn throws when it is off a quarter turn); with a number
      outside 1..n the answer is a 400 naming `n`. */
  lemma RotatesOnlyTarget(body: RotateBody, pages: Document, name: string, rotation: int, k: int)
    requires Truthy(body.pdfBytes) && body.filename == Str(name) && name != ""
    requires body.rotation == Num(rotation) && body.pageNumber == Num(k)
    ensures 1 <= k <= |pages| && RightAngle(NewAngle(pages[k - 1].angle, rotation)) ==>
              Handle(body, Some(pages)) == Ok(RotateOne(pages, k - 1, rotation), OutputName(name, RotatedSuffix))
    ensures 1 <= k <= |pages| && !RightAngle(NewAngle(pages[k - 1].angle, rotation)) ==>
              Handle(body, Some(pages)) == Crash
    ensures !(1 <= k <= |pages|) ==> Handle(body, Some(pages)) == Error(400, OutOfRange(|pages|))
  {
    assert ToNumber(Num(k)) == Some(k);
    if 1 <= k <= |pages| {
      assert Target(Num(k), |pages|) == Success(Some(k - 1));
      TurnsTarget(body, pages, name, rotation, k - 1);
    } else {
      assert Target(Num(k), |pages|) == Failure(OutOfRange(|pages|));
      RefusesTarget(body, pages, rotation, OutOfRange(|pages|));
    }
  }

  /** A page the target names turns alone, or the turn throws. */
  lemma TurnsTarget(body: RotateBody, pages: Document, name: string, rotation: int, t: nat)
    requires Truthy(body.pdfBytes) && body.filename == Str(name) && name != ""
    requires ToNumber(body.rotation) == Some(rotation)
    requires Target(body.pageNumber, |pages|) == Success(Some(t))
    ensures RightAngle(NewAngle(pages[t].angle, rotation)) ==>
              Handle(body, Some(pages)) == Ok(RotateOne(pages, t, rotation), OutputName(name, RotatedSuffix))
    ensures !RightAngle(NewAngle(pages[t].angle, rotation)) ==> Handle(body, Some(pages)) == Crash
  {
  }

  /** A refused page number answers 400 with the refusal. */
  lemma RefusesTarget(body: RotateBody, pages: Document, rotation: int, message: string)
    requires Truthy(body.pdfBytes) && Truthy(body.filename)
    requires ToNumber(body.rotation) == Some(rotation)
    requires Target(body.pageNumber, |pages|) == Failure(message)
    ensures Handle(body, Some(pages)) == Error(400, message)
  {
  }

  /** A turn of 45 degrees throws: the route answers 500. */
  lemma OddAngleThrows(body: RotateBody, name: string)
    requires Truthy(body.pdfBytes) && body.filename == Str(name) && name != ""
    requires body.rotation == Num(45) && body.pageNumber == Undefined
    ensures Handle(body, Some([Page(0, [])])) == Crash
  {
    var pages := [Page(0, [])];
    assert NewAngle(pages[0].angle, 45) == 45;
    assert 45 % 90 == 45;
    assert !RightAngle(NewAngle(pages[0].angle, 45));
  }

  /** A rotation or page number sent as an array is read through its
      text: `[]` is a turn of 0 and `[k]` is page `k`. */
  lemma ArrayFields(body: RotateBody, loaded: Option<Document>, k: int, count: nat)
    ensures Handle(body.(rotation := Array([])), loaded) == Handle(body.(rotation := Num(0)), loaded)
    ensures Target(Array([Num(k)]), count) == Target(Num(k), count)
  {
    ArrayNumbers(k);
  }

  /** A page number sent as text counts like the number it spells. */
  lemma TextPageNumber(k: nat, count: nat)
    requires 1 <= k <= count
    ensures Target(Str(NatToString(k)), count) == Success(Some(k - 1))
  {
    StringToNumberOfString(k);
    assert IntToString(k) == NatToString(k);
  }

  /** Turning a page whose angle is in [0, 360) by a non-negative rotation
      keeps the angle in [0, 360), and two turns make the turn by their sum. */
  lemma TurnsCompose(current: int, r1: int, r2: int)
    requires 0 <= current < 360 && r1 >= 0 && r2 >= 0
    ensures 0 <= NewAngle(current, r1) < 360
    ensures NewAngle(NewAngle(current, r1), r2) == NewAngle(current, r1 + r2)
  {
    var s := current + r1;
    assert NewAngle(current, r1) == s % 360;
    assert NewAngle(NewAngle(current, r1), r2) == (s % 360 + r2) % 360;
    assert NewAngle(current, r1 + r2) == (s + r2) % 360;
    ModAddLeft(s, r2);
  }

  lemma ModAddLeft(a: nat, b: nat)
    ensures (a % 360 + b) % 360 == (a + b) % 360
  {
    var q := a / 360;
    assert a + b == (a % 360 + b) + 360 * q;
  }

  /** A negative sum keeps its sign: -90 rotated by -180 is -270, not 90. */
  lemma NegativeAngles()
    ensures NewAngle(-90, -180) == -270
    ensures NewAngle(270, 180) == 90
    ensures NewAngle(0, 360) == 0
  {
  }
}
