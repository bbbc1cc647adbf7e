/**
 * The JSON values an API route finds in a request body, and the three things
 * the routes do with them: test them for truthiness (`!x`), convert them with
 * `Number(x)`, and use them as an array index (`pages[x]`).
 */
module JsValues {
  import opened Wrappers
  import opened Text
  import opened JsNumbers

  /** A field of a decoded JSON body. `Undefined` is an absent field;
      `Array` is a JSON array; `Object` is any other object, whose contents
      the routes never read. */
  datatype JsValue =
    | Undefined
    | Null
    | Bool(b: bool)
    | Num(n: int)
    | Str(s: string)
    | Array(elems: seq<JsValue>)
    | Object

  /** JavaScript truthiness: `!v` is false exactly for undefined, null,
      false, 0 and the empty string; every array and object is truthy. */
  predicate Truthy(v: JsValue) {
    match v
    case Undefined => false
    case Null => false
    case Bool(b) => b
    case Num(n) => n != 0
    case Str(s) => s != ""
    case Array(_) => true
    case Object => true
  }

  /** The text `String(v)` gives for a value inside an array, as
      `Array.prototype.join` writes it: undefined and null are empty, and a
      nested array is its own text. */
  function ElementText(v: JsValue): string
    decreases v
  {
    match v
    case Undefined => ""
    case Null => ""
    case Bool(b) => if b then "true" else "false"
    case Num(n) => IntToString(n)
    case Str(s) => s
    case Array(es) => ArrayText(es)
    case Object => "[object Object]"
  }

  /** `String(a)` of an array, the same text as `a.join(",")`: the
      elements' texts with a comma between each two. */
  function ArrayText(es: seq<JsValue>): string
    decreases es
  {
    if |es| == 0 then ""
    else if |es| == 1 then ElementText(es[0])
    else ElementText(es[0]) + "," + ArrayText(es[1..])
  }

  /** `Number(v)`, with None for NaN. An array is converted through its
      text, so `[]` is 0, `[7]` is 7 and `[1, 2]` is NaN; any other object
      is NaN. */
  function ToNumber(v: JsValue): Option<int> {
    match v
    case Undefined => None
    case Null => Some(0)
    case Bool(b) => Some(if b then 1 else 0)
    case Num(n) => Some(n)
    case Str(s) => StringToNumber(s)
    case Array(es) => StringToNumber(ArrayText(es))
    case Object => None
  }

  /** The element a property key names in an array of length `len`: the
      key must be the canonical decimal text of an index (so "1" names
      one, "01" and "1.0" do not). */
  function KeyIndex(key: string, len: nat): (r: Option<nat>)
    ensures r.Some? ==> r.value < len
  {
    if key != "" && AllDigits(key) && (key[0] != '0' || |key| == 1) && DecimalValue(key) < len
    then Some(DecimalValue(key)) else None
  }

  /** The element `a[v]` of an array of length `len` selects, if any. A
      number selects when it is an index; a string selects when it is the
      key of an index; an array is used through its text, so `[1]` names
      the same element as "1"; nothing else names an element. */
  function ArrayIndex(v: JsValue, len: nat): (r: Option<nat>)
    ensures r.Some? ==> r.value < len
    ensures v.Num? ==> (r.Some? <==> 0 <= v.n < len)
    ensures r.Some? && v.Num? ==> r.value == v.n
    ensures v.Str? ==> r == KeyIndex(v.s, len)
    ensures v.Array? ==> r == KeyIndex(ArrayText(v.elems), len)
    ensures v.Undefined? || v.Null? || v.Bool? || v.Object? ==> r.None?
  {
    match v
    case Num(n) => if 0 <= n < len then Some(n) else None
    case Str(s) => KeyIndex(s, len)
    case Array(es) => KeyIndex(ArrayText(es), len)
    case _ => None
  }

  /** The string keys that select an element are exactly the decimal texts
      of the indices. */
  lemma ArrayIndexOfString(k: nat, len: nat)
    requires k < len
    ensures ArrayIndex(Str(NatToString(k)), len) == Some(k)
  {
  }

  /** `Number([])` is 0 and `Number([n])` is `n`. */
  lemma ArrayNumbers(n: int)
    ensures ToNumber(Array([])) == Some(0)
    ensures ToNumber(Array([Num(n)])) == Some(n)
  {
    assert Trim("") == "";
    assert ArrayText([Num(n)]) == IntToString(n);
    StringToNumberOfString(n);
  }

  /** `a[[k]]` reads `a["k"]`, the element at index `k`. */
  lemma ArrayKeyIndex(k: nat, len: nat)
    requires k < len
    ensures ArrayIndex(Array([Num(k)]), len) == Some(k)
  {
    assert ArrayText([Num(k)]) == NatToString(k);
    ArrayIndexOfString(k, len);
  }

  /** Two numbers make a text with a comma, which is NaN. */
  lemma PairIsNaN()
    ensures ToNumber(Array([Num(1), Num(2)])) == None
  {
    var es := [Num(1), Num(2)];
    assert es[1..] == [Num(2)];
    assert IntToString(1) == "1" && IntToString(2) == "2";
    assert ArrayText(es) == "1" + "," + "2";
    PairText();
  }

  lemma PairText()
    ensures StringToNumber("1,2") == None
  {
    TrimUnpadded("1,2");
    assert SplitSign("1,2") == (false, "1,2");
    assert !IsDigit("1,2"[1]);
  }
}
