/**
 * The PDF splitter page: a comma-separated list of page ranges is parsed
 * against the document's page count, the pages no range mentions form one
 * more part, and every part becomes a document of its own that downloads
 * under a numbered name.
 */
module PdfSplit {
  import opened Wrappers
  import opened Text
  import opened JsNumbers
  import opened FileNames
  import opened Pdf
  import opened Seqs

  // ---------------------------------------------------------------------
  // Pieces of the range text

  /** `pieces.map(p => p.trim())`: each field trimmed, so that a field
      that is not blank keeps no white space at either end. */
  function Trimmed(parts: seq<string>): (ts: seq<string>)
    ensures |ts| == |parts| && forall j :: 0 <= j < |parts| ==> ts[j] == Trim(parts[j])
    ensures forall j :: 0 <= j < |ts| && ts[j] != "" ==> !IsSpace(ts[j][0]) && !IsSpace(ts[j][|ts[j]| - 1])
  {
    MapSeq(parts, Trim)
  }

  predicate NonBlank(t: string) {
    t != ""
  }

  /** The trimmed pieces, with the empty ones dropped: each kept piece is
      one of the trimmed fields, and every trimmed field that is not blank
      is kept. */
  function Cleaned(parts: seq<string>): (r: seq<string>)
    ensures |r| <= |parts|
    ensures forall i :: 0 <= i < |r| ==> r[i] != "" && !IsSpace(r[i][0]) && !IsSpace(r[i][|r[i]| - 1])
    ensures forall i :: 0 <= i < |r| ==> r[i] in Trimmed(parts)
    ensures forall j :: 0 <= j < |parts| && Trimmed(parts)[j] != "" ==> Trimmed(parts)[j] in r
  {
    var ts := Trimmed(parts);
    var r := Keep(ts, NonBlank);
    assert forall i :: 0 <= i < |r| ==> r[i] != "" && !IsSpace(r[i][0]) && !IsSpace(r[i][|r[i]| - 1]) by {
      forall i | 0 <= i < |r|
        ensures r[i] != "" && !IsSpace(r[i][0]) && !IsSpace(r[i][|r[i]| - 1])
      {
        assert NonBlank(r[i]) && r[i] in ts;
      }
    }
    assert forall j :: 0 <= j < |ts| && ts[j] != "" ==> ts[j] in r by {
      forall j | 0 <= j < |ts| && ts[j] != ""
        ensures ts[j] in r
      {
        assert NonBlank(ts[j]);
      }
    }
    r
  }

  /** `rangeStr.split(",").map(trim).filter(p => p !== "")`: non-empty,
      trimmed pieces without a comma, each the trimmed text of one
      comma-separated field, and every field that is not blank kept. */
  function Pieces(text: string): (r: seq<string>)
    ensures forall i :: 0 <= i < |r| ==> r[i] != "" && !IsSpace(r[i][0]) && !IsSpace(r[i][|r[i]| - 1])
    ensures forall i :: 0 <= i < |r| ==> ',' !in r[i]
  {
    SplitPiecesFree(text, ',');
    CleanedKeepsAbsent(SplitOn(text, ','), ',');
    Cleaned(SplitOn(text, ','))
  }

  /** A character no field holds is in no cleaned piece. */
  lemma CleanedKeepsAbsent(parts: seq<string>, c: char)
    requires forall p :: p in parts ==> c !in p
    ensures forall i :: 0 <= i < |Cleaned(parts)| ==> c !in Cleaned(parts)[i]
  {
    var r := Cleaned(parts);
    forall i | 0 <= i < |r| ensures c !in r[i] {
      var j :| 0 <= j < |parts| && r[i] == Trimmed(parts)[j];
      assert parts[j] in parts;
      TrimKeepsAbsent(parts[j], c);
    }
  }

  /** Pieces are taken in order: the pieces of two texts joined by a comma
      are the pieces of the first followed by those of the second. */
  lemma PiecesAppend(a: string, b: string)
    ensures Pieces(a + [','] + b) == Pieces(a) + Pieces(b)
  {
    SplitAppend(a, b, ',');
    CleanedAppend(SplitOn(a, ','), SplitOn(b, ','));
  }

  lemma CleanedAppend(a: seq<string>, b: seq<string>)
    ensures Cleaned(a + b) == Cleaned(a) + Cleaned(b)
  {
    MapAppend(a, b, Trim);
    KeepAppend(Trimmed(a), Trimmed(b), NonBlank);
  }

  /** A single field gives its trimmed text, unless that is blank. */
  lemma CleanedSingle(x: string)
    ensures Cleaned([x]) == if Trim(x) == "" then [] else [Trim(x)]
  {
    assert Trimmed([x]) == [Trim(x)];
    KeepSingle(Trim(x), NonBlank);
  }

  // ---------------------------------------------------------------------
  // Ranges

  /** An inclusive range of 1-based page numbers. */
  datatype Range = Range(first: int, last: int)

  /** What the parser accepts: both ends inside the document, in order. */
  predicate ValidRange(r: Range, total: int) {
    1 <= r.first <= r.last <= total
  }

  /** The text of a piece before its first "-": `piece.split("-")[0]`. */
  function StartText(piece: string): string {
    SplitOn(piece, '-')[0]
  }

  /** The text of a piece between its first and a second "-", or "" when
      it holds no "-": `piece.split("-")[1]`, undefined counting as empty. */
  function EndText(piece: string): string {
    var halves := SplitOn(piece, '-');
    if |halves| > 1 then halves[1] else ""
  }

  /** One piece: the text before the first "-" is the start, the text
      between the first and a second "-" is the end (anything after a
      second "-" is ignored), and a missing or empty end means the range
      is the single start page. Both ends go through `parseInt`. The piece
      is rejected when either end is NaN, the start is below 1, the end is
      beyond the last page, or the start exceeds the end. */
  function ParsePiece(piece: string, total: int): (r: Option<Range>)
    ensures r.Some? ==> ValidRange(r.value, total)
    ensures ParseInt(StartText(piece)).None? ==> r.None?
    ensures EndText(piece) != "" && ParseInt(EndText(piece)).None? ==> r.None?
    ensures ParseInt(StartText(piece)).Some? && EndText(piece) == "" ==>
              var start := ParseInt(StartText(piece)).value;
              r == if 1 <= start <= total then Some(Range(start, start)) else None
    ensures ParseInt(StartText(piece)).Some? && EndText(piece) != "" && ParseInt(EndText(piece)).Some? ==>
              var start := ParseInt(StartText(piece)).value;
              var end := ParseInt(EndText(piece)).value;
              r == if 1 <= start <= end <= total then Some(Range(start, end)) else None
  {
    var endText := EndText(piece);
    match ParseInt(StartText(piece))
    case None => None
    case Some(start) =>
      var end := if endText != "" then ParseInt(endText) else Some(start);
      match end
      case None => None
      case Some(e) =>
        if start < 1 || e > total || start > e then None else Some(Range(start, e))
  }

  /** A piece without "-" is all start and no end. */
  lemma PieceWithoutDash(piece: string)
    requires '-' !in piece
    ensures StartText(piece) == piece && EndText(piece) == ""
  {
    SplitWithout(piece, '-');
  }

  /** The start is the text before the first "-", and the end is the start
      of what follows it. */
  lemma PieceAtDash(a: string, rest: string)
    requires '-' !in a
    ensures StartText(a + ['-'] + rest) == a
    ensures EndText(a + ['-'] + rest) == StartText(rest)
  {
    SplitAfterFree(a, rest, '-');
  }

  /** The pages of a range, ascending: exactly the numbers between its two
      ends. */
  function RangePages(r: Range): (ps: seq<int>)
    ensures r.first <= r.last ==> |ps| == r.last - r.first + 1
    ensures forall p :: p in ps <==> r.first <= p <= r.last
    ensures forall i, j :: 0 <= i < j < |ps| ==> ps[i] < ps[j]
  {
    var n := if r.first <= r.last then r.last - r.first + 1 else 0;
    var ps := seq(n, i requires 0 <= i => r.first + i);
    forall p | r.first <= p <= r.last
      ensures p in ps
    {
      assert ps[p - r.first] == p;
    }
    ps
  }

  /** The parse loop, accepted side: the ranges of the pieces that parse,
      in input order. Overlapping and repeated ranges are all accepted. */
  function Accepted(pieces: seq<string>, total: int): (r: seq<Range>)
    ensures forall i :: 0 <= i < |r| ==> ValidRange(r[i], total)
    ensures |r| <= |pieces|
    decreases |pieces|
  {
    if |pieces| == 0 then []
    else
      var rest := Accepted(pieces[1..], total);
      var head := ParsePiece(pieces[0], total);
      if head.Some? then [head.value] + rest else rest
  }

  /** The parse loop, rejected side: the pieces that do not parse, in input
      order; each raises an "Invalid range" alert and is then skipped. */
  function Rejected(pieces: seq<string>, total: int): (r: seq<string>)
    ensures forall i :: 0 <= i < |r| ==> r[i] in pieces && ParsePiece(r[i], total).None?
    decreases |pieces|
  {
    if |pieces| == 0 then []
    else
      var rest := Rejected(pieces[1..], total);
      assert forall i :: 0 <= i < |rest| ==> rest[i] in pieces by {
        forall i | 0 <= i < |rest| ensures rest[i] in pieces {
          var k :| 0 <= k < |pieces[1..]| && pieces[1..][k] == rest[i];
          assert pieces[k + 1] == rest[i];
        }
      }
      if ParsePiece(pieces[0], total).None? then [pieces[0]] + rest else rest
  }

  /** Every piece is either accepted or rejected. */
  lemma {:induction false} AcceptedOrRejected(pieces: seq<string>, total: int)
    ensures |Accepted(pieces, total)| + |Rejected(pieces, total)| == |pieces|
    decreases |pieces|
  {
    if |pieces| > 0 {
      AcceptedOrRejected(pieces[1..], total);
    }
  }

  /** `parseMultipleRanges(rangeStr, totalPages)`: the accepted ranges and
      the rejected pieces. */
  function ParseMultipleRanges(text: string, total: int): (seq<Range>, seq<string>) {
    (Accepted(Pieces(text), total), Rejected(Pieces(text), total))
  }

  /** The alert text for a rejected piece. */
  function InvalidRangeAlert(piece: string): string {
    "Invalid range: " + piece
  }

  /** Parsing is piecewise: the result for a list of pieces is the results
      for its two halves, in order. */
  lemma {:induction false} AcceptedAppend(a: seq<string>, b: seq<string>, total: int)
    ensures Accepted(a + b, total) == Accepted(a, total) + Accepted(b, total)
    decreases |a|
  {
    if |a| == 0 {
      assert a + b == b;
    } else {
      assert (a + b)[0] == a[0];
      assert (a + b)[1..] == a[1..] + b;
      AcceptedAppend(a[1..], b, total);
    }
  }

  lemma {:induction false} RejectedAppend(a: seq<string>, b: seq<string>, total: int)
    ensures Rejected(a + b, total) == Rejected(a, total) + Rejected(b, total)
    decreases |a|
  {
    if |a| == 0 {
      assert a + b == b;
    } else {
      assert (a + b)[0] == a[0];
      assert (a + b)[1..] == a[1..] + b;
      RejectedAppend(a[1..], b, total);
    }
  }

  /** A piece that parses is kept once for each time it is written: the
      parser does not reject repeated or overlapping ranges. */
  lemma RepeatedPieceKept(p: string, q: string, total: int)
    requires ParsePiece(p, total).Some? && ParsePiece(q, total).Some?
    ensures Accepted([p, q], total) == [ParsePiece(p, total).value, ParsePiece(q, total).value]
    ensures Rejected([p, q], total) == []
  {
    var a, b := ParsePiece(p, total).value, ParsePiece(q, total).value;
    OneGoodPiece(p, total, a);
    OneGoodPiece(q, total, b);
    AcceptedAppend([p], [q], total);
    RejectedAppend([p], [q], total);
    assert [p] + [q] == [p, q];
  }

  lemma OneGoodPiece(p: string, total: int, range: Range)
    requires ParsePiece(p, total) == Some(range)
    ensures Accepted([p], total) == [range] && Rejected([p], total) == []
  {
    OnePiece(p, total);
  }


  /** A single piece is accepted or rejected according to `ParsePiece`. */
  lemma OnePiece(p: string, total: int)
    ensures Accepted([p], total) == if ParsePiece(p, total).Some? then [ParsePiece(p, total).value] else []
    ensures Rejected([p], total) == if ParsePiece(p, total).Some? then [] else [p]
  {
    assert [p][1..] == [];
  }

  // ---------------------------------------------------------------------
  // Printing and reading back a range

  /** A range written as "<first>-<last>", the form the help text shows. */
  function RangeText(r: Range): string
    requires r.first >= 0 && r.last >= 0
  {
    NatToString(r.first) + "-" + NatToString(r.last)
  }

  lemma NoDash(n: nat)
    ensures '-' !in NatToString(n)
  {
    var d := NatToString(n);
    assert forall i :: 0 <= i < |d| ==> IsDigit(d[i]);
  }

  lemma ParseIntOfNat(n: nat)
    ensures ParseInt(NatToString(n)) == Some(n)
  {
    ParseIntOfString(n, "");
    assert IntToString(n) + "" == NatToString(n);
  }

  /** Reading back a written range gives the range, whenever it is valid. */
  lemma ParseRangeText(r: Range, total: int)
    requires ValidRange(r, total)
    ensures ParsePiece(RangeText(r), total) == Some(r)
  {
    var a := NatToString(r.first);
    var b := NatToString(r.last);
    NoDash(r.first);
    NoDash(r.last);
    SplitAppend(a, b, '-');
    SplitWithout(a, '-');
    SplitWithout(b, '-');
    assert a + "-" + b == a + ['-'] + b;
    assert SplitOn(RangeText(r), '-') == [a, b];
    ParseIntOfNat(r.first);
    ParseIntOfNat(r.last);
  }

  /** A single page number reads as the one-page range. */
  lemma ParsePageText(k: nat, total: int)
    requires 1 <= k <= total
    ensures ParsePiece(NatToString(k), total) == Some(Range(k, k))
  {
    NoDash(k);
    SplitWithout(NatToString(k), '-');
    ParseIntOfNat(k);
  }

  /** A trailing "-" with no end reads as the one-page range too. */
  lemma ParseOpenEnd(k: nat, total: int)
    requires 1 <= k <= total
    ensures ParsePiece(NatToString(k) + "-", total) == Some(Range(k, k))
  {
    var a := NatToString(k);
    NoDash(k);
    SplitAppend(a, "", '-');
    SplitWithout(a, '-');
    assert a + "-" == a + ['-'] + "";
    assert SplitOn(a + "-", '-') == [a, ""];
    ParseIntOfNat(k);
  }

  /** Text after a second "-" is ignored. */
  lemma ParseSecondDash(r: Range, tail: string, total: int)
    requires ValidRange(r, total)
    ensures ParsePiece(RangeText(r) + "-" + tail, total) == Some(r)
  {
    RangeTextDashes(r, tail);
    ParseIntOfNat(r.first);
    ParseIntOfNat(r.last);
    ParseBothEnds(RangeText(r) + "-" + tail, total, r);
  }

  /** Split on "-", a written range followed by "-" and more text gives the
      two ends first. */
  lemma RangeTextDashes(r: Range, tail: string)
    requires r.first >= 0 && r.last >= 0
    ensures var halves := SplitOn(RangeText(r) + "-" + tail, '-');
            |halves| > 1 && halves[0] == NatToString(r.first) && halves[1] == NatToString(r.last)
  {
    var a := NatToString(r.first);
    var b := NatToString(r.last);
    var x := b + "-" + tail;
    assert SplitOn(x, '-') == [b] + SplitOn(tail, '-') by {
      NoDash(r.last);
      SplitAfterFree(b, tail, '-');
    }
    assert RangeText(r) + "-" + tail == a + ['-'] + x;
    assert SplitOn(a + ['-'] + x, '-') == [a] + SplitOn(x, '-') by {
      NoDash(r.first);
      SplitAfterFree(a, x, '-');
    }
  }

  /** A piece whose first two "-"-separated parts are the written ends of a
      valid range parses to that range. */
  lemma ParseBothEnds(piece: string, total: int, r: Range)
    requires ValidRange(r, total)
    requires |SplitOn(piece, '-')| > 1
    requires ParseInt(SplitOn(piece, '-')[0]) == Some(r.first)
    requires ParseInt(SplitOn(piece, '-')[1]) == Some(r.last)
    ensures ParsePiece(piece, total) == Some(r)
  {
    assert ParseInt("") == None by {
      assert TrimStart("") == "";
    }
  }

  /** A piece starting with "-" has no start and is rejected. */
  lemma ParseNoStart(tail: string, total: int)
    ensures ParsePiece("-" + tail, total) == None
  {
    SplitAppend("", tail, '-');
    assert "-" + tail == "" + ['-'] + tail;
    assert SplitOn("-" + tail, '-')[0] == "";
    assert ParseInt("") == None by {
      assert TrimStart("") == "";
    }
  }

  /** A written range is one piece of the range text. */
  lemma PiecesOfRangeText(r: Range)
    requires r.first >= 0 && r.last >= 0
    ensures Pieces(RangeText(r)) == [RangeText(r)]
  {
    var t := RangeText(r);
    var a := NatToString(r.first);
    var b := NatToString(r.last);
    assert forall i :: 0 <= i < |a| ==> IsDigit(a[i]);
    assert forall i :: 0 <= i < |b| ==> IsDigit(b[i]);
    assert t[0] == a[0] && t[|t| - 1] == b[|b| - 1];
    assert forall i :: 0 <= i < |t| ==> t[i] != ',' by {
      forall i | 0 <= i < |t| ensures t[i] != ',' {
        if i < |a| { assert t[i] == a[i]; }
        else if i > |a| { assert t[i] == b[i - |a| - 1]; }
      }
    }
    SplitWithout(t, ',');
    TrimUnpadded(t);
    CleanedSingle(t);
  }

  /** Two written ranges separated by a comma are both accepted, in order,
      even when they are the same range or overlap. */
  lemma TwoRanges(a: Range, b: Range, total: int)
    requires ValidRange(a, total) && ValidRange(b, total)
    ensures ParseMultipleRanges(RangeText(a) + "," + RangeText(b), total) == ([a, b], [])
  {
    assert RangeText(a) + "," + RangeText(b) == RangeText(a) + [','] + RangeText(b);
    PiecesAppend(RangeText(a), RangeText(b));
    PiecesOfRangeText(a);
    PiecesOfRangeText(b);
    assert Pieces(RangeText(a) + "," + RangeText(b)) == [RangeText(a), RangeText(b)];
    ParseRangeText(a, total);
    ParseRangeText(b, total);
    RepeatedPieceKept(RangeText(a), RangeText(b), total);
  }

  // ---------------------------------------------------------------------
  // Used and remaining pages

  /** The pages a range covers. */
  function Span(r: Range): set<int> {
    set p | p in RangePages(r)
  }

  /** The `usedPages` set: every page of every accepted range. */
  function UsedPages(ranges: seq<Range>): (used: set<int>)
    ensures forall p :: p in used <==> exists i :: 0 <= i < |ranges| && ranges[i].first <= p <= ranges[i].last
    decreases |ranges|
  {
    if |ranges| == 0 then {}
    else
      var rest := UsedPages(ranges[1..]);
      assert forall p :: p in rest <==> exists i :: 1 <= i < |ranges| && ranges[i].first <= p <= ranges[i].last by {
        forall p ensures p in rest <==> exists i :: 1 <= i < |ranges| && ranges[i].first <= p <= ranges[i].last {
          if p in rest {
            var i :| 0 <= i < |ranges[1..]| && ranges[1..][i].first <= p <= ranges[1..][i].last;
            assert ranges[i + 1] == ranges[1..][i];
          }
          if exists i :: 1 <= i < |ranges| && ranges[i].first <= p <= ranges[i].last {
            var i :| 1 <= i < |ranges| && ranges[i].first <= p <= ranges[i].last;
            assert ranges[1..][i - 1] == ranges[i];
          }
        }
      }
      Span(ranges[0]) + rest
  }

  /** `getRemainingPages(usedPages, total)`: the pages from 1 to `total` that
      are not used, strictly ascending. */
  function Remaining(used: set<int>, total: int): (r: seq<int>)
    ensures forall p :: p in r <==> 1 <= p <= total && p !in used
    ensures forall i, j :: 0 <= i < j < |r| ==> r[i] < r[j]
    ensures forall i :: 0 <= i < |r| ==> 1 <= r[i] <= total
    decreases total
  {
    if total < 1 then []
    else
      var prefix := Remaining(used, total - 1);
      if total in used then prefix else prefix + [total]
  }

  /** The loop of `getRemainingPages`, which computes `Remaining`. */
  method GetRemainingPages(used: set<int>, total: int) returns (remaining: seq<int>)
    ensures remaining == Remaining(used, total)
  {
    remaining := [];
    var i := 1;
    while i <= total
      invariant 1 <= i <= if total >= 0 then total + 1 else 1
      invariant remaining == Remaining(used, i - 1)
    {
      if i !in used {
        remaining := remaining + [i];
      }
      i := i + 1;
    }
    assert total < 1 ==> Remaining(used, total) == Remaining(used, 0);
  }

  /** The used pages and the remainder share no page and together cover
      every page of a document whose ranges are all valid. */
  lemma UsedAndRemainingPartition(ranges: seq<Range>, total: int, p: int)
    requires 1 <= p <= total
    ensures (p in UsedPages(ranges)) != (p in Remaining(UsedPages(ranges), total))
  {
    var used := UsedPages(ranges);
    assert p in Remaining(used, total) <==> p !in used;
  }

  // ---------------------------------------------------------------------
  // The split plan

  /** A planned part: its 1-based number and its page numbers. */
  datatype Part = Part(number: nat, pages: seq<int>)

  /** The page lists in order: one per accepted range, then the remaining
      pages as one last list when there are any. Every listed page is a
      page of the document. */
  function PageLists(ranges: seq<Range>, total: int): (lists: seq<seq<int>>)
    requires forall i :: 0 <= i < |ranges| ==> ValidRange(ranges[i], total)
    ensures |lists| == |ranges| || |lists| == |ranges| + 1
    ensures forall i :: 0 <= i < |ranges| ==> lists[i] == RangePages(ranges[i])
    ensures |lists| == |ranges| + 1 <==> Remaining(UsedPages(ranges), total) != []
    ensures |lists| == |ranges| + 1 ==> lists[|ranges|] == Remaining(UsedPages(ranges), total)
    ensures forall i, k :: 0 <= i < |lists| && 0 <= k < |lists[i]| ==> 1 <= lists[i][k] <= total
  {
    var own := seq(|ranges|, i requires 0 <= i < |ranges| => RangePages(ranges[i]));
    var rest := Remaining(UsedPages(ranges), total);
    var lists := if |rest| > 0 then own + [rest] else own;
    forall i, k | 0 <= i < |lists| && 0 <= k < |lists[i]|
      ensures 1 <= lists[i][k] <= total
    {
      if i < |ranges| {
        assert ValidRange(ranges[i], total);
        assert lists[i][k] in RangePages(ranges[i]);
      }
    }
    lists
  }

  /** Part `i + 1` holds list `i`. */
  function Numbered(lists: seq<seq<int>>): (parts: seq<Part>)
    ensures |parts| == |lists|
    ensures forall i :: 0 <= i < |parts| ==> parts[i].number == i + 1 && parts[i].pages == lists[i]
  {
    seq(|lists|, i requires 0 <= i < |lists| => Part(i + 1, lists[i]))
  }

  /** The parts `handleSplit` plans for a range text and a page count. */
  function Plan(text: string, total: int): (parts: seq<Part>)
    ensures forall i :: 0 <= i < |parts| ==> parts[i].number == i + 1
    ensures forall i, k :: 0 <= i < |parts| && 0 <= k < |parts[i].pages| ==> 1 <= parts[i].pages[k] <= total
  {
    Numbered(PageLists(Accepted(Pieces(text), total), total))
  }

  /** The alerts raised while planning, one per rejected piece, in order. */
  function PlanAlerts(text: string, total: int): (alerts: seq<string>)
    ensures |alerts| == |Rejected(Pieces(text), total)|
    ensures forall i :: 0 <= i < |alerts| ==> alerts[i] == InvalidRangeAlert(Rejected(Pieces(text), total)[i])
  {
    var rejected := Rejected(Pieces(text), total);
    seq(|rejected|, i requires 0 <= i < |rejected| => InvalidRangeAlert(rejected[i]))
  }

  /** Every page of the document lands in at least one part. */
  lemma PlanCovers(text: string, total: int, p: int)
    requires 1 <= p <= total
    ensures exists i, k :: 0 <= i < |Plan(text, total)| && 0 <= k < |Plan(text, total)[i].pages|
                           && Plan(text, total)[i].pages[k] == p
  {
    var ranges := Accepted(Pieces(text), total);
    var i, k := ListsCover(ranges, total, p);
    assert Plan(text, total) == Numbered(PageLists(ranges, total));
  }

  /** Every page of the document is in one of the page lists: list `i`
      holds it at position `k`. */
  lemma ListsCover(ranges: seq<Range>, total: int, p: int) returns (i: nat, k: nat)
    requires forall i :: 0 <= i < |ranges| ==> ValidRange(ranges[i], total)
    requires 1 <= p <= total
    ensures i < |Numbered(PageLists(ranges, total))|
    ensures k < |Numbered(PageLists(ranges, total))[i].pages|
    ensures Numbered(PageLists(ranges, total))[i].pages[k] == p
  {
    var lists := PageLists(ranges, total);
    var parts := Numbered(lists);
    var used := UsedPages(ranges);
    if p in used {
      i :| 0 <= i < |ranges| && ranges[i].first <= p <= ranges[i].last;
      assert p in parts[i].pages;
      k :| 0 <= k < |parts[i].pages| && parts[i].pages[k] == p;
    } else {
      var rest := Remaining(used, total);
      assert p in rest;
      i := |ranges|;
      assert parts[i].pages == rest;
      k :| 0 <= k < |rest| && rest[k] == p;
    }
  }

  /** A page in the remainder part appears in no range part. */
  lemma RemainderDisjoint(text: string, total: int, p: int)
    requires p in Remaining(UsedPages(ParseMultipleRanges(text, total).0), total)
    ensures forall i :: 0 <= i < |ParseMultipleRanges(text, total).0| ==> p !in Plan(text, total)[i].pages
  {
  }

  // ---------------------------------------------------------------------
  // File names

  /** The name kept at upload: `name.replace(/\.pdf$/, "") + ".pdf"`, which
      ends in ".pdf" whatever the uploaded name was. */
  function UploadName(name: string): (r: string)
    ensures EndsWith(r, PdfExtension)
    ensures StripPdf(r) == StripPdf(name)
  {
    var r := StripPdf(name) + PdfExtension;
    StripAppended(StripPdf(name));
    assert r[|r| - 4..] == PdfExtension;
    r
  }

  /** The download name of part `k`. */
  function PartFileName(pdfName: string, k: nat): string {
    OutputName(pdfName, "-part" + NatToString(k) + PdfExtension)
  }

  /** The upload name is stable, and part `k` of an upload named `x.pdf`
      (or `x`) downloads as `x-part<k>.pdf`. */
  lemma PartNameOfUpload(x: string, k: nat)
    ensures UploadName(UploadName(x)) == UploadName(x)
    ensures PartFileName(UploadName(x + PdfExtension), k) == x + "-part" + NatToString(k) + PdfExtension
  {
    StripAppended(x);
  }

  // ---------------------------------------------------------------------
  // The page

  /** A part as the page keeps it: number, page numbers and the new
      document. */
  datatype SplitPart = SplitPart(number: nat, pages: seq<int>, document: Document)

  /** The state `handleSplit` reads and writes. `file` is whether a file is
      chosen; `totalPages` is None until one is loaded. */
  datatype SplitState = SplitState(
    file: bool,
    rangeText: string,
    totalPages: Option<nat>,
    pdfName: string,
    parts: seq<SplitPart>)

  const Initial := SplitState(false, "1-3,4-6", None, "split.pdf", [])

  /** The pages of `doc` at the given 1-based numbers, in the given order. */
  function CopyPages(doc: Document, numbers: seq<int>): (r: Document)
    requires PagesIn(numbers, |doc|)
    ensures |r| == |numbers|
    ensures forall k :: 0 <= k < |r| ==> r[k] == doc[numbers[k] - 1]
  {
    seq(|numbers|, k requires 0 <= k < |numbers| => doc[numbers[k] - 1])
  }

  predicate PagesIn(numbers: seq<int>, count: nat) {
    forall k :: 0 <= k < |numbers| ==> 1 <= numbers[k] <= count
  }

  /** Every planned part names only pages of a `count`-page document. */
  predicate Fits(plan: seq<Part>, count: nat) {
    forall i :: 0 <= i < |plan| ==> PagesIn(plan[i].pages, count)
  }

  /** The parts copied out of `doc`, one per planned part. */
  function CopyParts(doc: Document, plan: seq<Part>): (parts: seq<SplitPart>)
    requires forall i :: 0 <= i < |plan| ==> PagesIn(plan[i].pages, |doc|)
    ensures |parts| == |plan|
    ensures forall i :: 0 <= i < |parts| ==>
              parts[i].number == plan[i].number && parts[i].pages == plan[i].pages &&
              parts[i].document == CopyPages(doc, plan[i].pages)
  {
    seq(|plan|, i requires 0 <= i < |plan| => SplitPart(plan[i].number, plan[i].pages, CopyPages(doc, plan[i].pages)))
  }

  /** `handleSplit`: nothing happens without a file, with blank range text
      or with an unknown page count. Otherwise the document is loaded again
      (`loaded`, None when that fails), the ranges are parsed (alerting for
      each rejected piece) and every planned part is copied out of the
      document; a failure in loading or copying raises "Failed to split
      PDF." and keeps the previous parts. Returns the new state and the
      alerts raised. */
  function HandleSplit(s: SplitState, loaded: Option<Document>): (r: (SplitState, seq<string>))
    ensures !s.file || Trim(s.rangeText) == "" || s.totalPages.None? ==> r == (s, [])
    ensures r.0.(parts := s.parts) == s
    ensures s.file && Trim(s.rangeText) != "" && s.totalPages.Some? && loaded.None? ==>
              r == (s, ["Failed to split PDF."])
    ensures s.file && Trim(s.rangeText) != "" && s.totalPages.Some? && loaded.Some? ==>
              var plan := Plan(s.rangeText, s.totalPages.value);
              var alerts := PlanAlerts(s.rangeText, s.totalPages.value);
              if Fits(plan, |loaded.value|) then r == (s.(parts := CopyParts(loaded.value, plan)), alerts)
              else r == (s, alerts + ["Failed to split PDF."])
  {
    if !s.file || Trim(s.rangeText) == "" || s.totalPages.None? then (s, [])
    else if loaded.None? then (s, ["Failed to split PDF."])
    else
      var doc := loaded.value;
      var plan := Plan(s.rangeText, s.totalPages.value);
      var alerts := PlanAlerts(s.rangeText, s.totalPages.value);
      if Fits(plan, |doc|) then
        (s.(parts := CopyParts(doc, plan)), alerts)
      else (s, alerts + ["Failed to split PDF."])
  }

  /** The plan for a document's own page count only names its pages. */
  lemma PlanFits(text: string, doc: Document)
    ensures forall i :: 0 <= i < |Plan(text, |doc|)| ==> PagesIn(Plan(text, |doc|)[i].pages, |doc|)
  {
    var plan := Plan(text, |doc|);
    forall i | 0 <= i < |plan| ensures PagesIn(plan[i].pages, |doc|) {
      assert forall k :: 0 <= k < |plan[i].pages| ==> 1 <= plan[i].pages[k] <= |doc|;
    }
  }

  /** With the document loaded as uploaded, every planned part is produced
      (part `i` is numbered `i + 1` and holds exactly the document's pages
      its plan names), and only the rejected pieces raise alerts. */
  lemma SplitProducesPlan(s: SplitState, doc: Document)
    requires s.file && Trim(s.rangeText) != "" && s.totalPages == Some(|doc|)
    ensures forall i :: 0 <= i < |Plan(s.rangeText, |doc|)| ==> PagesIn(Plan(s.rangeText, |doc|)[i].pages, |doc|)
    ensures HandleSplit(s, Some(doc)) == (s.(parts := CopyParts(doc, Plan(s.rangeText, |doc|))), PlanAlerts(s.rangeText, |doc|))
  {
    PlanFits(s.rangeText, doc);
  }

  /** `handleFileChange`: a file whose type is not "application/pdf" is
      refused with an alert; a file that fails to load changes nothing;
      otherwise its page count and name are taken and old parts cleared. */
  function HandleFileChange(s: SplitState, name: string, mimeType: string, loaded: Option<Document>)
    : (r: (SplitState, seq<string>))
    ensures mimeType != "application/pdf" ==> r == (s, ["Please upload a valid PDF file."])
    ensures mimeType == "application/pdf" && loaded.Some? ==>
              r.0.totalPages == Some(|loaded.value|) && r.0.parts == [] && EndsWith(r.0.pdfName, PdfExtension)
    ensures mimeType == "application/pdf" && loaded.Some? ==>
              r == (s.(file := true, totalPages := Some(|loaded.value|), parts := [], pdfName := UploadName(name)), [])
    ensures mimeType == "application/pdf" && loaded.None? ==> r == (s, [])
  {
    if mimeType != "application/pdf" then (s, ["Please upload a valid PDF file."])
    else if loaded.None? then (s, [])
    else (s.(file := true, totalPages := Some(|loaded.value|), parts := [], pdfName := UploadName(name)), [])
  }

  /** `handleReset`: no file, the default range text, no parts, no page
      count; the kept name is left as it was. */
  function Reset(s: SplitState): (r: SplitState)
    ensures r == Initial.(pdfName := s.pdfName)
  {
    s.(file := false, rangeText := "1-3,4-6", parts := [], totalPages := None)
  }
}
