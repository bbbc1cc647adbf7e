/**
 * String operations with the semantics JavaScript's String methods (and, for
 * the chat script, Python's str methods) give them, restricted to ASCII where
 * letters and white space are concerned.
 */
module Text {
  import opened Wrappers

  /** White space as `trim`, the regex class `\s` and `parseInt` see it,
      restricted to ASCII: tab, line feed, vertical tab, form feed, carriage
      return (9..13) and space. */
  predicate IsSpace(c: char) {
    c == ' ' || 9 <= c as int <= 13
  }

  predicate IsDigit(c: char) {
    '0' <= c <= '9'
  }

  predicate IsAsciiUpper(c: char) {
    'A' <= c <= 'Z'
  }

  predicate IsAsciiLower(c: char) {
    'a' <= c <= 'z'
  }

  /** `toUpperCase` of one character; only ASCII letters change. */
  function UpperChar(c: char): char {
    if IsAsciiLower(c) then (c as int - 32) as char else c
  }

  /** `toLowerCase` of one character; only ASCII letters change. */
  function LowerChar(c: char): char {
    if IsAsciiUpper(c) then (c as int + 32) as char else c
  }

  function Upper(s: string): string {
    seq(|s|, i requires 0 <= i < |s| => UpperChar(s[i]))
  }

  function Lower(s: string): string {
    seq(|s|, i requires 0 <= i < |s| => LowerChar(s[i]))
  }

  lemma UpperLowerChar(c: char)
    ensures UpperChar(UpperChar(c)) == UpperChar(c)
    ensures LowerChar(LowerChar(c)) == LowerChar(c)
    ensures UpperChar(LowerChar(c)) == UpperChar(c)
    ensures LowerChar(UpperChar(c)) == LowerChar(c)
    ensures (UpperChar(c) == ' ') == (c == ' ') && (LowerChar(c) == ' ') == (c == ' ')
    ensures IsSpace(UpperChar(c)) == IsSpace(c) && IsSpace(LowerChar(c)) == IsSpace(c)
  {
  }

  /** Both case conversions are idempotent and forget the other's work. */
  lemma CaseIdempotent(s: string)
    ensures Upper(Upper(s)) == Upper(s)
    ensures Lower(Lower(s)) == Lower(s)
    ensures Lower(Upper(s)) == Lower(s)
    ensures Upper(Lower(s)) == Upper(s)
  {
    forall i | 0 <= i < |s| {
      UpperLowerChar(s[i]);
    }
  }

  lemma LowerSlice(s: string, i: int, j: int)
    requires 0 <= i <= j <= |s|
    ensures Lower(s)[i..j] == Lower(s[i..j])
  {
  }

  lemma LowerAppend(a: string, b: string)
    ensures Lower(a + b) == Lower(a) + Lower(b)
  {
  }

  // ---------------------------------------------------------------------
  // Prefixes, suffixes and occurrences

  predicate StartsWith(s: string, prefix: string) {
    |prefix| <= |s| && s[..|prefix|] == prefix
  }

  predicate EndsWith(s: string, suffix: string) {
    |suffix| <= |s| && s[|s| - |suffix|..] == suffix
  }

  /** The text between a leading `open` and a trailing `close`, when `s`
      has both and they do not overlap. */
  function Between(s: string, open: string, close: string): (r: Option<string>)
    ensures r.Some? ==> s == open + r.value + close
  {
    if |s| >= |open| + |close| && StartsWith(s, open) && EndsWith(s, close) then
      var m := s[|open|..|s| - |close|];
      assert s == s[..|open|] + m + s[|s| - |close|..];
      Some(m)
    else None
  }

  /** Wrapping a text and taking out what is between gives it back. */
  lemma BetweenWrapped(open: string, m: string, close: string)
    ensures Between(open + m + close, open, close) == Some(m)
  {
    var s := open + m + close;
    assert s[..|open|] == open;
    assert s[|s| - |close|..] == close;
    assert s[|open|..|s| - |close|] == m;
  }

  /** `p` occurs in `s` starting at index `i`. */
  predicate OccursAt(s: string, p: string, i: int) {
    0 <= i && i + |p| <= |s| && s[i..i + |p|] == p
  }

  /** `p` is a substring of `s`. */
  ghost predicate Contains(s: string, p: string) {
    exists i :: OccursAt(s, p, i)
  }

  /** Leftmost occurrence of `p` in `s` at or after index `k`. */
  function IndexOfFrom(s: string, p: string, k: nat): (r: Option<nat>)
    ensures r.Some? ==> k <= r.value && OccursAt(s, p, r.value)
    ensures r.Some? ==> forall j :: k <= j < r.value ==> !OccursAt(s, p, j)
    ensures r.None? ==> forall j :: k <= j ==> !OccursAt(s, p, j)
    decreases |s| - k
  {
    if k + |p| > |s| then None
    else if s[k..k + |p|] == p then Some(k)
    else IndexOfFrom(s, p, k + 1)
  }

  /** `String.prototype.indexOf`, with None for -1. */
  function IndexOf(s: string, p: string): Option<nat> {
    IndexOfFrom(s, p, 0)
  }

  /** `String.prototype.includes`. */
  function Includes(s: string, p: string): (r: bool)
    ensures r <==> Contains(s, p)
  {
    var i := IndexOf(s, p);
    if i.Some? then
      assert OccursAt(s, p, i.value);
      true
    else
      false
  }

  /** `s.replace(p, rep)` with a plain string pattern: only the leftmost
      occurrence of `p` is replaced (`rep` is taken literally). */
  function ReplaceFirst(s: string, p: string, rep: string): (r: string)
    ensures !Contains(s, p) ==> r == s
    ensures Contains(s, p) ==>
              exists i :: OccursAt(s, p, i) && (forall j :: 0 <= j < i ==> !OccursAt(s, p, j))
                          && r == s[..i] + rep + s[i + |p|..]
  {
    match IndexOf(s, p)
    case None => s
    case Some(i) => s[..i] + rep + s[i + |p|..]
  }

  /** Substrings of substrings are substrings. */
  lemma ContainsTransitive(a: string, b: string, c: string)
    requires Contains(a, b) && Contains(b, c)
    ensures Contains(a, c)
  {
    var i :| OccursAt(a, b, i);
    var j :| OccursAt(b, c, j);
    forall k | 0 <= k < |c|
      ensures a[i + j..i + j + |c|][k] == c[k]
    {
      assert c[k] == b[j + k] == a[i + j + k];
    }
    assert OccursAt(a, c, i + j);
  }

  /** Lower-casing both sides keeps a substring a substring. */
  lemma LowerKeepsContains(a: string, b: string)
    requires Contains(a, b)
    ensures Contains(Lower(a), Lower(b))
  {
    var i :| OccursAt(a, b, i);
    LowerSlice(a, i, i + |b|);
    assert OccursAt(Lower(a), Lower(b), i);
  }

  lemma ContainsEmpty(s: string)
    ensures Contains(s, "")
  {
    assert OccursAt(s, "", 0);
  }

  lemma ContainsSelf(s: string)
    ensures Contains(s, s)
  {
    assert OccursAt(s, s, 0);
  }

  // ---------------------------------------------------------------------
  // Trimming

  /** The first index at or after `k` that does not hold white space
      (`|s|` if there is none). */
  function SkipSpaces(s: string, k: nat): (n: nat)
    requires k <= |s|
    ensures k <= n <= |s|
    ensures forall i :: k <= i < n ==> IsSpace(s[i])
    ensures n < |s| ==> !IsSpace(s[n])
    decreases |s| - k
  {
    if k < |s| && IsSpace(s[k]) then SkipSpaces(s, k + 1) else k
  }

  /** Walking back from `k` but not below `lo`: the first index `n` such
      that `s[n..k]` is all white space and `s[n - 1]` is not (or `n == lo`). */
  function BackSpaces(s: string, k: nat, lo: nat): (n: nat)
    requires lo <= k <= |s|
    ensures lo <= n <= k
    ensures forall i :: n <= i < k ==> IsSpace(s[i])
    ensures n > lo ==> !IsSpace(s[n - 1])
    decreases k
  {
    if k > lo && IsSpace(s[k - 1]) then BackSpaces(s, k - 1, lo) else k
  }

  /** `String.prototype.trimStart`. */
  function TrimStart(s: string): string {
    s[SkipSpaces(s, 0)..]
  }

  /** Where `trim` starts and stops keeping characters. */
  function TrimStartIndex(s: string): nat {
    SkipSpaces(s, 0)
  }

  function TrimEndIndex(s: string): (e: nat)
    ensures TrimStartIndex(s) <= e <= |s|
  {
    BackSpaces(s, |s|, TrimStartIndex(s))
  }

  /** `String.prototype.trim`: the characters before `TrimStartIndex` and
      from `TrimEndIndex` on are all white space, the kept slice starts and
      ends with a character that is not, and it is empty exactly when `s`
      is all white space. */
  function Trim(s: string): (r: string)
    ensures r == s[TrimStartIndex(s)..TrimEndIndex(s)]
    ensures forall i :: 0 <= i < TrimStartIndex(s) ==> IsSpace(s[i])
    ensures forall i :: TrimEndIndex(s) <= i < |s| ==> IsSpace(s[i])
    ensures r == "" <==> forall i :: 0 <= i < |s| ==> IsSpace(s[i])
    ensures r != "" ==> !IsSpace(r[0]) && !IsSpace(r[|r| - 1])
  {
    var a := TrimStartIndex(s);
    var e := TrimEndIndex(s);
    assert a < |s| ==> a < e;
    s[a..e]
  }

  /** A text is its trimmed part between two runs of white space. */
  lemma TrimParts(s: string) returns (lead: string, trail: string)
    ensures s == lead + (Trim(s) + trail)
    ensures forall i :: 0 <= i < |lead| ==> IsSpace(lead[i])
    ensures forall i :: 0 <= i < |trail| ==> IsSpace(trail[i])
  {
    var t := Trim(s);
    var a := TrimStartIndex(s);
    var e := TrimEndIndex(s);
    assert t == s[a..e];
    lead, trail := s[..a], s[e..];
    SliceParts(s, a, e);
    LeadSpaces(s, a);
    TrailSpaces(s, e);
  }

  lemma LeadSpaces(s: string, a: nat)
    requires a <= |s| && forall i :: 0 <= i < a ==> IsSpace(s[i])
    ensures forall i :: 0 <= i < |s[..a]| ==> IsSpace(s[..a][i])
  {
  }

  lemma TrailSpaces(s: string, e: nat)
    requires e <= |s| && forall i :: e <= i < |s| ==> IsSpace(s[i])
    ensures forall i :: 0 <= i < |s[e..]| ==> IsSpace(s[e..][i])
  {
    forall i | 0 <= i < |s[e..]|
      ensures IsSpace(s[e..][i])
    {
      assert s[e..][i] == s[e + i];
    }
  }

  lemma SliceParts<T>(s: seq<T>, a: nat, e: nat)
    requires a <= e <= |s|
    ensures s == s[..a] + (s[a..e] + s[e..])
  {
  }

  /** Trimming only removes characters. */
  lemma TrimKeepsAbsent(s: string, c: char)
    requires c !in s
    ensures c !in Trim(s)
  {
    var t := Trim(s);
    forall i | 0 <= i < |t|
      ensures t[i] != c
    {
      assert t[i] == s[TrimStartIndex(s) + i];
    }
  }

  lemma TrimAllSpace(s: string)
    requires forall i :: 0 <= i < |s| ==> IsSpace(s[i])
    ensures Trim(s) == ""
  {
  }

  // ---------------------------------------------------------------------
  // Splitting on one character and joining

  /** `s.split(c)` for a one-character separator: the pieces between the
      occurrences of `c`; there is always at least one piece. */
  function SplitOn(s: string, c: char): (r: seq<string>)
    ensures |r| >= 1
    decreases |s|
  {
    if |s| == 0 then [""]
    else
      var t := SplitOn(s[1..], c);
      if s[0] == c then [""] + t else [[s[0]] + t[0]] + t[1..]
  }

  /** `parts.join(c)`. */
  function Join(parts: seq<string>, c: char): string
    decreases |parts|
  {
    if |parts| == 0 then ""
    else if |parts| == 1 then parts[0]
    else parts[0] + [c] + Join(parts[1..], c)
  }

  /** Joining the pieces with the separator gives the original string back. */
  lemma {:induction false} JoinSplit(s: string, c: char)
    ensures Join(SplitOn(s, c), c) == s
    decreases |s|
  {
    if |s| > 0 {
      var t := SplitOn(s[1..], c);
      JoinSplit(s[1..], c);
      if s[0] == c {
        assert SplitOn(s, c) == [""] + t;
        assert ([""] + t)[1..] == t;
      } else {
        var r := [[s[0]] + t[0]] + t[1..];
        assert SplitOn(s, c) == r;
        if |t| == 1 {
          assert Join(r, c) == [s[0]] + t[0];
        } else {
          assert r[1..] == t[1..];
          assert Join(r, c) == [s[0]] + t[0] + [c] + Join(t[1..], c);
          assert Join(t, c) == t[0] + [c] + Join(t[1..], c);
        }
        assert s == [s[0]] + s[1..];
      }
    }
  }

  /** No piece contains the separator. */
  lemma {:induction false} SplitPiecesFree(s: string, c: char)
    ensures forall p :: p in SplitOn(s, c) ==> c !in p
    decreases |s|
  {
    if |s| > 0 {
      SplitPiecesFree(s[1..], c);
      var t := SplitOn(s[1..], c);
      if s[0] != c {
        assert c !in t[0];
        assert c !in [s[0]] + t[0];
        forall p | p in SplitOn(s, c) ensures c !in p {
          if p != [s[0]] + t[0] {
            assert p in t[1..];
          }
        }
      }
    }
  }

  /** One step of splitting: the first character either ends the first
      piece or joins it. */
  lemma SplitCons(ch: char, rest: string, c: char)
    ensures SplitOn([ch] + rest, c) ==
            if ch == c then [""] + SplitOn(rest, c)
            else [[ch] + SplitOn(rest, c)[0]] + SplitOn(rest, c)[1..]
  {
    assert ([ch] + rest)[0] == ch;
    assert ([ch] + rest)[1..] == rest;
  }

  /** The inductive step of `SplitAppend` when the first character is
      the separator. */
  lemma SplitAppendAtSeparator(a: string, b: string, c: char)
    requires |a| > 0 && a[0] == c
    requires SplitOn(a[1..] + [c] + b, c) == SplitOn(a[1..], c) + SplitOn(b, c)
    ensures SplitOn(a + [c] + b, c) == SplitOn(a, c) + SplitOn(b, c)
  {
    var t := SplitOn(a[1..], c);
    var u := SplitOn(b, c);
    assert SplitOn(a + [c] + b, c) == [""] + (t + u) by {
      assert a + [c] + b == [a[0]] + (a[1..] + [c] + b);
      SplitCons(a[0], a[1..] + [c] + b, c);
    }
    assert SplitOn(a, c) == [""] + t by {
      assert a == [a[0]] + a[1..];
      SplitCons(a[0], a[1..], c);
    }
    ConsAppend("", t, u);
  }

  /** The inductive step of `SplitAppend` when the first character joins
      the first piece. */
  lemma SplitAppendInPiece(a: string, b: string, c: char)
    requires |a| > 0 && a[0] != c
    requires SplitOn(a[1..] + [c] + b, c) == SplitOn(a[1..], c) + SplitOn(b, c)
    ensures SplitOn(a + [c] + b, c) == SplitOn(a, c) + SplitOn(b, c)
  {
    var t := SplitOn(a[1..], c);
    var u := SplitOn(b, c);
    var head := [a[0]] + t[0];
    var v := t + u;
    assert SplitOn(a + [c] + b, c) == [[a[0]] + v[0]] + v[1..] by {
      assert a + [c] + b == [a[0]] + (a[1..] + [c] + b);
      SplitCons(a[0], a[1..] + [c] + b, c);
    }
    assert v[0] == t[0] && v[1..] == t[1..] + u by {
      ConsTail(t, u);
    }
    assert SplitOn(a, c) == [head] + t[1..] by {
      assert a == [a[0]] + a[1..];
      SplitCons(a[0], a[1..], c);
    }
    ConsAppend(head, t[1..], u);
  }

  lemma ConsTail<T>(t: seq<T>, u: seq<T>)
    requires |t| > 0
    ensures (t + u)[0] == t[0] && (t + u)[1..] == t[1..] + u
  {
  }

  lemma ConsAppend<T>(h: T, t: seq<T>, u: seq<T>)
    ensures [h] + (t + u) == ([h] + t) + u
  {
  }

  lemma {:induction false} SplitAppend(a: string, b: string, c: char)
    ensures SplitOn(a + [c] + b, c) == SplitOn(a, c) + SplitOn(b, c)
    decreases |a|
  {
    if |a| == 0 {
      assert a + [c] + b == [c] + b;
      SplitCons(c, b, c);
      assert SplitOn(a, c) == [""];
    } else {
      SplitAppend(a[1..], b, c);
      if a[0] == c {
        SplitAppendAtSeparator(a, b, c);
      } else {
        SplitAppendInPiece(a, b, c);
      }
    }
  }

  lemma {:induction false} SplitWithout(s: string, c: char)
    requires c !in s
    ensures SplitOn(s, c) == [s]
    decreases |s|
  {
    if |s| > 0 {
      SplitWithout(s[1..], c);
      assert s == [s[0]] + s[1..];
    }
  }

  /** A field free of the separator, then the separator: that field comes
      first, followed by the fields of the rest. */
  lemma SplitAfterFree(a: string, rest: string, c: char)
    requires c !in a
    ensures SplitOn(a + [c] + rest, c) == [a] + SplitOn(rest, c)
  {
    SplitAppend(a, rest, c);
    SplitWithout(a, c);
  }
}
