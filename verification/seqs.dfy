/**
 * The JavaScript array operations the pages lean on, stated once over
 * sequences: `filter`, `splice(i, 1)` and the flattening that `forEach` over
 * nested lists (or `flatMap`) performs.
 */
module Seqs {

  /** `s.filter(p)`: the elements satisfying `p`, in their original order. */
  function Keep<T>(s: seq<T>, p: T -> bool): (r: seq<T>)
    ensures |r| <= |s|
    ensures forall i :: 0 <= i < |r| ==> p(r[i]) && r[i] in s
    ensures forall i :: 0 <= i < |s| && p(s[i]) ==> s[i] in r
    decreases |s|
  {
    if |s| == 0 then []
    else (if p(s[0]) then [s[0]] else []) + Keep(s[1..], p)
  }

  /** Filtering commutes with concatenation, so the kept elements of a
      list keep their relative order. */
  lemma {:induction false} KeepAppend<T>(a: seq<T>, b: seq<T>, p: T -> bool)
    ensures Keep(a + b, p) == Keep(a, p) + Keep(b, p)
    decreases |a|
  {
    if |a| == 0 {
      assert a + b == b;
    } else {
      assert (a + b)[0] == a[0];
      assert (a + b)[1..] == a[1..] + b;
      KeepAppend(a[1..], b, p);
    }
  }

  /** A one-element list is kept or dropped as a whole. */
  lemma KeepSingle<T>(x: T, p: T -> bool)
    ensures Keep([x], p) == if p(x) then [x] else []
  {
    assert [x][1..] == [];
  }

  /** A filter every element passes changes nothing. */
  lemma {:induction false} KeepAll<T>(s: seq<T>, p: T -> bool)
    requires forall i :: 0 <= i < |s| ==> p(s[i])
    ensures Keep(s, p) == s
    decreases |s|
  {
    if |s| > 0 {
      KeepAll(s[1..], p);
    }
  }

  /** Filtering by a stronger predicate after a weaker one is filtering by
      the stronger one alone: what a stricter filter keeps is an in-order
      sub-list of what a looser one keeps. */
  lemma {:induction false} KeepKeep<T>(s: seq<T>, p: T -> bool, q: T -> bool)
    requires forall i :: 0 <= i < |s| && p(s[i]) ==> q(s[i])
    ensures Keep(Keep(s, q), p) == Keep(s, p)
    decreases |s|
  {
    if |s| > 0 {
      KeepKeep(s[1..], p, q);
      var head := if q(s[0]) then [s[0]] else [];
      KeepAppend(head, Keep(s[1..], q), p);
      KeepSingle(s[0], p);
      if q(s[0]) {
        assert Keep(head, p) == if p(s[0]) then [s[0]] else [];
      } else {
        assert head == [];
        assert !p(s[0]);
      }
    }
  }

  /** Filtering twice by the same predicate is filtering once. */
  lemma KeepIdempotent<T>(s: seq<T>, p: T -> bool)
    ensures Keep(Keep(s, p), p) == Keep(s, p)
  {
    KeepKeep(s, p, p);
  }

  /** Where `splice(index, 1)` starts deleting in an array of length `len`:
      a negative index counts back from the end, and both ends clamp. */
  function SpliceStart(index: int, len: nat): (r: nat)
    ensures r <= len
    ensures 0 <= index <= len ==> r == index
    ensures index < 0 && len + index >= 0 ==> r == len + index
    ensures index > len ==> r == len
    ensures len + index < 0 ==> r == 0
  {
    if index < 0 then (if len + index < 0 then 0 else len + index)
    else if index > len then len
    else index
  }

  /** `copy.splice(index, 1)` on a copy of `s`: the one element at the
      start position is removed, if there is one. */
  function RemoveAt<T>(s: seq<T>, index: int): (r: seq<T>)
    ensures SpliceStart(index, |s|) < |s| ==> |r| == |s| - 1
    ensures SpliceStart(index, |s|) == |s| ==> r == s
  {
    var start := SpliceStart(index, |s|);
    if start < |s| then s[..start] + s[start + 1..] else s
  }

  /** Removing entry `i` of the list deletes exactly that entry: the entries
      before it stay where they were, the ones after it move up by one, and
      nothing else is lost or gained. */
  lemma RemoveEntry<T>(s: seq<T>, i: nat)
    requires i < |s|
    ensures |RemoveAt(s, i)| == |s| - 1
    ensures forall j :: 0 <= j < i ==> RemoveAt(s, i)[j] == s[j]
    ensures forall j :: i <= j < |s| - 1 ==> RemoveAt(s, i)[j] == s[j + 1]
    ensures multiset(RemoveAt(s, i)) + multiset{s[i]} == multiset(s)
  {
    var r := RemoveAt(s, i);
    assert r == s[..i] + s[i + 1..];
    assert s == s[..i] + [s[i]] + s[i + 1..];
  }

  /** Index -1 removes the last entry, and an index past the end removes
      nothing. */
  lemma RemoveOutside<T>(s: seq<T>, index: int)
    ensures |s| > 0 && index == -1 ==> RemoveAt(s, index) == s[..|s| - 1]
    ensures index >= |s| ==> RemoveAt(s, index) == s
  {
  }

  /** Removing an entry of the first list of a concatenation leaves the
      second list untouched. */
  lemma RemoveBeforeAppend<T>(a: seq<T>, b: seq<T>, i: nat)
    requires i < |a|
    ensures RemoveAt(a + b, i) == RemoveAt(a, i) + b
  {
    assert (a + b)[..i] == a[..i];
    assert (a + b)[i + 1..] == a[i + 1..] + b;
  }

  /** The lists of `ss` one after the other. */
  function Flatten<T>(ss: seq<seq<T>>): seq<T>
    decreases |ss|
  {
    if |ss| == 0 then [] else ss[0] + Flatten(ss[1..])
  }

  /** The total length of the lists of `ss`. */
  function TotalLength<T>(ss: seq<seq<T>>): nat
    decreases |ss|
  {
    if |ss| == 0 then 0 else |ss[0]| + TotalLength(ss[1..])
  }

  /** Flattening commutes with concatenation. */
  lemma {:induction false} FlattenAppend<T>(a: seq<seq<T>>, b: seq<seq<T>>)
    ensures Flatten(a + b) == Flatten(a) + Flatten(b)
    ensures TotalLength(a + b) == TotalLength(a) + TotalLength(b)
    decreases |a|
  {
    if |a| == 0 {
      assert a + b == b;
    } else {
      assert (a + b)[0] == a[0];
      assert (a + b)[1..] == a[1..] + b;
      FlattenAppend(a[1..], b);
    }
  }

  /** The flattened list is as long as its parts together, and each part
      sits at the offset of the parts before it. */
  lemma {:induction false} FlattenLayout<T>(ss: seq<seq<T>>, k: nat, j: nat)
    requires k < |ss| && j < |ss[k]|
    ensures |Flatten(ss)| == TotalLength(ss)
    ensures TotalLength(ss[..k]) + j < |Flatten(ss)|
    ensures Flatten(ss)[TotalLength(ss[..k]) + j] == ss[k][j]
  {
    assert ss == ss[..k] + ss[k..];
    FlattenAppend(ss[..k], ss[k..]);
    FlattenLength(ss[..k]);
    FlattenLength(ss[k..]);
    assert Flatten(ss[k..]) == ss[k] + Flatten(ss[k + 1..]) by {
      assert ss[k..][0] == ss[k];
      assert ss[k..][1..] == ss[k + 1..];
    }
  }

  lemma {:induction false} FlattenLength<T>(ss: seq<seq<T>>)
    ensures |Flatten(ss)| == TotalLength(ss)
    decreases |ss|
  {
    if |ss| > 0 {
      FlattenLength(ss[1..]);
    }
  }

  /** Concatenation regroups freely; stated once so that proofs can name
      the step instead of rediscovering it. */
  lemma AppendAssoc<T>(a: seq<T>, b: seq<T>, c: seq<T>)
    ensures (a + b) + c == a + (b + c)
  {
  }

  /** `s.map(f)`. */
  function MapSeq<T, U>(s: seq<T>, f: T -> U): (r: seq<U>)
    ensures |r| == |s| && forall i :: 0 <= i < |s| ==> r[i] == f(s[i])
  {
    seq(|s|, i requires 0 <= i < |s| => f(s[i]))
  }

  /** Mapping commutes with concatenation. */
  lemma MapAppend<T, U>(a: seq<T>, b: seq<T>, f: T -> U)
    ensures MapSeq(a + b, f) == MapSeq(a, f) + MapSeq(b, f)
  {
  }

  /** The middle of a three-part concatenation, and what follows it. */
  lemma MiddleSlice<T>(x: seq<T>, m: seq<T>, y: seq<T>)
    ensures (x + m + y)[|x|..|x| + |m|] == m
    ensures (x + m + y)[|x| + |m|..] == y
  {
  }
}
