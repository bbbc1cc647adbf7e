/**
 * The text case converter: upper case, lower case, and a title case that
 * lower-cases the text, splits it on single spaces, upper-cases the first
 * character of every piece and joins the pieces back with spaces.
 */
module TextCase {
  import opened Text

  /** `word.charAt(0).toUpperCase() + word.slice(1)`. */
  function CapFirst(w: string): (r: string)
    ensures |r| == |w|
    ensures |w| > 0 ==> r[0] == UpperChar(w[0]) && r[1..] == w[1..]
  {
    if |w| == 0 then w else [UpperChar(w[0])] + w[1..]
  }

  /** `handleTitleCase`'s pipeline. */
  function TitleCase(text: string): string {
    var pieces := SplitOn(Lower(text), ' ');
    Join(seq(|pieces|, i requires 0 <= i < |pieces| => CapFirst(pieces[i])), ' ')
  }

  /** Title case described character by character: a character that starts
      the text or follows a space is upper-cased, every other one is
      lower-cased. */
  function TitleSpec(text: string): (r: string)
    ensures |r| == |text|
  {
    seq(|text|, i requires 0 <= i < |text| =>
      if i == 0 || text[i - 1] == ' ' then UpperChar(text[i]) else LowerChar(text[i]))
  }

  // ---------------------------------------------------------------------
  // The pipeline agrees with the description

  /** The title-cased form of already lower-cased text `s`; `start` says
      whether its first character starts a piece. */
  function TitleChars(s: string, start: bool): (r: string)
    ensures |r| == |s|
    ensures forall i :: 0 <= i < |s| ==>
              r[i] == if (i == 0 && start) || (i > 0 && s[i - 1] == ' ') then UpperChar(s[i]) else s[i]
    decreases |s|
  {
    if |s| == 0 then ""
    else [if start then UpperChar(s[0]) else s[0]] + TitleChars(s[1..], s[0] == ' ')
  }

  /** The pieces with every first character upper-cased, except the first
      piece's when `start` is false. */
  function CapsFrom(parts: seq<string>, start: bool): (r: seq<string>)
    ensures |r| == |parts|
  {
    seq(|parts|, i requires 0 <= i < |parts| => if i == 0 && !start then parts[0] else CapFirst(parts[i]))
  }

  /** A character put in front of the first piece comes out in front of
      the joined text. */
  lemma JoinCons(x: char, p: string, rest: seq<string>, c: char)
    ensures Join([[x] + p] + rest, c) == [x] + Join([p] + rest, c)
  {
    var a := [[x] + p] + rest;
    var b := [p] + rest;
    assert a[1..] == rest && b[1..] == rest;
    if |rest| > 0 {
      assert Join(a, c) == [x] + p + [c] + Join(rest, c);
      assert Join(b, c) == p + [c] + Join(rest, c);
    }
  }

  /** An empty first piece leaves only the separator in front. */
  lemma JoinEmptyHead(rest: seq<string>, c: char)
    requires |rest| >= 1
    ensures Join([""] + rest, c) == [c] + Join(rest, c)
  {
    var a := [""] + rest;
    assert a[1..] == rest;
    assert Join(a, c) == a[0] + [c] + Join(a[1..], c);
  }

  /** Behind an empty first piece, the next piece starts a word. */
  lemma CapsShift(t: seq<string>, start: bool)
    ensures CapsFrom([""] + t, start) == [""] + CapsFrom(t, true)
  {
    var caps := CapsFrom([""] + t, start);
    var want := [""] + CapsFrom(t, true);
    forall i | 0 <= i < |caps|
      ensures caps[i] == want[i]
    {
      if i > 0 {
        assert ([""] + t)[i] == t[i - 1];
      }
    }
  }

  /** A leading space makes an empty first piece, and the next piece
      starts a word. */
  lemma CapsAfterSpace(t: seq<string>, start: bool)
    requires |t| >= 1
    ensures Join(CapsFrom([""] + t, start), ' ') == " " + Join(CapsFrom(t, true), ' ')
  {
    CapsShift(t, start);
    JoinEmptyHead(CapsFrom(t, true), ' ');
  }

  /** A leading letter joins the first piece, and only that piece's first
      character may be upper-cased. */
  lemma CapsAfterLetter(x: char, t: seq<string>, start: bool)
    requires |t| >= 1 && x != ' '
    ensures Join(CapsFrom([[x] + t[0]] + t[1..], start), ' ')
            == [if start then UpperChar(x) else x] + Join(CapsFrom(t, false), ' ')
  {
    var head := if start then UpperChar(x) else x;
    var rest := CapsFrom(t, false)[1..];
    CapsLetterHead(x, t, start);
    CapsKeepFirst(t);
    JoinCons(head, t[0], rest, ' ');
  }

  /** The letter joins the first piece, which is capitalised when it
      starts a word; the other pieces are capitalised either way. */
  lemma CapsLetterHead(x: char, t: seq<string>, start: bool)
    requires |t| >= 1
    ensures CapsFrom([[x] + t[0]] + t[1..], start)
            == [[if start then UpperChar(x) else x] + t[0]] + CapsFrom(t, false)[1..]
  {
    var head := if start then UpperChar(x) else x;
    var p := [[x] + t[0]] + t[1..];
    var caps := CapsFrom(p, start);
    var tailCaps := CapsFrom(t, false);
    var want := [[head] + t[0]] + tailCaps[1..];
    assert ([x] + t[0])[1..] == t[0];
    forall i | 0 <= i < |caps|
      ensures caps[i] == want[i]
    {
      if i > 0 {
        assert p[i] == t[i];
      }
    }
  }

  /** Without a word start the first piece is left as it is. */
  lemma CapsKeepFirst(t: seq<string>)
    requires |t| >= 1
    ensures CapsFrom(t, false) == [t[0]] + CapsFrom(t, false)[1..]
  {
  }

  lemma {:induction false} SplitJoinTitle(s: string, start: bool)
    ensures Join(CapsFrom(SplitOn(s, ' '), start), ' ') == TitleChars(s, start)
    decreases |s|
  {
    if |s| == 0 {
      assert SplitOn(s, ' ') == [""];
      assert CapsFrom([""], start) == [""];
    } else {
      var t := SplitOn(s[1..], ' ');
      SplitJoinTitle(s[1..], s[0] == ' ');
      assert TitleChars(s, start) == [if start then UpperChar(s[0]) else s[0]] + TitleChars(s[1..], s[0] == ' ');
      if s[0] == ' ' {
        assert SplitOn(s, ' ') == [""] + t;
        CapsAfterSpace(t, start);
        assert UpperChar(' ') == ' ';
      } else {
        assert SplitOn(s, ' ') == [[s[0]] + t[0]] + t[1..];
        CapsAfterLetter(s[0], t, start);
      }
    }
  }

  /** The split-and-join pipeline is the character-wise description. */
  lemma TitleMeetsSpec(text: string)
    ensures TitleCase(text) == TitleSpec(text)
  {
    var l := Lower(text);
    var pieces := SplitOn(l, ' ');
    assert seq(|pieces|, i requires 0 <= i < |pieces| => CapFirst(pieces[i])) == CapsFrom(pieces, true);
    SplitJoinTitle(l, true);
    var r := TitleChars(l, true);
    forall i | 0 <= i < |text|
      ensures r[i] == TitleSpec(text)[i]
    {
      UpperLowerChar(text[i]);
      assert l[i] == LowerChar(text[i]);
      if i > 0 {
        UpperLowerChar(text[i - 1]);
        assert l[i - 1] == LowerChar(text[i - 1]);
      }
    }
    assert r == TitleSpec(text);
  }

  // ---------------------------------------------------------------------
  // Properties of the three conversions

  /** Title case keeps the length, forgets the text's own case, and is
      undone by lower-casing. */
  lemma TitleProperties(text: string)
    ensures |TitleCase(text)| == |text|
    ensures TitleCase(Upper(text)) == TitleCase(text)
    ensures Lower(TitleCase(text)) == Lower(text)
  {
    TitleMeetsSpec(text);
    TitleMeetsSpec(Upper(text));
    forall i | 0 <= i < |text|
      ensures TitleSpec(Upper(text))[i] == TitleSpec(text)[i]
      ensures Lower(TitleSpec(text))[i] == Lower(text)[i]
    {
      UpperLowerChar(text[i]);
      if i > 0 {
        UpperLowerChar(text[i - 1]);
      }
    }
  }

  /** Title-casing twice is title-casing once. */
  lemma TitleIdempotent(text: string)
    ensures TitleCase(TitleCase(text)) == TitleCase(text)
  {
    var t := TitleCase(text);
    TitleMeetsSpec(text);
    TitleMeetsSpec(t);
    forall i | 0 <= i < |text|
      ensures TitleSpec(t)[i] == t[i]
    {
      UpperLowerChar(text[i]);
      if i > 0 {
        UpperLowerChar(text[i - 1]);
      }
    }
  }

  /** Runs of spaces are kept, each space starting a new piece. */
  lemma SpaceRunExample()
    ensures TitleCase("ab  cD") == "Ab  Cd"
  {
    TitleMeetsSpec("ab  cD");
    var r := TitleSpec("ab  cD");
    assert r[0] == 'A' && r[1] == 'b' && r[2] == ' ';
    assert r[3] == ' ' && r[4] == 'C' && r[5] == 'd';
  }

  /** Only the space separates pieces: a letter after a newline or a tab
      stays lower-case. */
  lemma OtherSeparatorExample()
    ensures TitleCase("a\nb\tc") == "A\nb\tc"
  {
    TitleMeetsSpec("a\nb\tc");
    var r := TitleSpec("a\nb\tc");
    assert r[0] == 'A' && r[1] == '\n' && r[2] == 'b';
    assert r[3] == '\t' && r[4] == 'c';
  }

  // ---------------------------------------------------------------------
  // The page

  datatype CaseState = CaseState(text: string, result: string)

  /** The upper-case button; pressing it twice changes nothing more. */
  function UpperCase(s: CaseState): (r: CaseState)
    ensures r.text == s.text && |r.result| == |s.text|
    ensures forall i :: 0 <= i < |s.text| ==> r.result[i] == UpperChar(s.text[i])
    ensures Upper(r.result) == r.result
  {
    CaseIdempotent(s.text);
    s.(result := Upper(s.text))
  }

  /** The lower-case button; pressing it twice changes nothing more. */
  function LowerCase(s: CaseState): (r: CaseState)
    ensures r.text == s.text && |r.result| == |s.text|
    ensures forall i :: 0 <= i < |s.text| ==> r.result[i] == LowerChar(s.text[i])
    ensures Lower(r.result) == r.result
  {
    CaseIdempotent(s.text);
    s.(result := Lower(s.text))
  }

  /** The title-case button. */
  function TitleCaseButton(s: CaseState): (r: CaseState)
    ensures r.text == s.text && r.result == TitleSpec(s.text)
  {
    TitleMeetsSpec(s.text);
    s.(result := TitleCase(s.text))
  }

  /** `handleClear`: both boxes empty. */
  function Clear(s: CaseState): (r: CaseState)
    ensures r.text == "" && r.result == ""
  {
    CaseState("", "")
  }
}
