/**
 * The word counter: words are the pieces of the trimmed text split on runs
 * of whitespace, characters are the text's length, and the reading time is
 * the word count over 200, rounded up.
 */
module WordCounter {
  import opened Text
  import opened JsNumbers

  const WordsPerMinute := 200

  /** The first whitespace character at or after `k`, or the end. */
  function NextSpace(s: string, k: nat): (n: nat)
    requires k <= |s|
    ensures k <= n <= |s|
    ensures forall i :: k <= i < n ==> !IsSpace(s[i])
    ensures n < |s| ==> IsSpace(s[n])
    decreases |s| - k
  {
    if k == |s| || IsSpace(s[k]) then k else NextSpace(s, k + 1)
  }

  /** `s.split(/\s+/)`: the pieces between maximal runs of whitespace. A
      leading or trailing run gives an empty first or last piece. */
  function SplitRuns(s: string): (r: seq<string>)
    ensures |r| >= 1
    ensures forall k :: 0 <= k < |r| ==> forall m :: 0 <= m < |r[k]| ==> !IsSpace(r[k][m])
    decreases |s|
  {
    var i := NextSpace(s, 0);
    if i == |s| then [s]
    else
      var j := SkipSpaces(s, i);
      assert j > i;
      [s[..i]] + SplitRuns(s[j..])
  }

  /** The number of maximal runs of non-whitespace characters in `s`, that
      is of positions holding a non-whitespace character that starts the
      text or follows whitespace; `afterSpace` says whether what precedes
      `s` counts as whitespace. */
  function Runs(s: string, afterSpace: bool): (n: nat)
    ensures n <= |s|
    decreases |s|
  {
    if |s| == 0 then 0
    else (if afterSpace && !IsSpace(s[0]) then 1 else 0) + Runs(s[1..], IsSpace(s[0]))
  }

  /** The words of a text, counted directly. */
  function WordRuns(s: string): nat {
    Runs(s, true)
  }

  /** Whether the end of `s` counts as whitespace for what follows it. */
  function EndsAfterSpace(s: string, afterSpace: bool): bool {
    if |s| == 0 then afterSpace else IsSpace(s[|s| - 1])
  }

  lemma {:induction false} RunsAppend(a: string, b: string, afterSpace: bool)
    ensures Runs(a + b, afterSpace) == Runs(a, afterSpace) + Runs(b, EndsAfterSpace(a, afterSpace))
    decreases |a|
  {
    if |a| == 0 {
      assert a + b == b;
    } else {
      assert (a + b)[0] == a[0];
      assert (a + b)[1..] == a[1..] + b;
      RunsAppend(a[1..], b, IsSpace(a[0]));
      if |a| > 1 {
        assert a[1..][|a| - 2] == a[|a| - 1];
      }
    }
  }

  /** Whitespace holds no words. */
  lemma {:induction false} SpacesHoldNoRuns(s: string, afterSpace: bool)
    requires forall i :: 0 <= i < |s| ==> IsSpace(s[i])
    ensures Runs(s, afterSpace) == 0
    decreases |s|
  {
    if |s| > 0 {
      SpacesHoldNoRuns(s[1..], true);
    }
  }

  /** A non-empty text without whitespace is one word, or the tail of one
      when it follows a non-whitespace character. */
  lemma {:induction false} OneRun(w: string, afterSpace: bool)
    requires forall i :: 0 <= i < |w| ==> !IsSpace(w[i])
    ensures Runs(w, afterSpace) == if afterSpace && |w| > 0 then 1 else 0
    decreases |w|
  {
    if |w| > 0 {
      OneRun(w[1..], false);
    }
  }

  /** A word and then whitespace: one word more than what follows. */
  lemma WordThenSpaces(w: string, sp: string, rest: string)
    requires |w| > 0 && forall i :: 0 <= i < |w| ==> !IsSpace(w[i])
    requires |sp| > 0 && forall i :: 0 <= i < |sp| ==> IsSpace(sp[i])
    ensures Runs(w + (sp + rest), true) == 1 + Runs(rest, true)
  {
    RunsAppend(w, sp + rest, true);
    OneRun(w, true);
    RunsAppend(sp, rest, false);
    SpacesHoldNoRuns(sp, false);
  }

  /** On a text that starts and ends with non-whitespace, `split(/\s+/)`
      gives one piece per word. */
  lemma {:induction false} SplitCountsRuns(s: string)
    requires |s| > 0 && !IsSpace(s[0]) && !IsSpace(s[|s| - 1])
    ensures |SplitRuns(s)| == WordRuns(s)
    decreases |s|
  {
    var i := NextSpace(s, 0);
    if i == |s| {
      OneRun(s, true);
    } else {
      var j := SkipSpaces(s, i);
      assert j < |s| by {
        assert !IsSpace(s[|s| - 1]);
      }
      assert s == s[..i] + (s[i..j] + s[j..]);
      WordThenSpaces(s[..i], s[i..j], s[j..]);
      assert s[j..][|s[j..]| - 1] == s[|s| - 1];
      SplitCountsRuns(s[j..]);
    }
  }

  /** Trimming removes no word. */
  lemma TrimKeepsRuns(text: string)
    ensures WordRuns(Trim(text)) == WordRuns(text)
  {
    var lead, trail := TrimParts(text);
    RunsAroundSpaces(lead, Trim(text), trail);
  }

  /** Whitespace on either side of a text adds no word. */
  lemma RunsAroundSpaces(lead: string, mid: string, trail: string)
    requires forall i :: 0 <= i < |lead| ==> IsSpace(lead[i])
    requires forall i :: 0 <= i < |trail| ==> IsSpace(trail[i])
    ensures Runs(lead + (mid + trail), true) == Runs(mid, true)
  {
    RunsAppend(lead, mid + trail, true);
    SpacesHoldNoRuns(lead, true);
    RunsAppend(mid, trail, true);
    SpacesHoldNoRuns(trail, EndsAfterSpace(mid, true));
  }

  // ---------------------------------------------------------------------
  // The three figures

  /** `text.trim() ? text.trim().split(/\s+/).length : 0`: the number of
      words, zero exactly for blank text, and never more than the number of
      characters. */
  function WordCount(text: string): (r: nat)
    ensures r == WordRuns(text)
    ensures r == 0 <==> forall i :: 0 <= i < |text| ==> IsSpace(text[i])
    ensures r <= |text|
  {
    var t := Trim(text);
    TrimKeepsRuns(text);
    if t != "" then
      SplitCountsRuns(t);
      assert t[0] == text[TrimStartIndex(text)];
      OneRun(t[..1], true);
      RunsAppend(t[..1], t[1..], true);
      assert t == t[..1] + t[1..];
      |SplitRuns(t)|
    else
      SpacesHoldNoRuns(text, true);
      0
  }

  /** `text.length`, whitespace included. */
  function CharCount(text: string): nat {
    |text|
  }

  /** `Math.ceil(wordCount / 200)`: zero exactly when there are no words,
      and otherwise the least number of minutes whose 200 words each cover
      the text. */
  function ReadingTime(text: string): (r: nat)
    ensures r == 0 <==> WordCount(text) == 0
    ensures r > 0 ==> (r - 1) * WordsPerMinute < WordCount(text) <= r * WordsPerMinute
  {
    CeilDiv(WordCount(text), WordsPerMinute)
  }

  /** Clearing the text sets all three figures to zero. */
  lemma ClearedFigures()
    ensures WordCount("") == 0 && CharCount("") == 0 && ReadingTime("") == 0
  {
  }

  /** Whitespace and then a word: one word more than what follows. */
  lemma SpacedWord(sp: string, w: string, rest: string, afterSpace: bool)
    requires afterSpace || |sp| > 0
    requires forall i :: 0 <= i < |sp| ==> IsSpace(sp[i])
    requires |w| > 0 && forall i :: 0 <= i < |w| ==> !IsSpace(w[i])
    ensures Runs(sp + (w + rest), afterSpace) == 1 + Runs(rest, false)
  {
    RunsAppend(sp, w + rest, afterSpace);
    SpacesHoldNoRuns(sp, afterSpace);
    RunsAppend(w, rest, EndsAfterSpace(sp, afterSpace));
    OneRun(w, EndsAfterSpace(sp, afterSpace));
  }

  /** Words are separated by any whitespace run, and surrounding whitespace
      is ignored. */
  lemma CountExamples()
    ensures WordCount(" a \t b\n") == 2
    ensures WordCount(" \n ") == 0
  {
    CountTwoWords();
    CountBlank();
  }

  lemma CountTwoWords()
    ensures WordRuns(" a \t b\n") == 2
  {
    TwoWordsText();
    SpacedWord(" ", "a", " \t " + ("b" + "\n"), true);
    SpacedWord(" \t ", "b", "\n", false);
    SpacesHoldNoRuns("\n", false);
  }

  lemma CountBlank()
    ensures WordCount(" \n ") == 0
  {
    assert forall i :: 0 <= i < |" \n "| ==> IsSpace(" \n "[i]);
  }

  lemma TwoWordsText()
    ensures " a \t b\n" == " " + ("a" + (" \t " + ("b" + "\n")))
  {
  }
}
