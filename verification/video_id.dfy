/**
 * The download route's video-id extraction: the first place in the URL
 * where "v=" or "/" is followed by exactly eleven id characters and then by
 * "?", "&" or the end, and the route's answers around it.
 */
module VideoId {
  import opened Wrappers
  import opened JsValues
  import opened Seqs

  const IdLength := 11

  const UrlRequired := "URL is required."
  const InvalidUrl := "Invalid YouTube URL"
  const DownloadFailed := "Download failed"
  const ApiEndpoint := "https://youtube-mp36.p.rapidapi.com/dl?id="

  /** The class `[0-9A-Za-z_-]`. */
  predicate IdChar(c: char) {
    ('0' <= c <= '9') || ('A' <= c <= 'Z') || ('a' <= c <= 'z') || c == '_' || c == '-'
  }

  /** Eleven id characters start at `k`. */
  predicate IdAt(s: string, k: int) {
    0 <= k && k + IdLength <= |s| && forall j :: k <= j < k + IdLength ==> IdChar(s[j])
  }

  /** `(?:\?|&|$)` at `e`: the end of the text (no multiline flag), or a
      "?" or "&". */
  predicate EndAt(s: string, e: int) {
    e == |s| || (0 <= e < |s| && (s[e] == '?' || s[e] == '&'))
  }

  /** Where the captured id starts when the expression matches starting at
      `p`: after "v=" or after "/". The two alternatives begin with
      different characters, so at most one applies. */
  function IdStart(s: string, p: int): (r: Option<nat>)
    ensures r.Some? ==> IdAt(s, r.value) && EndAt(s, r.value + IdLength)
    ensures r.Some? ==> (r.value == p + 2 && 0 <= p && p + 2 <= |s| && s[p] == 'v' && s[p + 1] == '=')
                        || (r.value == p + 1 && 0 <= p < |s| && s[p] == '/')
  {
    if 0 <= p && p + 2 <= |s| && s[p] == 'v' && s[p + 1] == '=' && IdAt(s, p + 2) && EndAt(s, p + 2 + IdLength) then
      Some(p + 2)
    else if 0 <= p < |s| && s[p] == '/' && IdAt(s, p + 1) && EndAt(s, p + 1 + IdLength) then
      Some(p + 1)
    else None
  }

  predicate MatchAt(s: string, p: int) {
    IdStart(s, p).Some?
  }

  /** The leftmost position at or after `k` where the expression matches. */
  function FirstMatch(s: string, k: nat): (r: Option<nat>)
    ensures r.Some? ==> k <= r.value && MatchAt(s, r.value)
    ensures r.Some? ==> forall q :: k <= q < r.value ==> !MatchAt(s, q)
    ensures r.None? ==> forall q :: k <= q ==> !MatchAt(s, q)
    decreases |s| - k
  {
    if k >= |s| then None
    else if MatchAt(s, k) then Some(k)
    else FirstMatch(s, k + 1)
  }

  /** The id captured by a match at `p`. */
  function MatchedId(s: string, p: int): (r: string)
    requires MatchAt(s, p)
    ensures |r| == IdLength && forall i :: 0 <= i < |r| ==> IdChar(r[i])
  {
    var k := IdStart(s, p).value;
    var r := s[k..k + IdLength];
    assert forall i :: 0 <= i < |r| ==> r[i] == s[k + i];
    r
  }

  /** `extractVideoId`: `match[1]` of the leftmost match, or null. */
  function ExtractVideoId(url: string): (r: Option<string>)
    ensures r.None? <==> forall p :: !MatchAt(url, p)
    ensures r.Some? ==> |r.value| == IdLength && forall i :: 0 <= i < IdLength ==> IdChar(r.value[i])
    ensures r.Some? ==> exists p :: MatchAt(url, p) && (forall q :: 0 <= q < p ==> !MatchAt(url, q))
                                    && r.value == MatchedId(url, p)
  {
    match FirstMatch(url, 0)
    case Some(p) => Some(MatchedId(url, p))
    case None => None
  }

  /** A run of more than eleven id characters is never cut short: no match
      captures an id starting where such a run starts. */
  lemma NoTruncation(s: string, k: nat, p: int)
    requires k + IdLength < |s| && IdChar(s[k + IdLength])
    ensures IdStart(s, p) != Some(k)
  {
  }

  /** When no "v" and no "/" comes before a match, that match is the one
      returned. */
  lemma FirstCandidate(s: string, p: nat)
    requires MatchAt(s, p)
    requires forall q :: 0 <= q < p ==> s[q] != 'v' && s[q] != '/'
    ensures ExtractVideoId(s) == Some(MatchedId(s, p))
  {
    forall q | 0 <= q < p
      ensures !MatchAt(s, q)
    {
      assert s[q] != 'v' && s[q] != '/';
    }
    assert FirstMatch(s, 0) == Some(p);
  }

  /** The id of a match at `p` whose id starts at `k`. */
  lemma IdOfMatch(s: string, p: nat, k: nat)
    requires IdAt(s, k) && EndAt(s, k + IdLength)
    requires (p + 2 == k && s[p] == 'v' && s[p + 1] == '=') || (p + 1 == k && s[p] == '/')
    ensures MatchAt(s, p) && MatchedId(s, p) == s[k..k + IdLength]
  {
  }

  /** Eleven id characters, as a text. */
  predicate IsId(id: string) {
    |id| == IdLength && forall i :: 0 <= i < |id| ==> IdChar(id[i])
  }

  /** A "/" or "v=" followed by an id and then "?", "&" or the end is the
      answer when no "v" and no "/" comes before it. */
  lemma LeadingCandidate(a: string, sep: string, id: string, rest: string)
    requires forall q :: 0 <= q < |a| ==> a[q] != 'v' && a[q] != '/'
    requires sep == "/" || sep == "v="
    requires IsId(id)
    requires |rest| == 0 || rest[0] == '?' || rest[0] == '&'
    ensures ExtractVideoId(a + sep + id + rest) == Some(id)
  {
    LayoutId(a, sep, id, rest);
    LayoutSeparator(a, sep, id, rest);
    LayoutPrefix(a, sep, id, rest);
    MatchingCandidate(a + sep + id + rest, |a|, |a| + |sep|);
  }

  lemma LayoutId(a: string, sep: string, id: string, rest: string)
    requires IsId(id)
    requires |rest| == 0 || rest[0] == '?' || rest[0] == '&'
    ensures var s := a + sep + id + rest;
            var k := |a| + |sep|;
            IdAt(s, k) && EndAt(s, k + IdLength) && s[k..k + IdLength] == id
  {
    var s := a + sep + id + rest;
    var k := |a| + |sep|;
    assert s[k..k + IdLength] == id && s[k + IdLength..] == rest by {
      MiddleSlice(a + sep, id, rest);
    }
    IdAtSlice(s, k, id);
    assert EndAt(s, k + IdLength) by {
      if |rest| > 0 {
        assert s[k + IdLength] == s[k + IdLength..][0];
      }
    }
  }

  /** An id sitting at `k` puts eleven id characters there. */
  lemma IdAtSlice(s: string, k: nat, id: string)
    requires IsId(id) && k + IdLength <= |s| && s[k..k + IdLength] == id
    ensures IdAt(s, k)
  {
    forall j | k <= j < k + IdLength
      ensures IdChar(s[j])
    {
      assert s[j] == id[j - k];
    }
  }

  lemma LayoutSeparator(a: string, sep: string, id: string, rest: string)
    requires sep == "/" || sep == "v="
    ensures var s := a + sep + id + rest;
            (|sep| == 2 && s[|a|] == 'v' && s[|a| + 1] == '=') || (|sep| == 1 && s[|a|] == '/')
  {
    var s := a + sep + id + rest;
    assert s == a + (sep + id + rest);
    if sep == "/" {
      assert s[|a|] == sep[0];
    } else {
      assert s[|a|] == sep[0] && s[|a| + 1] == sep[1];
    }
  }

  lemma LayoutPrefix(a: string, sep: string, id: string, rest: string)
    requires forall q :: 0 <= q < |a| ==> a[q] != 'v' && a[q] != '/'
    ensures var s := a + sep + id + rest;
            forall q :: 0 <= q < |a| ==> s[q] != 'v' && s[q] != '/'
  {
    var s := a + sep + id + rest;
    assert s == a + (sep + id + rest);
    forall q | 0 <= q < |a|
      ensures s[q] != 'v' && s[q] != '/'
    {
      assert s[q] == a[q];
    }
  }

  /** A match with no "v" and no "/" before it is the leftmost one. */
  lemma MatchingCandidate(s: string, p: nat, k: nat)
    requires IdAt(s, k) && EndAt(s, k + IdLength)
    requires (p + 2 == k && s[p] == 'v' && s[p + 1] == '=') || (p + 1 == k && s[p] == '/')
    requires forall q :: 0 <= q < p ==> s[q] != 'v' && s[q] != '/'
    ensures ExtractVideoId(s) == Some(s[k..k + IdLength])
  {
    IdOfMatch(s, p, k);
    FirstCandidate(s, p);
  }

  lemma SampleId()
    ensures IsId("dQw4w9WgXcQ")
  {
  }

  lemma ShortLinkExample()
    ensures ExtractVideoId("youtu.be/dQw4w9WgXcQ") == Some("dQw4w9WgXcQ")
  {
    SampleId();
    LeadingCandidate("youtu.be", "/", "dQw4w9WgXcQ", "");
    ShortLinkText();
  }

  lemma ShortLinkText()
    ensures "youtu.be" + "/" + "dQw4w9WgXcQ" + "" == "youtu.be/dQw4w9WgXcQ"
  {
  }

  lemma WatchLinkExample()
    ensures ExtractVideoId("watch?v=dQw4w9WgXcQ&t=1") == Some("dQw4w9WgXcQ")
  {
    SampleId();
    LeadingCandidate("watch?", "v=", "dQw4w9WgXcQ", "&t=1");
    WatchLinkText();
  }

  lemma WatchLinkText()
    ensures "watch?" + "v=" + "dQw4w9WgXcQ" + "&t=1" == "watch?v=dQw4w9WgXcQ&t=1"
  {
  }

  /** Of two candidates the leftmost wins, whichever alternative the
      later one uses. */
  lemma LeftmostExample()
    ensures ExtractVideoId("/dQw4w9WgXcQ?v=abcdefghijk") == Some("dQw4w9WgXcQ")
  {
    SampleId();
    LeadingCandidate("", "/", "dQw4w9WgXcQ", "?v=abcdefghijk");
    LeftmostText();
  }

  lemma LeftmostText()
    ensures "" + "/" + "dQw4w9WgXcQ" + "?v=abcdefghijk" == "/dQw4w9WgXcQ?v=abcdefghijk"
  {
  }

  /** Twelve id characters after "v=" do not match, and nothing else
      does. */
  lemma LongRunExample()
    ensures ExtractVideoId("v=dQw4w9WgXcQQ") == None
  {
    var s := "v=dQw4w9WgXcQQ";
    forall p | 0 <= p
      ensures !MatchAt(s, p)
    {
      if p == 0 {
        assert !EndAt(s, 13);
      } else if p < |s| {
        assert s[p] != 'v' && s[p] != '/';
      }
    }
  }

  // ---------------------------------------------------------------------
  // The route

  /** What the download API answers: `status` "ok" comes with a link and a
      title. */
  datatype ApiAnswer = ApiAnswer(ok: bool, link: string, title: string)

  datatype DownloadReply =
    | Link(downloadLink: string, title: string)
    | Error(status: nat, message: string)
    /** A thrown error, answered with 500 and the error's own message. */
    | Thrown

  /** The request the route sends for an id. */
  function ApiRequest(id: string): (r: string)
    ensures |r| == |ApiEndpoint| + |id| && r[|ApiEndpoint|..] == id
  {
    ApiEndpoint + id
  }

  /** The POST handler. `answer` is what the download API answers to the
      request for the extracted id (None when the fetch throws). A URL that
      is truthy but not a string has no `match` method, which throws. */
  function Handle(url: JsValue, answer: Option<ApiAnswer>): (r: DownloadReply)
    ensures !Truthy(url) ==> r == Error(400, UrlRequired)
    ensures Truthy(url) && !url.Str? ==> r == Thrown
    ensures url.Str? && url.s != "" ==>
              (r == Error(400, InvalidUrl) <==> ExtractVideoId(url.s).None?)
    ensures r.Link? <==> url.Str? && ExtractVideoId(url.s).Some? && answer.Some? && answer.value.ok
    ensures r.Link? ==> r == Link(answer.value.link, answer.value.title)
    ensures r.Error? ==> r.status == 400 || r.message == DownloadFailed
  {
    if !Truthy(url) then Error(400, UrlRequired)
    else if !url.Str? then Thrown
    else match ExtractVideoId(url.s)
      case None => Error(400, InvalidUrl)
      case Some(_) =>
        match answer
        case None => Thrown
        case Some(a) => if a.ok then Link(a.link, a.title) else Error(500, DownloadFailed)
  }
}
