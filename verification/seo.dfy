/**
 * The metadata helpers: the site-wide keyword list and the per-tool
 * metadata, whose three titles, description and placeholder image are all
 * derived from the tool's title, and whose page address is the origin
 * followed by "/tools/" and the slug.
 */
module Seo {
  import opened Wrappers
  import opened Text
  import opened Catalogue
  import opened Seqs

  const FixedKeywords := [
    "free pdf tools",
    "pdf merge",
    "image compressor",
    "video converter",
    "json formatter",
    "online notepad",
    "password generator",
    "qr code generator",
    "unit converter"
  ]

  function LowerName(t: Tool): string {
    Lower(t.name)
  }

  /** `allKeywords`: every tool's lower-cased name, in category and tool
      order, then the nine fixed keywords. */
  function AllKeywords(cats: seq<Category>): (r: seq<string>)
    ensures |r| == ToolCount(cats) + |FixedKeywords|
    ensures r[ToolCount(cats)..] == FixedKeywords
    ensures forall k :: 0 <= k < |cats| ==> ToolCount(cats[..k]) + |cats[k].tools| <= ToolCount(cats)
    ensures forall k, j :: 0 <= k < |cats| && 0 <= j < |cats[k].tools| ==>
              r[ToolCount(cats[..k]) + j] == Lower(cats[k].tools[j].name)
  {
    var names := EachTool(cats, LowerName);
    var r := names + FixedKeywords;
    assert forall n :: 0 <= n < |names| ==> r[n] == names[n];
    r
  }

  // ---------------------------------------------------------------------
  // encodeURIComponent

  /** The characters `encodeURIComponent` leaves alone. */
  predicate Unreserved(c: char) {
    ('A' <= c <= 'Z') || ('a' <= c <= 'z') || ('0' <= c <= '9')
    || c == '-' || c == '_' || c == '.' || c == '!' || c == '~'
    || c == '*' || c == '\'' || c == '(' || c == ')'
  }

  const HexDigits := "0123456789ABCDEF"

  /** "%XX" with upper-case hexadecimal digits. */
  function Escape(b: nat): (r: string)
    requires b < 256
    ensures |r| == 3 && r[0] == '%'
  {
    ['%', HexDigits[b / 16], HexDigits[b % 16]]
  }

  /** The UTF-8 bytes of a character. */
  function Utf8(c: char): (r: seq<nat>)
    ensures 1 <= |r| <= 4
    ensures forall i :: 0 <= i < |r| ==> r[i] < 256
    ensures (c as int) < 128 ==> r == [c as int]
  {
    var n := c as int;
    if n < 0x80 then [n]
    else if n < 0x800 then [0xC0 + n / 0x40, 0x80 + n % 0x40]
    else if n < 0x10000 then [0xE0 + n / 0x1000, 0x80 + (n / 0x40) % 0x40, 0x80 + n % 0x40]
    else [0xF0 + n / 0x40000, 0x80 + (n / 0x1000) % 0x40, 0x80 + (n / 0x40) % 0x40, 0x80 + n % 0x40]
  }

  function EscapeAll(bytes: seq<nat>): (r: string)
    requires forall i :: 0 <= i < |bytes| ==> bytes[i] < 256
    ensures |r| == 3 * |bytes|
    decreases |bytes|
  {
    if |bytes| == 0 then "" else Escape(bytes[0]) + EscapeAll(bytes[1..])
  }

  function EncodeChar(c: char): (r: string)
    ensures Unreserved(c) ==> r == [c]
    ensures !Unreserved(c) ==> |r| >= 3 && r[0] == '%'
  {
    if Unreserved(c) then [c] else EscapeAll(Utf8(c))
  }

  /** `encodeURIComponent`. Characters are Unicode scalar values, so no
      lone surrogate can make it throw. */
  function EncodeUriComponent(s: string): (r: string)
    ensures |r| >= |s|
    decreases |s|
  {
    if |s| == 0 then "" else EncodeChar(s[0]) + EncodeUriComponent(s[1..])
  }

  predicate IsHex(c: char) {
    ('0' <= c <= '9') || ('A' <= c <= 'F') || ('a' <= c <= 'f')
  }

  function HexValue(c: char): (r: nat)
    requires IsHex(c)
    ensures r < 16
  {
    if '0' <= c <= '9' then (c as int) - ('0' as int)
    else if 'A' <= c <= 'F' then (c as int) - ('A' as int) + 10
    else (c as int) - ('a' as int) + 10
  }

  /** `decodeURIComponent` on text whose escapes are all of ASCII
      characters: each "%XX" becomes the character with that code. */
  function DecodeAscii(s: string): (r: string)
    decreases |s|
  {
    if |s| >= 3 && s[0] == '%' && IsHex(s[1]) && IsHex(s[2]) && HexValue(s[1]) < 8 then
      [(HexValue(s[1]) * 16 + HexValue(s[2])) as char] + DecodeAscii(s[3..])
    else if |s| > 0 then [s[0]] + DecodeAscii(s[1..])
    else ""
  }

  predicate Ascii(s: string) {
    forall i :: 0 <= i < |s| ==> (s[i] as int) < 128
  }

  lemma HexDigitValue(d: nat)
    requires d < 16
    ensures IsHex(HexDigits[d]) && HexValue(HexDigits[d]) == d
  {
  }

  /** Decoding an escaped ASCII character gives it back. */
  lemma DecodeEscape(c: char, rest: string)
    requires (c as int) < 128
    ensures DecodeAscii(Escape(c as int) + rest) == [c] + DecodeAscii(rest)
  {
    var n := c as int;
    var e := Escape(n) + rest;
    HexDigitValue(n / 16);
    HexDigitValue(n % 16);
    assert e[0] == '%' && e[1] == HexDigits[n / 16] && e[2] == HexDigits[n % 16];
    assert e[3..] == rest;
    assert (HexValue(e[1]) * 16 + HexValue(e[2])) as char == c;
  }

  /** An unreserved character decodes as itself. */
  lemma DecodePlain(c: char, rest: string)
    requires Unreserved(c)
    ensures DecodeAscii([c] + rest) == [c] + DecodeAscii(rest)
  {
    assert ([c] + rest)[1..] == rest;
  }

  /** Decoding undoes encoding on ASCII text. */
  lemma {:induction false} EncodeDecodeAscii(s: string)
    requires Ascii(s)
    ensures DecodeAscii(EncodeUriComponent(s)) == s
    decreases |s|
  {
    if |s| > 0 {
      var c := s[0];
      assert Ascii(s[1..]) by {
        forall i | 0 <= i < |s[1..]|
          ensures (s[1..][i] as int) < 128
        {
          assert s[1..][i] == s[i + 1];
        }
      }
      EncodeDecodeAscii(s[1..]);
      var rest := EncodeUriComponent(s[1..]);
      if Unreserved(c) {
        DecodePlain(c, rest);
      } else {
        assert EncodeChar(c) == Escape(c as int) by {
          assert Utf8(c) == [c as int];
          assert Utf8(c)[1..] == [];
        }
        DecodeEscape(c, rest);
      }
      assert s == [c] + s[1..];
    }
  }

  lemma AsciiTitleDecodes(s: string)
    ensures Ascii(s) ==> DecodeAscii(EncodeUriComponent(s)) == s
  {
    if Ascii(s) {
      EncodeDecodeAscii(s);
    }
  }

  /** Encoding works character by character. */
  lemma {:induction false} EncodeAppend(a: string, b: string)
    ensures EncodeUriComponent(a + b) == EncodeUriComponent(a) + EncodeUriComponent(b)
    decreases |a|
  {
    if |a| == 0 {
      assert a + b == b;
    } else {
      assert (a + b)[0] == a[0];
      assert (a + b)[1..] == a[1..] + b;
      EncodeAppend(a[1..], b);
    }
  }

  /** Text made only of unreserved characters is left as it is. */
  lemma {:induction false} EncodeUnreserved(s: string)
    requires forall i :: 0 <= i < |s| ==> Unreserved(s[i])
    ensures EncodeUriComponent(s) == s
    decreases |s|
  {
    if |s| > 0 {
      EncodeUnreserved(s[1..]);
      assert s == [s[0]] + s[1..];
    }
  }

  /** An ASCII character outside the unreserved set becomes its escape. */
  lemma EncodeReservedAscii(c: char)
    requires (c as int) < 128 && !Unreserved(c)
    ensures EncodeUriComponent([c]) == Escape(c as int)
  {
    assert Utf8(c) == [c as int];
    assert EscapeAll([c as int]) == Escape(c as int) + EscapeAll([]);
    assert [c][1..] == [];
  }

  /** One reserved ASCII character between two unreserved runs: only that
      character is escaped. */
  lemma EncodeOneReserved(a: string, c: char, b: string)
    requires forall i :: 0 <= i < |a| ==> Unreserved(a[i])
    requires forall i :: 0 <= i < |b| ==> Unreserved(b[i])
    requires (c as int) < 128 && !Unreserved(c)
    ensures EncodeUriComponent(a + [c] + b) == a + Escape(c as int) + b
  {
    var e := Escape(c as int);
    assert EncodeUriComponent([c] + b) == e + b by {
      EncodeAppend([c], b);
      EncodeReservedAscii(c);
      EncodeUnreserved(b);
    }
    assert EncodeUriComponent(a + ([c] + b)) == a + (e + b) by {
      EncodeAppend(a, [c] + b);
      EncodeUnreserved(a);
    }
    AppendAssoc(a, [c], b);
    AppendAssoc(a, e, b);
  }

  /** A space is escaped; letters are not. */
  lemma EncodeSpaceExample()
    ensures EncodeUriComponent("PDF Merge") == "PDF%20Merge"
  {
    EncodeOneReserved("PDF", ' ', "Merge");
    SpaceExampleText();
  }

  lemma SpaceExampleText()
    ensures "PDF" + [' '] + "Merge" == "PDF Merge"
    ensures "PDF" + Escape(32) + "Merge" == "PDF%20Merge"
  {
    assert Escape(32) == "%20";
  }

  /** An ampersand, which would end the query parameter, is escaped. */
  lemma EncodeAmpersandExample()
    ensures EncodeUriComponent("a&b") == "a%26b"
  {
    EncodeOneReserved("a", '&', "b");
    AmpersandExampleText();
  }

  lemma AmpersandExampleText()
    ensures "a" + ['&'] + "b" == "a&b"
    ensures "a" + Escape(38) + "b" == "a%26b"
  {
    assert Escape(38) == "%26";
  }


  // ---------------------------------------------------------------------
  // generateToolSEO

  datatype ToolSeoInput = ToolSeoInput(title: string, description: string, slug: string, keywords: Option<seq<string>>)

  datatype Image = Image(url: string, width: nat, height: nat, alt: string)

  datatype OpenGraph = OpenGraph(title: string, description: string, url: string, siteName: string,
                                 images: seq<Image>, kind: string)

  datatype Twitter = Twitter(card: string, title: string, description: string, images: seq<string>, creator: string)

  datatype Metadata = Metadata(title: string, description: string, keywords: seq<string>,
                               authors: seq<string>, creator: string, publisher: string,
                               openGraph: OpenGraph, twitter: Twitter)

  const TitleSuffix := " - Free Online Tool"
  const PlaceholderBase := "https://placehold.co/1200x630?text="
  const ToolsSegment := "/tools/"
  const Author := "Hetal Savaliya"
  const SiteName := "FreeTools"
  const TwitterHandle := "@hetalsavaliya"

  /** The placeholder image for a title. */
  function ImageUrl(title: string): string {
    PlaceholderBase + EncodeUriComponent(title)
  }

  /** `generateToolSEO`. `origin` is the browser's origin, or "" when
      rendered on the server; an absent keyword list defaults to empty. */
  function ToolSeo(input: ToolSeoInput, origin: string): (r: Metadata)
    ensures r.title == r.openGraph.title == r.twitter.title
    ensures EndsWith(r.title, TitleSuffix) && r.title[..|r.title| - |TitleSuffix|] == input.title
    ensures r.description == r.openGraph.description == r.twitter.description == input.description
    ensures r.keywords == if input.keywords.Some? then input.keywords.value else []
    ensures r.openGraph.url == origin + ToolsSegment + input.slug
    ensures |r.openGraph.images| == 1 && r.twitter.images == [r.openGraph.images[0].url]
    ensures r.openGraph.images[0].alt == input.title
    ensures StartsWith(r.openGraph.images[0].url, PlaceholderBase)
    ensures Ascii(input.title) ==> DecodeAscii(r.openGraph.images[0].url[|PlaceholderBase|..]) == input.title
  {
    var title := input.title + TitleSuffix;
    var image := ImageUrl(input.title);
    assert title[..|title| - |TitleSuffix|] == input.title;
    assert title[|title| - |TitleSuffix|..] == TitleSuffix;
    assert image[..|PlaceholderBase|] == PlaceholderBase;
    assert image[|PlaceholderBase|..] == EncodeUriComponent(input.title);
    AsciiTitleDecodes(input.title);
    Metadata(
      title, input.description,
      if input.keywords.Some? then input.keywords.value else [],
      [Author], Author, SiteName,
      OpenGraph(title, input.description, origin + ToolsSegment + input.slug, SiteName,
                [Image(image, 1200, 630, input.title)], "article"),
      Twitter("summary_large_image", title, input.description, [image], TwitterHandle))
  }

  /** The slug is not normalised: a leading "/" gives a doubled one. */
  lemma SlashSlug(title: string, description: string)
    ensures ToolSeo(ToolSeoInput(title, description, "/pdf-merge", None), "").openGraph.url == "/tools//pdf-merge"
  {
    assert "" + ToolsSegment + "/pdf-merge" == "/tools//pdf-merge";
  }
}
