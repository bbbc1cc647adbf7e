/**
 * The sitemap: the home page followed by every tool's path, each written
 * as one `<url>` entry whose location is the site address followed by the
 * path.
 */
module Sitemap {
  import opened Wrappers
  import opened Text
  import opened Seqs
  import opened Catalogue

  const HomePath := "/"

  const Header := "<?xml version=\"1.0\" encoding=\"UTF-8\"?>\n<urlset xmlns=\"http://www.sitemaps.org/schemas/sitemap/0.9\">\n  "
  const Footer := "\n</urlset>"

  /** What comes before and after an entry's location. */
  const EntryOpen := "\n  <url>\n    <loc>"
  const EntryClose := "</loc>\n    <changefreq>weekly</changefreq>\n    <priority>0.8</priority>\n  </url>"

  function ToolPath(t: Tool): string {
    t.path
  }

  /** The paths: the home page, then every tool's path in category order
      and, within a category, in tool order. */
  function Paths(cats: seq<Category>): (r: seq<string>)
    ensures |r| == 1 + ToolCount(cats)
    ensures r[0] == HomePath
    ensures forall k :: 0 <= k < |cats| ==> 1 + ToolCount(cats[..k]) + |cats[k].tools| <= |r|
    ensures forall k, j :: 0 <= k < |cats| && 0 <= j < |cats[k].tools| ==>
              r[1 + ToolCount(cats[..k]) + j] == cats[k].tools[j].path
  {
    HomeThenTools(cats);
    [HomePath] + EachTool(cats, ToolPath)
  }

  lemma HomeThenTools(cats: seq<Category>)
    ensures var r := [HomePath] + EachTool(cats, ToolPath);
            && |r| == 1 + ToolCount(cats)
            && r[0] == HomePath
            && (forall k :: 0 <= k < |cats| ==> 1 + ToolCount(cats[..k]) + |cats[k].tools| <= |r|)
            && (forall k, j :: 0 <= k < |cats| && 0 <= j < |cats[k].tools| ==>
                  r[1 + ToolCount(cats[..k]) + j] == cats[k].tools[j].path)
  {
    var tools := EachTool(cats, ToolPath);
    var r := [HomePath] + tools;
    forall k, j | 0 <= k < |cats| && 0 <= j < |cats[k].tools|
      ensures r[1 + ToolCount(cats[..k]) + j] == cats[k].tools[j].path
    {
      var n := ToolCount(cats[..k]) + j;
      assert n < |tools|;
      assert r[1 + n] == tools[n];
    }
  }

  /** One `<url>` entry. */
  function Entry(site: string, path: string): string {
    EntryOpen + site + path + EntryClose
  }

  /** The location an entry gives, when it has the entry's shape. */
  function LocationOf(entry: string): (r: Option<string>)
    ensures r.Some? ==> entry == EntryOpen + r.value + EntryClose
  {
    Between(entry, EntryOpen, EntryClose)
  }

  /** An entry gives back the location it was written with. */
  lemma EntryRoundTrip(site: string, path: string)
    ensures LocationOf(Entry(site, path)) == Some(site + path)
  {
    AppendAssoc(EntryOpen, site, path);
    BetweenWrapped(EntryOpen, site + path, EntryClose);
  }

  /** The entries, one per path, in the same order; each one's location is
      the site address followed by its path, and each is weekly with
      priority 0.8. */
  function Entries(site: string, paths: seq<string>): (r: seq<string>)
    ensures |r| == |paths|
    ensures forall i :: 0 <= i < |r| ==> LocationOf(r[i]) == Some(site + paths[i])
    ensures forall i :: 0 <= i < |r| ==> EndsWith(r[i], EntryClose)
  {
    var r := seq(|paths|, i requires 0 <= i < |paths| => Entry(site, paths[i]));
    forall i | 0 <= i < |r|
      ensures LocationOf(r[i]) == Some(site + paths[i])
    {
      EntryRoundTrip(site, paths[i]);
    }
    r
  }

  /** The document: the entries joined with nothing between them. */
  function Document(site: string, cats: seq<Category>): (r: string)
    ensures StartsWith(r, Header) && EndsWith(r, Footer)
    ensures |r| == |Header| + |Flatten(Entries(site, Paths(cats)))| + |Footer|
    ensures r[|Header|..|r| - |Footer|] == Flatten(Entries(site, Paths(cats)))
  {
    var body := Flatten(Entries(site, Paths(cats)));
    var r := Header + body + Footer;
    assert r[..|Header|] == Header;
    assert r[|r| - |Footer|..] == Footer;
    assert r[|Header|..|r| - |Footer|] == body;
    r
  }

  /** The sitemap lists the home page and then every tool, each at the
      site address: one entry more than there are tools. */
  lemma SitemapCoversTools(site: string, cats: seq<Category>, k: nat, j: nat)
    requires k < |cats| && j < |cats[k].tools|
    ensures |Entries(site, Paths(cats))| == 1 + ToolCount(cats)
    ensures LocationOf(Entries(site, Paths(cats))[0]) == Some(site + HomePath)
    ensures 1 + ToolCount(cats[..k]) + j < |Entries(site, Paths(cats))|
    ensures LocationOf(Entries(site, Paths(cats))[1 + ToolCount(cats[..k]) + j]) == Some(site + cats[k].tools[j].path)
  {
    var n := ToolPathAt(cats, k, j);
    EntryAt(site, Paths(cats), 0);
    EntryAt(site, Paths(cats), n);
  }

  /** Where a tool's path sits among the paths. */
  lemma ToolPathAt(cats: seq<Category>, k: nat, j: nat) returns (n: nat)
    requires k < |cats| && j < |cats[k].tools|
    ensures n == 1 + ToolCount(cats[..k]) + j
    ensures n < |Paths(cats)| && Paths(cats)[n] == cats[k].tools[j].path
  {
    n := 1 + ToolCount(cats[..k]) + j;
  }

  lemma EntryAt(site: string, paths: seq<string>, n: nat)
    requires n < |paths|
    ensures |Entries(site, paths)| == |paths|
    ensures LocationOf(Entries(site, paths)[n]) == Some(site + paths[n])
  {
  }
}
