/**
 * The tool catalogue: categories of tools, the home page's search filter,
 * and the per-tool listing in category order that the sitemap and the
 * keyword list are built from.
 */
module Catalogue {
  import opened Text
  import opened Seqs

  datatype Tool = Tool(name: string, description: string, path: string)

  datatype Category = Category(title: string, tools: seq<Tool>)

  // ---------------------------------------------------------------------
  // The search filter

  /** A tool matches a search when the lower-cased search occurs in its
      lower-cased name or description. */
  predicate Matches(search: string, t: Tool) {
    Includes(Lower(t.name), Lower(search)) || Includes(Lower(t.description), Lower(search))
  }

  function MatchesSearch(search: string): Tool -> bool {
    t => Matches(search, t)
  }

  /** The tools a search keeps: exactly the matching ones. */
  function FilterTools(tools: seq<Tool>, search: string): (r: seq<Tool>)
    ensures |r| <= |tools|
    ensures forall t :: t in r <==> t in tools && Matches(search, t)
  {
    var r := Keep(tools, MatchesSearch(search));
    assert forall t :: t in r ==> t in tools && Matches(search, t) by {
      forall t | t in r
        ensures t in tools && Matches(search, t)
      {
        var i :| 0 <= i < |r| && r[i] == t;
        assert MatchesSearch(search)(r[i]);
      }
    }
    assert forall t :: t in tools && Matches(search, t) ==> t in r by {
      forall t | t in tools && Matches(search, t)
        ensures t in r
      {
        var i :| 0 <= i < |tools| && tools[i] == t;
        assert MatchesSearch(search)(tools[i]);
      }
    }
    r
  }

  /** `filteredCategories`: every category, in order and with its title,
      holding only the tools the search keeps. */
  function FilterCategories(cats: seq<Category>, search: string): (r: seq<Category>)
    ensures |r| == |cats|
    ensures forall i :: 0 <= i < |cats| ==>
              r[i].title == cats[i].title && r[i].tools == FilterTools(cats[i].tools, search)
  {
    seq(|cats|, i requires 0 <= i < |cats| => cats[i].(tools := FilterTools(cats[i].tools, search)))
  }

  /** A category is shown when it holds a tool. */
  predicate HasTools(c: Category) {
    |c.tools| > 0
  }

  /** The categories shown: those with a tool left after filtering. */
  function VisibleCategories(cats: seq<Category>, search: string): (r: seq<Category>)
    ensures forall c :: c in r <==> c in FilterCategories(cats, search) && |c.tools| > 0
  {
    var f := FilterCategories(cats, search);
    var r := Keep(f, HasTools);
    assert forall c :: c in r ==> c in f && |c.tools| > 0 by {
      forall c | c in r
        ensures c in f && |c.tools| > 0
      {
        var i :| 0 <= i < |r| && r[i] == c;
      }
    }
    assert forall c :: c in f && |c.tools| > 0 ==> c in r by {
      forall c | c in f && |c.tools| > 0
        ensures c in r
      {
        var i :| 0 <= i < |f| && f[i] == c;
      }
    }
    r
  }

  /** The search keeps tools in catalogue order: filtering two lists one
      after the other is filtering each. */
  lemma FilterAppend(a: seq<Tool>, b: seq<Tool>, search: string)
    ensures FilterTools(a + b, search) == FilterTools(a, search) + FilterTools(b, search)
  {
    KeepAppend(a, b, MatchesSearch(search));
  }

  /** A single tool is kept exactly when it matches. */
  lemma FilterSingle(t: Tool, search: string)
    ensures FilterTools([t], search) == if Matches(search, t) then [t] else []
  {
    KeepSingle(t, MatchesSearch(search));
  }

  /** Shown categories keep catalogue order: two lists of categories one
      after the other show what each shows. */
  lemma VisibleAppend(a: seq<Category>, b: seq<Category>, search: string)
    ensures VisibleCategories(a + b, search) == VisibleCategories(a, search) + VisibleCategories(b, search)
  {
    assert FilterCategories(a + b, search) == FilterCategories(a, search) + FilterCategories(b, search);
    KeepAppend(FilterCategories(a, search), FilterCategories(b, search), HasTools);
  }

  /** A single category is shown, with its matching tools, exactly when one
      of its tools matches. */
  lemma VisibleSingle(c: Category, search: string)
    ensures VisibleCategories([c], search)
         == if |FilterTools(c.tools, search)| > 0 then [c.(tools := FilterTools(c.tools, search))] else []
  {
    assert FilterCategories([c], search) == [c.(tools := FilterTools(c.tools, search))];
    KeepSingle(c.(tools := FilterTools(c.tools, search)), HasTools);
  }

  /** Every tool matches the empty search. */
  lemma EmptySearchMatches(t: Tool)
    ensures Matches("", t)
  {
    assert Lower("") == "";
    ContainsEmpty(Lower(t.name));
  }

  /** The empty search keeps the whole catalogue. */
  lemma EmptySearchKeepsAll(cats: seq<Category>)
    ensures FilterCategories(cats, "") == cats
  {
    var f := FilterCategories(cats, "");
    forall i | 0 <= i < |cats|
      ensures f[i] == cats[i]
    {
      var tools := cats[i].tools;
      forall j | 0 <= j < |tools|
        ensures MatchesSearch("")(tools[j])
      {
        EmptySearchMatches(tools[j]);
      }
      KeepAll(tools, MatchesSearch(""));
    }
  }

  /** A tool that matches a search matches every part of it. */
  lemma MatchesPart(search: string, part: string, t: Tool)
    requires Contains(search, part) && Matches(search, t)
    ensures Matches(part, t)
  {
    LowerKeepsContains(search, part);
    if Includes(Lower(t.name), Lower(search)) {
      ContainsTransitive(Lower(t.name), Lower(search), Lower(part));
    } else {
      ContainsTransitive(Lower(t.description), Lower(search), Lower(part));
    }
  }

  /** Typing more narrows the result: when `part` occurs in `search`, what
      `search` keeps is what it keeps from `part`'s result, an in-order
      sub-list of it. */
  lemma LongerSearchNarrows(tools: seq<Tool>, part: string, search: string)
    requires Contains(search, part)
    ensures FilterTools(FilterTools(tools, part), search) == FilterTools(tools, search)
    ensures forall t :: t in FilterTools(tools, search) ==> t in FilterTools(tools, part)
  {
    forall i | 0 <= i < |tools| && MatchesSearch(search)(tools[i])
      ensures MatchesSearch(part)(tools[i])
    {
      MatchesPart(search, part, tools[i]);
    }
    KeepKeep(tools, MatchesSearch(search), MatchesSearch(part));
  }

  /** With the empty search the shown categories are the non-empty ones. */
  lemma EmptySearchShowsNonEmpty(cats: seq<Category>)
    ensures forall c :: c in VisibleCategories(cats, "") <==> c in cats && |c.tools| > 0
  {
    EmptySearchKeepsAll(cats);
  }

  // ---------------------------------------------------------------------
  // Every tool, in category order

  /** The number of tools in the catalogue. */
  function ToolCount(cats: seq<Category>): nat
    decreases |cats|
  {
    if |cats| == 0 then 0 else |cats[0].tools| + ToolCount(cats[1..])
  }

  /** `f` of every tool, one list per category. */
  function ToolLists<U>(cats: seq<Category>, f: Tool -> U): (r: seq<seq<U>>)
    ensures |r| == |cats|
    ensures forall k :: 0 <= k < |cats| ==> |r[k]| == |cats[k].tools|
  {
    seq(|cats|, k requires 0 <= k < |cats| =>
      seq(|cats[k].tools|, j requires 0 <= j < |cats[k].tools| => f(cats[k].tools[j])))
  }

  lemma {:induction false} ToolListsLength<U>(cats: seq<Category>, f: Tool -> U)
    ensures TotalLength(ToolLists(cats, f)) == ToolCount(cats)
    decreases |cats|
  {
    if |cats| > 0 {
      assert ToolLists(cats, f)[1..] == ToolLists(cats[1..], f);
      ToolListsLength(cats[1..], f);
    }
  }

  /** Each category's list sits at the offset of the tools before it. */
  lemma FlattenToolLists<U>(cats: seq<Category>, f: Tool -> U, k: nat, j: nat)
    requires k < |cats| && j < |cats[k].tools|
    ensures ToolCount(cats[..k]) + j < |Flatten(ToolLists(cats, f))|
    ensures Flatten(ToolLists(cats, f))[ToolCount(cats[..k]) + j] == f(cats[k].tools[j])
  {
    var lists := ToolLists(cats, f);
    FlattenLayout(lists, k, j);
    assert lists[..k] == ToolLists(cats[..k], f);
    ToolListsLength(cats[..k], f);
  }

  /** The tools before a category and its own are among all the tools. */
  lemma {:induction false} ToolCountPrefix(cats: seq<Category>, k: nat)
    requires k < |cats|
    ensures ToolCount(cats[..k]) + |cats[k].tools| <= ToolCount(cats)
    decreases k
  {
    if k > 0 {
      assert cats[1..][..k - 1] == cats[1..k];
      assert cats[..k][1..] == cats[1..k];
      ToolCountPrefix(cats[1..], k - 1);
    }
  }

  lemma FlattenToolListsLayout<U>(cats: seq<Category>, f: Tool -> U)
    ensures |Flatten(ToolLists(cats, f))| == ToolCount(cats)
    ensures forall k :: 0 <= k < |cats| ==>
              ToolCount(cats[..k]) + |cats[k].tools| <= |Flatten(ToolLists(cats, f))|
    ensures forall k, j :: 0 <= k < |cats| && 0 <= j < |cats[k].tools| ==>
              Flatten(ToolLists(cats, f))[ToolCount(cats[..k]) + j] == f(cats[k].tools[j])
  {
    FlattenLength(ToolLists(cats, f));
    ToolListsLength(cats, f);
    forall k | 0 <= k < |cats|
      ensures ToolCount(cats[..k]) + |cats[k].tools| <= ToolCount(cats)
    {
      ToolCountPrefix(cats, k);
    }
    forall k, j | 0 <= k < |cats| && 0 <= j < |cats[k].tools|
      ensures Flatten(ToolLists(cats, f))[ToolCount(cats[..k]) + j] == f(cats[k].tools[j])
    {
      FlattenToolLists(cats, f, k, j);
    }
  }

  /** `categories.flatMap(c => c.tools.map(f))`: one value per tool, the
      categories' tools one after the other. */
  function EachTool<U>(cats: seq<Category>, f: Tool -> U): (r: seq<U>)
    ensures |r| == ToolCount(cats)
    ensures forall k :: 0 <= k < |cats| ==> ToolCount(cats[..k]) + |cats[k].tools| <= |r|
    ensures forall k, j :: 0 <= k < |cats| && 0 <= j < |cats[k].tools| ==>
              r[ToolCount(cats[..k]) + j] == f(cats[k].tools[j])
  {
    FlattenToolListsLayout(cats, f);
    Flatten(ToolLists(cats, f))
  }
}
