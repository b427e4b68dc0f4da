/** The list of repositories produced by the template: the accumulated items
    are filtered on their template origin, each kept one is rendered as a
    Markdown link, and the links are joined into one bulleted text. */
module TemplateList {
  import opened Listing

  /** The separator the links are joined with. */
  const Bullet: string := "\n* "

  /** `d` was generated from the template `repoName` owned by `org`. */
  predicate FromTemplate(d: Item, repoName: string, org: string)
  {
    d.templateRepository.Some? &&
    d.templateRepository.value.name == repoName &&
    d.templateRepository.value.ownerLogin == org
  }

  /** The items generated from the template, in their original order. */
  function Produced(items: seq<Item>, repoName: string, org: string): (r: seq<Item>)
    ensures |r| <= |items|
    ensures forall d :: d in r ==> d in items && FromTemplate(d, repoName, org)
    ensures forall d :: d in items && FromTemplate(d, repoName, org) ==> d in r
  {
    if items == [] then []
    else
      (if FromTemplate(items[0], repoName, org) then [items[0]] else [])
      + Produced(items[1..], repoName, org)
  }

  /** The filter keeps relative order: it distributes over concatenation. */
  lemma {:induction false} ProducedAppend(a: seq<Item>, b: seq<Item>, repoName: string, org: string)
    ensures Produced(a + b, repoName, org) == Produced(a, repoName, org) + Produced(b, repoName, org)
  {
    if a == [] {
      assert a + b == b;
    } else {
      assert (a + b)[1..] == a[1..] + b;
      ProducedAppend(a[1..], b, repoName, org);
    }
  }

  /** Filtering what was already filtered changes nothing. */
  lemma {:induction false} ProducedIdempotent(items: seq<Item>, repoName: string, org: string)
    ensures Produced(Produced(items, repoName, org), repoName, org) == Produced(items, repoName, org)
  {
    if items != [] {
      var head := if FromTemplate(items[0], repoName, org) then [items[0]] else [];
      var rest := Produced(items[1..], repoName, org);
      ProducedAppend(head, rest, repoName, org);
      ProducedIdempotent(items[1..], repoName, org);
      assert Produced(head, repoName, org) == head by {
        if head != [] {
          assert head[1..] == [];
        }
      }
    }
  }

  /** The Markdown link `[nameWithOwner](url)` of a repository. */
  function Link(d: Item): string
  {
    "[" + d.nameWithOwner + "](" + d.url + ")"
  }

  /** The first index of `c` in `s`, if any. */
  function IndexOf(s: string, c: char): (r: Option<nat>)
    ensures r.Some? ==> r.value < |s| && s[r.value] == c
    ensures r.Some? ==> forall j :: 0 <= j < r.value ==> s[j] != c
    ensures r.None? ==> c !in s
  {
    if s == [] then None
    else if s[0] == c then Some(0)
    else
      match IndexOf(s[1..], c)
      case None => None
      case Some(i) => Some(i + 1)
  }

  /** Reads a link back into its repository name and URL: the name runs up to
      the first `]`, which must be followed by `(`, and the URL up to the
      closing `)`. */
  function ParseLink(s: string): Option<(string, string)>
  {
    if |s| < 4 || s[0] != '[' || s[|s| - 1] != ')' then None
    else
      match IndexOf(s, ']')
      case None => None
      case Some(i) =>
        if i + 2 < |s| && s[i + 1] == '(' then Some((s[1..i], s[i + 2..|s| - 1]))
        else None
  }

  lemma IndexOfAfterPrefix(a: string, c: char, b: string)
    requires c !in a
    ensures IndexOf(a + [c] + b, c) == Some(|a|)
  {
    var s := a + [c] + b;
    assert s[|a|] == c;
    assert s[..|a|] == a;
  }

  /** A link reads back to the repository it was made from, as long as the
      repository's name holds no `]`. */
  lemma ParseLinkRoundTrip(d: Item)
    requires ']' !in d.nameWithOwner
    ensures ParseLink(Link(d)) == Some((d.nameWithOwner, d.url))
  {
    var s := Link(d);
    assert s == "[" + d.nameWithOwner + [']'] + ("(" + d.url + ")");
    IndexOfAfterPrefix("[" + d.nameWithOwner, ']', "(" + d.url + ")");
    assert s[1..|d.nameWithOwner| + 1] == d.nameWithOwner;
    assert s[|d.nameWithOwner| + 3..|s| - 1] == d.url;
  }

  /** The links of the given repositories, in order. */
  function Links(ds: seq<Item>): (r: seq<string>)
    ensures |r| == |ds|
    ensures forall i :: 0 <= i < |ds| ==> r[i] == Link(ds[i])
  {
    if ds == [] then [] else [Link(ds[0])] + Links(ds[1..])
  }

  /** `parts` with `sep` between each two of them; empty for no parts. */
  function Join(parts: seq<string>, sep: string): (r: string)
    ensures parts == [] ==> r == ""
    ensures |parts| == 1 ==> r == parts[0]
  {
    if parts == [] then ""
    else if |parts| == 1 then parts[0]
    else parts[0] + sep + Join(parts[1..], sep)
  }

  /** The text the action builds from the accumulated items. */
  function Output(items: seq<Item>, repoName: string, org: string): string
  {
    Join(Links(Produced(items, repoName, org)), Bullet)
  }

  /** Splits a joined text back into its entries: up to each newline, which
      must be followed by `* `. */
  function SplitEntries(s: string): Option<seq<string>>
    decreases |s|
  {
    match IndexOf(s, '\n')
    case None => Some([s])
    case Some(i) =>
      if i + 3 <= |s| && s[i..i + 3] == Bullet then
        match SplitEntries(s[i + 3..])
        case None => None
        case Some(rest) => Some([s[..i]] + rest)
      else None
  }

  /** Reads the produced text back into the (name, URL) pairs of its links. */
  function ParseOutput(s: string): Option<seq<(string, string)>>
  {
    if s == "" then Some([])
    else
      match SplitEntries(s)
      case None => None
      case Some(entries) => ParseLinks(entries)
  }

  function ParseLinks(entries: seq<string>): Option<seq<(string, string)>>
  {
    if entries == [] then Some([])
    else
      match ParseLink(entries[0])
      case None => None
      case Some(p) =>
        match ParseLinks(entries[1..])
        case None => None
        case Some(ps) => Some([p] + ps)
  }

  /** The (name, URL) pair of each repository. */
  function Pairs(ds: seq<Item>): seq<(string, string)>
  {
    if ds == [] then [] else [(ds[0].nameWithOwner, ds[0].url)] + Pairs(ds[1..])
  }

  /** Well-formed names and URLs: no newline in either, no `]` in the name. */
  predicate Printable(d: Item)
  {
    '\n' !in d.nameWithOwner && '\n' !in d.url && ']' !in d.nameWithOwner
  }

  /** Splitting `head` + `"\n* "` + `rest` yields `head` followed by the
      entries of `rest`, when `head` holds no newline. */
  lemma SplitStep(head: string, rest: string)
    requires '\n' !in head
    ensures SplitEntries(head + Bullet + rest) ==
            match SplitEntries(rest)
            case None => None
            case Some(entries) => Some([head] + entries)
  {
    var s := head + Bullet + rest;
    assert s == head + ['\n'] + ("* " + rest);
    IndexOfAfterPrefix(head, '\n', "* " + rest);
    var i := |head|;
    assert s[i..i + 3] == Bullet;
    assert s[i + 3..] == rest;
    assert s[..i] == head;
  }

  lemma {:induction false} SplitJoin(parts: seq<string>)
    requires parts != []
    requires forall i :: 0 <= i < |parts| ==> '\n' !in parts[i]
    ensures SplitEntries(Join(parts, Bullet)) == Some(parts)
  {
    if |parts| == 1 {
      var s := Join(parts, Bullet);
      assert IndexOf(s, '\n') == None;
      assert parts == [s];
    } else {
      SplitStep(parts[0], Join(parts[1..], Bullet));
      SplitJoin(parts[1..]);
      assert [parts[0]] + parts[1..] == parts;
    }
  }

  lemma {:induction false} ParseLinksOfLinks(ds: seq<Item>)
    requires forall i :: 0 <= i < |ds| ==> Printable(ds[i])
    ensures ParseLinks(Links(ds)) == Some(Pairs(ds))
  {
    if ds != [] {
      ParseLinkRoundTrip(ds[0]);
      assert Links(ds)[1..] == Links(ds[1..]);
      ParseLinksOfLinks(ds[1..]);
    }
  }

  /** The produced text determines exactly which repositories were produced:
      reading it back yields the name and URL of every kept item, in order. */
  lemma OutputRoundTrip(items: seq<Item>, repoName: string, org: string)
    requires forall d :: d in items ==> Printable(d)
    ensures ParseOutput(Output(items, repoName, org)) == Some(Pairs(Produced(items, repoName, org)))
  {
    var kept := Produced(items, repoName, org);
    var links := Links(kept);
    forall i | 0 <= i < |links|
      ensures '\n' !in links[i]
    {
      assert kept[i] in kept;
    }
    forall i | 0 <= i < |kept|
      ensures Printable(kept[i])
    {
      assert kept[i] in kept;
    }
    ParseLinksOfLinks(kept);
    if kept != [] {
      SplitJoin(links);
      assert Join(links, Bullet) != "" by {
        JoinNonEmpty(links);
      }
    }
  }

  lemma {:induction false} JoinNonEmpty(parts: seq<string>)
    requires parts != [] && parts[0] != ""
    ensures Join(parts, Bullet) != ""
  {
  }

  /** The text is empty exactly when no item comes from the template. */
  lemma OutputEmpty(items: seq<Item>, repoName: string, org: string)
    ensures Output(items, repoName, org) == "" <==> forall d :: d in items ==> !FromTemplate(d, repoName, org)
  {
    var kept := Produced(items, repoName, org);
    if kept != [] {
      JoinNonEmpty(Links(kept));
      assert kept[0] in kept;
    }
  }
}
