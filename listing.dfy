/** The values the action receives from the repository-listing query:
    repository nodes, pages of them, and the pagination cursor. */
module Listing {

  datatype Option<+T> = None | Some(value: T)

  datatype Result<+T, +E> = Success(value: T) | Failure(error: E)

  /** The template a repository was generated from: its name and its owner's login. */
  datatype TemplateRepository = TemplateRepository(name: string, ownerLogin: string)

  /** One repository node of a page; `templateRepository` is `None` for a
      repository that was not created from a template (JSON null). */
  datatype Item = Item(
    name: string,
    nameWithOwner: string,
    url: string,
    templateRepository: Option<TemplateRepository>)

  /** The `endCursor` field of an answer as it arrives from the JSON reply:
      absent (read as undefined), JSON null, or a cursor string. */
  datatype EndCursor = Absent | JsonNull | Given(value: string)

  /** One answer of the query: `pageInfo` and the page's nodes. */
  datatype Page = Page(hasNextPage: bool, endCursor: EndCursor, nodes: seq<Item>)

  /** The cursor variable of the loop, which holds a string, null or undefined. */
  datatype Cursor = Null | Undefined | Str(value: string)

  /** Failures of the query, caught once by the action's top-level handler. */
  datatype Error = ApiError(message: string)

  /** The items of `pages`, page after page, in the order the pages come. */
  function Nodes(pages: seq<Page>): seq<Item>
  {
    if pages == [] then [] else pages[0].nodes + Nodes(pages[1..])
  }

  /** Appending a page appends its nodes. */
  lemma {:induction false} NodesAppend(pages: seq<Page>, p: Page)
    ensures Nodes(pages + [p]) == Nodes(pages) + p.nodes
  {
    if pages == [] {
      assert pages + [p] == [p];
    } else {
      assert (pages + [p])[1..] == pages[1..] + [p];
      NodesAppend(pages[1..], p);
    }
  }

  /** An item is among the accumulated nodes exactly when some page holds it. */
  lemma {:induction false} NodesMember(pages: seq<Page>, x: Item)
    ensures x in Nodes(pages) <==> exists k :: 0 <= k < |pages| && x in pages[k].nodes
  {
    if pages != [] {
      NodesMember(pages[1..], x);
      if x in Nodes(pages[1..]) {
        var k :| 0 <= k < |pages[1..]| && x in pages[1..][k].nodes;
        assert x in pages[k + 1].nodes;
      }
      if exists k :: 0 <= k < |pages| && x in pages[k].nodes {
        var k :| 0 <= k < |pages| && x in pages[k].nodes;
        if k > 0 {
          assert x in pages[1..][k - 1].nodes;
        }
      }
    }
  }

  /** The number of items is the sum of the pages' node counts. */
  function NodeCount(pages: seq<Page>): nat
  {
    if pages == [] then 0 else |pages[0].nodes| + NodeCount(pages[1..])
  }

  lemma {:induction false} NodesLength(pages: seq<Page>)
    ensures |Nodes(pages)| == NodeCount(pages)
  {
    if pages != [] {
      NodesLength(pages[1..]);
    }
  }
}
