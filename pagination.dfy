/** The cursor-paginated listing loop of the action. The query transport is
    abstracted as `responses`: the answers the server gives, in the order the
    requests are made. A request made after the last of them fails, as any
    failing query does. */
module Pagination {
  import opened Listing

  /** The loop ends after page `p`: it has no next page, or it has one but
      its end cursor is absent. */
  predicate Stops(p: Page)
  {
    !p.hasNextPage || p.endCursor.Absent?
  }

  /** The cursor after page `p`: its end cursor while there is a next page
      (undefined when absent, null when JSON null), otherwise undefined. */
  function NextCursor(p: Page): (c: Cursor)
    ensures c == Undefined <==> Stops(p)
    ensures c == Null <==> p.hasNextPage && p.endCursor == JsonNull
    ensures c.Str? ==> p.hasNextPage && p.endCursor == Given(c.value)
    ensures p.hasNextPage && p.endCursor.Given? ==> c == Str(p.endCursor.value)
  {
    if p.hasNextPage then
      match p.endCursor
      case Given(e) => Str(e)
      case JsonNull => Null
      case Absent => Undefined
    else
      Undefined
  }

  /** The cursor the `k`-th request is made with: null for the first request,
      the cursor left by the previous page afterwards. */
  function RequestCursor(responses: seq<Page>, k: nat): Cursor
    requires k <= |responses|
  {
    if k == 0 then Null else NextCursor(responses[k - 1])
  }

  /** How many requests the loop makes: every page up to and including the
      first one that stops, or, when none of the answers stops, one request
      more than there are answers (the one that fails). */
  function RequestCount(responses: seq<Page>): (n: nat)
    ensures 1 <= n <= |responses| + 1
    ensures forall j :: 0 <= j < n - 1 ==> !Stops(responses[j])
    ensures n <= |responses| ==> Stops(responses[n - 1])
  {
    if responses == [] then 1
    else if Stops(responses[0]) then 1
    else 1 + RequestCount(responses[1..])
  }

  /** The items of a complete listing, or the error that ended it. */
  type Fetched = Result<seq<Item>, Error>

  /** The `do … while` loop: request a page with the current cursor, replace
      the cursor by the page's, append the page's nodes, and go on while the
      cursor is not undefined. `sent` records the cursor of every request. */
  method FetchAll(responses: seq<Page>) returns (result: Fetched, sent: seq<Cursor>)
    ensures |sent| == RequestCount(responses)
    ensures |sent| > 0 && sent[0] == Null
    ensures forall k :: 0 < k < |sent| && k <= |responses| ==>
              responses[k - 1].hasNextPage && !responses[k - 1].endCursor.Absent? &&
              sent[k] == (if responses[k - 1].endCursor.Given?
                          then Str(responses[k - 1].endCursor.value) else Null)
    ensures result.Success? <==> |sent| <= |responses|
    ensures result.Success? ==>
              0 < |sent| <= |responses| &&
              Stops(responses[|sent| - 1]) &&
              (forall j :: 0 <= j < |sent| - 1 ==> !Stops(responses[j])) &&
              result.value == Nodes(responses[..|sent|])
    ensures result.Failure? ==> forall j :: 0 <= j < |responses| ==> !Stops(responses[j])
  {
    var items: seq<Item> := [];
    var cursor := Null;
    var i := 0;
    sent := [];
    // The cursor starts as null, so the first request is always made.
    while cursor != Undefined && i < |responses|
      invariant 0 <= i <= |responses|
      invariant |sent| == i
      invariant cursor == RequestCursor(responses, i)
      invariant forall k :: 0 <= k < i ==> sent[k] == RequestCursor(responses, k)
      invariant forall j :: 0 <= j < i - 1 ==> !Stops(responses[j])
      invariant items == Nodes(responses[..i])
      decreases |responses| - i
    {
      sent := sent + [cursor];
      var page := responses[i];
      cursor := NextCursor(page);
      NodesAppend(responses[..i], page);
      assert responses[..i + 1] == responses[..i] + [page];
      items := items + page.nodes;
      i := i + 1;
    }
    if cursor == Undefined {
      result := Success(items);
    } else {
      // A request is made for which the server has no answer.
      sent := sent + [cursor];
      result := Failure(ApiError("no answer to the page request"));
    }
  }

  /** Answers after the first page that stops are never requested: appending
      more of them changes neither the number of requests nor the items. */
  lemma {:induction false} LaterAnswersIgnored(responses: seq<Page>, later: seq<Page>)
    requires exists j :: 0 <= j < |responses| && Stops(responses[j])
    ensures RequestCount(responses + later) == RequestCount(responses)
    ensures Nodes((responses + later)[..RequestCount(responses)])
         == Nodes(responses[..RequestCount(responses)])
  {
    var n := RequestCount(responses);
    assert n <= |responses|;
    RequestCountPrefix(responses, later);
    assert (responses + later)[..n] == responses[..n];
  }

  lemma {:induction false} RequestCountPrefix(responses: seq<Page>, later: seq<Page>)
    requires exists j :: 0 <= j < |responses| && Stops(responses[j])
    ensures RequestCount(responses + later) == RequestCount(responses)
  {
    assert responses != [];
    if !Stops(responses[0]) {
      var j :| 0 <= j < |responses| && Stops(responses[j]);
      assert Stops(responses[1..][j - 1]);
      assert (responses + later)[1..] == responses[1..] + later;
      RequestCountPrefix(responses[1..], later);
    }
  }

  /** A listing of N answers whose first N - 1 announce a next page with an end
      cursor and whose last has no next page is fetched in exactly N requests,
      and every node of every answer is accumulated. */
  lemma ListingFetchedWhole(responses: seq<Page>)
    requires responses != []
    requires forall j :: 0 <= j < |responses| - 1 ==>
               responses[j].hasNextPage && responses[j].endCursor.Given?
    requires !responses[|responses| - 1].hasNextPage
    ensures RequestCount(responses) == |responses|
    ensures Nodes(responses[..RequestCount(responses)]) == Nodes(responses)
  {
    assert responses[..|responses|] == responses;
  }

  /** A page announcing a next page but whose end cursor is absent ends the
      loop just as a last page does. */
  lemma MissingEndCursorStops(responses: seq<Page>, k: nat)
    requires k < |responses|
    requires forall j :: 0 <= j < k ==> !Stops(responses[j])
    requires responses[k].hasNextPage && responses[k].endCursor.Absent?
    ensures NextCursor(responses[k]) == Undefined
    ensures RequestCount(responses) == k + 1
  {
  }

  /** A page announcing a next page with a JSON-null end cursor does not end
      the loop: the next request is made with a null cursor, the same cursor
      as the first request. */
  lemma NullEndCursorRestarts(responses: seq<Page>, k: nat)
    requires k < |responses|
    requires forall j :: 0 <= j < k ==> !Stops(responses[j])
    requires responses[k].hasNextPage && responses[k].endCursor == JsonNull
    ensures RequestCount(responses) > k + 1
    ensures RequestCursor(responses, k + 1) == RequestCursor(responses, 0) == Null
  {
  }

  /** A server that answers every request with the same page, announcing a
      next page with a JSON-null end cursor, is never left: however many
      answers it gives, the loop asks for one more. */
  lemma {:induction false} NullEndCursorNeverStops(p: Page, n: nat)
    requires p.hasNextPage && p.endCursor == JsonNull
    ensures RequestCount(seq(n, _ => p)) == n + 1
  {
    if n > 0 {
      assert seq(n, _ => p)[1..] == seq(n - 1, _ => p);
      NullEndCursorNeverStops(p, n - 1);
    }
  }
}
