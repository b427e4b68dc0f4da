# update-sync-for-templates — verified model of the action's logic

The action lists every repository of an organisation through the GitHub
GraphQL API. It lists them page by page with a cursor and keeps the
repositories generated from a given template repository. It renders those as
a bulleted list of Markdown links. It then re-serialises the shared `sync.yml`
manifest, writes it back, and commits and pushes it only when the text
changed. This project models the three parts of `run()` in `src/main.ts` that
have precise behaviour. It proves what each promises.

- `listing.dfy` (module `Listing`): the query's values. These are repository
  nodes (`Item`), pages (`Page`: `hasNextPage`, an `endCursor` that is
  absent, JSON null or a string, and the nodes), the loop's cursor (`Cursor`: a string, null or undefined) and the
  accumulation of nodes across pages (`Nodes`).
- `pagination.dfy` (module `Pagination`): the `do … while` loop as the method
  `FetchAll`. The transport is an abstract page source. It is the sequence of
  answers the server gives, in request order. A request made after the last
  answer fails with an API error, as any failing query does.
- `template_list.dfy` (module `TemplateList`): the filter on the template
  origin, the link rendering and the join with `"\n* "`. A reader
  (`ParseOutput`) is the partner of the join: it recovers the name and URL of
  every listed repository.
- `publish.dfy` (module `Publish`): the commit-or-skip decision. The git calls
  are recorded as the list of operations issued.
- `run.dfy` (module `Action`): one run composed of the three. A query failure
  is caught by the top-level handler and reported as a failed run.

The code does not merge the discovered repositories into the manifest's
groups: the filtered list and its text are computed and then not used
(`src/main.ts:122-125` is commented out). It writes the re-serialised manifest
on every run, even when no repository matches, and decides on the commit only
by comparing texts.

The declared type of `endCursor` (`src/main.ts:13`) is an optional string, but
the answer is JSON, in which a missing cursor can also arrive as `null`. The
model keeps the three cases apart. An absent cursor leaves the loop's cursor
undefined and ends the loop. A null cursor leaves it null, so the loop goes on
and requests again with the first request's cursor.

## Model

| member | source | states |
|---|---|---|
| `Pagination.FetchAll` | src/main.ts:53-91 | The first request is made with a null cursor. Each later request uses the end cursor of the previous page, which announced a next page: that cursor's string, or null when it arrived as JSON null. Requests stop right after the first page with no next page or no end cursor, so at least one page is requested. The items are the nodes of all requested pages, concatenated in request order. If no answer stops the loop, the run fails after one request more than there are answers. |
| `Pagination.NextCursor` | src/main.ts:86-88 | The cursor after a page is undefined exactly when the page has no next page or its end cursor is absent. It is null exactly when the page has a next page and a JSON-null end cursor. Otherwise it is the page's end cursor string. |
| `Pagination.Stops` | src/main.ts:86-91 | Definition: the loop ends after a page with no next page or with an absent end cursor. |
| `Pagination.RequestCursor` | src/main.ts:54-87 | Definition: the first request's cursor is null; each later request's cursor is the one the previous page left. |
| `Pagination.RequestCount` | src/main.ts:56-91 | Characterises the number of requests: at least one, every page before the last requested one continues, and the last requested page stops whenever an answer exists for it. |
| `Pagination.LaterAnswersIgnored` | src/main.ts:86-91 | Once some answer stops the loop, appending more answers changes neither the number of requests nor the accumulated items. |
| `Pagination.ListingFetchedWhole` | src/main.ts:56-91 | If N answers each announce a next page with a cursor except the last, which announces none, exactly N requests are made. All nodes of all N answers are accumulated. |
| `Pagination.MissingEndCursorStops` | src/main.ts:86-91 | A page with `hasNextPage` true but an absent end cursor leaves the cursor undefined. The loop stops after it. |
| `Pagination.NullEndCursorRestarts` | src/main.ts:86-91 | A page with `hasNextPage` true and a JSON-null end cursor does not end the loop. The next request is made with a null cursor, the same as the first request. |
| `Pagination.NullEndCursorNeverStops` | src/main.ts:86-91 | A server that answers every request with such a page is never left: for any number of answers, the loop asks for one more. |
| `Listing.Nodes` | src/main.ts:90 | Definition: the nodes of the pages, page after page. |
| `Listing.NodesAppend` | src/main.ts:90 | Appending a page to the fetched pages appends exactly that page's nodes to the items. |
| `Listing.NodesMember` | src/main.ts:53-90 | An item is among the accumulated items if and only if some fetched page holds it. |
| `Listing.NodesLength` | src/main.ts:90 | The number of accumulated items is the sum of the pages' node counts. |
| `TemplateList.FromTemplate` | src/main.ts:99-102 | Definition: the item has a template whose name is the repository name and whose owner login is the organisation. |
| `TemplateList.Produced` | src/main.ts:97-103 | The result is no longer than the items. An item is in it if and only if it is among the items and has a template whose name is the repository name and whose owner login is the organisation. So an item with a null template is never kept. |
| `TemplateList.ProducedAppend` | src/main.ts:97-103 | The filter distributes over concatenation, so kept items keep their original relative order. |
| `TemplateList.ProducedIdempotent` | src/main.ts:97-103 | Filtering the filtered list again changes nothing. |
| `TemplateList.Link` | src/main.ts:104 | Definition: `[` + name with owner + `](` + URL + `)`. |
| `TemplateList.ParseLinkRoundTrip` | src/main.ts:104 | A rendered `[nameWithOwner](url)` link reads back to exactly that name and URL when the name holds no `]`. |
| `TemplateList.Links` | src/main.ts:104 | One link per kept repository, in the same order, each the rendering of that repository. |
| `TemplateList.Join` | src/main.ts:106 | Joining no parts gives the empty text; joining one part gives that part. |
| `TemplateList.SplitStep` | src/main.ts:106 | A text made of an entry without newlines, the `"\n* "` separator and a rest splits into that entry followed by the entries of the rest. |
| `TemplateList.SplitJoin` | src/main.ts:106 | Parts without newlines, joined with `"\n* "`, split back into exactly those parts. |
| `TemplateList.ParseLinksOfLinks` | src/main.ts:104 | Reading back the links of a list of repositories yields their names and URLs in order. |
| `TemplateList.Output` | src/main.ts:97-106 | Definition: the links of the kept items joined with `"\n* "`; its properties are the two rows below. |
| `TemplateList.OutputRoundTrip` | src/main.ts:97-106 | Reading the produced text back yields the name and URL of every kept repository, in order, when names and URLs hold no newline and names no `]`. |
| `TemplateList.OutputEmpty` | src/main.ts:97-106 | The produced text is empty if and only if no item comes from the template. |
| `Publish.PublishSteps` | src/main.ts:129-141 | No git operation is issued if and only if the manifest text equals its re-serialisation. Otherwise the operations are these, in order: the e-mail and name configuration, staging of the manifest path, one commit with the fixed message and the quoted author, and a push. So equal texts issue nothing, and a push always comes last, after the single commit. |
| `Publish.CommitMessage` | src/main.ts:134 | Definition: the fixed message `docs: ` + U+1F4DD + ` Updating template usage list`. |
| `Publish.AuthorOption` | src/main.ts:135 | Definition: the `--author` value, `"name <email>"` with the double quotes included. |
| `Action.Run` | src/main.ts:31-145 | The run fails if and only if no answer stops the loop. Otherwise the template list is built from exactly the requested pages' nodes. The serialised text is always written back. The git operations are those of the commit-or-skip decision, and some are issued if and only if the text changed. |

## Left out

- GitHub client construction, the token and the GraphQL transport (`src/main.ts:44-47`, `57-85`): network I/O. The server is the abstract sequence of its answers. That sequence does not depend on the cursor value sent; the cursors sent are recorded and proved correct instead.
- A server that never stops announcing pages: the source loops for as long as the server answers. The model has a finite sequence of answers, and a request beyond it fails like any query failure. The endless loop after a JSON-null end cursor is therefore shown for every finite number of answers (`Pagination.NullEndCursorNeverStops`), not as a run that never ends.
- Reading the action's inputs and context, with their defaults for author, organisation, template repository and manifest file (`src/main.ts:33-50`): environment plumbing. These are parameters of `Action.Run`.
- `git.clone` (`src/main.ts:109-111`): a foreign library call, left out entirely. No clone operation is recorded, and the fact that it is not awaited is not modelled.
- `addConfig`, `add`, `commit` and `push` (`src/main.ts:131-137`): foreign library calls. They appear only as the recorded `GitOp` list.
- Reading and writing the manifest file (`src/main.ts:113-115`, `127`): file I/O. The text read and the text written are values of the run.
- `YAML.parse` and `sync.toString()` (`src/main.ts:117`, `127`): the YAML library is not part of this model. Its serialisation is an input string. Line 120 logs `sync.group.repos` through that library's value and is not modelled; nor is whether it can throw.
- The top-level `try/catch` is modelled only for query failures. Failures of file, YAML or git calls are not, because those calls are not modelled. All `core.info` logging is left out.
- A reconciliation of discovered repositories into manifest groups is left out: the code has none.
