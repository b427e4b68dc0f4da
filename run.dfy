/** One run of the action with its collaborators abstracted: the answers of
    the listing query, the manifest text read from disk and the text the YAML
    library serialises it back to. A failure of the query is caught by the
    top-level handler, which reports it and stops the run. */
module Action {
  import opened Listing
  import opened Pagination
  import opened TemplateList
  import opened Publish

  datatype RunOutcome =
    /** The run was reported as failed with this message. */
    | Failed(message: string)
    /** The run finished: the template list it built, the text written back
        to the manifest file and the git operations issued. */
    | Completed(output: string, written: string, ops: seq<GitOp>)

  method Run(responses: seq<Page>, repoName: string, org: string,
             syncYmlContent: string, serialised: string,
             authorName: string, authorEmail: string, syncYmlPath: string)
    returns (outcome: RunOutcome)
    ensures outcome.Failed? <==> forall j :: 0 <= j < |responses| ==> !Stops(responses[j])
    ensures outcome.Completed? ==>
              RequestCount(responses) <= |responses| &&
              outcome.output == Output(Nodes(responses[..RequestCount(responses)]), repoName, org) &&
              outcome.written == serialised &&
              outcome.ops == PublishSteps(syncYmlContent, serialised, authorName, authorEmail, syncYmlPath) &&
              (outcome.ops != [] <==> syncYmlContent != serialised)
  {
    var fetched, sent := FetchAll(responses);
    match fetched
    case Failure(e) =>
      outcome := Failed(e.message);
    case Success(items) =>
      var output := Output(items, repoName, org);
      var ops := PublishSteps(syncYmlContent, serialised, authorName, authorEmail, syncYmlPath);
      outcome := Completed(output, serialised, ops);
  }
}
