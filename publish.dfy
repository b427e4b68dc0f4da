/** The commit-or-skip step that ends a run: the manifest text read from the
    working copy is compared with its re-serialisation, and only when they
    differ is the change committed and pushed. The YAML library and git are
    not modelled; the serialised text is an input and the git calls are
    recorded as the operations issued, in order. */
module Publish {

  /** One call into the git client. */
  datatype GitOp =
    | AddConfig(key: string, value: string)
    | Add(path: string)
    | Commit(message: string, author: string)
    | Push

  /** The fixed commit message. */
  const CommitMessage: string := "docs: \U{1F4DD} Updating template usage list"

  /** The value passed as the commit's `--author` option, quotes included. */
  function AuthorOption(authorName: string, authorEmail: string): string
  {
    "\"" + authorName + " <" + authorEmail + ">\""
  }

  /** The git operations issued for a manifest read as `original` and
      re-serialised as `serialised`. */
  function PublishSteps(original: string, serialised: string, authorName: string,
                        authorEmail: string, path: string): (ops: seq<GitOp>)
    ensures ops == [] <==> original == serialised
    ensures original != serialised ==>
              |ops| == 5 &&
              ops[..2] == [AddConfig("user.email", authorEmail), AddConfig("user.name", authorName)] &&
              ops[2] == Add(path) &&
              ops[3] == Commit(CommitMessage, AuthorOption(authorName, authorEmail)) &&
              ops[4] == Push
  {
    if original != serialised then
      [AddConfig("user.email", authorEmail), AddConfig("user.name", authorName),
       Add(path), Commit(CommitMessage, AuthorOption(authorName, authorEmail)), Push]
    else
      []
  }
}
