/**
 * The commit objects handed out by the repository and the normalized record
 * (`CommitDetails`, src/main.rs:10-16) extracted from each of them.
 */
module Commits {
  import opened Wrappers

  /** Commit ids are the hexadecimal object ids; the model treats them as opaque strings. */
  type CommitId = string

  /**
   * A commit object as the repository reports it: the author name is absent when
   * the repository cannot render it as text, and so is the message.
   */
  datatype RawCommit = RawCommit(
    id: CommitId,
    authorName: Option<string>,
    seconds: int,
    message: Option<string>,
    parentIds: seq<CommitId>)

  /** The normalized record that is persisted for each commit. */
  datatype CommitDetails = CommitDetails(
    id: CommitId,
    author: string,
    date: int,
    message: string,
    parents: seq<CommitId>)

  const UnknownAuthor: string := "Unknown"
  const NoMessage: string := "No message"

  /** The text of an optional field, or the fallback when the field is absent. */
  function OrElse(field: Option<string>, fallback: string): (r: string)
    ensures field.Some? ==> r == field.value
    ensures field.None? ==> r == fallback
  {
    match field
    case Some(text) => text
    case None => fallback
  }

  /**
   * Extraction copies the id, the time and the parents (in the order the commit
   * lists them) and substitutes the fallbacks for a missing author or message.
   */
  function ExtractCommitDetails(c: RawCommit): (r: CommitDetails)
    ensures r.id == c.id && r.date == c.seconds && r.parents == c.parentIds
    ensures r.author == UnknownAuthor <==> c.authorName.None? || c.authorName == Some(UnknownAuthor)
    ensures r.message == NoMessage <==> c.message.None? || c.message == Some(NoMessage)
    ensures c.authorName.Some? ==> r.author == c.authorName.value
    ensures c.message.Some? ==> r.message == c.message.value
  {
    CommitDetails(c.id, OrElse(c.authorName, UnknownAuthor), c.seconds, OrElse(c.message, NoMessage), c.parentIds)
  }
}
