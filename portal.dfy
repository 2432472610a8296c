/** Vocabulary shared by both versions of the job-opportunity portal. */
module Portal {

  /** A session-state entry that may not have been set yet. */
  datatype Option<+T> = None | Some(value: T)

  /** The two pages of the portal; the session's `page` entry holds one of them. */
  datatype Page = Form | Result
}
