/** What a controller hands back: the response and the database it leaves behind. */
module Http {
  import opened Wrappers
  import opened Models

  /**
   * The status and `message` of the response, the id of the document it
   * reports as created, and the database after the request.
   */
  datatype Outcome = Outcome(status: nat, message: string, created: Option<Id>, db: Db)

  /** A response that touches no data: its status and `message`. */
  datatype Reply = Reply(status: nat, message: string)

  /** The message of every 500 the controllers send from their `catch` blocks. */
  const ServerError := "Server Error"
}
