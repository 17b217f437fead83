/** What a call to the assignment backend (`assignRfid`, `removeRfid`) can
    come back with. The HTTP transport is not part of this model: the reply
    is handed to the handlers as a parameter. */
module Backend {

  /** Either the call resolved to `{success, message}` (an absent message is
      ""), or it threw (a network error or a non-OK HTTP status). */
  datatype Reply = Answered(success: bool, message: string) | Threw

  /** `res.success` is truthy. */
  predicate Succeeded(reply: Reply) {
    reply.Answered? && reply.success
  }

  /** The text shown when a call did not succeed: `res.message || fallback`
      for an answered failure, the fallback alone when the call threw. */
  function FailureMessage(reply: Reply, fallback: string): (text: string)
    ensures reply.Answered? && reply.message != "" ==> text == reply.message
    ensures reply.Threw? || reply.message == "" ==> text == fallback
    ensures fallback != "" ==> text != ""
  {
    if reply.Answered? && reply.message != "" then reply.message else fallback
  }
}
