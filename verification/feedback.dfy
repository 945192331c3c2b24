/**
  What the pages observe of the outside world: the answer of a remote call and the
  toast notifications they raise. Every toast of both pages is dismissible, so the
  flag is not modelled.
 */
module Feedback {

  /** The `status` field of a Chakra toast. */
  datatype Severity = Success | Error | Warning

  datatype Toast = Toast(title: string, severity: Severity)

  /** How an awaited service call settles: it resolves with an HTTP status and the
      body's `message`, or it throws an error carrying `message`. */
  datatype Reply = Responded(status: int, message: string) | Threw(message: string)

  /** The pages test `res.status === 200`; nothing else counts as success. */
  predicate IsOk(reply: Reply)
  {
    reply.Responded? && reply.status == 200
  }
}
