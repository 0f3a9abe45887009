/**
 * The rcl_ret_t codes the action server returns or receives, and the
 * translations it applies to the codes of the rcl calls it delegates to.
 */
module ReturnCodes {
  datatype RclRet =
    | Ok
    | Error
    | BadAlloc
    | InvalidArgument
    | AlreadyInit
    | NodeInvalid
    | ServiceNameInvalid
    | TopicNameInvalid
    | ServiceTakeFailed
    | ActionNameInvalid
    | ActionServerInvalid
    | ActionServerTakeFailed

  /**
   * TAKE_SERVICE_REQUEST: the code of rcl_take_request becomes the server's own.
   * An empty queue is reported as the action-specific take failure, memory
   * exhaustion passes through, and everything else collapses to a generic error.
   */
  function TakeRequestResult(taken: RclRet): (r: RclRet)
    ensures r == Ok <==> taken == Ok
    ensures r == ActionServerTakeFailed <==> taken == ServiceTakeFailed
    ensures r == BadAlloc <==> taken == BadAlloc
    ensures r in {Ok, BadAlloc, ActionServerTakeFailed, Error}
  {
    match taken
    case Ok => Ok
    case BadAlloc => BadAlloc
    case ServiceTakeFailed => ActionServerTakeFailed
    case _ => Error
  }

  /** SEND_SERVICE_RESPONSE and the two publish calls: any failure is a generic error. */
  function ForwardResult(sent: RclRet): (r: RclRet)
    ensures r == Ok <==> sent == Ok
    ensures r in {Ok, Error}
  {
    if sent == Ok then Ok else Error
  }

  /**
   * The translation applied to a failed allocation-backed call (a name lookup,
   * rcl_action_goal_status_array_init, rcl_action_cancel_response_init):
   * memory exhaustion is kept, anything else is a generic error.
   */
  function AllocFailureResult(failed: RclRet): (r: RclRet)
    requires failed != Ok
    ensures r != Ok
    ensures r == BadAlloc <==> failed == BadAlloc
    ensures r in {BadAlloc, Error}
  {
    if failed == BadAlloc then BadAlloc else Error
  }

  /**
   * The failure branch after rcl_action_cancel_response_init as the source
   * writes it.  The assignment of BAD_ALLOC is dead: it is overwritten by the
   * unconditional assignment of ERROR that follows it.
   */
  function ResponseInitResultAsWritten(failed: RclRet): (r: RclRet)
    requires failed != Ok
    ensures r == Error
  {
    Error
  }

  /** The written branch loses exactly the memory-exhaustion code the other call sites keep. */
  lemma ResponseInitLosesBadAlloc()
    ensures ResponseInitResultAsWritten(BadAlloc) != AllocFailureResult(BadAlloc)
    ensures forall f :: f != Ok && f != BadAlloc ==> ResponseInitResultAsWritten(f) == AllocFailureResult(f)
  {
  }
}
