/** The five communication channels an action server owns, and the codes their set-up reports. */
module Lifecycle {
  import opened ReturnCodes

  datatype Channel = GoalService | CancelService | ResultService | FeedbackPublisher | StatusPublisher

  predicate IsService(c: Channel) {
    c == GoalService || c == CancelService || c == ResultService
  }

  /** The order in which rcl_action_server_init creates the channels. */
  const InitOrder: seq<Channel> := [GoalService, CancelService, ResultService, FeedbackPublisher, StatusPublisher]

  const AllChannels: set<Channel> := {GoalService, CancelService, ResultService, FeedbackPublisher, StatusPublisher}

  /** Every channel is created exactly once during initialization. */
  lemma InitOrderCoversAll()
    ensures forall c :: c in InitOrder && c in AllChannels
    ensures forall j, k :: 0 <= j < k < |InitOrder| ==> InitOrder[j] != InitOrder[k]
  {
    forall c ensures c in InitOrder && c in AllChannels {
      match c
      case GoalService => assert InitOrder[0] == c;
      case CancelService => assert InitOrder[1] == c;
      case ResultService => assert InitOrder[2] == c;
      case FeedbackPublisher => assert InitOrder[3] == c;
      case StatusPublisher => assert InitOrder[4] == c;
    }
  }

  /**
   * SERVICE_INIT / PUBLISHER_INIT, second half: the code of a failed
   * rcl_service_init or rcl_publisher_init.  An invalid service or topic name
   * is an invalid action name, memory exhaustion passes through, and anything
   * else is a generic error.
   */
  function CreateResult(c: Channel, created: RclRet): (r: RclRet)
    requires created != Ok
    ensures r in {BadAlloc, ActionNameInvalid, Error}
    ensures r == BadAlloc <==> created == BadAlloc
    ensures r == ActionNameInvalid <==>
      (IsService(c) && created == ServiceNameInvalid) || (!IsService(c) && created == TopicNameInvalid)
  {
    if created == BadAlloc then BadAlloc
    else if IsService(c) && created == ServiceNameInvalid then ActionNameInvalid
    else if !IsService(c) && created == TopicNameInvalid then ActionNameInvalid
    else Error
  }

  /**
   * What rcl_action_server_init has written into its freshly allocated, not
   * zeroed, implementation struct when it jumps to its fail label: the channel
   * structs zero-initialised so far, and whether the options, whose allocator
   * rcl_action_server_fini deallocates with, have been copied.
   */
  datatype InitProgress = InitProgress(zeroed: set<Channel>, optionsCopied: bool)

  /**
   * The progress when setting up InitOrder[k] fails: the channels before it
   * are set up, and its own struct is zeroed only once its name lookup has
   * succeeded.  The options are copied after the last failure point.
   */
  function ProgressAtChannelFailure(k: nat, lookupOk: bool): (p: InitProgress)
    requires k < |InitOrder|
    ensures forall j :: 0 <= j < k ==> InitOrder[j] in p.zeroed
    ensures InitOrder[k] in p.zeroed <==> lookupOk
    ensures forall j :: k < j < |InitOrder| ==> InitOrder[j] !in p.zeroed
    ensures !p.optionsCopied
  {
    InitOrderCoversAll();
    InitProgress((set j | 0 <= j < k :: InitOrder[j]) + (if lookupOk then {InitOrder[k]} else {}), false)
  }

  /**
   * The fail path as written: rcl_action_server_fini finalizes all five
   * channel structs and deallocates through the copied allocator.  On a
   * channel failure it reads options that were never copied, and on a failure
   * before the last channel it also finalizes a struct that was never
   * zero-initialised.
   */
  lemma RollbackReadsUninitialised(k: nat, lookupOk: bool)
    requires k < |InitOrder|
    ensures !ProgressAtChannelFailure(k, lookupOk).optionsCopied
    ensures k + 1 < |InitOrder| ==> InitOrder[k + 1] in AllChannels - ProgressAtChannelFailure(k, lookupOk).zeroed
    ensures k + 1 < |InitOrder| ==> !(AllChannels <= ProgressAtChannelFailure(k, lookupOk).zeroed)
  {
    if k + 1 < |InitOrder| {
      InitOrderCoversAll();
      assert InitOrder[k + 1] !in ProgressAtChannelFailure(k, lookupOk).zeroed;
    }
  }
}
