/**
 * The decoder state that decides, once the message head is read, whether the body
 * starts with a preview or with ordinary chunks (BodyProcessingDecisionState).
 * Its three callbacks read the decoder's current message and change nothing.
 */
module BodyProcessing {
  import opened Wrappers
  import opened IcapMessages
  import opened IcapDecoding

  /** The states this one can hand over to. */
  datatype StateEnum = PreviewState | ReadChunkSizeState

  /** What execute reports: nothing for the decoder to pass on, or the message itself. */
  datatype StateReturnValue = IrrelevantResult | RelevantResult(value: IcapMessage)

  /** The IllegalArgumentException of onEntry. */
  datatype StateError = NoValidMessage

  function MessageOf(decoder: IcapMessageDecoder<IcapMessage>): set<object>
    reads decoder
  {
    if decoder.message.Some? then {decoder.message.value} else {}
  }

  /** onEntry: the state needs a message to decide on. */
  function OnEntry(decoder: IcapMessageDecoder<IcapMessage>): (r: Outcome<StateError>)
    reads decoder
    ensures r.Fail? <==> decoder.message.None?
    ensures r.Fail? ==> r.error == NoValidMessage
  {
    if decoder.message.None? then Fail(NoValidMessage) else Pass
  }

  /** execute: a preview message yields nothing yet; any other message is passed on. */
  function Execute(decoder: IcapMessageDecoder<IcapMessage>): (r: StateReturnValue)
    requires decoder.message.Some?
    reads decoder, MessageOf(decoder)
    ensures r.IrrelevantResult? <==> decoder.message.value.IsPreviewMessage()
    ensures r.RelevantResult? ==> r.value == decoder.message.value
  {
    if decoder.message.value.IsPreviewMessage() then IrrelevantResult
    else RelevantResult(decoder.message.value)
  }

  /** onExit: a preview message goes on to the preview state, any other to reading the first chunk size. */
  function OnExit(decoder: IcapMessageDecoder<IcapMessage>): (r: StateEnum)
    requires decoder.message.Some?
    reads decoder, MessageOf(decoder)
    ensures r == PreviewState <==> decoder.message.value.IsPreviewMessage()
    ensures r == ReadChunkSizeState <==> !decoder.message.value.IsPreviewMessage()
  {
    if decoder.message.value.IsPreviewMessage() then PreviewState else ReadChunkSizeState
  }

  /** Running onEntry, execute and onExit in turn, as the decoder does when it enters this state. */
  datatype Decision = Decision(result: StateReturnValue, next: StateEnum)

  function Decide(decoder: IcapMessageDecoder<IcapMessage>): (r: Result<Decision, StateError>)
    reads decoder, MessageOf(decoder)
    ensures r.Failure? <==> decoder.message.None?
    ensures r.Failure? ==> r.error == NoValidMessage
    ensures r.Success? ==> (r.value.next == PreviewState <==> decoder.message.value.IsPreviewMessage())
    ensures r.Success? ==> (r.value.result.RelevantResult? <==> r.value.next == ReadChunkSizeState)
    ensures r.Success? && r.value.result.RelevantResult? ==> r.value.result.value == decoder.message.value
  {
    match OnEntry(decoder)
    case Fail(e) => Failure(e)
    case Pass => Success(Decision(Execute(decoder), OnExit(decoder)))
  }

  /**
   * execute and onExit agree: the message is passed on exactly when the decoder goes on
   * to read chunk sizes, and held back exactly when it goes on to the preview. The
   * decision depends only on the Preview header: a message with a non-negative preview
   * value goes to the preview state.
   */
  lemma ExecuteAgreesWithOnExit(decoder: IcapMessageDecoder<IcapMessage>)
    requires decoder.message.Some?
    ensures Execute(decoder).RelevantResult? <==> OnExit(decoder) == ReadChunkSizeState
    ensures Execute(decoder).IrrelevantResult? <==> OnExit(decoder) == PreviewState
    ensures OnExit(decoder) == PreviewState <==> decoder.message.value.GetPreviewAmount() >= 0
  {
  }
}
