/**
 * The front end of the ICAP message decoder (IcapMessageDecoder): limit validation and
 * the three-state machine that skips control characters, reads the initial line and
 * creates the message. The helpers of IcapDecoderUtil and the subclass hook
 * createMessage are not part of this model; the decoder is given them as functions,
 * and HonestUtil states the little it relies on. createMessage is declared to throw: it
 * gives None for that case.
 */
module IcapDecoding {
  import opened Wrappers
  import opened IcapMessages

  datatype State = SkipControlChars | ReadIcapInitial | ReadIcapHeader

  /** What readLine can do: return a line and the bytes after it, run out of input, or find the line too long. */
  datatype LineRead = Line(text: string, rest: seq<byte>) | LineNeedsMoreInput | LineTooLong

  /**
   * IcapDecoderUtil's skipControlCharacters (None: every byte was a control character
   * and more input is needed), readLine (bounded by its second argument) and
   * splitInitialLine.
   */
  datatype DecoderUtil = DecoderUtil(
    skipControlCharacters: seq<byte> -> Option<seq<byte>>,
    readLine: (seq<byte>, int) -> LineRead,
    splitInitialLine: string -> seq<string>)

  predicate IsSuffix(r: seq<byte>, s: seq<byte>)
  {
    |r| <= |s| && r == s[|s| - |r|..]
  }

  /** The helpers only consume input, and a line read under a limit is no longer than the limit. */
  ghost predicate HonestUtil(u: DecoderUtil)
  {
    && (forall s :: u.skipControlCharacters(s).Some? ==> IsSuffix(u.skipControlCharacters(s).value, s))
    && (forall s, limit :: u.readLine(s, limit).Line? ==>
          |u.readLine(s, limit).text| <= limit && IsSuffix(u.readLine(s, limit).rest, s))
  }

  /** The IllegalArgumentExceptions of the constructor. */
  datatype LimitError =
    | MaxInitialLineLengthNotPositive(maxInitialLineLength: int)
    | MaxHeaderSizeNotPositive(maxHeaderSize: int)
    | MaxChunkSizeNegative(maxChunkSize: int)

  const DefaultMaxInitialLineLength: int := 4096
  const DefaultMaxHeaderSize: int := 8192
  const DefaultMaxChunkSize: int := 8192

  /**
   * The constructor's checks, in its order: the initial line and header limits must be
   * positive, the chunk limit only non-negative (0 is accepted).
   */
  function CheckLimits(maxInitialLineLength: int, maxHeaderSize: int, maxChunkSize: int): (r: Outcome<LimitError>)
    ensures r.Pass? <==> maxInitialLineLength > 0 && maxHeaderSize > 0 && maxChunkSize >= 0
    ensures r.Fail? ==> match r.error
      case MaxInitialLineLengthNotPositive(x) => x == maxInitialLineLength && x <= 0
      case MaxHeaderSizeNotPositive(x) => x == maxHeaderSize && x <= 0 && maxInitialLineLength > 0
      case MaxChunkSizeNegative(x) => x == maxChunkSize && x < 0 && maxInitialLineLength > 0 && maxHeaderSize > 0
  {
    if maxInitialLineLength <= 0 then Fail(MaxInitialLineLengthNotPositive(maxInitialLineLength))
    else if maxHeaderSize <= 0 then Fail(MaxHeaderSizeNotPositive(maxHeaderSize))
    else if maxChunkSize < 0 then Fail(MaxChunkSizeNegative(maxChunkSize))
    else Pass
  }

  lemma DefaultLimitsAreAccepted()
    ensures CheckLimits(DefaultMaxInitialLineLength, DefaultMaxHeaderSize, DefaultMaxChunkSize) == Pass
  {
  }

  /**
   * What one call of decode gives back: a message (or null), a request for more input,
   * or one of the two exceptions that end it (the initial line is too long, or
   * createMessage threw).
   */
  datatype DecodeResult<M> = Decoded(value: Option<M>) | NeedMoreInput | InitialLineTooLong | MessageCreationFailed

  /** One call of decode: its result, the decoder's new state and message, and the input left after the last checkpoint. */
  datatype Step<M> = Step(result: DecodeResult<M>, state: State, message: Option<M>, rest: seq<byte>)

  /**
   * decode, read as a function of the decoder's state and the available input. The
   * switch falls through: skipping leads straight into reading the initial line, and a
   * created message straight into READ_ICAP_HEADER, which parses nothing yet and returns
   * the current message.
   */
  function DecodeStep<M>(u: DecoderUtil, createMessage: seq<string> -> Option<M>, maxInitialLineLength: int,
                         state: State, message: Option<M>, buffer: seq<byte>): (r: Step<M>)
    ensures HonestUtil(u) ==> IsSuffix(r.rest, buffer)
    ensures r.state != ReadIcapHeader ==> r.message == message
    ensures r.state == ReadIcapHeader ==> r.result == Decoded(r.message)
    ensures r.result.Decoded? && r.result.value.Some? ==> r.state == ReadIcapHeader
  {
    var afterSkip := if state == SkipControlChars then u.skipControlCharacters(buffer) else Some(buffer);
    if afterSkip.None? then
      Step(NeedMoreInput, SkipControlChars, message, [])
    else if state == ReadIcapHeader then
      Step(Decoded(message), ReadIcapHeader, message, buffer)
    else
      match u.readLine(afterSkip.value, maxInitialLineLength)
      case LineNeedsMoreInput => Step(NeedMoreInput, ReadIcapInitial, message, afterSkip.value)
      case LineTooLong => Step(InitialLineTooLong, ReadIcapInitial, message, afterSkip.value)
      case Line(text, rest) =>
        var initialLine := u.splitInitialLine(text);
        if |initialLine| < 3 then
          Step(Decoded(None), SkipControlChars, message, rest)
        else
          match createMessage(initialLine)
          case None => Step(MessageCreationFailed, ReadIcapInitial, message, afterSkip.value)
          case Some(created) => Step(Decoded(Some(created)), ReadIcapHeader, Some(created), rest)
  }

  /** An initial line of fewer than three tokens yields null, resets to SKIP_CONTROL_CHARS and keeps the old message. */
  lemma ShortInitialLineResyncs<M>(u: DecoderUtil, createMessage: seq<string> -> Option<M>, maxInitialLineLength: int,
                                   state: State, message: Option<M>, buffer: seq<byte>, line: string, rest: seq<byte>)
    requires state != ReadIcapHeader
    requires var input := if state == SkipControlChars then u.skipControlCharacters(buffer) else Some(buffer);
      input.Some? && u.readLine(input.value, maxInitialLineLength) == Line(line, rest)
    requires |u.splitInitialLine(line)| < 3
    ensures DecodeStep(u, createMessage, maxInitialLineLength, state, message, buffer)
            == Step(Decoded(None), SkipControlChars, message, rest)
  {
  }

  /**
   * From SKIP_CONTROL_CHARS, one call on a well-formed initial line returns the message
   * created from its tokens and leaves the decoder in READ_ICAP_HEADER holding it.
   */
  lemma ValidInitialLineYieldsNewMessage<M>(u: DecoderUtil, createMessage: seq<string> -> Option<M>, maxInitialLineLength: int,
                                            message: Option<M>, buffer: seq<byte>, afterSkip: seq<byte>,
                                            line: string, rest: seq<byte>)
    requires u.skipControlCharacters(buffer) == Some(afterSkip)
    requires u.readLine(afterSkip, maxInitialLineLength) == Line(line, rest)
    requires |u.splitInitialLine(line)| >= 3
    requires createMessage(u.splitInitialLine(line)).Some?
    ensures var created := createMessage(u.splitInitialLine(line)).value;
      DecodeStep(u, createMessage, maxInitialLineLength, SkipControlChars, message, buffer)
      == Step(Decoded(Some(created)), ReadIcapHeader, Some(created), rest)
  {
  }

  /**
   * When createMessage throws, decode ends with that exception; the decoder keeps its old
   * message and stays in READ_ICAP_INITIAL, checkpointed after the skipped bytes.
   */
  lemma FailedCreationKeepsMessage<M>(u: DecoderUtil, createMessage: seq<string> -> Option<M>, maxInitialLineLength: int,
                                      state: State, message: Option<M>, buffer: seq<byte>, line: string, rest: seq<byte>)
    requires state != ReadIcapHeader
    requires var input := if state == SkipControlChars then u.skipControlCharacters(buffer) else Some(buffer);
      input.Some? && u.readLine(input.value, maxInitialLineLength) == Line(line, rest)
    requires |u.splitInitialLine(line)| >= 3 && createMessage(u.splitInitialLine(line)).None?
    ensures var input := if state == SkipControlChars then u.skipControlCharacters(buffer).value else buffer;
      DecodeStep(u, createMessage, maxInitialLineLength, state, message, buffer)
      == Step(MessageCreationFailed, ReadIcapInitial, message, input)
  {
  }

  /**
   * A skip that runs out of input keeps everything it consumed: nothing is left, the
   * state stays SKIP_CONTROL_CHARS and the message is unchanged.
   */
  lemma ExhaustedSkipConsumesAll<M>(u: DecoderUtil, createMessage: seq<string> -> Option<M>, maxInitialLineLength: int,
                                    message: Option<M>, buffer: seq<byte>)
    requires u.skipControlCharacters(buffer).None?
    ensures DecodeStep(u, createMessage, maxInitialLineLength, SkipControlChars, message, buffer)
            == Step(NeedMoreInput, SkipControlChars, message, [])
  {
  }

  /**
   * Once the skip is done, the checkpoint moves to READ_ICAP_INITIAL: an initial line that
   * is incomplete or too long leaves the decoder there, with the input from just after the
   * skipped bytes still to be read.
   */
  lemma SkipIsCheckpointed<M>(u: DecoderUtil, createMessage: seq<string> -> Option<M>, maxInitialLineLength: int,
                              message: Option<M>, buffer: seq<byte>, afterSkip: seq<byte>)
    requires u.skipControlCharacters(buffer) == Some(afterSkip)
    requires u.readLine(afterSkip, maxInitialLineLength).LineNeedsMoreInput?
             || u.readLine(afterSkip, maxInitialLineLength).LineTooLong?
    ensures var r := DecodeStep(u, createMessage, maxInitialLineLength, SkipControlChars, message, buffer);
      && r.state == ReadIcapInitial && r.message == message && r.rest == afterSkip
      && (r.result == NeedMoreInput <==> u.readLine(afterSkip, maxInitialLineLength).LineNeedsMoreInput?)
      && (r.result == InitialLineTooLong <==> u.readLine(afterSkip, maxInitialLineLength).LineTooLong?)
  {
  }

  /** In READ_ICAP_HEADER decode consumes nothing and returns the current message. */
  lemma HeaderStateConsumesNothing<M>(u: DecoderUtil, createMessage: seq<string> -> Option<M>, maxInitialLineLength: int,
                                      message: Option<M>, buffer: seq<byte>)
    ensures DecodeStep(u, createMessage, maxInitialLineLength, ReadIcapHeader, message, buffer)
            == Step(Decoded(message), ReadIcapHeader, message, buffer)
  {
  }

  /**
   * A message that decode creates comes from an initial line of at most
   * maxInitialLineLength characters that split into at least three tokens.
   */
  lemma CreatedMessageHasBoundedInitialLine<M>(u: DecoderUtil, createMessage: seq<string> -> Option<M>, maxInitialLineLength: int,
                                               state: State, message: Option<M>, buffer: seq<byte>)
    requires HonestUtil(u)
    requires state != ReadIcapHeader
    requires DecodeStep(u, createMessage, maxInitialLineLength, state, message, buffer).state == ReadIcapHeader
    ensures exists line: string ::
      && |line| <= maxInitialLineLength
      && |u.splitInitialLine(line)| >= 3
      && createMessage(u.splitInitialLine(line)).Some?
      && DecodeStep(u, createMessage, maxInitialLineLength, state, message, buffer).message
         == createMessage(u.splitInitialLine(line))
  {
    var input := if state == SkipControlChars then u.skipControlCharacters(buffer).value else buffer;
    var read := u.readLine(input, maxInitialLineLength);
    assert read.Line?;
    assert |read.text| <= maxInitialLineLength;
  }

  class IcapMessageDecoder<M> {
    const maxInitialLineLength: int
    const maxHeaderSize: int
    const maxChunkSize: int
    const util: DecoderUtil
    const createMessage: seq<string> -> Option<M>
    var state: State
    var message: Option<M>

    /** The limits were accepted by the constructor. */
    ghost predicate Valid()
    {
      CheckLimits(maxInitialLineLength, maxHeaderSize, maxChunkSize) == Pass
    }

    constructor (maxInitialLineLength: int, maxHeaderSize: int, maxChunkSize: int,
                 util: DecoderUtil, createMessage: seq<string> -> Option<M>)
      requires CheckLimits(maxInitialLineLength, maxHeaderSize, maxChunkSize) == Pass
      ensures Valid()
      ensures this.maxInitialLineLength == maxInitialLineLength
      ensures this.maxHeaderSize == maxHeaderSize && this.maxChunkSize == maxChunkSize
      ensures this.util == util && this.createMessage == createMessage
      ensures state == SkipControlChars && message.None?
    {
      this.maxInitialLineLength := maxInitialLineLength;
      this.maxHeaderSize := maxHeaderSize;
      this.maxChunkSize := maxChunkSize;
      this.util := util;
      this.createMessage := createMessage;
      state := SkipControlChars;
      message := None;
    }

    /** The no-argument constructor: limits 4096, 8192 and 8192. */
    constructor Default(util: DecoderUtil, createMessage: seq<string> -> Option<M>)
      ensures Valid()
      ensures maxInitialLineLength == 4096 && maxHeaderSize == 8192 && maxChunkSize == 8192
      ensures this.util == util && this.createMessage == createMessage
      ensures state == SkipControlChars && message.None?
    {
      maxInitialLineLength := DefaultMaxInitialLineLength;
      maxHeaderSize := DefaultMaxHeaderSize;
      maxChunkSize := DefaultMaxChunkSize;
      this.util := util;
      this.createMessage := createMessage;
      state := SkipControlChars;
      message := None;
    }

    /** The constructor with its exceptions: an invalid limit is reported instead of a decoder. */
    static method Create(maxInitialLineLength: int, maxHeaderSize: int, maxChunkSize: int,
                         util: DecoderUtil, createMessage: seq<string> -> Option<M>)
      returns (r: Result<IcapMessageDecoder<M>, LimitError>)
      ensures r.Failure? <==> CheckLimits(maxInitialLineLength, maxHeaderSize, maxChunkSize).Fail?
      ensures r.Failure? ==> r.error == CheckLimits(maxInitialLineLength, maxHeaderSize, maxChunkSize).error
      ensures r.Success? ==>
        && fresh(r.value) && r.value.Valid()
        && r.value.maxInitialLineLength == maxInitialLineLength
        && r.value.maxHeaderSize == maxHeaderSize && r.value.maxChunkSize == maxChunkSize
        && r.value.state == SkipControlChars && r.value.message.None?
    {
      var check := CheckLimits(maxInitialLineLength, maxHeaderSize, maxChunkSize);
      if check.Fail? {
        r := Failure(check.error);
      } else {
        var decoder := new IcapMessageDecoder(maxInitialLineLength, maxHeaderSize, maxChunkSize, util, createMessage);
        r := Success(decoder);
      }
    }

    /**
     * decode on the bytes available now. `rest` is the input from the last checkpoint on:
     * the bytes that the next call sees first.
     */
    method Decode(buffer: seq<byte>) returns (result: DecodeResult<M>, rest: seq<byte>)
      modifies this
      ensures Step(result, state, message, rest)
              == DecodeStep(util, createMessage, maxInitialLineLength, old(state), old(message), buffer)
    {
      var input := buffer;
      if state == SkipControlChars {
        var skipped := util.skipControlCharacters(input);
        if skipped.None? {
          // the skipped bytes stay consumed (checkpoint in the finally block); the state does not move
          result, rest := NeedMoreInput, [];
          return;
        }
        input := skipped.value;
        state := ReadIcapInitial;
      }
      if state == ReadIcapInitial {
        var read := util.readLine(input, maxInitialLineLength);
        match read {
          case LineNeedsMoreInput =>
            result, rest := NeedMoreInput, input;
            return;
          case LineTooLong =>
            result, rest := InitialLineTooLong, input;
            return;
          case Line(text, after) =>
            var initialLine := util.splitInitialLine(text);
            if |initialLine| < 3 {
              // invalid initial line: ignored
              state := SkipControlChars;
              result, rest := Decoded(None), after;
              return;
            }
            var created := createMessage(initialLine);
            if created.None? {
              // createMessage threw
              result, rest := MessageCreationFailed, input;
              return;
            }
            message := created;
            state := ReadIcapHeader;
            input := after;
        }
      }
      result, rest := Decoded(message), input;
    }
  }
}
