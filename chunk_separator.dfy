/**
 * The outbound chunk separator (IcapChunkSeparator): one complete ICAP message becomes
 * the head message, its body cut into chunks of at most `chunkSize` bytes, and at most
 * one trailer. Writing to the channel context is appending to the returned sequence.
 */
module IcapChunkSeparator {
  import opened Wrappers
  import opened IcapMessages

  /** What is written to the channel context, in order. */
  datatype Frame =
    | Head(message: IcapMessage)
    | Chunk(content: seq<byte>, isPreviewChunk: bool, isEarlyTermination: bool)
    | Trailer(isPreviewChunk: bool, isEarlyTermination: bool, useOriginalBody: Option<int>)
    | Forwarded(msg: object)

  /**
   * A value snapshot of what the separator reads from a message: the response's own
   * content, getUseOriginalBody (always None on a request), the readable bytes of the
   * embedded response and request (None when there is no such entity), and
   * the preview value.
   */
  datatype MessageView = MessageView(
    isResponse: bool,
    content: Option<seq<byte>>,
    useOriginalBody: Option<int>,
    httpResponseContent: Option<seq<byte>>,
    httpRequestContent: Option<seq<byte>>,
    previewAmount: int)

  /** The body the separator chose, and the tag it gave it with setBody. */
  datatype BodySource = BodySource(element: MessageElement, bytes: seq<byte>)

  predicate IsPreview(v: MessageView)
  {
    v.previewAmount >= 0
  }

  // ---------------------------------------------------------------------------
  // Reading a message on the heap

  /** getUseOriginalBody: only a response carries the directive. */
  function GetUseOriginalBody(m: IcapMessage): (r: Option<int>)
    reads m
    ensures r.Some? <==> m.isResponse && m.useOriginalBody.Some?
    ensures r.Some? ==> r == m.useOriginalBody
  {
    if !m.isResponse then None else m.useOriginalBody
  }

  function ReadableOf(b: ByteBuf?): Option<seq<byte>>
    reads b
  {
    if b == null then None else Some(b.readable)
  }

  function EntityContent(e: HttpEntity?): Option<seq<byte>>
    reads if e == null then null else e.content
  {
    if e == null then None else Some(e.content.readable)
  }

  /** The (non-null) buffers a message can hand to the separator. */
  function Buffers(m: IcapMessage): set<ByteBuf>
    reads m, m.httpRequest, m.httpResponse
  {
    (if m.content != null then {m.content} else {})
    + (if m.httpResponse != null then {m.httpResponse.content} else {})
    + (if m.httpRequest != null then {m.httpRequest.content} else {})
  }

  function View(m: IcapMessage): MessageView
    reads m, m.httpRequest, m.httpResponse, Buffers(m)
  {
    MessageView(
      m.isResponse,
      ReadableOf(m.content),
      GetUseOriginalBody(m),
      EntityContent(m.httpResponse),
      EntityContent(m.httpRequest),
      m.GetPreviewAmount())
  }

  /**
   * The buffer setBodyTypeAndGetContent hands back, read off the heap: the response's own
   * content, else the HTTP response's content, else the HTTP request's, each only when
   * eligible. It is the buffer behind SelectBody's choice.
   */
  function ChosenBuffer(m: IcapMessage): (b: ByteBuf?)
    reads m, m.httpRequest, m.httpResponse, Buffers(m)
    ensures b == null <==> SelectBody(View(m)).None?
    ensures b != null ==> b in Buffers(m) && b.readable == SelectBody(View(m)).value.bytes
    ensures b != null ==>
      && (SelectBody(View(m)).value.element == OptBody ==> b == m.content)
      && (SelectBody(View(m)).value.element == ResBody ==> m.httpResponse != null && b == m.httpResponse.content)
      && (SelectBody(View(m)).value.element == ReqBody ==> m.httpRequest != null && b == m.httpRequest.content)
  {
    var useOriginalBody := m.isResponse && m.useOriginalBody.Some?;
    if m.isResponse && m.content != null then m.content
    else if m.httpResponse != null
            && (|m.httpResponse.content.readable| > 0 || useOriginalBody || m.IsPreviewMessage())
    then m.httpResponse.content
    else if m.httpRequest != null
            && (|m.httpRequest.content.readable| > 0 || useOriginalBody || m.IsPreviewMessage())
    then m.httpRequest.content
    else null
  }

  // ---------------------------------------------------------------------------
  // The specification: choice of body, chunking, frames

  /**
   * An embedded entity's content is sent when it is present and either non-empty, or a
   * Use-Original-Body directive is set, or the message is a preview.
   */
  predicate Qualifies(content: Option<seq<byte>>, useOriginalBody: bool, isPreview: bool)
  {
    content.Some? && (|content.value| > 0 || useOriginalBody || isPreview)
  }

  /** setBodyTypeAndGetContent: a response's own content, else the HTTP response's, else the HTTP request's. */
  function SelectBody(v: MessageView): Option<BodySource>
  {
    if v.isResponse && v.content.Some? then
      Some(BodySource(OptBody, v.content.value))
    else if Qualifies(v.httpResponseContent, v.useOriginalBody.Some?, IsPreview(v)) then
      Some(BodySource(ResBody, v.httpResponseContent.value))
    else if Qualifies(v.httpRequestContent, v.useOriginalBody.Some?, IsPreview(v)) then
      Some(BodySource(ReqBody, v.httpRequestContent.value))
    else
      None
  }

  /** The order in which body sources are tried. */
  const Priority: seq<MessageElement> := [OptBody, ResBody, ReqBody]

  /** The bytes a body source would supply, if it is eligible at all. */
  function Candidate(v: MessageView, element: MessageElement): Option<seq<byte>>
  {
    match element
    case OptBody => if v.isResponse then v.content else None
    case ResBody =>
      if Qualifies(v.httpResponseContent, v.useOriginalBody.Some?, IsPreview(v)) then v.httpResponseContent else None
    case ReqBody =>
      if Qualifies(v.httpRequestContent, v.useOriginalBody.Some?, IsPreview(v)) then v.httpRequestContent else None
    case _ => None
  }

  /** The body is cut by repeatedly taking `chunkSize` bytes while more than that remain, then the rest. */
  function Chunks(body: seq<byte>, chunkSize: int): seq<seq<byte>>
    requires chunkSize > 0
    decreases |body|
  {
    if |body| == 0 then []
    else if |body| > chunkSize then [body[..chunkSize]] + Chunks(body[chunkSize..], chunkSize)
    else [body]
  }

  function Concat(pieces: seq<seq<byte>>): seq<byte>
  {
    if pieces == [] then [] else pieces[0] + Concat(pieces[1..])
  }

  function Min(a: int, b: int): int
  {
    if a <= b then a else b
  }

  function ChunkFrames(pieces: seq<seq<byte>>, isPreview: bool, isEarlyTermination: bool): seq<Frame>
  {
    if pieces == [] then []
    else [Chunk(pieces[0], isPreview, isEarlyTermination)] + ChunkFrames(pieces[1..], isPreview, isEarlyTermination)
  }

  /** Early termination (the "ieof" of a preview) is decided on the whole body, before anything is read. */
  predicate EarlyTermination(v: MessageView, body: seq<byte>)
  {
    IsPreview(v) && |body| < v.previewAmount
  }

  predicate TrailerExpected(v: MessageView, body: seq<byte>)
  {
    |body| > 0 || v.useOriginalBody.Some? || IsPreview(v)
  }

  /** Everything the separator writes after the head message. */
  function BodyFrames(v: MessageView, chunkSize: int): seq<Frame>
    requires chunkSize > 0
  {
    match SelectBody(v)
    case None => []
    case Some(src) =>
      ChunkFrames(Chunks(src.bytes, chunkSize), IsPreview(v), EarlyTermination(v, src.bytes))
      + if TrailerExpected(v, src.bytes)
        then [Trailer(IsPreview(v), EarlyTermination(v, src.bytes), v.useOriginalBody)]
        else []
  }

  // ---------------------------------------------------------------------------
  // Properties of the specification

  /** The chosen body is the first eligible source in priority order, and there is none only when no source is eligible. */
  lemma SelectBodyIsFirstEligible(v: MessageView)
    ensures SelectBody(v).None? <==> forall i :: 0 <= i < |Priority| ==> Candidate(v, Priority[i]).None?
    ensures SelectBody(v).Some? ==>
      exists i :: 0 <= i < |Priority|
        && Priority[i] == SelectBody(v).value.element
        && Candidate(v, Priority[i]) == Some(SelectBody(v).value.bytes)
        && forall j :: 0 <= j < i ==> Candidate(v, Priority[j]).None?
  {
    assert Priority[0] == OptBody && Priority[1] == ResBody && Priority[2] == ReqBody;
    if SelectBody(v).Some? {
      var e := SelectBody(v).value.element;
      var i := if e == OptBody then 0 else if e == ResBody then 1 else 2;
      assert Priority[i] == e;
    }
  }

  /** A response's own content wins even when it is empty, and then nothing follows the head unless a trailer is due. */
  lemma EmptyStandaloneContentIsStillChosen(v: MessageView, chunkSize: int)
    requires chunkSize > 0
    requires v.isResponse && v.content == Some([])
    ensures SelectBody(v) == Some(BodySource(OptBody, []))
    ensures BodyFrames(v, chunkSize) ==
      if v.useOriginalBody.Some? || IsPreview(v)
      then [Trailer(IsPreview(v), EarlyTermination(v, []), v.useOriginalBody)]
      else []
  {
    assert Chunks([], chunkSize) == [];
  }

  /** Concatenating the chunks in order gives the body back. */
  lemma {:induction false} ChunksConcat(body: seq<byte>, chunkSize: int)
    requires chunkSize > 0
    ensures Concat(Chunks(body, chunkSize)) == body
    decreases |body|
  {
    if |body| == 0 {
    } else if |body| > chunkSize {
      var rest := Chunks(body[chunkSize..], chunkSize);
      ChunksConcat(body[chunkSize..], chunkSize);
      assert ([body[..chunkSize]] + rest)[1..] == rest;
      assert body[..chunkSize] + body[chunkSize..] == body;
    } else {
      assert [body][1..] == [];
    }
  }

  /** Every chunk is non-empty and at most `chunkSize` long; all but the last are exactly `chunkSize` long. */
  lemma {:induction false} ChunkSizes(body: seq<byte>, chunkSize: int)
    requires chunkSize > 0
    ensures forall i :: 0 <= i < |Chunks(body, chunkSize)| ==>
      0 < |Chunks(body, chunkSize)[i]| <= chunkSize
      && (i < |Chunks(body, chunkSize)| - 1 ==> |Chunks(body, chunkSize)[i]| == chunkSize)
    decreases |body|
  {
    if |body| > chunkSize {
      ChunkSizes(body[chunkSize..], chunkSize);
      var rest := Chunks(body[chunkSize..], chunkSize);
      forall i | 0 < i < |Chunks(body, chunkSize)|
        ensures Chunks(body, chunkSize)[i] == rest[i - 1]
      {
      }
    }
  }

  /** Chunk i is the byte range [i * chunkSize, min((i + 1) * chunkSize, |body|)) of the body. */
  lemma {:induction false} ChunkAt(body: seq<byte>, chunkSize: int, i: nat)
    requires chunkSize > 0
    requires i < |Chunks(body, chunkSize)|
    ensures i * chunkSize < |body|
    ensures Chunks(body, chunkSize)[i] == body[i * chunkSize .. Min((i + 1) * chunkSize, |body|)]
    decreases |body|
  {
    var n := chunkSize;
    if i == 0 {
    } else {
      var tail := body[n..];
      assert Chunks(body, n)[i] == Chunks(tail, n)[i - 1];
      ChunkAt(tail, n, i - 1);
      var lo, hi := (i - 1) * n, Min(i * n, |tail|);
      assert lo + n == i * n;
      assert hi + n == Min((i + 1) * n, |body|);
      forall k | 0 <= k < hi - lo
        ensures tail[lo..hi][k] == body[lo + n .. hi + n][k]
      {
      }
    }
  }

  /**
   * The number of chunks is the body length divided by `chunkSize`, rounded up: the
   * chunks before the last do not cover the body and all of them together do.
   */
  lemma {:induction false} ChunkCount(body: seq<byte>, chunkSize: int)
    requires chunkSize > 0
    ensures (|Chunks(body, chunkSize)| - 1) * chunkSize < |body| <= |Chunks(body, chunkSize)| * chunkSize
    ensures |Chunks(body, chunkSize)| == (|body| + chunkSize - 1) / chunkSize
    decreases |body|
  {
    var n := chunkSize;
    var k := |Chunks(body, n)|;
    if |body| == 0 {
    } else if |body| > n {
      ChunkCount(body[n..], n);
      assert (k - 1) * n == (k - 2) * n + n && k * n == (k - 1) * n + n;
    } else {
      assert k == 1;
    }
    CeilingIsDivision(|body|, n, k);
  }

  /** k is ceil(x / n) exactly when (k - 1) * n < x <= k * n (for x > 0; k = 0 for x = 0). */
  lemma CeilingIsDivision(x: int, n: int, k: int)
    requires n > 0 && x >= 0 && k >= 0
    requires (k - 1) * n < x <= k * n
    ensures k == (x + n - 1) / n
  {
    var a := x + n - 1;
    assert k * n <= a < k * n + n;
    var q, r := a / n, a % n;
    assert a == q * n + r && 0 <= r < n;
    if q < k {
      assert (k - q) * n >= n by { MulAtLeast(k - q, n); }
      assert false;
    } else if q > k {
      assert (q - k) * n >= n by { MulAtLeast(q - k, n); }
      assert false;
    }
  }

  lemma MulAtLeast(a: int, n: int)
    requires a >= 1 && n > 0
    ensures a * n >= n
  {
  }

  lemma ChunkFramesCons(piece: seq<byte>, pieces: seq<seq<byte>>, isPreview: bool, isEarlyTermination: bool)
    ensures ChunkFrames([piece] + pieces, isPreview, isEarlyTermination)
            == [Chunk(piece, isPreview, isEarlyTermination)] + ChunkFrames(pieces, isPreview, isEarlyTermination)
  {
    assert ([piece] + pieces)[1..] == pieces;
  }

  lemma {:induction false} ChunkFramesAt(pieces: seq<seq<byte>>, isPreview: bool, isEarlyTermination: bool)
    ensures |ChunkFrames(pieces, isPreview, isEarlyTermination)| == |pieces|
    ensures forall i :: 0 <= i < |pieces| ==>
      ChunkFrames(pieces, isPreview, isEarlyTermination)[i] == Chunk(pieces[i], isPreview, isEarlyTermination)
    decreases |pieces|
  {
    if pieces != [] {
      ChunkFramesAt(pieces[1..], isPreview, isEarlyTermination);
    }
  }

  /**
   * After the head come exactly the body's chunks, in order, carrying the body back when
   * concatenated, ceil(L / chunkSize) of them, each at most `chunkSize` long; every chunk
   * and the trailer share the preview and early-termination flags; the trailer, when
   * there is one, is the single last frame and carries getUseOriginalBody.
   */
  lemma BodyFramesShape(v: MessageView, chunkSize: int)
    requires chunkSize > 0
    requires SelectBody(v).Some?
    ensures
      var body := SelectBody(v).value.bytes;
      var frames := BodyFrames(v, chunkSize);
      var pieces := Chunks(body, chunkSize);
      && |pieces| == (|body| + chunkSize - 1) / chunkSize
      && Concat(pieces) == body
      && |frames| == |pieces| + (if TrailerExpected(v, body) then 1 else 0)
      && (forall i :: 0 <= i < |pieces| ==>
            frames[i] == Chunk(pieces[i], IsPreview(v), EarlyTermination(v, body))
            && 0 < |pieces[i]| <= chunkSize)
      && (forall i :: 0 <= i < |frames| ==>
            (frames[i].Trailer? <==> i == |pieces|)
            && !frames[i].Head? && !frames[i].Forwarded?
            && frames[i].isPreviewChunk == IsPreview(v)
            && frames[i].isEarlyTermination == EarlyTermination(v, body))
      && (TrailerExpected(v, body) ==>
            frames[|pieces|] == Trailer(IsPreview(v), EarlyTermination(v, body), v.useOriginalBody))
  {
    var body := SelectBody(v).value.bytes;
    var pieces := Chunks(body, chunkSize);
    ChunkCount(body, chunkSize);
    ChunksConcat(body, chunkSize);
    ChunkSizes(body, chunkSize);
    ChunkFramesAt(pieces, IsPreview(v), EarlyTermination(v, body));
  }

  /** BodyFrames for a chosen source, written out. */
  lemma BodyFramesOfSource(v: MessageView, chunkSize: int, src: BodySource)
    requires chunkSize > 0 && SelectBody(v) == Some(src)
    ensures BodyFrames(v, chunkSize) ==
      ChunkFrames(Chunks(src.bytes, chunkSize), IsPreview(v), EarlyTermination(v, src.bytes))
      + if TrailerExpected(v, src.bytes)
        then [Trailer(IsPreview(v), EarlyTermination(v, src.bytes), v.useOriginalBody)]
        else []
  {
  }

  /**
   * With no body source nothing follows the head. Something does follow whenever a
   * source was chosen and a trailer is due; only an empty standalone response content,
   * without preview or Use-Original-Body, is chosen and still yields nothing.
   */
  lemma NothingFollowsTheHeadWhen(v: MessageView, chunkSize: int)
    requires chunkSize > 0
    ensures BodyFrames(v, chunkSize) == [] <==> SelectBody(v).None? || !TrailerExpected(v, SelectBody(v).value.bytes)
    ensures SelectBody(v).Some? && SelectBody(v).value.element != OptBody ==> TrailerExpected(v, SelectBody(v).value.bytes)
  {
    if SelectBody(v).Some? {
      BodyFramesShape(v, chunkSize);
      var body := SelectBody(v).value.bytes;
      if !TrailerExpected(v, body) {
        assert body == [] && Chunks(body, chunkSize) == [];
      }
    }
  }

  /**
   * A trailer is written exactly when a body source was chosen and the body is non-empty,
   * a Use-Original-Body value is set (0 included), or the message is a preview.
   */
  lemma TrailerExactlyWhen(v: MessageView, chunkSize: int)
    requires chunkSize > 0
    ensures (exists i :: 0 <= i < |BodyFrames(v, chunkSize)| && BodyFrames(v, chunkSize)[i].Trailer?)
      <==> SelectBody(v).Some? && TrailerExpected(v, SelectBody(v).value.bytes)
  {
    if SelectBody(v).Some? {
      BodyFramesShape(v, chunkSize);
      var body := SelectBody(v).value.bytes;
      if TrailerExpected(v, body) {
        assert BodyFrames(v, chunkSize)[|Chunks(body, chunkSize)|].Trailer?;
      }
    }
  }

  /** An OPTIONS response with a 130-byte body and chunk size 64 gives chunks of 64, 64 and 2 bytes and a plain trailer. */
  lemma OptionsResponseExample(body: seq<byte>)
    requires |body| == 130
    ensures
      var v := MessageView(true, Some(body), None, None, None, -1);
      var frames := BodyFrames(v, 64);
      && |frames| == 4
      && frames[0] == Chunk(body[..64], false, false)
      && frames[1] == Chunk(body[64..128], false, false)
      && frames[2] == Chunk(body[128..], false, false)
      && frames[3] == Trailer(false, false, None)
  {
    var v := MessageView(true, Some(body), None, None, None, -1);
    assert SelectBody(v) == Some(BodySource(OptBody, body));
    var last := body[128..];
    assert body[64..][..64] == body[64..128];
    assert body[64..][64..] == last;
    assert Chunks(last, 64) == [last];
    assert Chunks(body[64..], 64) == [body[64..128]] + Chunks(last, 64);
    assert Chunks(body, 64) == [body[..64]] + Chunks(body[64..], 64);
    var pieces := [body[..64], body[64..128], last];
    assert Chunks(body, 64) == pieces;
    ChunkFramesAt(pieces, false, false);
  }

  /**
   * A Use-Original-Body value of 0 counts as set: an empty HTTP response body is still
   * sent, with a trailer carrying Some(0).
   */
  lemma UseOriginalBodyZeroExample(v: MessageView, chunkSize: int)
    requires chunkSize > 0
    requires v.isResponse && v.content.None? && v.useOriginalBody == Some(0)
    requires v.httpResponseContent == Some([]) && !IsPreview(v)
    ensures BodyFrames(v, chunkSize) == [Trailer(false, false, Some(0))]
  {
    assert Chunks([], chunkSize) == [];
  }

  /**
   * The readable bytes left after `passes` runs of the loop body of write, for a chunk
   * size the constructor accepts without complaint (any non-negative one).
   */
  function Remaining(readable: seq<byte>, chunkSize: nat, passes: nat): seq<byte>
    decreases passes
  {
    if passes == 0 || |readable| == 0 then readable
    else if |readable| > chunkSize then Remaining(readable[chunkSize..], chunkSize, passes - 1)
    else Remaining([], chunkSize, passes - 1)
  }

  /** As written, a chunk size of 0 never drains a non-empty buffer: the loop of write does not end. */
  lemma {:induction false} ZeroChunkSizeNeverDrains(readable: seq<byte>, passes: nat)
    requires |readable| > 0
    ensures Remaining(readable, 0, passes) == readable
    decreases passes
  {
    if passes > 0 {
      assert readable[0..] == readable;
      ZeroChunkSizeNeverDrains(readable, passes - 1);
    }
  }

  /** With a positive chunk size the loop drains the buffer after exactly as many passes as there are chunks. */
  lemma {:induction false} PositiveChunkSizeDrains(readable: seq<byte>, chunkSize: nat)
    requires chunkSize > 0
    ensures Remaining(readable, chunkSize, |Chunks(readable, chunkSize)|) == []
    ensures forall passes: nat :: passes < |Chunks(readable, chunkSize)| ==> Remaining(readable, chunkSize, passes) != []
    decreases |readable|
  {
    if |readable| > chunkSize {
      var tail := readable[chunkSize..];
      PositiveChunkSizeDrains(tail, chunkSize);
      assert |Chunks(readable, chunkSize)| == 1 + |Chunks(tail, chunkSize)|;
      forall passes: nat | passes < |Chunks(readable, chunkSize)|
        ensures Remaining(readable, chunkSize, passes) != []
      {
        if passes > 0 {
          assert Remaining(readable, chunkSize, passes) == Remaining(tail, chunkSize, passes - 1);
        }
      }
    } else if |readable| > 0 {
      assert Chunks(readable, chunkSize) == [readable];
      assert Remaining(readable, chunkSize, 1) == Remaining([], chunkSize, 0);
    }
  }

  // ---------------------------------------------------------------------------
  // The separator

  /** Every field of the message except its body tag is as it was. */
  twostate predicate OnlyBodyTagChanged(m: IcapMessage)
    reads m
  {
    && m.refCount == old(m.refCount) && m.version == old(m.version)
    && m.previewHeaderValue == old(m.previewHeaderValue) && m.encapsulated == old(m.encapsulated)
    && m.httpRequest == old(m.httpRequest) && m.httpResponse == old(m.httpResponse)
    && m.content == old(m.content) && m.useOriginalBody == old(m.useOriginalBody)
  }

  class ChunkSeparator {
    const chunkSize: int

    constructor (chunkSize: int)
      ensures this.chunkSize == chunkSize
    {
      this.chunkSize := chunkSize;
    }

    /**
     * write: an ICAP message is separated into frames; anything else is forwarded
     * unchanged. Of the message only the body tag changes, to the element chosen; the
     * chosen buffer is drained and ends up holding one more reference per chunk; every
     * other buffer is as it was.
     */
    method Write(msg: object) returns (written: seq<Frame>)
      requires msg is IcapMessage ==> chunkSize > 0
      modifies if msg is IcapMessage then {msg} + Buffers(msg as IcapMessage) else {}
      ensures !(msg is IcapMessage) ==> written == [Forwarded(msg)]
      ensures msg is IcapMessage ==> var m := msg as IcapMessage;
        written == [Head(m)] + BodyFrames(old(View(m)), chunkSize) && OnlyBodyTagChanged(m)
      ensures msg is IcapMessage ==> var m := msg as IcapMessage;
        old(ChosenBuffer(m)) == null ==> m.body == old(m.body)
      ensures msg is IcapMessage ==> var m := msg as IcapMessage; var chosen := old(ChosenBuffer(m));
        chosen != null ==>
          && m.body == Some(SelectBody(old(View(m))).value.element)
          && chosen.readable == []
          && chosen.refCount == old(chosen.refCount) + |Chunks(SelectBody(old(View(m))).value.bytes, chunkSize)|
      ensures msg is IcapMessage ==> var m := msg as IcapMessage;
        forall b :: b in old(Buffers(m)) && b != old(ChosenBuffer(m)) ==>
          b.readable == old(b.readable) && b.refCount == old(b.refCount)
    {
      if msg is IcapMessage {
        var m := msg as IcapMessage;
        written := WriteMessage(m);
      } else {
        written := [Forwarded(msg)];
      }
    }

    /**
     * The IcapMessage branch of write. The chosen buffer is retained for the duration and
     * released at the end; every chunk slice it hands out holds one more reference, so its
     * count ends up raised by the number of chunks, and its readable bytes are all consumed.
     */
    method WriteMessage(m: IcapMessage) returns (written: seq<Frame>)
      requires chunkSize > 0
      modifies m`body, Buffers(m)
      ensures written == [Head(m)] + BodyFrames(old(View(m)), chunkSize)
      ensures OnlyBodyTagChanged(m)
      ensures old(ChosenBuffer(m)) == null ==> m.body == old(m.body)
      ensures var chosen := old(ChosenBuffer(m));
        chosen != null ==>
          && m.body == Some(SelectBody(old(View(m))).value.element)
          && chosen.readable == []
          && chosen.refCount == old(chosen.refCount) + |Chunks(SelectBody(old(View(m))).value.bytes, chunkSize)|
      ensures forall b :: b in old(Buffers(m)) && b != old(ChosenBuffer(m)) ==>
        b.readable == old(b.readable) && b.refCount == old(b.refCount)
    {
      ghost var v := View(m);
      var content := SetBodyTypeAndGetContent(m);
      assert View(m) == v;
      if content != null {
        content.Retain();
      }
      written := [Head(m)];
      if content != null {
        ghost var body := SelectBody(v).value.bytes;
        var isPreview := m.IsPreviewMessage();
        var isEarlyTerminated := false;
        var useOriginalBody := GetUseOriginalBody(m);
        if isPreview {
          isEarlyTerminated := content.ReadableBytes() < m.GetPreviewAmount();
        }
        var appendTrailer := content.ReadableBytes() > 0 || useOriginalBody.Some? || isPreview;
        assert isPreview == IsPreview(v) && isEarlyTerminated == EarlyTermination(v, body);
        assert useOriginalBody == v.useOriginalBody && appendTrailer == TrailerExpected(v, body);
        var chunks := WriteChunks(content, isPreview, isEarlyTerminated);
        written := written + chunks;
        ghost var trailer := if appendTrailer then [Trailer(isPreview, isEarlyTerminated, useOriginalBody)] else [];
        if appendTrailer {
          written := written + [Trailer(isPreview, isEarlyTerminated, useOriginalBody)];
        }
        assert written == [Head(m)] + (chunks + trailer);
        var _ := content.Release();
        BodyFramesOfSource(v, chunkSize, SelectBody(v).value);
      }
    }

    /**
     * The while loop of write: slice `chunkSize` bytes off the buffer while more than that
     * remain, then the rest, writing each slice as a chunk with the given flags.
     */
    method WriteChunks(content: ByteBuf, isPreview: bool, isEarlyTerminated: bool) returns (written: seq<Frame>)
      requires chunkSize > 0
      modifies content
      ensures written == ChunkFrames(Chunks(old(content.readable), chunkSize), isPreview, isEarlyTerminated)
      ensures |written| == |Chunks(old(content.readable), chunkSize)|
      ensures content.readable == []
      ensures content.refCount == old(content.refCount) + |written|
    {
      written := [];
      while content.ReadableBytes() > 0
        invariant written + ChunkFrames(Chunks(content.readable, chunkSize), isPreview, isEarlyTerminated)
                  == ChunkFrames(Chunks(old(content.readable), chunkSize), isPreview, isEarlyTerminated)
        invariant content.refCount == old(content.refCount) + |written|
        decreases |content.readable|
      {
        ghost var before := content.readable;
        var slice;
        if content.ReadableBytes() > chunkSize {
          slice := content.ReadRetainedSlice(chunkSize);
        } else {
          slice := content.ReadRetainedSlice(content.ReadableBytes());
          assert slice == before && content.readable == [];
        }
        assert Chunks(before, chunkSize) == [slice] + Chunks(content.readable, chunkSize);
        ChunkFramesCons(slice, Chunks(content.readable, chunkSize), isPreview, isEarlyTerminated);
        written := written + [Chunk(slice, isPreview, isEarlyTerminated)];
      }
      assert Chunks(content.readable, chunkSize) == [];
      ChunkFramesAt(Chunks(old(content.readable), chunkSize), isPreview, isEarlyTerminated);
    }

    /** setBodyTypeAndGetContent: pick the body buffer by priority and tag the message's body type. */
    method SetBodyTypeAndGetContent(m: IcapMessage) returns (content: ByteBuf?)
      modifies m`body
      ensures content == old(ChosenBuffer(m))
      ensures content == null <==> SelectBody(View(m)).None?
      ensures content == null ==> m.body == old(m.body)
      ensures content != null ==>
        && content in Buffers(m)
        && content.readable == SelectBody(View(m)).value.bytes
        && m.body == Some(SelectBody(View(m)).value.element)
    {
      if m.isResponse && m.content != null {
        content := m.content;
        var _ := m.SetBody(Some(OptBody));
        return;
      }
      var useOriginalBody := m.isResponse && m.useOriginalBody.Some?;
      // the source's content() != null tests always hold for the model's entities
      if m.httpResponse != null
         && (m.httpResponse.content.ReadableBytes() > 0 || useOriginalBody || m.IsPreviewMessage())
      {
        var _ := m.SetBody(Some(ResBody));
        content := m.httpResponse.content;
        return;
      }
      if m.httpRequest != null
         && (m.httpRequest.content.ReadableBytes() > 0 || useOriginalBody || m.IsPreviewMessage())
      {
        var _ := m.SetBody(Some(ReqBody));
        content := m.httpRequest.content;
        return;
      }
      content := null;
    }
  }
}
