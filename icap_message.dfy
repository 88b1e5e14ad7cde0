/**
 * The ICAP message shared by requests and responses (AbstractIcapMessage), with the
 * two Netty collaborators it leans on: reference-counted byte buffers and the embedded
 * HTTP request/response entities.
 */
module IcapMessages {
  import opened Wrappers

  type byte = x: int | 0 <= x < 256

  /** IcapMessageElementEnum: the entity kinds an Encapsulated header can name. */
  datatype MessageElement = ReqHdr | ResHdr | ReqBody | ResBody | OptBody | NullBody

  /**
   * The Encapsulated header descriptor. Only the answer of its containsBodyEntry()
   * (the body entity it names, or null) is part of this model.
   */
  datatype Encapsulated = Encapsulated(bodyEntry: Option<MessageElement>)

  /**
   * A Netty ByteBuf reduced to the bytes between its reader and writer index and its
   * reference count. Reading moves the reader index, so it drops a prefix of `readable`.
   */
  class ByteBuf {
    var readable: seq<byte>
    var refCount: int

    constructor (bytes: seq<byte>)
      ensures readable == bytes && refCount == 1
    {
      readable := bytes;
      refCount := 1;
    }

    function ReadableBytes(): nat
      reads this
    {
      |readable|
    }

    method Retain()
      modifies this`refCount
      ensures refCount == old(refCount) + 1
    {
      refCount := refCount + 1;
    }

    method RetainBy(increment: int)
      modifies this`refCount
      ensures refCount == old(refCount) + increment
    {
      refCount := refCount + increment;
    }

    method Release() returns (freed: bool)
      modifies this`refCount
      ensures refCount == old(refCount) - 1
      ensures freed <==> refCount == 0
    {
      refCount := refCount - 1;
      freed := refCount == 0;
    }

    method ReleaseBy(decrement: int) returns (freed: bool)
      modifies this`refCount
      ensures refCount == old(refCount) - decrement
      ensures freed <==> refCount == 0
    {
      refCount := refCount - decrement;
      freed := refCount == 0;
    }

    /**
     * readRetainedSlice(length): the next `length` readable bytes as a slice that shares
     * this buffer's reference count and holds one reference of its own.
     */
    method ReadRetainedSlice(length: int) returns (slice: seq<byte>)
      requires 0 <= length <= |readable|
      modifies this
      ensures slice == old(readable)[..length]
      ensures readable == old(readable)[length..]
      ensures refCount == old(refCount) + 1
    {
      slice := readable[..length];
      readable := readable[length..];
      refCount := refCount + 1;
    }
  }

  /**
   * A Netty FullHttpRequest (isRequest) or FullHttpResponse embedded in an ICAP message.
   * Like Netty's default full messages it has a content buffer that is never null and no
   * reference count of its own: refCnt, retain and release act on the content.
   */
  class HttpEntity {
    const isRequest: bool
    const content: ByteBuf

    constructor (isRequest: bool, content: ByteBuf)
      ensures this.isRequest == isRequest && this.content == content
    {
      this.isRequest := isRequest;
      this.content := content;
    }

    function RefCnt(): int
      reads content
    {
      content.refCount
    }

    method Retain(increment: int)
      modifies content`refCount
      ensures RefCnt() == old(RefCnt()) + increment
    {
      content.RetainBy(increment);
    }

    method Release(decrement: int) returns (freed: bool)
      modifies content`refCount
      ensures RefCnt() == old(RefCnt()) - decrement
      ensures freed <==> RefCnt() == 0
    {
      freed := content.ReleaseBy(decrement);
    }
  }

  /**
   * An ICAP request or response. The fields `content` and `useOriginalBody` belong to
   * IcapResponse and stay null on a request. The header multimap is reduced to the integer
   * it reports for the Preview header (-1 when there is none).
   */
  class IcapMessage {
    var refCount: int
    var version: string
    var previewHeaderValue: int
    var encapsulated: Option<Encapsulated>
    var httpRequest: HttpEntity?
    var httpResponse: HttpEntity?
    var body: Option<MessageElement>
    const isResponse: bool
    var content: ByteBuf?
    var useOriginalBody: Option<int>

    /**
     * The Java type split, recorded as an invariant: the embedded request and response
     * are kept apart, and requests carry no response-only fields. The constructor
     * establishes it and the setters of the fields it reads keep it (SetHttpRequest,
     * SetHttpResponse, SetContent, SetUseOriginalBody); no other method writes those fields.
     */
    ghost predicate Valid()
      reads this
    {
      && (httpRequest != null ==> httpRequest.isRequest)
      && (httpResponse != null ==> !httpResponse.isRequest)
      && (!isResponse ==> content == null && useOriginalBody.None?)
    }

    constructor (version: string, isResponse: bool)
      ensures Valid()
      ensures RefCnt() == 1
      ensures this.version == version && this.isResponse == isResponse
      ensures GetPreviewAmount() == -1 && !IsPreviewMessage()
      ensures httpRequest == null && httpResponse == null && encapsulated.None? && GetBodyType().None?
      ensures content == null && useOriginalBody.None?
    {
      refCount := 1;
      this.version := version;
      this.isResponse := isResponse;
      previewHeaderValue := -1;
      encapsulated := None;
      httpRequest := null;
      httpResponse := null;
      body := None;
      content := null;
      useOriginalBody := None;
    }

    /** refCnt: the message's own count, which is distinct from its entities' counts. */
    function RefCnt(): (r: int)
      reads this
      ensures r == refCount
    {
      refCount
    }

    /** The Preview header's value, -1 when the header is absent. */
    function GetPreviewAmount(): (r: int)
      reads this
      ensures r == previewHeaderValue
    {
      previewHeaderValue
    }

    predicate IsPreviewMessage()
      reads this
      ensures IsPreviewMessage() <==> GetPreviewAmount() >= 0
    {
      previewHeaderValue >= 0
    }

    /** getProtocolVersion: the version given to the constructor or last set. */
    function GetProtocolVersion(): (r: string)
      reads this
      ensures r == version
    {
      version
    }

    /** getHttpRequest: the embedded request last set, null on a new message. */
    function GetHttpRequest(): (r: HttpEntity?)
      reads this
      ensures r == httpRequest
      ensures r != null && Valid() ==> r.isRequest
    {
      httpRequest
    }

    /** getHttpResponse: the embedded response last set, null on a new message. */
    function GetHttpResponse(): (r: HttpEntity?)
      reads this
      ensures r == httpResponse
      ensures r != null && Valid() ==> !r.isRequest
    {
      httpResponse
    }

    predicate ContainsHttpRequest()
      reads this
      ensures ContainsHttpRequest() <==> GetHttpRequest() != null
    {
      httpRequest != null
    }

    predicate ContainsHttpResponse()
      reads this
      ensures ContainsHttpResponse() <==> GetHttpResponse() != null
    {
      httpResponse != null
    }

    /** getEncapsulatedHeader: the descriptor last set, none on a new message. */
    function GetEncapsulatedHeader(): (r: Option<Encapsulated>)
      reads this
      ensures r == encapsulated
    {
      encapsulated
    }

    /** getBodyType: the Encapsulated descriptor's body entry wins over the value given to setBody. */
    function GetBodyType(): (r: Option<MessageElement>)
      reads this
      ensures GetEncapsulatedHeader().Some? ==> r == GetEncapsulatedHeader().value.bodyEntry
      ensures GetEncapsulatedHeader().None? ==> r == body
    {
      if encapsulated.Some? then encapsulated.value.bodyEntry else body
    }

    /** The content buffers of the embedded entities: where retain and release land besides the message's own count. */
    function EntityBuffers(): set<ByteBuf>
      reads this
    {
      (if httpRequest != null then {httpRequest.content} else {})
      + (if httpResponse != null then {httpResponse.content} else {})
    }

    /**
     * How far a retain or release of `amount` moves buffer b: once for each embedded
     * entity whose content it is (the request and the response may share one buffer).
     */
    function ShareOf(b: ByteBuf, amount: int): int
      reads this
    {
      (if httpRequest != null && httpRequest.content == b then amount else 0)
      + (if httpResponse != null && httpResponse.content == b then amount else 0)
    }

    /** Stands for setting or removing the Preview header in the header container. */
    method SetPreviewHeader(value: int)
      modifies this`previewHeaderValue
      ensures GetPreviewAmount() == value
      ensures IsPreviewMessage() <==> value >= 0
    {
      previewHeaderValue := value;
    }

    method SetProtocolVersion(version: string) returns (self: IcapMessage)
      modifies this`version
      ensures self == this && GetProtocolVersion() == version
    {
      this.version := version;
      self := this;
    }

    method SetHttpRequest(request: HttpEntity?) returns (self: IcapMessage)
      requires Valid()
      requires request != null ==> request.isRequest
      modifies this`httpRequest
      ensures Valid() && self == this
      ensures httpRequest == request
      ensures ContainsHttpRequest() <==> request != null
    {
      httpRequest := request;
      self := this;
    }

    method SetHttpResponse(response: HttpEntity?) returns (self: IcapMessage)
      requires Valid()
      requires response != null ==> !response.isRequest
      modifies this`httpResponse
      ensures Valid() && self == this
      ensures httpResponse == response
      ensures ContainsHttpResponse() <==> response != null
    {
      httpResponse := response;
      self := this;
    }

    method SetEncapsulatedHeader(encapsulated: Option<Encapsulated>) returns (self: IcapMessage)
      modifies this`encapsulated
      ensures self == this && GetEncapsulatedHeader() == encapsulated
      ensures encapsulated.Some? ==> GetBodyType() == encapsulated.value.bodyEntry
      ensures encapsulated.None? ==> GetBodyType() == body
    {
      this.encapsulated := encapsulated;
      self := this;
    }

    /** setBody only shows through getBodyType while no Encapsulated descriptor is set. */
    method SetBody(body: Option<MessageElement>) returns (self: IcapMessage)
      modifies this`body
      ensures self == this && this.body == body
      ensures GetBodyType() == if encapsulated.Some? then old(GetBodyType()) else body
    {
      this.body := body;
      self := this;
    }

    /** Stands for IcapResponse.setContent. */
    method SetContent(content: ByteBuf?)
      requires isResponse
      modifies this`content
      ensures this.content == content
      ensures old(Valid()) ==> Valid()
    {
      this.content := content;
    }

    /** Stands for IcapResponse.setUseOriginalBody; an offset of 0 is a value like any other. */
    method SetUseOriginalBody(useOriginalBody: Option<int>)
      requires isResponse
      modifies this`useOriginalBody
      ensures this.useOriginalBody == useOriginalBody
      ensures old(Valid()) ==> Valid()
    {
      this.useOriginalBody := useOriginalBody;
    }

    /** retain(increment): raise this count, then every present embedded entity's count, by `increment`. */
    method RetainBy(increment: int) returns (self: IcapMessage)
      modifies this`refCount, EntityBuffers()`refCount
      ensures self == this
      ensures RefCnt() == old(RefCnt()) + increment
      ensures forall b :: b in EntityBuffers() ==> b.refCount == old(b.refCount) + ShareOf(b, increment)
    {
      refCount := refCount + increment;
      if httpRequest != null {
        httpRequest.Retain(increment);
      }
      if httpResponse != null {
        httpResponse.Retain(increment);
      }
      self := this;
    }

    method Retain() returns (self: IcapMessage)
      modifies this`refCount, EntityBuffers()`refCount
      ensures self == this
      ensures RefCnt() == old(RefCnt()) + 1
      ensures forall b :: b in EntityBuffers() ==> b.refCount == old(b.refCount) + ShareOf(b, 1)
    {
      refCount := refCount + 1;
      if httpRequest != null {
        httpRequest.Retain(1);
      }
      if httpResponse != null {
        httpResponse.Retain(1);
      }
      self := this;
    }

    /**
     * release(decrement): lower every present embedded entity's count, then this count, by
     * `decrement`; report whether this count is now exactly zero. Nothing guards against
     * going below zero, and a negative count reports false.
     */
    method ReleaseBy(decrement: int) returns (zero: bool)
      modifies this`refCount, EntityBuffers()`refCount
      ensures RefCnt() == old(RefCnt()) - decrement
      ensures zero <==> old(RefCnt()) == decrement
      ensures forall b :: b in EntityBuffers() ==> b.refCount == old(b.refCount) - ShareOf(b, decrement)
    {
      if httpRequest != null {
        var _ := httpRequest.Release(decrement);
      }
      if httpResponse != null {
        var _ := httpResponse.Release(decrement);
      }
      refCount := refCount - decrement;
      zero := refCount == 0;
    }

    method Release() returns (zero: bool)
      modifies this`refCount, EntityBuffers()`refCount
      ensures RefCnt() == old(RefCnt()) - 1
      ensures zero <==> old(RefCnt()) == 1
      ensures forall b :: b in EntityBuffers() ==> b.refCount == old(b.refCount) - ShareOf(b, 1)
    {
      if httpRequest != null {
        var _ := httpRequest.Release(1);
      }
      if httpResponse != null {
        var _ := httpResponse.Release(1);
      }
      refCount := refCount - 1;
      zero := refCount == 0;
    }

    /**
     * touch: a leak-detection hint for the embedded entities; the model's entities keep no
     * hints, so this changes nothing (there is no modifies clause).
     */
    method Touch() returns (self: IcapMessage)
      ensures self == this
    {
      self := this;
    }

    method TouchWithHint(hint: object) returns (self: IcapMessage)
      ensures self == this
    {
      self := this;
    }
  }

  /** retain(n) followed by release(n) gives every count back, and that release reports zero only for a message whose count was 0. */
  method RetainThenReleaseRestores(m: IcapMessage, n: int) returns (zero: bool)
    modifies m`refCount, m.EntityBuffers()`refCount
    ensures m.RefCnt() == old(m.RefCnt())
    ensures zero <==> old(m.RefCnt()) == 0
    ensures forall b :: b in m.EntityBuffers() ==> b.refCount == old(b.refCount)
  {
    var _ := m.RetainBy(n);
    zero := m.ReleaseBy(n);
  }
}
