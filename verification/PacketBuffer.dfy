/** The header/body receiver of packet_buffer.c.  `Receive` is what its callers do: read a chunk
    into the buffer at the current index, then report the chunk's length. */
module PacketBuffer {
  import opened Basics

  datatype RecvState = InProgress | HeaderComplete | BodyComplete

  datatype BufferState = Header | Body

  /** A message as the chunks it arrives in. */
  datatype Message = Message(header: seq<seq<Byte>>, body: seq<seq<Byte>>)

  ghost function Flatten(chunks: seq<seq<Byte>>): seq<Byte> {
    if chunks == [] then [] else Flatten(chunks[..|chunks| - 1]) + chunks[|chunks| - 1]
  }

  lemma FlattenNone(chunks: seq<seq<Byte>>)
    ensures Flatten(chunks[..0]) == []
  {
  }

  lemma FlattenNext(chunks: seq<seq<Byte>>, i: nat)
    requires i < |chunks|
    ensures Flatten(chunks[..i + 1]) == Flatten(chunks[..i]) + chunks[i]
  {
    assert chunks[..i + 1][..i] == chunks[..i];
  }

  lemma {:induction false} FlattenPrefix(chunks: seq<seq<Byte>>, i: nat)
    requires i <= |chunks|
    ensures |Flatten(chunks[..i])| <= |Flatten(chunks)|
    decreases |chunks| - i
  {
    if i == |chunks| {
      assert chunks[..i] == chunks;
    } else {
      FlattenPrefix(chunks, i + 1);
      FlattenNext(chunks, i);
    }
  }

  method TotalLength(chunks: seq<seq<Byte>>) returns (n: nat)
    ensures n == |Flatten(chunks)|
  {
    n := 0;
    for i := 0 to |chunks|
      invariant n == |Flatten(chunks[..i])|
    {
      FlattenNext(chunks, i);
      n := n + |chunks[i]|;
    }
    assert chunks[..|chunks|] == chunks;
  }

  /** The length of the body before message `i`. */
  ghost function LengthBefore(messages: seq<Message>, i: nat, start: nat): nat
    requires i <= |messages|
  {
    if i == 0 then start else |Flatten(messages[i - 1].body)|
  }

  lemma LengthBeforeIs(messages: seq<Message>, i: nat, start: nat)
    requires i <= |messages|
    ensures i == 0 ==> LengthBefore(messages, i, start) == start
    ensures i > 0 ==> LengthBefore(messages, i, start) == |Flatten(messages[i - 1].body)|
  {
  }

  /** What the header buffer and the body buffer hold after a message, unless its bytes went past
      the end of a buffer. */
  datatype Landing = Overflow | Landed(header: seq<Byte>, body: seq<Byte>)

  /** Where a message ends up after a body of `before` bytes, with `kept` in the body buffer. */
  ghost function Land(header: seq<Byte>, body: seq<Byte>, before: nat, kept: seq<Byte>): Landing {
    if |body| > before then Landed(header, body)
    else if |body| > |header| then Overflow
    else Landed(body + header[|body|..], kept)
  }

  /** Both parts of the message can be read back from their buffers. */
  ghost predicate Assembled(header: seq<Byte>, body: seq<Byte>, l: Landing) {
    l.Landed? && l.header == header && |l.body| >= |body| && l.body[..|body|] == body
  }

  /** Messages of given lengths are assembled whatever their bytes are, exactly when the body is
      longer than the last one or empty. */
  lemma AssembledIff(headerLen: nat, len: nat, before: nat)
    ensures (forall header, body, kept :: |header| == headerLen && |body| == len && |kept| >= before ==>
               Assembled(header, body, Land(header, body, before, kept)))
            <==> len > before || len == 0
  {
    if 0 < len <= before {
      var header, body := seq(headerLen, _ => 0 as Byte), seq(len, _ => 1 as Byte);
      var kept := seq(before, _ => 0 as Byte);
      if len <= headerLen {
        assert Land(header, body, before, kept).header[0] == 1 != header[0];
      }
      assert !Assembled(header, body, Land(header, body, before, kept));
    }
  }

  lemma AssembledAfter(header: seq<Byte>, body: seq<Byte>, before: nat, kept: seq<Byte>)
    requires |body| > before || |body| == 0
    ensures Assembled(header, body, Land(header, body, before, kept))
  {
  }

  class Packet {
    var headerLen: nat
    var headerBuffer: array<Byte>
    var bodyLen: nat
    var body: array?<Byte>
    var index: int
    var reqLen: int
    var buf: array<Byte>
    var state: BufferState

    /** The length of the section being received. */
    function Section(): nat
      reads this
    {
      if state == Header then headerLen else bodyLen
    }

    ghost predicate Owned()
      reads this
    {
      && headerBuffer.Length == headerLen
      && (body != null ==> body != headerBuffer && body.Length >= bodyLen)
      && (body == null ==> bodyLen == 0)
      && (buf == headerBuffer || buf == body)
    }

    /** What remains to be received, and room for it. */
    ghost predicate Valid()
      reads this
    {
      Owned() && 0 <= index && 0 <= reqLen && index + reqLen == Section() <= buf.Length
    }

    /** The bytes of the body buffer. */
    ghost function Kept(): seq<Byte>
      reads this, body
    {
      if body == null then [] else body[..]
    }

    /** The bytes of the section received so far. */
    ghost function Received(): seq<Byte>
      requires Valid()
      reads this, buf
    {
      buf[..index]
    }

    constructor (headerLen: nat)
      ensures Valid() && fresh(headerBuffer) && this.headerLen == headerLen && bodyLen == 0 && body == null
      ensures state == Header && index == 0 && reqLen == headerLen && buf == headerBuffer
    {
      var header := new Byte[headerLen](_ => 0);
      body := null;
      bodyLen := 0;
      this.headerLen := headerLen;
      headerBuffer := header;
      index := 0;
      reqLen := headerLen;
      buf := header;
      state := Header;
    }

    /** `packet_buffer_update_header`: start receiving a header. */
    method UpdateHeader()
      requires Owned()
      modifies this`index, this`reqLen, this`buf, this`state
      ensures Valid() && state == Header && index == 0 && reqLen == headerLen && buf == headerBuffer
    {
      index := 0;
      reqLen := headerLen;
      buf := headerBuffer;
      state := Header;
    }

    /** `packet_buffer_update_index`, for any reported length. */
    method UpdateIndex(len: int) returns (code: RecvState)
      modifies this`index, this`reqLen
      ensures index == old(index) + len
      ensures reqLen == if index <= Section() then Section() - index else 0
      ensures code == if index < Section() then InProgress else if state == Header then HeaderComplete else BodyComplete
    {
      index := index + len;
      if state == Header {
        reqLen := headerLen - index;
      } else if state == Body {
        reqLen := bodyLen - index;
      }
      if reqLen > 0 {
        return InProgress;
      }
      if reqLen < 0 {
        reqLen := 0;
      }
      if state == Body {
        code := BodyComplete;
      } else {
        code := HeaderComplete;
      }
    }

    /** `packet_buffer_update_body`; `memory` is whether the allocator can serve a larger body.
        The buffer is redirected to the body exactly when the body grows; after a header, the body
        fits where it is directed exactly when it grows or is no longer than a header. */
    method UpdateBody(len: nat, memory: bool) returns (code: int)
      requires Owned()
      modifies this`body, this`buf, this`index, this`reqLen, this`bodyLen, this`state
      ensures Owned() && code == if len > old(bodyLen) && !memory then -1 else 0
      ensures code != 0 ==> body == old(body) && buf == old(buf) && index == old(index) && reqLen == old(reqLen)
                            && bodyLen == old(bodyLen) && state == old(state)
      ensures code == 0 ==> state == Body && index == 0 && reqLen == bodyLen == len
      ensures code == 0 && len > old(bodyLen) ==> body != null && fresh(body) && body.Length == len && buf == body
      ensures code == 0 && len <= old(bodyLen) ==> body == old(body) && buf == old(buf)
      ensures code == 0 && old(buf) == headerBuffer ==> (Valid() <==> len > old(bodyLen) || len <= headerLen)
    {
      if len > bodyLen {
        if !memory {
          return -1;
        }
        var grown := new Byte[len](_ => 0);
        for i := 0 to bodyLen
          invariant body == old(body) && bodyLen == old(bodyLen) && fresh(grown)
          invariant forall k :: 0 <= k < i ==> grown[k] == old(body)[k]
        {
          grown[i] := body[i];
        }
        body := grown;
        buf := grown;
      }
      index := 0;
      reqLen := len;
      bodyLen := len;
      state := Body;
      return 0;
    }

    /** Read a chunk into the buffer and report it. */
    method Receive(chunk: seq<Byte>) returns (code: RecvState)
      requires Valid() && |chunk| <= reqLen
      modifies this`index, this`reqLen, buf
      ensures Valid() && Section() == old(Section())
      ensures Received() == old(Received()) + chunk
      ensures forall k :: index <= k < buf.Length ==> buf[k] == old(buf[k])
      ensures index == old(index) + |chunk|
      ensures code == if index < Section() then InProgress else if state == Header then HeaderComplete else BodyComplete
    {
      for i := 0 to |chunk|
        invariant Valid() && index == old(index) && reqLen == old(reqLen)
        invariant buf[..index + i] == old(buf[..index]) + chunk[..i]
        invariant forall k :: index + i <= k < buf.Length ==> buf[k] == old(buf[k])
      {
        buf[index + i] := chunk[i];
        assert buf[..index + i + 1] == buf[..index + i] + [chunk[i]];
      }
      code := UpdateIndex(|chunk|);
    }

    /** Any number of chunks: the bytes received do not depend on how the stream is cut, and
        completion is reported exactly by the chunks at or after the section's last byte. */
    method Feed(chunks: seq<seq<Byte>>) returns (codes: seq<RecvState>)
      requires Valid() && |Flatten(chunks)| <= reqLen
      modifies this`index, this`reqLen, buf
      ensures Valid() && Section() == old(Section())
      ensures Received() == old(Received()) + Flatten(chunks)
      ensures forall k :: index <= k < buf.Length ==> buf[k] == old(buf[k])
      ensures index == old(index) + |Flatten(chunks)|
      ensures |codes| == |chunks| && forall i :: 0 <= i < |chunks| ==>
                codes[i] == if old(index) + |Flatten(chunks[..i + 1])| < Section() then InProgress
                            else if state == Header then HeaderComplete else BodyComplete
    {
      hide Flatten;
      codes := [];
      FlattenNone(chunks);
      for i := 0 to |chunks|
        invariant Valid() && |codes| == i
        invariant index == old(index) + |Flatten(chunks[..i])|
        invariant Received() == old(Received()) + Flatten(chunks[..i])
        invariant forall k :: index <= k < buf.Length ==> buf[k] == old(buf[k])
        invariant forall k :: 0 <= k < i ==>
                    codes[k] == if old(index) + |Flatten(chunks[..k + 1])| < Section() then InProgress
                                else if state == Header then HeaderComplete else BodyComplete
      {
        FlattenNext(chunks, i);
        FlattenPrefix(chunks, i + 1);
        var code := Receive(chunks[i]);
        codes := codes + [code];
      }
      assert chunks[..|chunks|] == chunks;
    }

    method ReceiveHeader(chunks: seq<seq<Byte>>)
      requires Owned() && |Flatten(chunks)| == headerLen
      modifies this`index, this`reqLen, this`buf, this`state, headerBuffer
      ensures Valid() && buf == headerBuffer && headerBuffer[..] == Flatten(chunks)
    {
      hide Flatten;
      UpdateHeader();
      var _ := Feed(chunks);
      assert headerBuffer[..] == headerBuffer[..index];
    }

    /** After a header: receive a body where `packet_buffer_update_body` directs it.  The model stops
        before the first byte of a body that would run past the header buffer. */
    method ReceiveBody(chunks: seq<seq<Byte>>) returns (safe: bool)
      requires Owned() && buf == headerBuffer
      modifies this`body, this`buf, this`index, this`reqLen, this`bodyLen, this`state, headerBuffer
      ensures safe <==> |Flatten(chunks)| > old(bodyLen) || |Flatten(chunks)| <= headerLen
      ensures Owned() && bodyLen == |Flatten(chunks)|
      ensures safe ==> Valid() && index == bodyLen && reqLen == 0
      ensures safe ==> Landed(headerBuffer[..], Kept()) ==
                       Land(old(headerBuffer[..]), Flatten(chunks), old(bodyLen), old(Kept()))
      ensures !safe ==> !Valid() && buf == headerBuffer && index == 0 && reqLen == bodyLen > buf.Length
    {
      hide Flatten;
      var len := TotalLength(chunks);
      safe := len > bodyLen || len <= headerLen;
      var _ := UpdateBody(len, true);
      if safe {
        ghost var kept := Kept();
        var _ := Feed(chunks);
        assert buf[..index] == Flatten(chunks);
        if len > old(bodyLen) {
          assert Kept() == Flatten(chunks);
        } else {
          assert Kept() == kept;
          assert headerBuffer[..] == headerBuffer[..index] + headerBuffer[index..];
        }
      }
    }

    /** One message: its header, then its body, each in any number of chunks.  Both buffers end up
        as `Land` says; when it says that the body overflows, the code is about to write more bytes
        than its buffer has. */
    method ReceiveMessage(headerChunks: seq<seq<Byte>>, bodyChunks: seq<seq<Byte>>) returns (safe: bool)
      requires Owned() && |Flatten(headerChunks)| == headerLen
      modifies this, headerBuffer
      ensures Owned() && headerBuffer == old(headerBuffer) && headerLen == old(headerLen)
      ensures bodyLen == |Flatten(bodyChunks)|
      ensures var l := Land(Flatten(headerChunks), Flatten(bodyChunks), old(bodyLen), old(Kept()));
              if safe then Valid() && index == bodyLen && reqLen == 0 && l == Landed(headerBuffer[..], Kept())
              else l == Overflow && buf == headerBuffer && index == 0 && reqLen == bodyLen > buf.Length
    {
      hide Flatten;
      ReceiveHeader(headerChunks);
      assert Kept() == old(Kept());
      safe := ReceiveBody(bodyChunks);
    }

    /** A stream of messages, each with a body that is longer than the one before it or empty: what
        is assembled is what was sent, however each message was cut. */
    method ReceiveStream(messages: seq<Message>) returns (assembled: seq<(seq<Byte>, seq<Byte>)>)
      requires Owned()
      requires forall i :: 0 <= i < |messages| ==> |Flatten(messages[i].header)| == headerLen
      requires forall i :: 0 <= i < |messages| ==>
                 |Flatten(messages[i].body)| > LengthBefore(messages, i, bodyLen) || |Flatten(messages[i].body)| == 0
      modifies this, headerBuffer
      ensures |assembled| == |messages|
      ensures forall i :: 0 <= i < |messages| ==>
                assembled[i] == (Flatten(messages[i].header), Flatten(messages[i].body))
    {
      hide Flatten, LengthBefore, Land;
      assembled := [];
      LengthBeforeIs(messages, 0, bodyLen);
      for i := 0 to |messages|
        invariant Owned() && headerLen == old(headerLen) && headerBuffer == old(headerBuffer)
        invariant bodyLen == LengthBefore(messages, i, old(bodyLen))
        invariant |assembled| == i
        invariant forall k :: 0 <= k < i ==>
                    assembled[k] == (Flatten(messages[k].header), Flatten(messages[k].body))
      {
        LengthBeforeIs(messages, i + 1, old(bodyLen));
        AssembledAfter(Flatten(messages[i].header), Flatten(messages[i].body), bodyLen, Kept());
        var _ := ReceiveMessage(messages[i].header, messages[i].body);
        assembled := assembled + [(headerBuffer[..], if body == null then [] else body[..bodyLen])];
      }
    }
  }

  /** A header of 8 bytes with bodies of 100 and then 50: the second body is directed to the 8 bytes
      of the header buffer. */
  method ShorterBodyOverflows() returns (p: Packet)
    ensures p.Owned() && p.buf == p.headerBuffer && p.buf.Length == 8
    ensures p.index == 0 && p.reqLen == 50 && !p.Valid()
  {
    p := new Packet(8);
    var header, long, short := seq(8, _ => 0 as Byte), seq(100, _ => 0 as Byte), seq(50, _ => 0 as Byte);
    FlattenOne(header);
    FlattenOne(long);
    FlattenOne(short);
    hide Flatten;
    var first := p.ReceiveMessage([header], [long]);
    var second := p.ReceiveMessage([header], [short]);
    assert first && !second;
  }

  lemma FlattenOne(chunk: seq<Byte>)
    ensures Flatten([chunk]) == chunk
  {
    assert [chunk][..0] == [];
  }
}
