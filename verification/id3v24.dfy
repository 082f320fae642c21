/** The frame protocol of v2/id3v24.go: reading one ID3v2.4 frame (a
    ten-byte header followed by its body) from a byte stream, and writing
    a frame back out. The layout is that of section 4 of the ID3v2.4.0
    main structure document. */
module Id3v24 {
  import opened Wrappers
  import opened Bits
  import opened EncodedBytes

  /** Four-byte ID, four-byte synchsafe size, status flags, format flags. */
  const FrameHeaderSize: nat := 10

  /** The constructors a frame-type descriptor can name. Only the generic
      ParseDataFrame, used for unknown IDs, is singled out; the others are
      known by name alone. */
  datatype Constructor = ParseDataFrame | Registered(name: string)

  /** A frame-type descriptor: frame ID, human description, constructor. */
  datatype FrameType = FrameType(id: seq<byte>, description: string, ctor: Constructor)

  /** The decoded frame header handed to a constructor. */
  datatype FrameHead = FrameHead(frameType: FrameType, statusFlags: byte, formatFlags: byte, size: uint32)

  /** What the protocol needs of a frame (Go's Framer): its ID, its size,
      its two flag bytes and its serialised body. */
  datatype Frame = Frame(id: seq<byte>, size: nat, statusFlags: byte, formatFlags: byte, bytes: seq<byte>)

  /** The frame-type table, keyed by the four ID bytes. */
  type FrameTypeMap = map<seq<byte>, FrameType>

  /** The constructor of the frame-type table, applied to a decoded header
      and its body. Its behaviour belongs to the frame kinds, not to the
      protocol; like a Go constructor returning a nil Framer, it may yield
      no frame. */
  type FrameConstructor = (FrameHead, seq<byte>) -> Option<Frame>

  /** One parse: the frame read, if any, and the unread rest of the stream. */
  datatype ParseResult = ParseResult(frame: Option<Frame>, rest: seq<byte>)

  /** The descriptor for id: the table's entry, or the fallback for an
      unknown ID. */
  function FrameTypeFor(types: FrameTypeMap, id: seq<byte>): FrameType
  {
    if id in types then types[id] else FrameType(id, "Unknown frame", ParseDataFrame)
  }

  /** io.ReadFull of count bytes from data: the bytes and the rest, or, on
      a short stream, nothing and a drained stream. */
  function ReadFull(data: seq<byte>, count: nat): (r: (Option<seq<byte>>, seq<byte>))
    ensures r.0.Some? <==> count <= |data|
    ensures r.0.Some? ==> r.0.value + r.1 == data && |r.0.value| == count
    ensures r.0.None? ==> r.1 == []
  {
    if |data| < count then (None, [])
    else (Some(data[..count]), data[count..])
  }

  /** The header bytes of data describe a frame the stream can hold: a
      well-formed nonzero synchsafe size and at least that many body bytes. */
  predicate HoldsFrame(data: seq<byte>)
  {
    && |data| >= FrameHeaderSize
    && SynchInt(data[4..8]).Success?
    && SynchInt(data[4..8]).value > 0
    && FrameHeaderSize + SynchInt(data[4..8]).value <= |data|
  }

  function ParseV24Frame(data: seq<byte>, types: FrameTypeMap, construct: FrameConstructor): (r: ParseResult)
    ensures |data| < FrameHeaderSize ==> r == ParseResult(None, [])
    ensures !HoldsFrame(data) ==> r.frame.None?
    ensures HoldsFrame(data) ==>
              var size := SynchInt(data[4..8]).value;
              var head := FrameHead(FrameTypeFor(types, data[..4]), data[8], data[9], size);
              && r.frame == construct(head, data[FrameHeaderSize..FrameHeaderSize + size])
              && r.rest == data[FrameHeaderSize + size..]
    ensures |data| >= FrameHeaderSize && !HoldsFrame(data) ==>
              if SynchInt(data[4..8]).Success? && SynchInt(data[4..8]).value > 0
              then r.rest == []
              else r.rest == data[FrameHeaderSize..]
  {
    var (header, afterHeader) := ReadFull(data, FrameHeaderSize);
    if header.None? then ParseResult(None, afterHeader)
    else
      var head := header.value;
      assert head == data[..FrameHeaderSize] && afterHeader == data[FrameHeaderSize..];
      assert head[..4] == data[..4] && head[4..8] == data[4..8];
      assert head[8] == data[8] && head[9] == data[9];
      var id := head[..4];
      var t := FrameTypeFor(types, id);
      var size := SynchInt(head[4..8]);
      if size.Failure? then ParseResult(None, afterHeader)
      else if size.value == 0 then ParseResult(None, afterHeader)
      else
        var h := FrameHead(t, head[8], head[9], size.value);
        var (frameData, afterBody) := ReadFull(afterHeader, size.value);
        if frameData.None? then ParseResult(None, afterBody)
        else
          assert frameData.value == data[FrameHeaderSize..FrameHeaderSize + size.value];
          ParseResult(construct(h, frameData.value), afterBody)
  }

  function V24Bytes(f: Frame): (r: seq<byte>)
    ensures |r| == |f.id| + 6 + |f.bytes|
    ensures r[..|f.id|] == f.id
    ensures SynchInt(r[|f.id|..|f.id| + 4]) == Success(f.size % 0x1000_0000)
    ensures r[|f.id| + 4] == f.statusFlags && r[|f.id| + 5] == f.formatFlags
    ensures r[|f.id| + 6..] == f.bytes
  {
    var sizeBytes := SynchBytes(f.size % Two32);
    var r := f.id + sizeBytes + [f.statusFlags, f.formatFlags] + f.bytes;
    V24BytesLayout(f.id, sizeBytes, f.statusFlags, f.formatFlags, f.bytes);
    SizeTruncation(f.size);
    r
  }

  lemma V24BytesLayout(id: seq<byte>, sizeBytes: seq<byte>, status: byte, format: byte, body: seq<byte>)
    requires |sizeBytes| == 4
    ensures var r := id + sizeBytes + [status, format] + body;
            && |r| == |id| + 6 + |body|
            && r[..|id|] == id
            && r[|id|..|id| + 4] == sizeBytes
            && r[|id| + 4] == status && r[|id| + 5] == format
            && r[|id| + 6..] == body
  {
  }

  /** Go's uint32(f.Size()) drops bits past 32, which the 28-bit synchsafe
      field would drop anyway. */
  lemma SizeTruncation(size: nat)
    ensures (size % Two32) % 0x1000_0000 == size % 0x1000_0000
  {
    DivOfModMul(size, 0x1000_0000, 0x10);
  }

  // ---------------------------------------------------------------------
  // Round trips

  /** Writing a frame and parsing it back hands the constructor the
      frame's own header fields and body, and leaves what followed. */
  lemma V24RoundTrip(f: Frame, rest: seq<byte>, types: FrameTypeMap, construct: FrameConstructor)
    requires |f.id| == 4 && 0 < f.size < 0x1000_0000 && f.size == |f.bytes|
    ensures ParseV24Frame(V24Bytes(f) + rest, types, construct)
            == ParseResult(construct(FrameHead(FrameTypeFor(types, f.id), f.statusFlags, f.formatFlags, f.size), f.bytes), rest)
  {
    var w := V24Bytes(f);
    var data := w + rest;
    assert |w| == FrameHeaderSize + f.size;
    assert data[..4] == w[..4] == f.id;
    assert data[4..8] == w[4..8];
    assert SynchInt(data[4..8]) == Success(f.size) by {
      assert SynchInt(w[4..8]) == Success(f.size % 0x1000_0000);
      DivModUnique(f.size, 0x1000_0000, 0, f.size);
    }
    assert data[8] == f.statusFlags && data[9] == f.formatFlags;
    assert data[FrameHeaderSize..FrameHeaderSize + f.size] == w[FrameHeaderSize..] == f.bytes;
    assert data[FrameHeaderSize + f.size..] == rest;
    assert HoldsFrame(data);
  }

  /** A passthrough constructor: the frame keeps the header's fields and
      the body as read. */
  function PassThrough(h: FrameHead, body: seq<byte>): Option<Frame>
  {
    Some(Frame(h.frameType.id, h.size, h.statusFlags, h.formatFlags, body))
  }

  /** Every descriptor of the table carries the ID it is filed under. */
  predicate ConsistentTable(types: FrameTypeMap)
  {
    forall id :: id in types ==> types[id].id == id
  }

  /** With a passthrough constructor the round trip gives back the frame. */
  lemma V24RoundTripPassThrough(f: Frame, rest: seq<byte>, types: FrameTypeMap)
    requires |f.id| == 4 && 0 < f.size < 0x1000_0000 && f.size == |f.bytes|
    requires ConsistentTable(types)
    ensures ParseV24Frame(V24Bytes(f) + rest, types, PassThrough) == ParseResult(Some(f), rest)
  {
    V24RoundTrip(f, rest, types, PassThrough);
  }

  /** The converse: a frame parsed with a passthrough constructor writes
      back to exactly the bytes it was read from. */
  lemma ParseThenV24Bytes(data: seq<byte>, types: FrameTypeMap)
    requires ConsistentTable(types)
    requires ParseV24Frame(data, types, PassThrough).frame.Some?
    ensures var r := ParseV24Frame(data, types, PassThrough);
            V24Bytes(r.frame.value) + r.rest == data
  {
    var r := ParseV24Frame(data, types, PassThrough);
    assert HoldsFrame(data);
    var header := data[4..8];
    var size := SynchInt(header).value;
    var body := data[FrameHeaderSize..FrameHeaderSize + size];
    var f := r.frame.value;
    assert f == Frame(data[..4], size, data[8], data[9], body);
    assert r.rest == data[FrameHeaderSize + size..];
    SynchFieldRoundTrip(header);
    assert V24Bytes(f) == data[..4] + header + [data[8], data[9]] + body;
    HeaderSplit(data, size);
  }

  /** A size field that decodes re-encodes to the same four bytes. */
  lemma SynchFieldRoundTrip(field: seq<byte>)
    requires |field| == 4 && SynchInt(field).Success?
    ensures SynchBytes(SynchInt(field).value % Two32) == field
  {
    Pow2Values();
    assert FitsBase(field, SynchByteLength);
    ByteIntThenIntBytes(field, SynchByteLength);
  }

  lemma HeaderSplit(data: seq<byte>, size: nat)
    requires FrameHeaderSize + size <= |data|
    ensures data == data[..4] + data[4..8] + [data[8], data[9]]
                    + data[FrameHeaderSize..FrameHeaderSize + size] + data[FrameHeaderSize + size..]
  {
  }

  /** An unknown ID is never by itself a reason to reject a frame: the rest
      of the stream does not depend on the table, an ID missing from it
      gets the "Unknown frame" descriptor, and with constructors that always
      build a frame, success does not depend on the table either. */
  lemma UnknownIdNotRejected(data: seq<byte>, types: FrameTypeMap, construct: FrameConstructor)
    ensures (forall h, b :: construct(h, b).Some?) ==>
              ParseV24Frame(data, types, construct).frame.Some? == ParseV24Frame(data, map[], construct).frame.Some?
    ensures ParseV24Frame(data, types, construct).rest == ParseV24Frame(data, map[], construct).rest
    ensures HoldsFrame(data) && data[..4] !in types ==>
              ParseV24Frame(data, types, construct).frame
              == construct(FrameHead(FrameType(data[..4], "Unknown frame", ParseDataFrame), data[8], data[9],
                                     SynchInt(data[4..8]).value),
                           data[FrameHeaderSize..FrameHeaderSize + SynchInt(data[4..8]).value])
  {
  }
}
