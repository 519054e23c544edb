/** `ReadDeviceInformationResponse.calculate_rtu_frame_size`: the length an
    RTU frame `address | function code | response body | CRC(2)` will have,
    read off the bytes received so far. */
module RtuFrameSize {
  import opened Wrappers
  import opened DeviceInfo
  import opened ResponseCodec

  /** The estimator's loop from estimate `size` with `count` objects still to
      walk: it stops early, with `size + 2`, as soon as the length byte of the
      next object has not arrived. The result never falls below `size + 2`. */
  function FrameWalk(data: seq<byte>, size: nat, count: nat): (r: nat)
    ensures r >= size + 2
    decreases count
  {
    if count == 0 then
      size + 2
    else if |data| < size + 2 then
      size + 2
    else
      FrameWalk(data, size + data[size + 1] + 2, count - 1)
  }

  /** The estimate: eight bytes of address, function code and MEI header, the
      objects counted by byte 7, and two CRC bytes. */
  function FrameSize(data: seq<byte>): (r: nat)
    ensures r >= 10
    ensures |data| <= 7 ==> r == 10
  {
    if |data| <= 7 then 10 else FrameWalk(data, 8, data[7])
  }

  lemma {:induction false} FrameWalkMonotone(a: seq<byte>, b: seq<byte>, size: nat, count: nat)
    requires a <= b
    ensures FrameWalk(a, size, count) <= FrameWalk(b, size, count)
    decreases count
  {
    if count > 0 && |a| >= size + 2 {
      assert a[size + 1] == b[size + 1];
      FrameWalkMonotone(a, b, size + a[size + 1] + 2, count - 1);
    }
  }

  /** Receiving more bytes never lowers the estimate. */
  lemma FrameSizeMonotone(a: seq<byte>, b: seq<byte>)
    requires a <= b
    ensures FrameSize(a) <= FrameSize(b)
  {
    if |a| > 7 {
      assert a[7] == b[7];
      FrameWalkMonotone(a, b, 8, a[7]);
    }
  }

  /** Walking the encoded entries that follow a prefix lands exactly after
      them, whatever bytes come next. */
  lemma {:induction false} FrameWalkObjects(prefix: seq<byte>, info: Info, tail: seq<byte>)
    requires EntriesPackable(info)
    ensures FrameWalk(prefix + ObjectsBytes(info) + tail, |prefix|, |info|) == |prefix| + ObjectsSize(info) + 2
    decreases |info|
  {
    if info != [] {
      var data := prefix + ObjectsBytes(info) + tail;
      var prefix' := prefix + EntryBytes(info[0].0, info[0].1);
      assert data == prefix' + ObjectsBytes(info[1..]) + tail;
      assert data[|prefix| + 1] == |info[0].1|;
      ObjectsBytesLength(info[1..]);
      FrameWalkObjects(prefix', info[1..], tail);
    }
  }

  /** On a complete frame around an encoded response whose stored count
      matches its dictionary, the estimate is the frame's own length. */
  lemma FrameSizeOfFrame(address: byte, functionCode: byte, r: ResponseFields, crc0: byte, crc1: byte)
    requires EncodeResponse(r).Ok?
    requires r.numberOfObjects == |r.information|
    ensures FrameSize([address, functionCode] + EncodeResponse(r).value + [crc0, crc1])
         == 2 + |EncodeResponse(r).value| + 2
  {
    var prefix := [address, functionCode] + Header(r);
    var frame := [address, functionCode] + EncodeResponse(r).value + [crc0, crc1];
    assert frame == prefix + ObjectsBytes(r.information) + [crc0, crc1];
    assert frame[7] == r.numberOfObjects;
    FrameWalkObjects(prefix, r.information, [crc0, crc1]);
    ObjectsBytesLength(r.information);
  }

  /** Every prefix of such a frame is estimated at most at the frame's length. */
  lemma FrameSizeOfPrefix(address: byte, functionCode: byte, r: ResponseFields, crc0: byte, crc1: byte, k: nat)
    requires EncodeResponse(r).Ok?
    requires r.numberOfObjects == |r.information|
    requires k <= 2 + |EncodeResponse(r).value| + 2
    ensures var frame := [address, functionCode] + EncodeResponse(r).value + [crc0, crc1];
      FrameSize(frame[..k]) <= |frame|
  {
    var frame := [address, functionCode] + EncodeResponse(r).value + [crc0, crc1];
    FrameSizeOfFrame(address, functionCode, r, crc0, crc1);
    FrameSizeMonotone(frame[..k], frame);
  }

  /** A response built by the constructor always has a consistent count, so
      its frame is estimated exactly once it encodes. */
  lemma FrameSizeOfNewResponse(address: byte, functionCode: byte, readCode: Option<int>,
                               information: Option<Dict>, crc0: byte, crc1: byte)
    requires EncodeResponse(NewResponse(readCode, information)).Ok?
    ensures var bytes := EncodeResponse(NewResponse(readCode, information)).value;
      FrameSize([address, functionCode] + bytes + [crc0, crc1]) == |bytes| + 4
  {
    FrameSizeOfFrame(address, functionCode, NewResponse(readCode, information), crc0, crc1);
  }
}
