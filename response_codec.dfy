/** The body of a Read Device Identification response (function code 0x2B,
    MEI type 0x0E): a 6-byte header followed by one
    `object_id | object_length | payload` triple per information object. */
module ResponseCodec {
  import opened Wrappers
  import opened DeviceInfo

  /** MEI type of Read Device Identification. */
  const SubFunctionCode: int := 0x0E
  /** Conformity level every new response advertises. */
  const Conformity: int := 0x83
  /** `DeviceInformation.Basic` of the constants module. */
  const DeviceInformationBasic: int := 0x01
  /** `MoreData.Nothing` of the constants module. */
  const MoreDataNothing: int := 0x00

  /** The fields of a response object. Every field is a Python integer: only
      packing decides whether it fits in a byte. */
  datatype ResponseFields = ResponseFields(
    subFunctionCode: int,
    readCode: int,
    conformity: int,
    moreFollows: int,
    nextObjectId: int,
    numberOfObjects: int,
    information: Dict)

  /** Python's `read_code or DeviceInformation.Basic`: both falsy values,
      `None` and 0, select Basic. */
  function ReadCodeOrBasic(readCode: Option<int>): (r: int)
    ensures readCode.None? || readCode == Some(0) ==> r == DeviceInformationBasic
    ensures readCode.Some? && readCode.value != 0 ==> r == readCode.value
  {
    match readCode
    case None => DeviceInformationBasic
    case Some(c) => if c == 0 then DeviceInformationBasic else c
  }

  /** A freshly constructed response: the count is taken from the dictionary,
      conformity and pagination are fixed. */
  function NewResponse(readCode: Option<int>, information: Option<Dict>): (r: ResponseFields)
    ensures r.subFunctionCode == SubFunctionCode
    ensures r.readCode == ReadCodeOrBasic(readCode)
    ensures r.information == (if information.Some? then information.value else [])
    ensures r.numberOfObjects == |r.information|
    ensures r.conformity == 0x83 && r.nextObjectId == 0x00 && r.moreFollows == MoreDataNothing
  {
    var info := if information.Some? then information.value else [];
    ResponseFields(SubFunctionCode, ReadCodeOrBasic(readCode), Conformity,
                   MoreDataNothing, 0x00, |info|, info)
  }

  // ---------------------------------------------------------------- encode

  /** `struct.pack('>BBBBBB', ...)` of the header succeeds. */
  predicate HeaderPackable(r: ResponseFields) {
    IsByte(r.subFunctionCode) && IsByte(r.readCode) && IsByte(r.conformity) &&
    IsByte(r.moreFollows) && IsByte(r.nextObjectId) && IsByte(r.numberOfObjects)
  }

  /** `struct.pack('>BB', object_id, len(data))` succeeds for every entry. */
  predicate EntriesPackable(info: Info) {
    forall i :: 0 <= i < |info| ==> IsByte(info[i].0) && |info[i].1| < 256
  }

  /** The six header bytes, in wire order. */
  function Header(r: ResponseFields): seq<byte>
    requires HeaderPackable(r)
  {
    [r.subFunctionCode, r.readCode, r.conformity,
     r.moreFollows, r.nextObjectId, r.numberOfObjects]
  }

  /** One entry on the wire: id, payload length, payload. */
  function EntryBytes(id: byte, payload: seq<byte>): seq<byte>
    requires |payload| < 256
  {
    var len: byte := |payload|;
    [id, len] + payload
  }

  /** The entries on the wire, in dictionary order. */
  function ObjectsBytes(info: Info): seq<byte>
    requires EntriesPackable(info)
  {
    if info == [] then [] else EntryBytes(info[0].0, info[0].1) + ObjectsBytes(info[1..])
  }

  /** Independent size reference: the sum of `2 + len(payload)` over the entries. */
  function ObjectsSize(info: Info): nat {
    if info == [] then 0 else 2 + |info[0].1| + ObjectsSize(info[1..])
  }

  /** `ReadDeviceInformationResponse.encode`: header, then the entries; any
      field or length outside a byte makes `struct.pack` raise. */
  function EncodeResponse(r: ResponseFields): (e: Result<seq<byte>>)
    ensures e.Ok? <==> HeaderPackable(r) && EntriesPackable(r.information)
    ensures e.Ok? ==> |e.value| == 6 + ObjectsSize(r.information) && e.value[5] == r.numberOfObjects
  {
    if HeaderPackable(r) && EntriesPackable(r.information) then
      ObjectsBytesLength(r.information);
      Ok(Header(r) + ObjectsBytes(r.information))
    else
      Err(PackError)
  }

  // ---------------------------------------------------------------- decode

  /** The state of the decode loop when it stops: the dictionary built so
      far, and whether it stopped normally (false: `struct.error`). */
  datatype Parsed = Parsed(info: Info, ok: bool)

  function Min(a: int, b: int): int {
    if a < b then a else b
  }

  /** The cursor loop of `decode` from cursor `count` with dictionary `acc`.
      A length running past the end clips the payload, as a Python slice does.
      Each turn consumes at least two bytes and adds at most one entry. */
  function ParseObjects(data: seq<byte>, count: nat, acc: Info): (p: Parsed)
    ensures |acc| <= |p.info| <= |acc| + (if count < |data| then (|data| - count + 1) / 2 else 0)
    decreases |data| - count
  {
    if count >= |data| then
      Parsed(acc, true)
    else if count + 2 > |data| then
      Parsed(acc, false)
    else
      var next := count + data[count + 1] + 2;
      ParseObjects(data, next, Put(acc, data[count], data[count + 2 .. Min(next, |data|)]))
  }

  /** `ReadDeviceInformationResponse.decode` on a whole buffer. */
  function DecodeResponse(data: seq<byte>): (r: Result<ResponseFields>)
    ensures |data| < 6 ==> r.Err?
    ensures r.Ok? ==> |r.value.information| <= (|data| - 5) / 2
  {
    if |data| < 6 then
      Err(UnpackError)
    else
      var p := ParseObjects(data, 6, []);
      ParseObjectsDistinct(data, 6, []);
      if p.ok then
        Ok(ResponseFields(data[0], data[1], data[2], data[3], data[4], data[5], p.info))
      else
        Err(UnpackError)
  }

  // ---------------------------------------------------------------- lemmas

  lemma {:induction false} ObjectsBytesLength(info: Info)
    requires EntriesPackable(info)
    ensures |ObjectsBytes(info)| == ObjectsSize(info)
  {
    if info != [] {
      ObjectsBytesLength(info[1..]);
    }
  }

  /** Encoding a concatenation is concatenating the encodings. */
  lemma {:induction false} ObjectsBytesAppend(a: Info, b: Info)
    requires EntriesPackable(a) && EntriesPackable(b)
    ensures EntriesPackable(a + b)
    ensures ObjectsBytes(a + b) == ObjectsBytes(a) + ObjectsBytes(b)
  {
    if a == [] {
      assert a + b == b;
    } else {
      assert (a + b)[1..] == a[1..] + b;
      ObjectsBytesAppend(a[1..], b);
    }
  }

  /** The encoded response is the header in field order (byte 5 is the stored
      count, never a recount) followed by `6 + sum(2 + len)` bytes in all. */
  lemma EncodeResponseLayout(r: ResponseFields)
    requires EncodeResponse(r).Ok?
    ensures var bytes := EncodeResponse(r).value;
      |bytes| == 6 + ObjectsSize(r.information) &&
      bytes[0] == r.subFunctionCode && bytes[1] == r.readCode &&
      bytes[2] == r.conformity && bytes[3] == r.moreFollows &&
      bytes[4] == r.nextObjectId && bytes[5] == r.numberOfObjects &&
      bytes[6..] == ObjectsBytes(r.information)
  {
    ObjectsBytesLength(r.information);
  }

  /** An entry whose id or payload length does not fit in a byte makes
      encode fail. */
  lemma EncodeResponseFails(r: ResponseFields, i: nat)
    requires i < |r.information|
    requires !IsByte(r.information[i].0) || |r.information[i].1| > 255
    ensures EncodeResponse(r) == Err(PackError)
  {
  }

  /** Decoding the bytes of any entries appended to a prefix rebuilds the
      dictionary in order, provided no key repeats. */
  lemma {:induction false} ParseEncodedObjects(prefix: seq<byte>, info: Info, acc: Info)
    requires EntriesPackable(info)
    requires DistinctKeys(acc + info)
    ensures ParseObjects(prefix + ObjectsBytes(info), |prefix|, acc) == Parsed(acc + info, true)
    decreases |info|
  {
    var data := prefix + ObjectsBytes(info);
    if info == [] {
      assert data == prefix;
      assert acc + info == acc;
    } else {
      var k, v := info[0].0, info[0].1;
      var prefix' := prefix + EntryBytes(k, v);
      assert data == prefix' + ObjectsBytes(info[1..]);
      assert data[|prefix|] == k && data[|prefix| + 1] == |v|;
      assert data[|prefix| + 2 .. |prefix'|] == v;
      assert k !in Keys(acc) by {
        forall i | 0 <= i < |acc| ensures acc[i].0 != k {
          assert (acc + info)[i] == acc[i] && (acc + info)[|acc|] == info[0];
        }
      }
      PutAppends(acc, k, v);
      assert (acc + [(k, v)]) + info[1..] == acc + info;
      ParseEncodedObjects(prefix', info[1..], acc + [(k, v)]);
    }
  }

  /** Round trip: decoding an encoded response restores every field and the
      ordered dictionary. */
  lemma ResponseRoundTrip(r: ResponseFields)
    requires EncodeResponse(r).Ok?
    ensures DecodeResponse(EncodeResponse(r).value) == Ok(r)
  {
    var bytes := EncodeResponse(r).value;
    assert [] + r.information == r.information;
    ParseEncodedObjects(Header(r), r.information, []);
  }

  /** The decode loop always yields a dictionary without repeated keys. */
  lemma {:induction false} ParseObjectsDistinct(data: seq<byte>, count: nat, acc: Info)
    requires DistinctKeys(acc)
    ensures DistinctKeys(ParseObjects(data, count, acc).info)
    decreases |data| - count
  {
    if count < |data| && count + 2 <= |data| {
      var next := count + data[count + 1] + 2;
      PutDistinct(acc, data[count], data[count + 2 .. Min(next, |data|)]);
      ParseObjectsDistinct(data, next, Put(acc, data[count], data[count + 2 .. Min(next, |data|)]));
    }
  }

  /** Fewer than six bytes: the header unpack raises. */
  lemma DecodeResponseShort(data: seq<byte>)
    requires |data| < 6
    ensures DecodeResponse(data) == Err(UnpackError)
  {
  }

  /** Exactly one byte left at the cursor: the `(id, length)` unpack raises
      and the dictionary built so far is what remains. */
  lemma ParseObjectsDangling(data: seq<byte>, count: nat, acc: Info)
    requires count + 1 == |data|
    ensures ParseObjects(data, count, acc) == Parsed(acc, false)
  {
  }

  /** A declared length running past the end is not an error: the payload is
      clipped to the bytes that are there and decoding stops. */
  lemma ParseObjectsClipped(data: seq<byte>, count: nat, acc: Info)
    requires count + 2 <= |data| < count + 2 + data[count + 1]
    ensures ParseObjects(data, count, acc) == Parsed(Put(acc, data[count], data[count + 2..]), true)
  {
    var next := count + data[count + 1] + 2;
    var acc' := Put(acc, data[count], data[count + 2 .. Min(next, |data|)]);
    assert data[count + 2 .. Min(next, |data|)] == data[count + 2..];
    assert ParseObjects(data, next, acc') == Parsed(acc', true);
  }

  /** A header announcing one object, then object 0x00 with payload "ABC". */
  lemma DecodeExample()
    ensures DecodeResponse([0x0E, 0x01, 0x83, 0x00, 0x00, 0x01, 0x00, 0x03, 0x41, 0x42, 0x43])
         == Ok(ResponseFields(0x0E, 0x01, 0x83, 0x00, 0x00, 0x01, [(0x00, [0x41, 0x42, 0x43])]))
  {
    var data: seq<byte> := [0x0E, 0x01, 0x83, 0x00, 0x00, 0x01, 0x00, 0x03, 0x41, 0x42, 0x43];
    assert data[8..11] == [0x41, 0x42, 0x43];
    PutAppends([], 0x00, [0x41, 0x42, 0x43]);
    assert ParseObjects(data, 11, [(0x00, [0x41, 0x42, 0x43])]) == Parsed([(0x00, [0x41, 0x42, 0x43])], true);
  }

  /** A repeated id overwrites the earlier payload in the earlier position,
      as a dictionary assignment does; decode never compares the number of
      entries with the count byte. */
  lemma DecodeRepeatedId()
    ensures DecodeResponse([0x0E, 0x01, 0x83, 0x00, 0x00, 0x03,
                            0x01, 0x01, 0x41, 0x02, 0x01, 0x42, 0x01, 0x01, 0x43])
         == Ok(ResponseFields(0x0E, 0x01, 0x83, 0x00, 0x00, 0x03, [(0x01, [0x43]), (0x02, [0x42])]))
  {
    var data: seq<byte> := [0x0E, 0x01, 0x83, 0x00, 0x00, 0x03,
                            0x01, 0x01, 0x41, 0x02, 0x01, 0x42, 0x01, 0x01, 0x43];
    assert data[8..9] == [0x41] && data[11..12] == [0x42] && data[14..15] == [0x43];
    var one: Info := [(0x01, [0x41])];
    var two: Info := [(0x01, [0x41]), (0x02, [0x42])];
    var three: Info := [(0x01, [0x43]), (0x02, [0x42])];
    PutAppends([], 0x01, [0x41]);
    assert Keys(one) == [0x01];
    PutAppends(one, 0x02, [0x42]);
    assert Put(two, 0x01, [0x43]) == three;
    assert ParseObjects(data, 15, three) == Parsed(three, true);
    assert ParseObjects(data, 12, two) == Parsed(three, true);
    assert ParseObjects(data, 9, one) == Parsed(three, true);
  }

  /** Encode writes the stored count, not a recount: three entries under a
      count of five go out with byte 5 equal to 5, and come back the same. */
  lemma EncodeKeepsStoredCount()
    ensures var r := ResponseFields(0x0E, 0x01, 0x83, 0x00, 0x00, 0x05,
                                    [(0x00, [0x41]), (0x01, [0x42]), (0x02, [0x43])]);
      EncodeResponse(r).Ok? && EncodeResponse(r).value[5] == 5 &&
      DecodeResponse(EncodeResponse(r).value) == Ok(r)
  {
    var r := ResponseFields(0x0E, 0x01, 0x83, 0x00, 0x00, 0x05,
                            [(0x00, [0x41]), (0x01, [0x42]), (0x02, [0x43])]);
    assert EncodeResponse(r).Ok?;
    ResponseRoundTrip(r);
  }
}
