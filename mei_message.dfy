/** The two message classes of the Read Device Identification transaction,
    with the fields their methods assign, proved against the codec functions. */
module MeiMessage {
  import opened Wrappers
  import opened DeviceInfo
  import opened ResponseCodec
  import opened RequestCodec
  import opened RtuFrameSize

  /** What `execute` hands back: an exception response, or a new response object. */
  datatype Outcome = Exception(code: ModbusException) | Success(response: ReadDeviceInformationResponse)

  class ReadDeviceInformationRequest {
    var subFunctionCode: int
    var readCode: int
    var objectId: int

    function Fields(): RequestFields
      reads this
    {
      RequestFields(subFunctionCode, readCode, objectId)
    }

    /** A falsy read code (None or 0) becomes Basic. */
    constructor (readCode: Option<int> := None, objectId: int := 0x00)
      ensures Fields() == NewRequest(readCode, objectId)
    {
      this.subFunctionCode := SubFunctionCode;
      this.readCode := ReadCodeOrBasic(readCode);
      this.objectId := objectId;
    }

    /** The three-byte body, or the pack error. */
    function Encode(): (r: Result<seq<byte>>)
      reads this
      ensures r.Ok? <==> IsByte(subFunctionCode) && IsByte(readCode) && IsByte(objectId)
      ensures r.Ok? ==> r.value == [subFunctionCode, readCode, objectId]
    {
      EncodeRequest(Fields())
    }

    /** Assigns all three fields from a three-byte buffer; any other length
        raises before a field is touched. */
    method Decode(data: seq<byte>) returns (ok: bool)
      modifies this
      ensures ok <==> |data| == 3
      ensures ok ==> Ok(Fields()) == DecodeRequest(data)
      ensures !ok ==> Fields() == old(Fields())
    {
      if |data| != 3 {
        return false;
      }
      subFunctionCode, readCode, objectId := data[0], data[1], data[2];
      return true;
    }

    /** Validates, then wraps the provider's dictionary into a new response. */
    method Execute(provider: Provider) returns (r: Outcome)
      ensures r.Exception? <==> RequestCodec.Execute(Fields(), provider).ExceptionResponse?
      ensures r.Exception? ==> r.code == IllegalValue
      ensures r.Success? ==>
        (fresh(r.response) && r.response.Fields() == RequestCodec.Execute(Fields(), provider).fields)
    {
      if !(0x00 <= objectId <= 0xFF) {
        return Exception(IllegalValue);
      }
      if !(0x00 <= readCode <= 0x04) {
        return Exception(IllegalValue);
      }
      var information := provider(readCode, objectId);
      var response := new ReadDeviceInformationResponse(Some(readCode), Some(information));
      return Success(response);
    }
  }

  class ReadDeviceInformationResponse {
    var subFunctionCode: int
    var readCode: int
    var conformity: int
    var moreFollows: int
    var nextObjectId: int
    var numberOfObjects: int
    var information: Dict

    function Fields(): ResponseFields
      reads this
    {
      ResponseFields(subFunctionCode, readCode, conformity, moreFollows,
                     nextObjectId, numberOfObjects, information)
    }

    /** The estimate of the frame length from the bytes received so far. */
    static method CalculateRtuFrameSize(data: seq<byte>) returns (r: nat)
      ensures r == FrameSize(data)
    {
      var size: nat := 8;
      if |data| <= 7 {
        return size + 2;
      }
      var count: int := data[7];
      while count > 0
        invariant 0 <= count
        invariant FrameWalk(data, size, count) == FrameSize(data)
      {
        if |data| < size + 2 {
          return size + 2;
        }
        var objectLength := data[size + 1];
        size := size + objectLength + 2;
        count := count - 1;
      }
      return size + 2;
    }

    /** The count is taken from the dictionary; conformity 0x83, no more
        objects to follow. */
    constructor (readCode: Option<int> := None, information: Option<Dict> := None)
      ensures Fields() == NewResponse(readCode, information)
    {
      this.subFunctionCode := SubFunctionCode;
      this.readCode := ReadCodeOrBasic(readCode);
      var info := if information.Some? then information.value else [];
      this.information := info;
      this.numberOfObjects := |info|;
      this.conformity := Conformity;
      this.nextObjectId := 0x00;
      this.moreFollows := MoreDataNothing;
    }

    /** Packs the header, then appends each entry in dictionary order. */
    method Encode() returns (r: Result<seq<byte>>)
      ensures r == EncodeResponse(Fields())
    {
      if !HeaderPackable(Fields()) {
        return Err(PackError);
      }
      var packet := Header(Fields());
      var i := 0;
      while i < |information|
        invariant 0 <= i <= |information|
        invariant EntriesPackable(information[..i])
        invariant packet == Header(Fields()) + ObjectsBytes(information[..i])
      {
        var (objectId, data) := information[i];
        if !(0 <= objectId < 256) || |data| >= 256 {
          return Err(PackError);
        }
        var len: byte := |data|;
        assert information[..i + 1] == information[..i] + [information[i]];
        ObjectsBytesAppend(information[..i], [information[i]]);
        packet := packet + [objectId, len] + data;
        i := i + 1;
      }
      assert information[..i] == information;
      return Ok(packet);
    }

    /** Unpacks the header, then reads entries with a cursor until the buffer
        ends. A raise in the loop leaves the header and the entries read so
        far assigned. */
    method Decode(data: seq<byte>) returns (ok: bool)
      modifies this
      ensures ok <==> DecodeResponse(data).Ok?
      ensures ok ==> Ok(Fields()) == DecodeResponse(data)
      ensures |data| < 6 ==> Fields() == old(Fields())
      ensures |data| >= 6 ==>
        subFunctionCode == data[0] && readCode == data[1] && conformity == data[2] &&
        moreFollows == data[3] && nextObjectId == data[4] && numberOfObjects == data[5] &&
        information == ParseObjects(data, 6, []).info
    {
      if |data| < 6 {
        return false;
      }
      subFunctionCode, readCode := data[0], data[1];
      conformity, moreFollows := data[2], data[3];
      nextObjectId, numberOfObjects := data[4], data[5];
      information := [];
      var count: nat := 6;
      while count < |data|
        invariant ParseObjects(data, count, information) == ParseObjects(data, 6, [])
        invariant subFunctionCode == data[0] && readCode == data[1]
        invariant conformity == data[2] && moreFollows == data[3]
        invariant nextObjectId == data[4] && numberOfObjects == data[5]
        decreases |data| - count
      {
        if count + 2 > |data| {
          assert ParseObjects(data, count, information) == Parsed(information, false);
          return false;
        }
        var objectId, objectLength := data[count], data[count + 1];
        PutDistinct(information, objectId, data[count + 2 .. Min(count + objectLength + 2, |data|)]);
        count := count + objectLength + 2;
        information := Put(information, objectId, data[count - objectLength .. Min(count, |data|)]);
      }
      assert ParseObjects(data, count, information) == Parsed(information, true);
      return true;
    }
  }
}
