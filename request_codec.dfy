/** The body of a Read Device Identification request,
    `sub_function_code | read_code | object_id`, and the execute step that
    validates it and builds the response. */
module RequestCodec {
  import opened Wrappers
  import opened DeviceInfo
  import opened ResponseCodec

  /** The fields of a request object, as Python integers. */
  datatype RequestFields = RequestFields(subFunctionCode: int, readCode: int, objectId: int)

  /** A freshly constructed request (defaults `read_code=None`, `object_id=0x00`). */
  function NewRequest(readCode: Option<int>, objectId: int): (q: RequestFields)
    ensures q.subFunctionCode == SubFunctionCode && q.objectId == objectId
    ensures q.readCode == ReadCodeOrBasic(readCode)
  {
    RequestFields(SubFunctionCode, ReadCodeOrBasic(readCode), objectId)
  }

  /** `ReadDeviceInformationRequest.encode`: `struct.pack('>BBB', ...)`. */
  function EncodeRequest(q: RequestFields): (r: Result<seq<byte>>)
    ensures r.Ok? <==> IsByte(q.subFunctionCode) && IsByte(q.readCode) && IsByte(q.objectId)
    ensures r.Ok? ==> |r.value| == 3
  {
    if IsByte(q.subFunctionCode) && IsByte(q.readCode) && IsByte(q.objectId) then
      Ok([q.subFunctionCode, q.readCode, q.objectId])
    else
      Err(PackError)
  }

  /** `ReadDeviceInformationRequest.decode`: `struct.unpack('>BBB', data)`,
      which accepts a buffer of exactly three bytes. */
  function DecodeRequest(data: seq<byte>): (r: Result<RequestFields>)
    ensures r.Ok? <==> |data| == 3
    ensures r.Ok? ==> IsByte(r.value.readCode) && IsByte(r.value.objectId)
  {
    if |data| == 3 then Ok(RequestFields(data[0], data[1], data[2])) else Err(UnpackError)
  }

  /** A successful encode yields the three fields in order. */
  lemma EncodeRequestLayout(q: RequestFields)
    ensures EncodeRequest(q).Ok? ==>
      |EncodeRequest(q).value| == 3 &&
      EncodeRequest(q).value[0] == q.subFunctionCode &&
      EncodeRequest(q).value[1] == q.readCode &&
      EncodeRequest(q).value[2] == q.objectId
  {
  }

  /** Round trip: decode restores every field of an encodable request. */
  lemma RequestRoundTrip(q: RequestFields)
    requires EncodeRequest(q).Ok?
    ensures DecodeRequest(EncodeRequest(q).value) == Ok(q)
  {
  }

  /** The other direction: whatever decode accepts, encode reproduces. */
  lemma RequestReencode(data: seq<byte>)
    requires DecodeRequest(data).Ok?
    ensures EncodeRequest(DecodeRequest(data).value) == Ok(data)
  {
    assert data == [data[0], data[1], data[2]];
  }

  /** The exception code `do_exception` is given. */
  datatype ModbusException = IllegalValue

  /** What `execute` returns: an exception response or a new response. */
  datatype ExecuteResult = ExceptionResponse(code: ModbusException) | Response(fields: ResponseFields)

  /** The device information provider: `(read_code, object_id)` to the
      ordered dictionary of objects it supplies (a dictionary, so its keys
      never repeat). */
  type Provider = (int, int) -> Dict

  /** `ReadDeviceInformationRequest.execute`: the object id must be a byte,
      then the read code must be in 0..4; when both hold, the provider's
      dictionary becomes a new response. */
  function Execute(q: RequestFields, provider: Provider): (r: ExecuteResult)
    ensures r.Response? <==> 0 <= q.objectId <= 0xFF && 0 <= q.readCode <= 0x04
    ensures r.Response? ==> r.fields.information == provider(q.readCode, q.objectId)
  {
    if !(0x00 <= q.objectId <= 0xFF) then
      ExceptionResponse(IllegalValue)
    else if !(0x00 <= q.readCode <= 0x04) then
      ExceptionResponse(IllegalValue)
    else
      Response(NewResponse(Some(q.readCode), Some(provider(q.readCode, q.objectId))))
  }

  /** A field out of range is answered with the IllegalValue exception. */
  lemma ExecuteValidates(q: RequestFields, provider: Provider)
    requires !(0 <= q.objectId <= 0xFF && 0 <= q.readCode <= 0x04)
    ensures Execute(q, provider) == ExceptionResponse(IllegalValue)
  {
  }

  /** An object id outside a byte is rejected whatever the read code is.
      Both checks answer with the same IllegalValue exception, so the order
      in which the source makes them is not observable from the result. */
  lemma ExecuteChecksObjectIdFirst(q: RequestFields, provider: Provider)
    requires !(0 <= q.objectId <= 0xFF)
    ensures Execute(q, provider) == ExceptionResponse(IllegalValue)
  {
  }

  /** The upper bounds are inclusive: read code 4 with object id 0xFF is
      answered, read code 5 and object id 0x100 are not. */
  lemma ExecuteBoundaries(sub: int, provider: Provider)
    ensures Execute(RequestFields(sub, 0x04, 0xFF), provider).Response?
    ensures Execute(RequestFields(sub, 0x05, 0x00), provider) == ExceptionResponse(IllegalValue)
    ensures Execute(RequestFields(sub, 0x00, 0x100), provider) == ExceptionResponse(IllegalValue)
  {
  }

  /** On success the response carries the provider's dictionary unchanged
      and the request's read code, except that a read code of 0 goes through
      the response constructor's `read_code or Basic` and becomes Basic. */
  lemma ExecuteHandsOver(q: RequestFields, provider: Provider)
    requires Execute(q, provider).Response?
    ensures var r := Execute(q, provider).fields;
      r.information == provider(q.readCode, q.objectId) &&
      r.numberOfObjects == |r.information| &&
      r.readCode == (if q.readCode == 0 then DeviceInformationBasic else q.readCode) &&
      r.conformity == Conformity && r.moreFollows == MoreDataNothing && r.nextObjectId == 0
  {
  }

  /** A successful execute whose provider supplies at most 255 distinct,
      packable objects gives a response that encodes and decodes back to
      itself. */
  lemma ExecuteResponseRoundTrip(q: RequestFields, provider: Provider)
    requires Execute(q, provider).Response?
    requires EntriesPackable(provider(q.readCode, q.objectId))
    requires |provider(q.readCode, q.objectId)| < 256
    ensures EncodeResponse(Execute(q, provider).fields).Ok?
    ensures DecodeResponse(EncodeResponse(Execute(q, provider).fields).value) == Ok(Execute(q, provider).fields)
  {
    ResponseRoundTrip(Execute(q, provider).fields);
  }
}
