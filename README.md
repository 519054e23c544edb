# Read Device Identification (Modbus MEI 0x2B / 0x0E) in Dafny

This project models the codec of pymodbus3's Read Device Identification
transaction (function code 0x2B, MEI type 0x0E, section 6.21 of the Modbus
Application Protocol Specification V1.1b3), as implemented in
`pymodbus3/mei_message.py`, and proves its properties:

- the request body `sub_function_code | read_code | object_id` and its round
  trips in both directions;
- `execute`: the object id must be a byte, then the read code must be in
  0..4; when both hold, the provider's dictionary becomes a new response,
  otherwise the answer is an IllegalValue exception;
- the response body, a 6-byte header followed by `object_id | length |
  payload` triples in dictionary order, its layout, its failure cases and the
  round trip `decode(encode(r)) == r`;
- what decode does with malformed input: a short header or a single byte
  left at the cursor raises, a length running past the end clips the payload,
  a repeated id overwrites in place;
- `calculate_rtu_frame_size`: at least 10, exactly 10 before byte 7 has
  arrived, non-decreasing as bytes arrive, and equal to the frame's length on
  `address | function code | encoded response | CRC(2)` when the count byte
  matches the dictionary.

Files and modules:

- `wrappers.dfy` (`Wrappers`): `byte`, `Option`, the `struct.error` outcome
  `Result`.
- `device_info.dfy` (`DeviceInfo`): the `information` dictionary as an
  ordered sequence of `(id, payload)` items, `Dict` the items whose keys do
  not repeat (every Python dictionary); `Put` is Python's `d[k] = v`.
- `response_codec.dfy` (`ResponseCodec`): response fields, constructor
  values, encode and decode as functions, and their lemmas.
- `request_codec.dfy` (`RequestCodec`): request fields, encode, decode,
  `Execute`, and their lemmas.
- `rtu_frame_size.dfy` (`RtuFrameSize`): the frame-size estimate as a
  function and its lemmas.
- `mei_message.dfy` (`MeiMessage`): the classes `ReadDeviceInformationRequest`
  and `ReadDeviceInformationResponse` with the fields their methods assign;
  each method is proved equal to the function above (the loops of response
  `encode`, response `decode` and `calculate_rtu_frame_size` keep their loop
  form with invariants).

Every field is a Python integer (`int`), so `struct.pack` failures on values
outside 0..255 are modelled as `Err(PackError)`; `struct.unpack` failures on
buffers of the wrong length as `Err(UnpackError)`. Buffers are `seq<byte>`.
The device information provider (`DeviceInformationFactory.get` on the
module's control block) is the parameter `provider: (int, int) -> Dict` of
`Execute`: it returns a dictionary, so its keys are distinct.

Where the code's behaviour may surprise, the model follows the code:

- encode writes the stored `number_of_objects`; it does not recompute it
  (`EncodeKeepsStoredCount`);
- decode does not reject a payload whose declared length runs past the
  buffer: it is clipped (`ParseObjectsClipped`), and decode never compares
  the parsed entries with the count byte;
- a payload longer than 255 bytes makes `struct.pack` raise; there is no
  separate error kind for it;
- request decode needs exactly three bytes (`struct.unpack('>BBB', ...)`), so
  longer buffers fail as well as shorter ones;
- `DeviceInformation.Basic` and `MoreData.Nothing` come from
  `pymodbus3.constants`, which is not part of this model; the model uses
  pymodbus's values 0x01 and 0x00, and every proof holds for any byte value
  of either constant (0x00 for Basic included). Because the response constructor applies `read_code or Basic`
  again, a decoded request with read code 0 produces a response with read
  code Basic (`ExecuteHandsOver`).

## Model

| member | source | states |
|---|---|---|
| `DeviceInfo.Put` | pymodbus3/mei_message.py:169 | dictionary assignment adds at most one entry and removes none; its meaning is stated by `PutAppends`, `PutUpdates`, `PutKeys` and `PutDistinct` |
| `ResponseCodec.ReadCodeOrBasic` | pymodbus3/mei_message.py:40 | `read_code or Basic`: None and 0 give Basic, every non-zero read code is kept (also used at :123) |
| `ResponseCodec.EncodeResponse` | pymodbus3/mei_message.py:132-151 | encode succeeds exactly when every header field, id and payload length fits in a byte, and then yields `6 + sum(2 + len)` bytes with the stored count in byte 5; layout in `EncodeResponseLayout`, inverse in `ResponseRoundTrip` |
| `ResponseCodec.ParseObjects` | pymodbus3/mei_message.py:162-169 | the dictionary built by the cursor loop never shrinks and gains at most one entry per two bytes consumed; its behaviour is stated by `ParseEncodedObjects`, `ParseObjectsDistinct`, `ParseObjectsDangling` and `ParseObjectsClipped` |
| `ResponseCodec.DecodeResponse` | pymodbus3/mei_message.py:153-169 | decode fails on fewer than six bytes, and when it succeeds yields at most `(len - 5) / 2` entries under distinct keys; decode undoes encode (`ResponseRoundTrip`); encode does not undo decode, because of clipped payloads and repeated ids (`ParseObjectsClipped`, `DecodeRepeatedId`) |
| `MeiMessage.ReadDeviceInformationRequest.Encode` | pymodbus3/mei_message.py:43-54 | the request's encode succeeds exactly when its three fields are bytes, and then yields them in field order `[sub_function_code, read_code, object_id]` |
| `RequestCodec.EncodeRequest` | pymodbus3/mei_message.py:43-54 | request encode succeeds exactly when the three fields are bytes and then yields three bytes; inverse in `RequestRoundTrip` and `RequestReencode` |
| `RequestCodec.DecodeRequest` | pymodbus3/mei_message.py:56-62 | request decode succeeds exactly on three-byte buffers, giving byte-valued fields |
| `RequestCodec.Execute` | pymodbus3/mei_message.py:64-78 | a response exactly when object id and read code are in range, carrying the provider's dictionary; validation order in `ExecuteChecksObjectIdFirst`, hand-over in `ExecuteHandsOver` |
| `RtuFrameSize.FrameSize` | pymodbus3/mei_message.py:97-114 | the estimate is at least 10, and 10 before byte 7 arrives; exact on complete frames by `FrameSizeOfFrame` |
| `DeviceInfo.PutAppends` | pymodbus3/mei_message.py:169 | assigning a key not yet in the dictionary appends the entry at the end |
| `DeviceInfo.PutUpdates` | pymodbus3/mei_message.py:169 | assigning an existing key keeps the length and the key's position, replaces its payload, and leaves every other entry as it was |
| `DeviceInfo.PutKeys` | pymodbus3/mei_message.py:169 | after assignment the keys are exactly the old keys plus the assigned one |
| `DeviceInfo.PutDistinct` | pymodbus3/mei_message.py:169 | assignment keeps keys distinct |
| `ResponseCodec.NewResponse` | pymodbus3/mei_message.py:116-130 | a new response has sub-function 0x0E, read code `read_code or Basic`, the given dictionary or an empty one, a count equal to the dictionary's size, conformity 0x83, next object id 0 and more-follows Nothing |
| `ResponseCodec.ObjectsBytesLength` | pymodbus3/mei_message.py:147-149 | the encoded entries take `sum(2 + len(payload))` bytes, against an independent size function |
| `ResponseCodec.ObjectsBytesAppend` | pymodbus3/mei_message.py:147-149 | encoding the entries in order is appending each entry's encoding, so the loop may build it piece by piece |
| `ResponseCodec.EncodeResponseLayout` | pymodbus3/mei_message.py:137-151 | a successful encode is `6 + sum(2 + len)` bytes: the six header fields in order, byte 5 being the stored count, then the entries |
| `ResponseCodec.EncodeResponseFails` | pymodbus3/mei_message.py:148 | an entry whose id is not a byte or whose payload is longer than 255 bytes makes encode fail with a pack error |
| `ResponseCodec.ParseEncodedObjects` | pymodbus3/mei_message.py:162-169 | the cursor loop over encoded entries with distinct ids rebuilds exactly those entries in order and ends normally |
| `ResponseCodec.ResponseRoundTrip` | pymodbus3/mei_message.py:132-169 | decoding any encodable response restores all six header fields and the ordered dictionary |
| `ResponseCodec.ParseObjectsDistinct` | pymodbus3/mei_message.py:164-169 | whatever the buffer, the dictionary decode builds has distinct keys |
| `ResponseCodec.DecodeResponseShort` | pymodbus3/mei_message.py:158 | fewer than six bytes make decode fail with an unpack error |
| `ResponseCodec.ParseObjectsDangling` | pymodbus3/mei_message.py:165-167 | exactly one byte left at the cursor makes the loop fail, keeping the entries read so far |
| `ResponseCodec.ParseObjectsClipped` | pymodbus3/mei_message.py:168-169 | a declared length running past the end stores the bytes that remain and ends the loop without error |
| `ResponseCodec.DecodeExample` | pymodbus3/mei_message.py:153-169 | header `0E 01 83 00 00 01` then object `00 03 'ABC'` decodes to count 1 and `{0x00: 'ABC'}` |
| `ResponseCodec.DecodeRepeatedId` | pymodbus3/mei_message.py:169 | a repeated id overwrites the first payload in the first position, and three wire entries under a count of 3 give a two-entry dictionary |
| `ResponseCodec.EncodeKeepsStoredCount` | pymodbus3/mei_message.py:144 | three entries stored with count 5 encode with byte 5 equal to 5 and decode back unchanged |
| `RequestCodec.NewRequest` | pymodbus3/mei_message.py:33-41 | a new request has sub-function 0x0E, the given object id and read code `read_code or Basic` |
| `RequestCodec.EncodeRequestLayout` | pymodbus3/mei_message.py:43-54 | a successful request encode yields exactly the three fields in order |
| `RequestCodec.RequestRoundTrip` | pymodbus3/mei_message.py:43-62 | decoding an encoded request restores all three fields |
| `RequestCodec.RequestReencode` | pymodbus3/mei_message.py:43-62 | encoding a decoded request reproduces the buffer |
| `RequestCodec.ExecuteValidates` | pymodbus3/mei_message.py:70-73 | an object id outside 0..0xFF or a read code outside 0..4 is answered with the IllegalValue exception |
| `RequestCodec.ExecuteChecksObjectIdFirst` | pymodbus3/mei_message.py:70-71 | an object id outside a byte gives IllegalValue whatever the read code |
| `RequestCodec.ExecuteBoundaries` | pymodbus3/mei_message.py:70-73 | read code 4 with object id 0xFF is answered; read code 5 and object id 0x100 give IllegalValue |
| `RequestCodec.ExecuteHandsOver` | pymodbus3/mei_message.py:75-78 | on success the response holds the provider's dictionary unchanged with a matching count, and the request's read code (0 becoming Basic) |
| `RequestCodec.ExecuteResponseRoundTrip` | pymodbus3/mei_message.py:75-78 | a response built by execute from at most 255 packable objects encodes and decodes back to itself |
| `RtuFrameSize.FrameWalk` | pymodbus3/mei_message.py:108-114 | the estimator's loop never answers less than the current estimate plus the two CRC bytes |
| `RtuFrameSize.FrameWalkMonotone` | pymodbus3/mei_message.py:108-114 | the loop's answer does not decrease when the buffer is extended |
| `RtuFrameSize.FrameSizeMonotone` | pymodbus3/mei_message.py:97-114 | the estimate does not decrease as more bytes of the frame arrive |
| `RtuFrameSize.FrameWalkObjects` | pymodbus3/mei_message.py:108-114 | walking encoded entries from their first byte ends exactly after them, whatever follows |
| `RtuFrameSize.FrameSizeOfFrame` | pymodbus3/mei_message.py:97-114 | on `address, function code, encoded response, CRC(2)` with a count byte equal to the number of entries, the estimate is the frame's length |
| `RtuFrameSize.FrameSizeOfPrefix` | pymodbus3/mei_message.py:97-114 | on every prefix of such a frame the estimate is at most the frame's length |
| `RtuFrameSize.FrameSizeOfNewResponse` | pymodbus3/mei_message.py:97-130 | the frame of any encodable freshly constructed response is estimated at its exact length |
| `MeiMessage.ReadDeviceInformationRequest.constructor` | pymodbus3/mei_message.py:33-41 | the fields are those of `NewRequest` |
| `MeiMessage.ReadDeviceInformationRequest.Decode` | pymodbus3/mei_message.py:56-62 | succeeds exactly on three bytes and then assigns them to the three fields; otherwise changes nothing |
| `MeiMessage.ReadDeviceInformationRequest.Execute` | pymodbus3/mei_message.py:64-78 | returns IllegalValue exactly when `Execute` does, and otherwise a fresh response object whose fields are `Execute`'s response |
| `MeiMessage.ReadDeviceInformationResponse.CalculateRtuFrameSize` | pymodbus3/mei_message.py:96-114 | the loop computes `FrameSize` of the buffer (every byte it reads is in bounds) |
| `MeiMessage.ReadDeviceInformationResponse.constructor` | pymodbus3/mei_message.py:116-130 | the fields are those of `NewResponse` |
| `MeiMessage.ReadDeviceInformationResponse.Encode` | pymodbus3/mei_message.py:132-151 | the append loop returns `EncodeResponse` of the fields, failing on the first field that does not pack |
| `MeiMessage.ReadDeviceInformationResponse.Decode` | pymodbus3/mei_message.py:153-169 | succeeds exactly when `DecodeResponse` does; on fewer than six bytes nothing changes, otherwise the header fields are the first six bytes and the dictionary is what the cursor loop built, also when it raised part way |

## Left out

- The `ModbusRequest`/`ModbusResponse` base classes (transaction, protocol and unit ids, `**kwargs`) and `do_exception`: they are not part of this model; an exception outcome is the `ExceptionResponse(IllegalValue)` / `Exception(IllegalValue)` variant.
- `DeviceInformationFactory.get` and the module-level `ModbusControlBlock` instance: foreign code and global state; replaced by the `provider` parameter, assumed to return a dictionary.
- The `__str__` methods: text formatting only.
- The `struct` module: `pack` and `unpack` are written out as byte-sequence construction and indexing.
- The class attributes `function_code = 0x2b` and `_rtu_frame_size = 3`: used by the framing layer, not by this code.
- Python values of other types (None or strings in integer fields, non-bytes payloads, non-integer keys): fields are integers and payloads byte sequences.
- Pagination: `next_object_id` and `more_follows` are fixed by the constructor, as in the code; nothing computes them.
