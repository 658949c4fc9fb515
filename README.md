# RRC measurements trigger, modelled in Dafny

This project models the RRC measurement trigger of the EmPOWER runtime
(`empower/rrc_measurements/rrc_measurements.py`). This trigger module
periodically asks a base station (a VBS) for radio measurements on behalf
of one UE of one tenant. It has three parts:

- **Wire codec** (`rrc_wire.dfy`, built on `big_endian.dfy`):
  - the fixed 34-byte big-endian request `RRC_REQUEST`;
  - the response `RRC_RESPONSE`: a 32-bit count followed by that many
    7-byte `RRC_ENTRY` records.

  Both are pure functions over `seq<byte>`. The request has an encoder
  and a decoder. The response has a decoder, plus the peer's encoder as
  the reference definition for the decoder.
- **Configuration state** (`rrc_trigger.dfy`, `py_int.dfy`). The class
  `RrcMeasurements` has:
  - the `imsi` and `measurements` setters, which apply Python's `int()`
    coercion (modelled in `PyInt`);
  - module equality;
  - `handle_response`.
- **The tick** (`RrcMeasurements.RunOnce`). It resolves the tenant, then
  the UE, then its VBS, and unloads the module when any of them is
  missing or the VBS is offline. Otherwise it records the VBS and writes
  one encoded request per configured measurement, with `meas_id = i`.

The model replaces the runtime's shared state with explicit values:
- The runtime's tenant registry is a `map` passed to `RunOnce`.
- A VBS is the value it has at the moment of the tick.
- Writes to the VBS connection are appended to the field `written`.
- `unload()` sets the flag `unloaded`.
- Invoking the registered callback appends its argument to `callbackArgs`.

The protocol constants come from the VBSP package, which is not part of
this model: the trigger message type, the protocol version, the request
direction and the "add" operation. They are a `Protocol` parameter.
`EP_ACT_RRC_MEASUREMENT = 0x05` and `length = 34` are constants here.

Some behaviours of the code a reader might not expect:
- **Trailing bytes.** Both decoders ignore bytes after the layout, as the
  parsing library does. A stricter decoder could reject them; this one
  does not.
- **`handle_response` does not touch `results`.** It only invokes the
  callback, so the `results` list stays empty however many reports
  arrive.
- **More than 256 measurements.** There is no configuration error. Up to
  256 measurements all fit. With more, a tick writes the frames for
  `meas_id` 0 to 255, and building the request with `meas_id` 256 raises,
  because the field is one byte.
- **Values too wide for their field.** The measurement setters coerce with
  `int()` and check no range. A tick therefore also stops at the first
  request with a value too wide for its field. The frames written before
  it stay written (`TickOutcome.BuildFailed`).

## Model

| member | source | states |
|---|---|---|
| `BigEndian.U8` | empower/rrc_measurements/rrc_measurements.py:46-68 | a value that fits 8 bits is one octet |
| `BigEndian.U16` | empower/rrc_measurements/rrc_measurements.py:46-68 | a value that fits 16 bits is two octets, most significant first |
| `BigEndian.U32` | empower/rrc_measurements/rrc_measurements.py:46-68 | a value that fits 32 bits is four octets, most significant first |
| `BigEndian.ReadU8` | empower/rrc_measurements/rrc_measurements.py:46-68 | the octet read at an offset fits 8 bits |
| `BigEndian.ReadU16` | empower/rrc_measurements/rrc_measurements.py:46-68 | two octets read big-endian fit 16 bits |
| `BigEndian.ReadU32` | empower/rrc_measurements/rrc_measurements.py:46-68 | four octets read big-endian fit 32 bits |
| `BigEndian.ReadOfU8` | empower/rrc_measurements/rrc_measurements.py:46-68 | reading an encoded u8 gives the value back |
| `BigEndian.ReadOfU16` | empower/rrc_measurements/rrc_measurements.py:46-68 | reading an encoded u16 gives the value back, at any offset |
| `BigEndian.ReadOfU32` | empower/rrc_measurements/rrc_measurements.py:46-68 | reading an encoded u32 gives the value back, at any offset |
| `BigEndian.U16OfRead` | empower/rrc_measurements/rrc_measurements.py:46-68 | encoding the u16 read at an offset gives back the two octets read |
| `BigEndian.U32OfRead` | empower/rrc_measurements/rrc_measurements.py:46-68 | encoding the u32 read at an offset gives back the four octets read |
| `RrcWire.EncodeRequest` | empower/rrc_measurements/rrc_measurements.py:46-62 | a request whose fields fit their widths encodes to exactly 34 bytes |
| `RrcWire.DecodeRequest` | empower/rrc_measurements/rrc_measurements.py:46-62 | decoding succeeds exactly when at least 34 bytes are given, and every decoded field fits its width |
| `RrcWire.EncodeRequestLayout` | empower/rrc_measurements/rrc_measurements.py:46-62 | each field sits big-endian at its fixed offset: length 0-3, type 4, version 5, enbid 6-9, cellid 10-11, modid 12-15, seq 16-19, action 20, dir 21, op 22, meas_id 23, rnti 24-25, earfcn 26-27, interval 28-29, max_cells 30-31, max_meas 32-33 |
| `RrcWire.RequestRoundTrip` | empower/rrc_measurements/rrc_measurements.py:46-62 | decoding an encoded request, with any bytes after it, gives back every field |
| `RrcWire.RequestReEncode` | empower/rrc_measurements/rrc_measurements.py:46-62 | re-encoding a decoded request gives back the 34 bytes that were read, so the codec is a bijection on 34-byte frames |
| `RrcWire.EntryAt` | empower/rrc_measurements/rrc_measurements.py:64-68 | an entry read from 7 bytes has a u8 meas_id and u16 pci, rsrp and rsrq |
| `RrcWire.DecodeEntries` | empower/rrc_measurements/rrc_measurements.py:72 | reading n entries succeeds exactly when 7n bytes remain, and then yields n entries, the k-th read at offset 7k |
| `RrcWire.DecodeResponse` | empower/rrc_measurements/rrc_measurements.py:64-72 | succeeds exactly when at least 4 bytes are given and 4 + 7n bytes are given, where n is the big-endian count. The number of entries then equals the count, and entry k is the record at offset 4 + 7k |
| `RrcWire.EncodeEntry` | empower/rrc_measurements/rrc_measurements.py:64-68 | the peer's encoding of one entry is 7 bytes |
| `RrcWire.EncodeEntries` | empower/rrc_measurements/rrc_measurements.py:72 | the peer's encoding of n entries is 7n bytes |
| `RrcWire.EncodeResponse` | empower/rrc_measurements/rrc_measurements.py:70-72 | the peer's encoding of a response with n entries is 4 + 7n bytes |
| `RrcWire.EntryRoundTrip` | empower/rrc_measurements/rrc_measurements.py:64-68 | an encoded entry decodes to itself |
| `RrcWire.EntriesRoundTrip` | empower/rrc_measurements/rrc_measurements.py:72 | encoded entries decode to themselves, at any offset |
| `RrcWire.ResponseRoundTrip` | empower/rrc_measurements/rrc_measurements.py:64-72 | decoding an encoded response, with any bytes after it, gives it back |
| `RrcWire.ResponseConsumes` | empower/rrc_measurements/rrc_measurements.py:64-72 | a successful decode consumes exactly 4 + 7n bytes: those bytes are the encoding of the result, and they alone decode to it |
| `RrcWire.EntriesReEncode` | empower/rrc_measurements/rrc_measurements.py:72 | entries read from a buffer re-encode to the bytes they were read from |
| `RrcWire.TruncatedResponseFails` | empower/rrc_measurements/rrc_measurements.py:64-72 | every strict prefix of an encoded response is rejected as truncated, never decoded to partial results |
| `RrcWire.OneEntryResponse` | empower/rrc_measurements/rrc_measurements.py:64-72 | the buffer with count 1 and entry (0, 55, 10, 20) decodes to that single entry |
| `PyInt.ParseInt` | empower/rrc_measurements/rrc_measurements.py:131 | text is accepted exactly when it is an optionally signed, non-empty run of decimal digits, and a leading minus gives a value of at most zero |
| `PyInt.Truncate` | empower/rrc_measurements/rrc_measurements.py:113-116 | a float becomes the integer nearest zero within distance less than 1 |
| `PyInt.ToInt` | empower/rrc_measurements/rrc_measurements.py:113-116 | `int()` keeps integers, truncates floats toward zero (`Truncate`), refuses `None` with a TypeError, and accepts text exactly when `ParseInt` does, with `ParseInt`'s value; rejected text is a ValueError |
| `PyInt.ParseDecimalString` | empower/rrc_measurements/rrc_measurements.py:131 | every integer written in decimal parses back to itself |
| `PyInt.DigitsValueZeros` | empower/rrc_measurements/rrc_measurements.py:131 | leading zeros do not change the value of a run of digits |
| `PyInt.ParseIntPadded` | empower/rrc_measurements/rrc_measurements.py:131 | an optional `+` or `-` and any number of leading zeros before the digits of n parse to n, negated after `-`: `"007"` is 7, `"+7"` is 7, `"-007"` is -7 |
| `PyInt.NatDigitsValue` | empower/rrc_measurements/rrc_measurements.py:131 | the decimal digits of a natural number are digits, and their value is that number |
| `RrcTrigger.CoerceField` | empower/rrc_measurements/rrc_measurements.py:113-116 | a missing key is a KeyError for that element. Otherwise the field succeeds exactly when `int()` does, with its value, and a failing `int()` is reported with the element's index, the key and `int()`'s own error |
| `RrcTrigger.CoerceMeasurement` | empower/rrc_measurements/rrc_measurements.py:112-117 | an element coerces exactly when all four keys coerce, to the record of their `int()` values. A failure carries the element's index and is the error of the first key, in the order earfcn, interval, max_cells, max_meas, that fails |
| `RrcTrigger.CoerceFrom` | empower/rrc_measurements/rrc_measurements.py:110-119 | the setter loop yields at most one record per element; when it stops at a failing element, there is one record per element before it, and with no failure one per element. `CoerceFromSpec` and `CoerceAllSucceeds` state what the records are |
| `RrcTrigger.CoerceFromSpec` | empower/rrc_measurements/rrc_measurements.py:110-119 | the setter's records are those of the elements before the first failing one, in input order. The failure reported is that element's |
| `RrcTrigger.CoerceAllSucceeds` | empower/rrc_measurements/rrc_measurements.py:110-119 | the setter succeeds exactly when every element coerces, and then appends one record per element, the k-th from element k |
| `RrcTrigger.RrcMeasurements.SetMeasurements` | empower/rrc_measurements/rrc_measurements.py:106-119 | appends the coerced records after the existing list rather than replacing it. On a failure the records appended before it remain. Nothing else changes |
| `RrcTrigger.RrcMeasurements.SetImsi` | empower/rrc_measurements/rrc_measurements.py:127-131 | stores `int(value)`. If coercion fails, the IMSI is unchanged and the error is returned |
| `RrcTrigger.RrcMeasurements.constructor` | empower/rrc_measurements/rrc_measurements.py:81-93 | a new module has no IMSI, no measurements, no results and no VBS |
| `RrcTrigger.RrcMeasurements.Equals` | empower/rrc_measurements/rrc_measurements.py:95-98 | equal modules have equal base identity, equal IMSIs and measurement lists of the same length. `EqualsElementwise` gives the full if-and-only-if |
| `RrcTrigger.EqualsElementwise` | empower/rrc_measurements/rrc_measurements.py:95-98 | two modules are equal exactly when the base equality holds, their IMSIs are equal, and their measurement lists have the same length and agree element by element |
| `RrcTrigger.EqualsRespectsOrder` | empower/rrc_measurements/rrc_measurements.py:95-98 | the same two distinct measurements in the other order make modules unequal |
| `RrcTrigger.ResolveAsWritten` | empower/rrc_measurements/rrc_measurements.py:147-164 | the lookups as written: a known UE without a VBS is exactly the case where the tick raises an attribute error |
| `RrcTrigger.Resolve` | empower/rrc_measurements/rrc_measurements.py:147-164 | resolution succeeds exactly when the tenant exists, the IMSI is one of its UEs, and that UE has an online VBS. It then yields that UE and its VBS |
| `RrcTrigger.ResolveAsWrittenDiffers` | empower/rrc_measurements/rrc_measurements.py:161-162 | the code as written and the intended lookup disagree exactly when the UE has no VBS. There the intended lookup unloads |
| `RrcTrigger.UeWithoutVbsRaises` | empower/rrc_measurements/rrc_measurements.py:161-162 | a concrete tenant whose UE has no VBS, on which the code as written raises and the corrected lookup unloads |
| `RrcTrigger.RequestFor` | empower/rrc_measurements/rrc_measurements.py:172-187 | when the header values and the measurement fit their fields, the request fits the wire layout exactly when its meas_id is below 256. `RequestsFields` states each field |
| `RrcTrigger.RequestsFields` | empower/rrc_measurements/rrc_measurements.py:168-187 | the i-th request has: meas_id i whatever the measurement holds; length 34; the constant type, version, action 0x05, dir and op; enbid and seq from the VBS; cellid and rnti from the UE; modid from the module; and the i-th measurement's values |
| `RrcTrigger.Requests` | empower/rrc_measurements/rrc_measurements.py:168-170 | one request per configured measurement |
| `RrcTrigger.BuiltCount` | empower/rrc_measurements/rrc_measurements.py:192 | the requests before the first one too wide for the layout all fit, and that one does not |
| `RrcTrigger.EncodeAll` | empower/rrc_measurements/rrc_measurements.py:192-193 | one frame per request |
| `RrcTrigger.TickFrames` | empower/rrc_measurements/rrc_measurements.py:168-193 | a tick writes at most one frame per measurement, each 34 bytes. `TickFramesDecode` and `TickFramesCount` state their contents and number |
| `RrcTrigger.TickFramesDecode` | empower/rrc_measurements/rrc_measurements.py:168-193 | every frame a tick writes is 34 bytes, the value of its own length field. It decodes to the request for its position, with meas_id i and the i-th measurement's values |
| `RrcTrigger.TickFramesCount` | empower/rrc_measurements/rrc_measurements.py:168-193 | a tick writes at most 256 frames. If the header and all measurement values fit, it writes one per measurement, up to 256 |
| `RrcTrigger.RrcMeasurements.RunOnce` | empower/rrc_measurements/rrc_measurements.py:144-193 | if the tenant, the UE or an online VBS is missing, it unloads, writes nothing and leaves `vbs` unchanged. Otherwise it sets `vbs` to the UE's VBS and appends the tick's frames, in meas_id order. It reports whether all were sent or where the encoder raised |
| `RrcTrigger.RrcMeasurements.WriteRequests` | empower/rrc_measurements/rrc_measurements.py:168-193 | the write loop appends exactly the tick's frames, in order, and reports where it stopped |
| `RrcTrigger.RrcMeasurements.HandleResponse` | empower/rrc_measurements/rrc_measurements.py:195-206 | invokes the callback once, with the module itself. Results, measurements and VBS are unchanged |

## Left out

- Logging and the `print` of the report in `handle_response`: they have no effect on the state.
- The runtime registries (`RUNTIME.tenants`, `RUNTIME.components`): the tenant registry is a map given to `RunOnce`.
- The registration plumbing (the `rrc_measurements` and `bound_rrc_measurements` factories, the `setattr` onto the application class, `launch`, the worker class): it is framework glue.
- The base classes' behaviour is not shown in the source and is not part of this model. This covers `unload()` (a flag here), `module_id` allocation (a given constant), `handle_callback` (recorded as a call with its argument), dispatch of inbound frames, and `super().__eq__` (a boolean parameter of `Equals`).
- `to_dict`: JSON serialisation only.
- The socket write: appending to `written` stands for it.
- Changes to `vbs.seq` during a tick: the sequence number is read from the VBS value as it was when the tick resolved it.
- The parsing library's combinators: the byte layout is written out directly.
- `PyInt.ParseInt`: does not accept surrounding whitespace, `_` digit separators or non-ASCII digits, which Python's `int()` accepts. Configuration text using them is refused here.
- `PyInt.ToInt`: covers integers, floats, text and `None`. Booleans and other Python objects are not modelled.
- `PyInt.ToInt`: a float is a Dafny `real`, which holds no NaN or infinity. A JSON `NaN` or `Infinity` would make `int()` raise a ValueError or an OverflowError; the model cannot represent that input.
- `RrcTrigger.RrcMeasurements.SetMeasurements`: its input is a value, so it cannot alias the module's own list. In the source, `m.measurements = m.measurements` on a non-empty list iterates the list it appends to (lines 110 and 119) and never ends; the model always ends.
- A UE without a serving cell: the UE record holds its serving cell's PCI directly, so every resolved UE has a cell. In the source, `ue.cell.pci` (line 176) on a UE without a cell would raise after `self.vbs` is set (line 166) and before any frame is written.
- Identity of objects: a VBS and a UE are values, so `vbs` records the VBS's state at the tick rather than a reference to a live object.

## Findings

| source | as written | input that shows it | evidently intended | confidence | as-written member | corrected member |
|---|---|---|---|---|---|---|
| empower/rrc_measurements/rrc_measurements.py:161-162 | when the UE has no VBS, the log message reads `ue.vbs.addr` on `None` and the tick raises an attribute error | tenant `t` whose UE with IMSI 1 has `vbs = None` | log, unload the module and write nothing, as for an offline VBS | not executed | `RrcTrigger.ResolveAsWritten`, `RrcTrigger.UeWithoutVbsRaises` | `RrcTrigger.Resolve` (used by `RrcTrigger.RrcMeasurements.RunOnce`) |
