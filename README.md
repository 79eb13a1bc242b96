# udmx-artnet in Dafny

udmx-artnet bridges Art-Net DMX frames to an Anyma uDMX USB dongle. This
project models the three pieces of `udmx-artnet.c` that hold real logic, and
proves properties of them.

- **Frame translation** (`dmx_handler`), in `frame_translator.dfy`.
  - `Translate` maps a frame of `len` bytes to zero or one vendor control
    requests: `cmd_SetSingleChannel` for one byte, `cmd_SetChannelRange` with
    the whole frame for more.
  - The class `DeviceHandle` issues those requests into a ghost transfer log
    and counts the "USB error" messages.
  - `Serve` runs the handler over a sequence of delivered frames.
  - A model of the device's channel buffer (`Apply`, `WriteRange`) is the
    partner definition. It shows that the requests reproduce the frame.
- **String descriptor decoding** (`usbGetStringAscii`), in
  `string_descriptor.dfy`.
  - `GetStringAscii` is a loop over the 256-byte transfer buffer that writes
    into the output array. It is proved against the function `GetString`.
  - A device-side encoder (`Descriptor`, `Utf16Le`) is the partner. Lemmas
    show that decoding it gives back one Latin-1 character per code unit,
    with `?` for wide units.
- **Device discovery** (`findDevice`), in `device_scan.dfy`.
  - `FindDevice` is the nested bus/device scan over an explicit 256-byte
    `string` buffer shared by every query. `VisitDevice` is the loop body and
    `QueryStrings` the two string checks.
  - Every open and close goes into a ghost log.
  - It is proved against the reference function `ScanList` over
    `Enumerate(buses)`. Lemmas about `ScanList` give:
    - the handle discipline;
    - the first-match result;
    - the fact that nothing after the match is opened;
    - the stale-buffer behaviour of the string checks.
- `bytes.dfy` holds the byte type and C strings (bytes up to the first NUL),
  as `strcmp` reads them; `usb.dfy` holds the transfer timeout.

The constants of lines 29-37 are `CmdSetSingleChannel`, `CmdSetChannelRange`,
`CmdStartBootloader`, `ErrBadChannel`, `ErrBadValue`, `SharedVendor` and
`SharedProduct`. They appear with the values the source gives them.

Inputs that come from the outside world become parameters:
- the frame and `len` that `artnet_read_dmx` reports;
- the result of each control transfer;
- per candidate: whether `usb_open` succeeds, and its two replies to
  GET_DESCRIPTOR (STRING). Each reply is the transfer result plus the 256
  bytes left in the transfer buffer;
- the uninitialised contents of the `string` buffer.

## Model

| member | source | states |
|---|---|---|
| FrameTranslator.Translate | udmx-artnet.c:53-74 | at most one request per frame, and none exactly when `len <= 0` |
| FrameTranslator.TranslateCases | udmx-artnet.c:53-71 | `len == 1` gives code 1 with value `data[0]`, index 0 and no payload; `len > 1` gives code 2 with value `len`, index 0 and payload `data[0..len)` in order |
| FrameTranslator.FrameReproduced | udmx-artnet.c:53-71 | applied to the device's channel buffer, the requests set its first `len` channels to the frame and leave the rest unchanged |
| FrameTranslator.DeviceHandle.ControlMsg | udmx-artnet.c:57-58 | a host-to-device transfer appends exactly its request to the log and returns the device's answer |
| FrameTranslator.DeviceHandle.DmxHandler | udmx-artnet.c:45-77 | the handler returns 0; it issues exactly `Translate(data, len)`, with no retry; a failed transfer adds one error message and nothing else |
| FrameTranslator.DeviceHandle.Serve | udmx-artnet.c:221-227 | handling frames in delivery order logs the concatenation of their translations, whatever became of earlier transfers; exactly one error message per frame with `len > 0` whose transfer failed |
| FrameTranslator.FailuresAppend | udmx-artnet.c:221-227 | failures of concatenated frame lists add up |
| FrameTranslator.FailuresAtMostTransfers | udmx-artnet.c:59-73 | error messages never outnumber the transfers issued |
| FrameTranslator.ServeStep | udmx-artnet.c:221-227 | handling one more frame appends exactly its translation to the requests, and one failure when its non-empty transfer failed |
| FrameTranslator.TranslateAllAppend | udmx-artnet.c:45-77 | frames translate independently: the requests of concatenated frame lists concatenate |
| FrameTranslator.TransfersPerFrame | udmx-artnet.c:53-74 | the number of requests equals the number of frames with `len > 0` |
| StringDescriptor.Units | udmx-artnet.c:89-91 | the unit count is min(rval, bLength) / 2, and never above 127 |
| StringDescriptor.CharCount | udmx-artnet.c:93-95 | at most `buflen` characters, and at most 126 |
| StringDescriptor.DescriptorTransfer | udmx-artnet.c:83-85 | the fresh transfer buffer holds what the device sent, and the result is the transfer's |
| StringDescriptor.GetStringAscii | udmx-artnet.c:79-102 | the return value and the output buffer are those of `GetString` for the old buffer contents |
| StringDescriptor.LossyConvert | udmx-artnet.c:92-101 | the loop writes min(units - 1, buflen) characters (none for fewer than two units); character k is the Latin-1 reading of code unit k + 1; a NUL follows them and the rest of `buf` is untouched |
| StringDescriptor.GetStringCases | udmx-artnet.c:83-101 | a negative result is returned with `buf` unchanged; a non-STRING type byte returns 0 with `buf` unchanged; otherwise the decoded characters are written, the return value is their number (0..buflen), `buf[return] == 0`, and the rest of `buf` is untouched |
| StringDescriptor.ShortDescriptorIsEmpty | udmx-artnet.c:89-93 | an effective length below 4 bytes decodes to the empty string |
| StringDescriptor.Descriptor | udmx-artnet.c:80-91 | the encoder's bLength is 2 + 2 × units and its type byte is STRING; the bytes after the descriptor are an arbitrary tail, as the uninitialised transfer buffer leaves them |
| StringDescriptor.DecodeDescriptor | udmx-artnet.c:89-99 | whatever follows it in the buffer, decoding a descriptor gives min(units, buflen) characters; character k is unit k's low byte, or `?` when unit k exceeds 0xFF; a transfer longer than bLength is clipped |
| StringDescriptor.Latin1RoundTrip | udmx-artnet.c:92-99 | a Latin-1 string that fits decodes back to itself, whatever follows its descriptor |
| StringDescriptor.WideUnitBecomesQuestionMark | udmx-artnet.c:97-98 | a code unit above 0xFF decodes to `?` in its place, whatever follows the descriptor |
| Bytes.CString | udmx-artnet.c:139 | the compared string is the NUL-free prefix of the buffer, followed by a NUL when shorter than it |
| Bytes.CStringOfTerminated | udmx-artnet.c:100 | bytes after the written NUL do not affect the string compared |
| Bytes.CStringOfNulFree | udmx-artnet.c:139 | a string without NUL is its own C string |
| DeviceScan.FlatFromSound | udmx-artnet.c:118-119 | every visited entry is a real candidate on a bus at or after the start, stored under its own position |
| DeviceScan.FlatFromOrdered | udmx-artnet.c:118-119 | candidates are visited in strictly increasing bus-then-device order |
| DeviceScan.FlatFromComplete | udmx-artnet.c:118-119 | every candidate from the start position on is visited |
| DeviceScan.Query | udmx-artnet.c:133 | the shared buffer stays 256 bytes long; its contents are `GetString`'s with buflen 256 |
| DeviceScan.Examine | udmx-artnet.c:120-153 | a candidate is passed over exactly when the IDs differ or it does not open; a rejection leaves a 256-byte buffer |
| DeviceScan.QueryStrings | udmx-artnet.c:133-149 | the string checks accept exactly when `Examine` does; on rejection the buffer holds what the queries left |
| DeviceScan.VisitDevice | udmx-artnet.c:120-153 | one iteration of the device loop does what `Examine` decides for the candidate: it returns a handle exactly when `Examine` accepts; an accepted candidate is opened and kept, a rejected one is opened and closed with the buffer `Examine` names, and a skipped one adds no event and leaves the buffer alone |
| DeviceScan.VisitStep | udmx-artnet.c:120-153 | such an iteration is `ScanList`'s step: on acceptance the scan ends with this handle and log, otherwise it goes on from the next device with the new log and buffer |
| DeviceScan.FindDevice | udmx-artnet.c:109-160 | the handle returned is `ScanList(Enumerate(buses), initial).found`, and the ghost log of opens and closes is that scan's log |
| DeviceScan.ScanDisciplined | udmx-artnet.c:126-153 | the log is open/close pairs of one candidate each; if a handle is found, one final open of it follows the pairs |
| DeviceScan.LoggedAfter | udmx-artnet.c:118-153 | the scan only opens and closes candidates it visits, so every event lies after a position that precedes all of them |
| DeviceScan.ScanEventsOnce | udmx-artnet.c:126-153 | in scan order, two events on the same candidate are the open and the close of one pair: each rejected candidate is closed exactly once, and nothing is opened twice |
| DeviceScan.FoundAdmitted | udmx-artnet.c:120-126 | a returned handle belongs to a visited candidate with VID 0x16C0 and PID 0x05DC that opened |
| DeviceScan.NoneAdmitted | udmx-artnet.c:120-159 | with no candidate that matches and opens, nothing is opened and NULL is returned |
| DeviceScan.OpenFailureSkipped | udmx-artnet.c:126-130 | a candidate whose open fails adds no event and leaves the buffer as it was |
| DeviceScan.WellTypedQuery | udmx-artnet.c:133-139 | a well-typed reply succeeds, and the string compared is the C string of its decoding |
| DeviceScan.WellTypedVerdict | udmx-artnet.c:133-149 | with both replies well typed, a candidate that opens is accepted exactly when both names decode to "www.anyma.ch" and "uDMX", whatever the buffer held before |
| DeviceScan.StaleManufacturerAccepted | udmx-artnet.c:112-140 | a manufacturer reply of the wrong type writes nothing, so a buffer left holding "www.anyma.ch" passes the manufacturer check |
| DeviceScan.FirstGenuine | udmx-artnet.c:118-149 | the reference first match is the position of a visited candidate |
| DeviceScan.AnsweredVerdict | udmx-artnet.c:133-149 | with a manufacturer reply that failed or is well typed, a candidate that opens is accepted exactly when it is genuine, whatever the buffer held before; a failed query, or a product reply of another type, rejects it |
| DeviceScan.FindsFirstGenuine | udmx-artnet.c:118-157 | unless a candidate that opens answers the manufacturer query successfully with another descriptor type, the scan returns the first candidate in scan order that matches, opens and carries both names, or none; candidates whose queries fail are rejected on the way |
| DeviceScan.NothingOpenedAfterFound | udmx-artnet.c:148-157 | every event before the final open concerns an earlier candidate: nothing after the match is opened |
| DeviceScan.FindDeviceOutcome | udmx-artnet.c:109-160 | the found position exists on the buses and holds a matching candidate that opened; the log is disciplined, and no candidate appears in it in more than one open/close pair |
| DeviceScan.NameReplySaysName | udmx-artnet.c:133-148 | a device that sends the descriptor of a NUL-free name makes the comparison see exactly that name, whatever else its transfer buffer holds |
| DeviceScan.RealUdmxIsGenuine | udmx-artnet.c:139-148 | a uDMX that sends the descriptors of "www.anyma.ch" and "uDMX" passes both checks, whatever its transfer buffers hold after the descriptors |

## Left out

- `main` (udmx-artnet.c:170-234): option parsing, `usage`, the libartnet node setup and teardown. `Serve` models only what the `artnet_read` loop does to the device: handling each delivered frame in turn.
- libusb and libartnet themselves (`usb_init`, `usb_find_busses`, `usb_find_devices`, `usb_open`, `usb_close`, `usb_control_msg`, `usb_strerror`, `artnet_read_dmx`). Their results are parameters; opens, closes and transfers are ghost logs.
- All `printf`/`fprintf` output and the `debug`/`verbose` flags. They produce output only; a failed transfer counts one error message.
- Timeouts (1000 ms) and the request-type bitmask. They are constants (`TransferTimeoutMs`, `RequestTypeVendorOut`); nothing depends on them.
- The string indices `iManufacturer`/`iProduct` and the LANGID 0x0409. They select which descriptor the device sends; the model takes that descriptor as the reply.
- `Apply`/`WriteRange` describe the uDMX firmware, which is not part of this model. `FrameReproduced` holds for that description.
- FrameTranslator.Translate: values are unbounded integers. The 16-bit wValue/wIndex fields of the real request are not modelled; a DMX universe has at most 512 channels, well inside 16 bits.
- StringDescriptor.GetStringAscii: it requires `TerminatorFits(buflen, buf.Length)`. Without it, `buf[i - 1] = 0` at line 100 can write at `buf[buflen]`, one past a buffer of exactly `buflen` bytes. The only call uses 256 and 256, which satisfies it.
- StringDescriptor.LossyConvert: it carries the same `TerminatorFits` requirement, and `units <= 127`, which `Units` guarantees for every transfer.
- A transfer result below 2 leaves `buffer[1]` uninitialised (line 87). The transfer buffer is an input whose contents are arbitrary, which covers that case.
- The `verbose` messages at lines 138 and 147 print the buffer with `%s`, which reads past its end when it holds no NUL. They are output only. The comparisons themselves stop at the literal's terminator, and `CString` gives the same verdict: a buffer with no NUL compares unequal.
- DeviceScan.FindsFirstGenuine: excludes only a manufacturer reply that succeeds with a type byte other than STRING. Such a reply writes nothing, so acceptance then depends on what earlier queries left in the buffer; `StaleManufacturerAccepted` shows how. Failed queries and wrong-typed product replies are covered.
