# le-scan-passive in Dafny

A model of the passive Bluetooth LE scanner `le-scan-passive`, a cut-down
`hcitool lescan`. The scanner narrows an HCI socket's event filter to LE Meta
events. It then reads events, and for every LE Advertising Report it prints
the RSSI and the report's Advertising Data. The Advertising Data is a
sequence of length-prefixed, type-tagged structures (Bluetooth Core
Specification, Volume 3, Part C, Section 11). Each structure is printed as a
label for its type followed by its value.

The model is split into modules:

- `Bytes` (bytes.dfy): octets, signed-octet conversion, `%.2X`, `%c` and `%4d` text.
- `AdRender` (ad_render.dfy): the type-label table and the value rendering of `parse_elements`.
- `AdDecoder` (ad_decoder.dfy): the cursor loop of `parse_elements`.
  - `ParseElements` is a method with a `while` loop, proved equal to the function `Decode`.
  - `Decode` is tied to an encoder (`Encode`) by round-trip lemmas.
  - `DecodeFixed` is a corrected decoder used for the finding below.
- `HciFrame` (hci_frame.dfy): where the subevent code, address, data length, data and RSSI of the first report are read in the 260-octet receive buffer.
- `Capture` (capture.dfy): `print_advertising_devices`.
  - The socket is a class `HciSocket`. Its fields are the current filter, every filter passed to `setsockopt` so far, the outcomes of the `setsockopt` calls still to come, and the outcomes of the reads still to come.
  - `CaptureLoop` keeps the program's nested loops and is proved against the function `CaptureFrom`.
  - `PrintAdvertisingDevices` saves, narrows and restores the filter around it.
- `ScanSession` (scan_session.dfy): `cmd_lescan` as the sequence of HCI commands issued and the exit status.

The decoder is modelled as written. Its bounds check lets a field that ends
one octet past the payload through. In a received frame that octet is the
RSSI octet, which therefore appears as part of the last field. `Decode`
requires one readable octet beyond the declared length. The capture loop
uses this as-written decoder, so the modelled output is the program's
output. See "## Findings".

In two places a reader might expect the program to clean up or report
something that it does not. The model follows the code:

- One might expect scanning to be disabled after a failed capture. Instead the process exits at once (le-scan-passive.c:269-271), and the controller is left scanning (`ScanSession.CaptureFailureLeavesScanOn`).
- One might expect a failed filter restore at `done` to be reported or to change the return value. Instead the result of that `setsockopt` is not looked at (le-scan-passive.c:221). If the restore fails, the narrowed filter stays on the socket, nothing is printed, and the return value is still computed from `len` (`Capture.PrintAdvertisingDevices`).

## Model

| member | source | states |
|---|---|---|
| Bytes.Signed | le-scan-passive.c:211 | the RSSI is the octet read as `int8_t`: in -128..127 and congruent to the octet modulo 256 |
| Bytes.HexByte | le-scan-passive.c:129 | `%.2X` gives two upper-case hexadecimal digits whose value is the octet |
| Bytes.HexByteRoundTrip | le-scan-passive.c:129 | the two digits of `%.2X` read back to the octet |
| Bytes.HexBytesRoundTrip | le-scan-passive.c:143-144 | octets printed back to back as `%.2X` with no separator can be read back in order; nothing is lost |
| Bytes.HexBytesAt | le-scan-passive.c:143-144 | octet i of the value occupies characters 2i and 2i+1 of the printed text |
| Bytes.CharsVerbatim | le-scan-passive.c:137-138 | `%c` prints every octet as the character with that code, control codes included |
| Bytes.DigitsRoundTrip | le-scan-passive.c:212 | the decimal digits of `%d` read back to the number |
| Bytes.Spaces | le-scan-passive.c:212 | the padding of `%4d` is exactly the requested number of spaces |
| Bytes.RssiColumn | le-scan-passive.c:212 | `%4d` of any RSSI is exactly four characters: spaces, then the signed decimal value |
| Bytes.JoinAppend | le-scan-passive.c:212-216 | the output of one more `printf` follows the output of the calls before it |
| AdRender.TypeLabel | le-scan-passive.c:79-130 | every label is bracketed; the four-character `<XX>` form, carrying the code's two hex digits, is used exactly for codes outside the table |
| AdRender.KnownLabelRoundTrip | le-scan-passive.c:79-127 | each named label is not four characters long and maps back to its code |
| AdRender.LabelRoundTrip | le-scan-passive.c:79-130 | reading a printed label back gives the type code for all 256 codes |
| AdRender.LabelInjective | le-scan-passive.c:79-130 | no two type codes print the same label |
| AdRender.RenderValue | le-scan-passive.c:134-145 | a name (0x08, 0x09) prints one character per octet; every other type prints two per octet |
| AdRender.RenderValueLoop | le-scan-passive.c:134-145 | the per-octet printing loop produces the rendering of the whole value |
| AdRender.RenderValueFaithful | le-scan-passive.c:134-145 | names are printed verbatim, unsanitised; other values can be read back from their hex text |
| AdRender.PrintField | le-scan-passive.c:78-145 | one pass prints the label and then the value loop's output, which is exactly that field's text |
| AdRender.ShownJoin | le-scan-passive.c:78-147 | the texts printed by successive passes, one per field, make up the text of the whole field list |
| AdRender.RenderAllAppend | le-scan-passive.c:78-145 | a field's text follows the text of the fields before it |
| AdRender.NameExample | le-scan-passive.c:104-105 | a complete local name "Foo" prints as `<NAME_COMPLETE>Foo` |
| AdRender.HexExample | le-scan-passive.c:125-144 | manufacturer data 01 02 prints as `<MANUFACTURER_SPECIFIC_DATA>0102` |
| AdRender.UnknownCodeExample | le-scan-passive.c:128-129 | codes 0x42 and 0xAB, which the switch does not know, print as `<42>` and `<AB>` |
| AdRender.FlagsExample | le-scan-passive.c:79-145 | flags 06 print as `<FLAGS>06` |
| AdRender.MakerExample | le-scan-passive.c:125-145 | manufacturer data 4C 00 02 print as `<MANUFACTURER_SPECIFIC_DATA>4C0002` |
| AdRender.RenderTwo | le-scan-passive.c:78-147 | the text of two fields is the first field's text immediately followed by the second's |
| AdRender.ScenarioText | le-scan-passive.c:79-145 | flags 06 then manufacturer data 4C 00 02 print as `<FLAGS>06<MANUFACTURER_SPECIFIC_DATA>4C0002` |
| AdDecoder.ParseElements | le-scan-passive.c:61-151 | the cursor loop emits exactly the fields of `Decode` and prints their text, in at most `(eir_len + 1) / 2` passes |
| AdDecoder.WalkOn | le-scan-passive.c:66-147 | a pass whose structure passes both checks emits it, prints its text and moves the cursor `field_len + 1` on, and what is still to be decoded follows |
| AdDecoder.WalkEnds | le-scan-passive.c:66-76 | a pass that stops the loop (end of payload, zero length, or a length past the payload) leaves no field unemitted; the passes made are at most half the cursor |
| AdDecoder.DecodeFromEmits | le-scan-passive.c:66-147 | a structure that passes both checks is emitted with the type octet after its length octet and the `field_len - 1` octets after that, and decoding goes on `field_len + 1` octets further |
| AdDecoder.DecodeFromIsPrefix | le-scan-passive.c:66-147 | from any cursor, the decoded fields re-encode to the octets from the cursor on, ending no later than `eir_len + 1` |
| AdDecoder.StructureAt | le-scan-passive.c:66-147 | a structure followed by octets that re-encode a field list re-encodes, with that list, to the octets from the structure on |
| AdDecoder.DecodeIsPrefix | le-scan-passive.c:66-147 | the decoded fields re-encode to a prefix of the buffer of at most `eir_len + 1` octets; each value is the `field_len - 1` octets after its length and type octets |
| AdDecoder.DecodeFromCount | le-scan-passive.c:66-147 | from cursor `offset`, at most `(eir_len + 1 - offset) / 2` fields are emitted |
| AdDecoder.DecodeCount | le-scan-passive.c:66-147 | the cursor advances by at least two per field, so at most `(eir_len + 1) / 2` fields; an empty payload yields none |
| AdDecoder.DecodeFromShift | le-scan-passive.c:146-147 | decoding depends only on the octets from the cursor on; advancing `eir` with `offset` keeps them in step |
| AdDecoder.DecodeFieldStep | le-scan-passive.c:66-76 | a well-formed structure at the cursor is emitted and the cursor moves past it |
| AdDecoder.DecodeCons | le-scan-passive.c:61-151 | one encoded structure in front of a payload decodes to its field followed by what the payload decodes to |
| AdDecoder.DecodeEncode | le-scan-passive.c:61-151 | decoding an encoded field list followed by any payload gives the list followed by the decoding of that payload |
| AdDecoder.RoundTrip | le-scan-passive.c:61-151 | decoding the encoding of any field list (values up to 254 octets) gives the list back |
| AdDecoder.ZeroLengthEnds | le-scan-passive.c:66-73 | a zero length octet ends decoding; the fields before it are kept and nothing after it is read |
| AdDecoder.TruncatedFieldDropped | le-scan-passive.c:75-76 | a field whose declared length runs past the payload ends decoding without being emitted; earlier fields are kept and no error is raised |
| AdDecoder.DecodeAgreesUnlessLastEndsAtN | le-scan-passive.c:75-76 | the as-written decoder gives the corrected result, or that result plus one last field ending one octet past the payload |
| AdDecoder.OverReadWitness | le-scan-passive.c:75 | payload 02 09 of length 2 decodes to a name field holding the octet after the payload, and payload 01 of length 1 takes its type from that octet; the corrected decoder emits nothing for either |
| AdDecoder.DecodeFixedWithinPayload | le-scan-passive.c:75 | with the corrected check, the decoded fields re-encode to a prefix of the payload and never depend on octets past it |
| AdDecoder.DecodeFixedFromIsPrefix | le-scan-passive.c:75 | with the corrected check, the fields decoded from any cursor re-encode to octets of the payload only |
| AdDecoder.DecodeFixedFromLocal | le-scan-passive.c:75 | with the corrected check, two buffers that agree on the payload decode alike |
| AdDecoder.RoundTripFixed | le-scan-passive.c:75 | the corrected decoder gives back every encoded field list from the encoding alone |
| HciFrame.ReportEvent | le-scan-passive.c:199-211 | an LE Advertising Report event for a report up to 243 data octets fits the 260-octet receive buffer |
| HciFrame.ExtractReportEvent | le-scan-passive.c:199-211 | whatever the buffer held before, receiving a report event and reading it back gives that report, the RSSI being the octet after the data |
| HciFrame.ExtractedReport | le-scan-passive.c:208-215 | an extracted report's data and RSSI are the `length + 1` octets from the data position |
| HciFrame.ExtractIgnoresHeader | le-scan-passive.c:199-208 | only the subevent code and the octets from the address on are consulted; further reports in the event are ignored |
| HciFrame.ShortReadUsesStaleOctets | le-scan-passive.c:199-211 | `len` is never compared with the offsets: a four-octet read yields a report built from octets an earlier event left in the buffer |
| HciFrame.LongLengthLeavesBuffer | le-scan-passive.c:211 | a data length of 246 or more puts the RSSI position outside the receive buffer |
| Capture.LeMetaFilter | le-scan-passive.c:167-169 | the narrowed filter lets through event packets and the LE Meta event only |
| Capture.CaptureFrom | le-scan-passive.c:181-219 | a capture uses no more reads than given and never stops for a filter failure |
| Capture.CaptureStops | le-scan-passive.c:181-219 | a capture prints at most one report per read; unless the reads ran out, the last read used is the one that stopped it (SIGINT, a non-retried error, or an event) |
| Capture.ReadCount | le-scan-passive.c:187 | `read` returns the event's length, at most the 260-octet buffer size |
| Capture.ReturnValue | le-scan-passive.c:220-226 | the return value for each way the capture can stop: 0 after SIGINT or a non-advertising event of at least three octets; -1 after a filter failure, a read error or a shorter event. That the program's `len`-based computation gives this table is proved in `Capture.PrintAdvertisingDevices` |
| Capture.StepRetry | le-scan-passive.c:194-195 | a retried read changes only the count of reads used |
| Capture.StepReadStop | le-scan-passive.c:187-196 | SIGINT during a read, or an error other than EAGAIN and EINTR, ends the capture with the reports so far |
| Capture.StepEvent | le-scan-passive.c:199-218 | a delivered event is printed as a report before the loop goes on, or ends the capture |
| Capture.RetriesAreSilent | le-scan-passive.c:194-195 | any number of EAGAIN, or EINTR without SIGINT, prints nothing and changes nothing but the count of reads |
| Capture.LeadingRetries | le-scan-passive.c:187-195 | counts the reads in a row that the inner loop retries; the read after them, if any, is not retried |
| Capture.AfterRetries | le-scan-passive.c:187-195 | the capture goes on from the first read that is not retried, with only the count of reads changed |
| Capture.StopIsFinal | le-scan-passive.c:181-219 | once the capture has stopped nothing more is read: later read outcomes make no difference |
| Capture.InterruptIsClean | le-scan-passive.c:188-192 | SIGINT after any retries ends the capture with no reports, after exactly those reads; only the SIGINT notice is printed and the function returns 0 |
| Capture.OtherErrorFails | le-scan-passive.c:196 | a read error other than EAGAIN and EINTR returns -1, whatever the signal state |
| Capture.ShortEventFails | le-scan-passive.c:199-205 | an event under three octets is judged by a stale subevent code; when it is not 0x02, `len` is negative and -1 is returned |
| Capture.ExamplePayload | le-scan-passive.c:215 | the example payload 02 01 06 04 FF 4C 00 02 decodes to flags 06 and manufacturer data 4C 00 02 |
| Capture.ExampleRssi | le-scan-passive.c:211-212 | RSSI octet C4 prints as ` -60` |
| Capture.ExampleReportLine | le-scan-passive.c:210-216 | the example report prints as ` -60 <FLAGS>06<MANUFACTURER_SPECIFIC_DATA>4C0002` and a newline |
| Capture.ReportThenInterrupt | le-scan-passive.c:181-226 | any report event whatever the buffer held, then SIGINT, prints that report's line, then the SIGINT notice, and returns 0 |
| Capture.LinesOne | le-scan-passive.c:210-216 | one report prints its own line and nothing else |
| Capture.RenderedJoin | le-scan-passive.c:181-218 | the lines printed by successive passes, one per report, make up the text of all reports in order |
| Capture.HciSocket.GetFilter | le-scan-passive.c:161-165 | querying the filter returns the socket's current filter, or fails |
| Capture.HciSocket.SetFilter | le-scan-passive.c:171-174 | every call is logged and takes its own outcome; on success the socket carries the new filter, on failure it keeps the old one |
| Capture.HciSocket.Read | le-scan-passive.c:187 | a delivered event overwrites the front of the buffer and its length is returned; a failure returns -1 with errno and leaves the buffer alone |
| Capture.PrintReport | le-scan-passive.c:210-216 | the line printed for the report in the buffer is its RSSI column, a space, the decoded fields' text and a newline |
| Capture.ReadEvent | le-scan-passive.c:187-197 | the inner loop skips the retried reads; SIGINT sets `len` to 0, another error leaves it -1, and the buffer changes only when an event is delivered |
| Capture.CaptureStep | le-scan-passive.c:181-218 | one pass of the outer loop either prints one report's line and goes on as `CaptureFrom` does from the new buffer contents, or ends the capture as `CaptureFrom` does |
| Capture.PassPrints | le-scan-passive.c:199-218 | a pass that prints a report keeps the loop invariant: reports, reads used and text so far, followed by the rest of the capture, are the whole capture |
| Capture.PassEnds | le-scan-passive.c:187-205 | a pass that ends the capture ends it with the reports printed so far |
| Capture.CaptureLoop | le-scan-passive.c:181-219 | the nested read loops print and stop exactly as `CaptureFrom` says, use exactly its reads, and leave `len` 0 after SIGINT, negative after a read error, the event length minus three otherwise |
| Capture.PrintAdvertisingDevices | le-scan-passive.c:153-227 | returns -1 when the filter cannot be queried or set; otherwise captures from the receive buffer's initial contents, prints exactly `Output` of the capture, puts the original filter back at `done` on every path, and returns as `ReturnValue` says. After a successful install the last `setsockopt` call is always the restore of the saved filter; the socket ends with the saved filter unless that restore fails, in which case the narrowed filter stays; the output and return value do not depend on the restore's outcome |
| ScanSession.Lescan | le-scan-passive.c:230-281 | exit status 0 exactly when every command and the capture succeed; a clean exit ends by closing the device |
| ScanSession.PassiveSetup | le-scan-passive.c:233-264 | the scan is passive, interval and window 0x0010, public own address, filter policy 0x00, 10000 ms timeout; it is enabled with duplicates reported before the capture |
| ScanSession.CaptureFailureLeavesScanOn | le-scan-passive.c:267-272 | a failed capture exits with status 1 with scanning still enabled; no disable command is issued |
| ScanSession.CleanExitDisables | le-scan-passive.c:274-280 | a session that exits normally disables scanning just before closing |

## Left out

- `main`, option parsing, device lookup by name or address, and `setvbuf` (le-scan-passive.c:283-319): command-line glue.
- Opening and closing the device and the scan parameter and enable commands: these are Bluetooth library calls. `ScanSession` represents each by whether it succeeded.
- `sigaction` and the SIGINT handler: the asynchronous signal is replaced by a flag on each failed read saying whether SIGINT had been recorded.
- `getsockopt`, `setsockopt`, the `hci_filter_*` helpers and `read`: the filter is an abstract value of packet-type and event sets, and reads are a finite sequence of outcomes given in advance.
- Capture.CaptureFrom: when the given read outcomes run out, the capture stops with `TransportIdle`, whereas the program would block in `read`; no return value is assigned to that stop.
- Capture.CaptureFrom: an event whose data length puts the RSSI position past the 260-octet buffer (`BufferOverrun`) ends the model's capture. The program reads outside its buffer there, and its behaviour is not modelled.
- The diagnostics on standard error: the `fprintf(stderr, …)` messages when the filter cannot be queried or set (le-scan-passive.c:163, 172) and the `perror` messages of `cmd_lescan` (le-scan-passive.c:249-279). Only the failure itself, and the value returned or the exit status, is modelled.
- `ba2str` and the address column of each line: the address text comes from a library that is not part of this model. `Capture.ReportLine` starts at the RSSI column.
- The uninitialised stack buffer `buf` of `print_advertising_devices`: its initial contents are not modelled as any particular value. `Capture.PrintAdvertisingDevices` takes the buffer as an array with arbitrary contents, and every claim holds whatever they are.
- ANSI colour escapes and `printf` itself: output is modelled as the returned text.
- The unused `buf`, `buf_len` and `rssi` parameters of `parse_elements` and the unused `adv` buffer.
- BlueZ's lib/hci.h is not part of this model. The report layout used is its packed `le_advertising_info`:
  - event type at offset 5, address type at 6;
  - address at 7-12, data length at 13;
  - data from 14, RSSI after the data;
  - receive buffer `HCI_MAX_EVENT_SIZE` = 260.

## Findings

| source | as written | input that shows it | evidently intended | confidence | as-written member | corrected member |
|---|---|---|---|---|---|---|
| le-scan-passive.c:75 | `offset + field_len > eir_len` accepts a structure whose last octet is at index `eir_len`, one past the payload; in a frame that octet is the RSSI | payload `02 09`, `eir_len` 2, RSSI octet 41: prints `<NAME_COMPLETE>A`, taking the RSSI octet as a name character | reject a structure unless `offset + field_len + 1 <= eir_len`, so only payload octets are read | high; not executed | AdDecoder.OverReadWitness | AdDecoder.DecodeFixedWithinPayload |
