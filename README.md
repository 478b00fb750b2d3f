# E-paper relay server and image converter, modelled in Dafny

This project models two parts of a system that sends text and pictures from phones to
ESP32-driven 4.7-inch e-paper panels.

The first part is the core of the Node.js relay server (`pc_server/server.js`). It keeps a
registry of device addresses. For each device it keeps:

- a first-in first-out queue of display items (wrapped text, processed images, clear commands);
- the time of the device's last poll;
- an online/offline status;
- the time of its last heartbeat.

It also keeps the address of a default device. Devices register, poll for their next item
and send heartbeats. Phones queue text, images and clear commands. A one-minute timer and the
`/devices` listing mark silent devices offline. A UDP announcement registers a device
without any HTTP call.

The second part is the pixel encoder of the desktop converter (`image_converter.py`). It
centres a shrunk picture on a 960 x 540 canvas, quantises it to 16 grey levels and packs two
pixels per byte. It also has the folder conversion that picks image files by extension and
names the outputs.

Files:

- `wrappers.dfy`: an `Option` type.
- `strings.dfy`: JavaScript's `split`/`join` with one separator character, and their round
  trips.
- `address.dfy`: `isValidIPAddress`, read as the regular expression it is: three dot
  positions and four stretches, each matching the octet group. It is proved equal to a
  description as four dot-separated fields of one to three digits worth at most 255.
- `textwrap.dfy`: `wrapText`. The specification function `Wrapped` defines the result. The
  method `WrapText` keeps the source's loops and is proved to compute `Wrapped`. Lemmas state
  what wrapping guarantees.
- `relay.dfy`: the server's state and handlers.
  - `Registry` is the state as a value.
  - Each handler is a step function from the old registry and the request to the new registry
    and the response. Its contract gives the order of the checks, the error responses, and the
    new state.
  - The class `Server` holds the same state in the mutable fields the server keeps as
    module-level variables. Each method updates those fields step by step and is proved to end
    in the state the step function gives.
  - `Valid` is the registry invariant: no duplicates, exactly the registered devices have
    queues and poll times, statuses and heartbeats exist only for registered devices, and the
    default is unset or registered. Every step keeps it, and so does every handler method
    (`Valid(old(State())) ==> Valid(State())`).
- `imageconverter.dfy`:
  - quantisation and packing;
  - the packing loop over a two-dimensional array, proved against `PackRow`/`PackImage`;
  - the raw byte stream and its size;
  - centring and pasting onto the black or white canvas;
  - the folder conversion.

Inputs the model treats as parameters:

- The clock (`Date.now()`) is the parameter `now`.
- The image pipeline (reading image metadata and `processImageForEPD`) is a function parameter
  `render: string -> Option<string>`. `None` means either call threw.
- The UDP datagram's payload and source address are parameters of `OnUdpMessage`.
- The two file conversions used by the folder conversion are function parameters `toRaw` and
  `toBitmap`.
- A missing request field is the empty string. Both are falsy, and no handler distinguishes
  them.

## Model

| member | source | states |
|---|---|---|
| Strings.Split | pc_server/server.js:207 | `text.split('\n')` never returns an empty list, and no piece contains the separator |
| Strings.JoinSplit | pc_server/server.js:207-242 | joining the pieces of a split with the same separator gives back the original text |
| Strings.SplitJoin | pc_server/server.js:207-242 | splitting a join of separator-free pieces gives back the pieces |
| Strings.JoinAppend | pc_server/server.js:242 | a join of two non-empty lists is their joins with one separator between them |
| Address.ValidIffDottedQuad | pc_server/server.js:64-67 | the regular expression accepts a string exactly when it is four dot-separated fields, each 1 to 3 decimal digits with value at most 255 |
| Address.IsValidIPAddress | pc_server/server.js:64-67 | the regular expression, read as three dot positions with the octet group matching each stretch; an accepted address is 7 to 15 characters long |
| Address.OctetMatchIsOctet | pc_server/server.js:65 | the octet group `25[0-5]\|2[0-4][0-9]\|[01]?[0-9][0-9]?` matches exactly the strings of 1 to 3 digits worth at most 255 |
| Address.FieldsDecide | pc_server/server.js:64-67 | for any dot-free fields, their dot-join is accepted exactly when there are four and each is an octet |
| Address.ValidAddressNonEmpty | pc_server/server.js:64-67 | restates the length bound of `IsValidIPAddress` for the relay's handlers: an accepted address has at least 7 characters, so it is never the empty string |
| Address.LeadingZerosAccepted | pc_server/server.js:65 | leading zeros and all-zero fields are accepted (`010.000.1.255`) |
| Address.ThreeFieldsRejected | pc_server/server.js:65 | three fields are rejected |
| Address.FiveFieldsRejected | pc_server/server.js:65 | five fields are rejected |
| Address.FourDigitFieldRejected | pc_server/server.js:65 | a four-digit field is rejected |
| Address.FieldAbove255Rejected | pc_server/server.js:65 | a field worth 256 is rejected |
| Address.NonDigitRejected | pc_server/server.js:65 | a non-digit is rejected |
| TextWrap.ScanBack | pc_server/server.js:225-228 | the backward scan stops at 0 or at a space, and there is no space between where it stops and where it started |
| TextWrap.BreakPos | pc_server/server.js:225-233 | the cut is at the last space in positions 1 to max, or at max when there is none |
| TextWrap.WrapPiece | pc_server/server.js:216-238 | every emitted line is at most `max` long; a non-empty remainder emits at least one line |
| TextWrap.WrapText | pc_server/server.js:203-243 | the loops compute `Wrapped(text, maxCharsPerLine)` |
| TextWrap.Wrapped | pc_server/server.js:203-243 | the result of `wrapText` is never longer than the text: each newline takes the place of the character skipped at a cut |
| TextWrap.FindBreak | pc_server/server.js:225-233 | the scan loop and the forced-break fallback compute `BreakPos` |
| TextWrap.NextLine | pc_server/server.js:225-237 | one round of the inner loop emits the next line and leaves a strictly shorter remainder, so the loop terminates |
| TextWrap.WrapRemainder | pc_server/server.js:216-238 | the inner `while` emits exactly `WrapPiece(paragraph)` |
| TextWrap.WrapPieceChars | pc_server/server.js:216-238 | every character of an emitted line comes from the paragraph |
| TextWrap.WrappedIsJoinOfLines | pc_server/server.js:204-242 | the `!text` shortcut agrees with the general split-wrap-join path |
| TextWrap.EmptyTextWrapsToEmpty | pc_server/server.js:204 | the empty text wraps to the empty text |
| TextWrap.WrapLinesShape | pc_server/server.js:210-240 | each paragraph yields at least one line; no line is longer than `max` or contains a newline |
| TextWrap.WrappedLinesFit | pc_server/server.js:203-243 | every line of the result is at most `max` characters long |
| TextWrap.FittingTextUnchanged | pc_server/server.js:211-213 | a text whose paragraphs all fit is returned unchanged |
| TextWrap.ShortParagraphUnchanged | pc_server/server.js:211-213 | one paragraph no longer than `max` is returned unchanged |
| TextWrap.WrapIdempotent | pc_server/server.js:203-243 | wrapping an already wrapped text at the same width changes nothing |
| TextWrap.ParagraphsIndependent | pc_server/server.js:207-242 | the paragraphs on either side of a newline are wrapped independently |
| TextWrap.AtMostOneCharLostPerLine | pc_server/server.js:235-237 | wrapping drops at most one character per emitted line, and adds none |
| TextWrap.SpaceBreakDropsSpace | pc_server/server.js:226-237 | a cut at a space keeps the text before it and drops the space |
| TextWrap.ForcedBreakDropsChar | pc_server/server.js:231-237 | with no space in positions 1 to max, the line is the first `max` characters and the character at `max` is dropped |
| TextWrap.ForcedBreakExample | pc_server/server.js:231-237 | `abcdefg` wrapped at width 3 is `abc` newline `efg`: the `d` is lost |
| TextWrap.LongParagraphIsBroken | pc_server/server.js:214-238 | a paragraph at least two characters longer than `max` comes out with a newline in it |
| TextWrap.OneOverLosesLastChar | pc_server/server.js:229-237 | a paragraph exactly one character longer than `max`, with no space from index 1 to `max`, comes out as its first `max` characters: the last character is lost and no newline appears |
| TextWrap.OneOverExample | pc_server/server.js:229-237 | `abcd` wrapped at width 3 is `abc` |
| Relay.Initial | pc_server/server.js:41-61 | the empty start state satisfies the invariant |
| Relay.AddDevice | pc_server/server.js:192-196 | the device list becomes the old list with the new address appended at its end, with an empty queue and the given poll time; every other device's queue and poll time, the default, the statuses and the heartbeat times are unchanged |
| Relay.Enqueue | pc_server/server.js:285-293 | the target's queue grows by exactly the one item at its tail; every other queue and field is unchanged |
| Relay.RegisterStep | pc_server/server.js:95-118 | missing and then malformed addresses are rejected with no change; success exactly for a well-formed address; a new address gets an empty queue; new or not, the device is online with poll time `now`; a known address keeps its queue |
| Relay.RegisterKeepsValid | pc_server/server.js:95-118 | registration keeps the registry invariant (no duplicate addresses, and so on) |
| Relay.SetDeviceStep | pc_server/server.js:179-200 | the same two checks; on success the address becomes the default, a new one is registered with an empty queue and poll time 0, and statuses are untouched |
| Relay.SetDeviceKeepsValid | pc_server/server.js:179-200 | setting the default keeps the invariant |
| Relay.PollStep | pc_server/server.js:121-154 | a missing or unregistered address gets 400 and nothing changes; otherwise the device is stamped online at `now` and the head of its queue is removed and delivered, or `none` is answered for an empty queue |
| Relay.PollKeepsValid | pc_server/server.js:121-154 | polling keeps the invariant |
| Relay.SweptExactly | pc_server/server.js:160-165 | the `forEach` marks offline exactly the listed devices with `now - (lastFetch \|\| 0) > DEVICE_TIMEOUT` and keeps every other status |
| Relay.SweepStatus | pc_server/server.js:160-165 | the `forEach` only ever writes `offline`: every status it does not write is kept, every stored status stays stored, and a new status belongs to a listed device |
| Relay.SweepStep | pc_server/server.js:445-454 | the sweep changes only statuses; afterwards a device reads offline exactly when it is registered and timed out, and otherwise as before |
| Relay.SweepKeepsValid | pc_server/server.js:445-454 | the sweep keeps the invariant |
| Relay.SweepNeverSetsOnline | pc_server/server.js:160-165 | a device online after the sweep was online before it and had not timed out |
| Relay.NeverPolledDeviceTimesOut | pc_server/server.js:179-200 | a device added by `/set-device` has no status, and the first sweep after the timeout marks it offline |
| Relay.DeviceList | pc_server/server.js:167-173 | one entry per registered device, in registration order, each built from that device's fields |
| Relay.DeviceEntry | pc_server/server.js:167-173 | an entry carries the address, `lastFetch \|\| 0` and `status \|\| unknown`; it is active exactly for the default address; `lastSeen` is the poll time when there is a non-zero one and "Never" exactly when the poll time is missing or 0 |
| Relay.DeviceEntryFields | pc_server/server.js:167-173 | an entry is active exactly when its address is the default, `unknown` exactly when no status is stored, `Never` seen exactly when its poll time is 0 or missing |
| Relay.AtMostOneActive | pc_server/server.js:167-173 | with no duplicate registrations, at most one entry is active |
| Relay.SomeActiveIffDefaultRegistered | pc_server/server.js:167-173 | some entry is active exactly when the default address is registered; under the invariant, and with the empty address unregistered, exactly when a default is set |
| Relay.ListDevicesStep | pc_server/server.js:157-176 | `GET /devices` is the sweep, and the answer is the listing of the swept registry: one entry per registered device |
| Relay.ListingReportsTimeouts | pc_server/server.js:157-176 | entry `n` of the answer is the `n`-th registered device; it is listed offline when it timed out by `now`, and otherwise with the status it had before the request |
| Relay.SendTextStep | pc_server/server.js:246-300 | checks in order: text present (400), at most 1000 characters (400), a target (400), a well-formed target (400), a registered target (404). Every failure changes nothing. Success exactly when all checks pass, and then exactly one text item is appended: the text wrapped at the width of its size, with the size stored as `textSize \|\| medium` |
| Relay.SendTextKeepsValid | pc_server/server.js:246-300 | sending text keeps the invariant |
| Relay.StoredSizeKeepsWidth | pc_server/server.js:270-292 | the size stored with a queued text (`textSize \|\| medium`) selects the same width as the size the text was wrapped for |
| Relay.QueuedTextFitsItsSize | pc_server/server.js:270-293 | after a successful send the target's queue ends with a text item none of whose lines is longer than the width of its own stored size |
| Relay.SendImageStep | pc_server/server.js:303-372 | checks in order: a file (400), a JPEG or PNG type (400), a target (400), a well-formed target (400); then a failing image pipeline answers 500, before the registration test; a rendered image for an unregistered target answers 404. Failures change nothing. Success exactly when everything holds and the target is registered, and then exactly the rendered image is appended |
| Relay.SendImageKeepsValid | pc_server/server.js:303-372 | sending an image keeps the invariant |
| Relay.ClearStep | pc_server/server.js:375-402 | a target (400), then a well-formed one (400), then a registered one (404); failures change nothing; a registered target gets exactly one `clear` item |
| Relay.ClearKeepsValid | pc_server/server.js:375-402 | clearing keeps the invariant |
| Relay.DefaultTargetRegisteredOrUnset | pc_server/server.js:261 | under the invariant, the target of a request that names no device is unset or registered |
| Relay.NoDeviceGivenNever404 | pc_server/server.js:246-402 | none of send-text, send-image and clear-display answers 404 to a request that names no device |
| Relay.DeviceQueueStep | pc_server/server.js:457-471 | a missing address is 400 and an unregistered one 404; a registered one gets its queue, with nothing removed |
| Relay.HeartbeatStep | pc_server/server.js:491-497 | the answer is always success; only a registered device's heartbeat time changes, to `now` |
| Relay.HeartbeatKeepsValid | pc_server/server.js:491-497 | heartbeats keep the invariant |
| Relay.UdpStep | pc_server/server.js:499-510 | only `epd-online` has an effect: a new sender is registered with an empty queue and poll time 0, and the sender's heartbeat time becomes `now` |
| Relay.UdpKeepsValid | pc_server/server.js:499-510 | the UDP handler keeps the invariant |
| Relay.PollDeliversOldestFirst | pc_server/server.js:147 | the queue is first in, first out: appending to a non-empty queue changes neither the next delivery nor the order of what remains |
| Relay.SendTextThenPoll | pc_server/server.js:289-293 | text queued for a device with an empty queue is exactly what its next poll delivers, and the queue is empty again |
| Relay.ReRegisterKeepsQueue | pc_server/server.js:112-116 | registering an already registered address keeps its queue and the device list, and sets it online with poll time `now` |
| Relay.HeartbeatOnlyStampsRegistered | pc_server/server.js:491-497 | an unregistered sender changes nothing, and other devices' heartbeat times are kept |
| Relay.Server.RegisterDevice | pc_server/server.js:95-118 | updates the fields to exactly `RegisterStep`'s state and response, and keeps the invariant |
| Relay.Server.SetDevice | pc_server/server.js:179-200 | updates the fields to exactly `SetDeviceStep`'s state and response, and keeps the invariant |
| Relay.Server.PollContent | pc_server/server.js:121-154 | updates the fields to exactly `PollStep`'s state and response, and keeps the invariant |
| Relay.Server.SweepTimeouts | pc_server/server.js:445-454 | the loop over the devices ends in exactly `SweepStep`'s state and keeps the invariant |
| Relay.Server.ListDevices | pc_server/server.js:157-176 | runs the sweep loop and lists the devices, giving exactly `ListDevicesStep` |
| Relay.Server.Push | pc_server/server.js:285-293 | `contentQueue[ip].push(item)`, creating the queue when it is missing, is exactly `Enqueue` |
| Relay.Server.SendText | pc_server/server.js:246-300 | the checks, the width selection and the `WrapText` loop give exactly `SendTextStep`'s state and response, and keep the invariant |
| Relay.Server.SendImage | pc_server/server.js:303-372 | gives exactly `SendImageStep`'s state and response; the uploaded file is handed to clean-up exactly once on every path after the file exists |
| Relay.Server.ClearDisplay | pc_server/server.js:375-402 | gives exactly `ClearStep`'s state and response, and keeps the invariant |
| Relay.Server.DeviceQueue | pc_server/server.js:457-471 | answers `DeviceQueueStep` and changes nothing; a queue is returned exactly for a registered address |
| Relay.Server.Heartbeat | pc_server/server.js:491-497 | gives exactly `HeartbeatStep`'s state, and keeps the invariant |
| Relay.Server.OnUdpMessage | pc_server/server.js:499-510 | gives exactly `UdpStep`'s state, and keeps the invariant |
| Relay.Server.constructor | pc_server/server.js:41-61 | the server starts with no default device, no devices and empty maps, which satisfies the invariant |
| ImageConverter.Quantize | image_converter.py:45 | `v >> 4` is the 16-step band the 8-bit value lies in: `16n <= v < 16n + 16`, with `n` in 0..15 |
| ImageConverter.QuantizeExtremes | image_converter.py:34-45 | the black background quantises to 0 and packs to byte 0, and white quantises to 15 |
| ImageConverter.PackByte | image_converter.py:55 | `(hi << 4) \| lo` keeps `hi` in the high nibble and `lo` in the low nibble, and both can be read back |
| ImageConverter.PackByteOfParts | image_converter.py:55 | every byte is the packing of its own two nibbles |
| ImageConverter.PackRow | image_converter.py:51-55 | a row of even width packs to half as many bytes; byte `c` holds pixel `2c` high and pixel `2c+1` low |
| ImageConverter.UnpackRow | image_converter.py:55 | unpacking yields two pixels per byte, high nibble first |
| ImageConverter.UnpackPackRow | image_converter.py:51-55 | unpacking a packed row recovers the row exactly |
| ImageConverter.PackUnpackRow | image_converter.py:51-55 | packing an unpacked row recovers the bytes exactly |
| ImageConverter.UnpackPackImage | image_converter.py:44-55 | unpacking a packed frame recovers the quantised image exactly |
| ImageConverter.PackImageShape | image_converter.py:48-49 | an H x W image of even width packs to H rows of W/2 bytes |
| ImageConverter.RawBytesLength | image_converter.py:58-59 | the written stream of H rows of B bytes is H*B bytes long |
| ImageConverter.RawBytesAt | image_converter.py:58-59 | the written stream is row-major: byte `c` of row `y` is at `y*B + c` |
| ImageConverter.DisplayFrameSize | image_converter.py:48-59 | a panel-sized frame is 259200 bytes |
| ImageConverter.RawFrame | image_converter.py:34-59 | the raw file of any shrunk picture is exactly 540 rows of 480 bytes long |
| ImageConverter.PackNibbles | image_converter.py:48-55 | the nested loop, writing a zero-filled H x W/2 array in place, succeeds exactly for an even width or no rows, and then holds exactly `PackImage` of the image |
| ImageConverter.PackRowAt | image_converter.py:52-55 | the inner loop packs row `y` when the width is even, stops at the out-of-range write when it is odd, and leaves every other row unchanged |
| ImageConverter.CenterOffset | image_converter.py:37-38 | the two margins differ by at most one, the larger one after the picture; a picture no larger than the canvas gets an offset of at least 0 and ends inside the canvas |
| ImageConverter.Paste | image_converter.py:34-39 | the canvas always has the panel's 540 rows of 960 pixels |
| ImageConverter.PasteKeepsPicture | image_converter.py:37-39 | a picture that fits appears whole on the canvas, shifted by the centring offsets |
| ImageConverter.PasteKeepsBackground | image_converter.py:34-39 | every canvas pixel outside the pasted rectangle keeps the background value |
| ImageConverter.ConvertToRaw | image_converter.py:34-59 | on the panel's even-width canvas the packing never fails, and the frame is exactly the packed, quantised, centred picture: 259200 bytes |
| ImageConverter.RawFrameTopRowBlack | image_converter.py:34-59 | when the picture leaves at least two panel rows free, the first 480 bytes of the raw frame are 0 (black) |
| ImageConverter.BitmapFrame | image_converter.py:84-89 | the bitmap canvas has the panel's size |
| ImageConverter.BitmapFrameContents | image_converter.py:84-89 | the bitmap is 255 (white) outside the picture and the unquantised picture inside |
| ImageConverter.LastDot | image_converter.py:116 | finds the last `.`, with no `.` after it, and finds none exactly when the name has none |
| ImageConverter.SplitExt | image_converter.py:116 | the stem and the extension concatenate to the name; the extension is empty, or one dot followed by no dot after a stem that is not all dots |
| ImageConverter.SplitExtOf | image_converter.py:116 | `root.ext`, with a stem that is not all dots, splits into `root` and `.ext` |
| ImageConverter.OutputName | image_converter.py:116-124 | the output name ends in `.raw` for format `raw` and `.bmp` for any other format, and what comes before that is a leading part of the input name |
| ImageConverter.OutputNames | image_converter.py:116-124 | the output name replaces the extension with `.raw` for format `raw` and `.bmp` for any other format; `.png` has no extension and becomes `.png.raw` or `.png.bmp` |
| ImageConverter.PathJoin | image_converter.py:113-123 | the joined path starts with the folder and ends with the name, with one `/` between them unless the folder is empty or already ends in one |
| ImageConverter.IsSupported | image_converter.py:112 | a picked-up name is at least four characters long, the length of the shortest supported extension |
| ImageConverter.SupportedNameHasDot | image_converter.py:112 | a picked-up name contains a dot |
| ImageConverter.LowerNormalises | image_converter.py:112 | lower-casing leaves no ASCII capital, and lower-casing twice is lower-casing once |
| ImageConverter.SupportIgnoresCase | image_converter.py:112 | a name is picked up exactly when its lower-cased form is |
| ImageConverter.SameLowerSameSupport | image_converter.py:112 | two names that differ only in the case of ASCII letters are picked up alike |
| ImageConverter.Selected | image_converter.py:111-112 | the picked-up names are at most as many as the listed ones |
| ImageConverter.SelectedExactly | image_converter.py:111-112 | a name is picked up (tried) exactly when it is listed and its lower-cased form ends with one of the six supported extensions; whether it is then counted as converted depends on the conversion's result (`ConvertedCount`) |
| ImageConverter.AllConverted | image_converter.py:111-127 | when the conversion succeeds for every supported name (unsupported ones are never tried), the count equals the number of picked-up files |
| ImageConverter.ConvertedCount | image_converter.py:109-127 | the count never exceeds the number of picked-up files |
| ImageConverter.BatchConvert | image_converter.py:108-128 | the loop tries exactly the picked-up names in listing order, with the derived output paths, and `converted_count` counts exactly the successful conversions |
| ImageConverter.ConvertOne | image_converter.py:113-124 | one loop round derives the output path of the format and reports exactly what the conversion of the format returned for those paths |
| ImageConverter.UpperCaseExtensionSupported | image_converter.py:112 | `Photo.JPG` is picked up: case is ignored |
| ImageConverter.UnlistedExtensionSkipped | image_converter.py:108-112 | `notes.txt` is skipped |
| ImageConverter.BareExtensionSkipped | image_converter.py:108-112 | `jpg`, with no dot, is skipped |

## Left out

- HTTP transport is not modelled: Express routing, body parsing, CORS, static files, multer's
  disk storage and `app.listen`. Each handler is a method on explicit inputs, and a response
  is a status code and an error kind, not the JSON message text.
- Request fields of types other than string are not modelled. A missing field is the empty
  string.
- `text.length` counts UTF-16 code units in JavaScript; here it counts characters. The same
  holds for the `charAt` and `substring` positions in `wrapText`
  (pc_server/server.js:225-237): a character outside the Basic Multilingual Plane is one
  position here and two there.
- The character `wrapText` skips at a forced break is modelled as written, not corrected. A
  paragraph exactly one character longer than the width with no space to break at
  loses its last character and gets no newline (`OneOverLosesLastChar`).
- The sharp pipeline (`processImageForEPD`, `sharp(...).metadata()`) is not modelled, because
  it is library code. It is the parameter `render`, and either call failing is `None`.
  Asynchrony is not modelled: handlers run one at a time.
- `cleanupUploadedFile` works on the file system. `Server.SendImage` returns the list of paths
  it hands to it rather than deleting anything.
- The hourly purge of old uploads (pc_server/server.js:405-431) is not modelled: it only works
  on the file system.
- UDP sockets, the 10-second broadcast and the timers are not modelled. The one-minute sweep's
  body is `Server.SweepTimeouts`. The UDP message handler is `Server.OnUdpMessage`, with the
  payload and sender as parameters.
- Logging is not modelled. The `toLocaleString` formatting of `lastSeen` is not modelled
  either: the entry holds the timestamp, or `None` for "Never".
- The commented-out poll throttle is absent from the model, since the source does not run it.
- The second `GET /devices` route (pc_server/server.js:514-522) is left out. Express always
  dispatches that path to the first route, so the second can never run.
- Relay.Server.SendText and the other queueing methods: the source creates a missing queue
  for a registered target. Under `Valid` that case cannot arise. The methods still handle it
  through `Push`, and `Enqueue` creates the queue.
- Relay.UdpStep: the UDP sender's address is not matched against the address format, because
  the source does not check it. So the model does not claim that every registered address is
  well formed, and `SomeActiveIffDefaultRegistered` needs the empty address to be unregistered
  for its second half.
- ImageConverter.Lower: Python's `str.lower` is Unicode-aware; the model lowers ASCII letters
  only. Every supported extension is ASCII. A non-ASCII capital would only matter in the stem,
  and the stem plays no part in the extension test.
- ImageConverter.ConvertToRaw: opening the file, the grey conversion and the Lanczos
  `thumbnail` are PIL code and are not modelled. The shrunk picture is an input. Writing the
  file and the try/except around I/O errors are not modelled either. The folder conversion
  takes the two file conversions as the parameters `toRaw` and `toBitmap`.
  `PasteKeepsPicture` assumes the picture fits the panel, which is what `thumbnail`
  guarantees.
- ImageConverter.BatchConvert: the default `format_type='raw'` of `batch_convert` is not
  modelled; the format is always passed.
- ImageConverter.BatchConvert: the folder is given as the list of names `os.listdir` returns,
  in that order. Creating the output folder and printing are not modelled. Paths are joined
  the POSIX way.
- The GUI and the command line of the converter (image_converter.py:131-328) are not
  modelled.
