# Ongeki button printer: the input-state translator

This project models the part of the button printer that turns controller
reports into overlay visibility events, and proves properties of that model.
The button printer is a stream overlay for an Ongeki-style arcade controller.
The model covers four things:

- the lever band mapper: the thresholds from the configured extremes,
  `get_pos` and `get_sub_position`;
- the button decoders of the io4, ontroller and nageki devices, with their
  key tables;
- the `HIDService` state machine: `show_lever`, `close_swing`, `m_press`,
  `m_release` and the hardware path of `process_structured_hid_data`;
- the two stand-alone readers: the io4 reader's `parse_hid_data` and its
  change detection, and the lever monitor's `output_t` and `output_data`
  decoders with their polling loops.

The project has eight modules:

- `Wire`: little-endian 16-bit fields and the `Option` / `Result` wrappers.
- `Lever`: thresholds, bands and sub-positions.
- `Buttons`: the eight buttons, the key tables, and the io4 and digit-string
  decoders.
- `Overlay`: image keys, events and their wire names.
  A batch is read with last-write-wins semantics: the last event for a key
  decides its visibility.
- `Translator`: the service's state machine as pure functions on a value
  snapshot of the class attributes, with the lemmas about it.
- `Service`: the `HIDService` class, with the class attributes as fields and
  the two 4-cell hold arrays as `array`s.
  Each method is proved to compute exactly what its `Translator` function
  specifies.
- `HidReader`: the standalone io4 reader.
- `LeverHid`: the lever monitor.

A display client applies a batch of events in order.
`Overlay.ApplyIsLastWrite` proves that this amounts to last-write-wins.
`Overlay.LastWriteByNameAgrees` proves that the result is the same whether
the client resolves key strings or the model resolves keys.
So every property below that is stated through `LastWrite` is a property of
what the overlay shows after the batch, for every key that names an overlay
image. Three keys are sent but name no image: the empty lever key and the
bare `l_` and `r_`, which come from a lever position outside every band.
The client drops those (see "## Left out").

Where the code and its documentation disagree, the model follows the code:

- A digit string holding a non-digit raises `ValueError` inside `show_lever`,
  after the lever part has already updated `last_lever_pos`, the background
  flags and `is_left`. The tick then returns `[]`, but the state change stays
  (`Translator.TickFailure`, `Translator.TickSpec`). So a failed tick is not
  free of side effects.
- Feeding the same report twice does not give an empty second batch. The
  second tick changes no hold state and touches no button or motion image,
  but the lever re-show or the background bookkeeping always adds events
  (`Translator.RepeatedTick`).
- `hid_reader.py` forwards the io4 fields without a `DEVICE_NAME`. A message
  without a device name takes the digit-string path with no buttons. It fails
  on the missing `pos` before any change (`Translator.TickFailure`).

## Model

| member | source | states |
|---|---|---|
| Wire.U16 | button_printer/hid_reader.py:155-163 | format `H`: the value lies in 0..65535 and its low and high bytes are the two input bytes |
| Wire.I16 | button_printer/hid_reader.py:155-163 | format `h`: the value lies in -32768..32767, agrees with the unsigned reading modulo 65536, and is negative exactly when the high byte's top bit is set |
| Wire.I16s | button_printer/hid_reader.py:155-163 | a run of `h` fields has the requested length and each entry is the signed reading of its byte pair |
| Wire.U16s | button_printer/hid_reader.py:155-163 | a run of `H` fields has the requested length and each entry is the unsigned reading of its byte pair |
| Wire.I16RoundTrip | test/test_lever_HID.py:119-131 | reading back a packed signed 16-bit value gives the value |
| Wire.U16RoundTrip | test/test_lever_HID.py:119-131 | reading back a packed unsigned 16-bit value gives the value |
| Wire.I16sRoundTrip | test/test_lever_HID.py:119-131 | a packed run of `h` fields reads back as the run, whatever bytes surround it |
| Wire.U16sRoundTrip | test/test_lever_HID.py:119-131 | a packed run of `H` fields reads back as the run, whatever bytes surround it |
| Lever.CeilDiv5 | button_printer/services.py:105-113 | `math.ceil(d / 5)`: the smallest q with 5q >= d |
| Lever.Thresholds | button_printer/services.py:105-113 | the extremes are swapped so that L_MAX >= R_MAX; the five thresholds are equally spaced by `space`; five spaces cover the range with at most 4 units of slack (5·space − 4 <= L_MAX − R_MAX <= 5·space); the chain is ordered; button_printer/hid_reader.py:23-31 repeats the same computation, whose values that file never uses, so this one function models both |
| Lever.BandsDisjoint | button_printer/services.py:684-696 | with ordered thresholds no position lies in two bands |
| Lever.GetPos | button_printer/services.py:684-696 | `get_pos`: a band it names contains the position (`InBand`); the exact characterisation, in both directions, is `GetPosIsBand`, and the ordering is `GetPosMonotone` |
| Lever.GetPosIsBand | button_printer/services.py:684-696 | `get_pos` names a band exactly when the position lies in that band's interval, and gives nothing exactly when the position lies in no band (both directions) |
| Lever.GetPosMonotone | button_printer/services.py:684-696 | a larger raw position never maps to a higher-numbered image |
| Lever.SubPosition | button_printer/services.py:677-681 | the sub-position is always in 0..19 |
| Lever.SubPositionBands | button_printer/services.py:677-681 | sub-position 0 is exactly the readings below 12.75; 19 is exactly the readings from 242.25 on; every other sub-position s covers the readings in [12.75 s, 12.75 (s+1)) |
| Lever.SubPositionMonotone | button_printer/services.py:677-681 | the sub-position never decreases as the reading grows |
| Lever.SubPositionExamples | button_printer/services.py:677-681 | full scale 255 gives 19, a negative reading gives 0, and 12/13 and 242 sit on the band edges |
| Lever.ThresholdsExample | button_printer/services.py:105-113 | extremes 50 and 200 give thresholds 200/170/140/110/80/50 in either order, and the band edges fall where the half-open intervals say |
| Buttons.OrdersCoverButtons | button_printer/services.py:466-476 | the dictionary order and the tick order each list all eight buttons once, and the first four dictionary keys are the left hand |
| Buttons.KeyMapsInjective | button_printer/services.py:35-65 | the ontroller, ontroller-idk and nageki tables each name every button at most once |
| Buttons.KeyMapOInjective | button_printer/services.py:35-44 | `key_map_o` names every button at most once |
| Buttons.KeyMapOIdkInjective | button_printer/services.py:45-54 | `key_map_o_idk` names every button at most once |
| Buttons.KeyMapNaInjective | button_printer/services.py:55-65 | `key_map_na` names every button at most once |
| Buttons.Binary | button_printer/services.py:544-556 | `f"{s:016b}"`: the string has the requested length and holds only '0' and '1' |
| Buttons.BinaryAt | button_printer/services.py:544-556 | character i of the 16-character string is bit 15 - i, so index 0 is the most significant bit |
| Buttons.Io4SlotInvertsTable | button_printer/services.py:20-34 | `Io4Slot` inverts `key_map_io4`: every table entry is found at its own slot, and every slot found names that button in the table |
| Buttons.Io4SlotOfTable | button_printer/services.py:20-34 | every entry of `key_map_io4` is found at its own (word, position) slot |
| Buttons.Io4TableOfSlot | button_printer/services.py:20-34 | a slot that `Io4Slot` gives names that button in `key_map_io4`, at a position below 16 |
| Buttons.DecodeIo4 | button_printer/services.py:306-327 | a button is reported pressed exactly when its table bit is set (RW inverted) or, for LW, when the system status is 0; no button is reported twice |
| Buttons.Io4ScanStep | button_printer/services.py:307-325 | one position of the io4 scan adds exactly the table entry there when its bit is active, and that entry was not found before |
| Buttons.Io4AllClear | button_printer/services.py:306-327 | with both switch words zero and a non-zero status, only RW (whose bit is inverted) is pressed |
| Buttons.DecodeKeyString | button_printer/services.py:328-335 | the digit-string decode succeeds exactly when every character is an ASCII digit (otherwise `ValueError`); it reports exactly the buttons whose table position holds a '1', and none twice when the table is injective |
| Overlay.ImageNameRoundTrip | button_printer/services.py:684-696 | every lever image name reads back as its image, and is empty or starts with `lever_` |
| Overlay.ButtonKeyRoundTrip | button_printer/services.py:699-704 | a button id key reads back as that button's key |
| Overlay.MotionKeyRoundTrip | button_printer/services.py:699-704 | a motion key (id + "m") reads back as that button's motion key |
| Overlay.LeverKeyRoundTrip | button_printer/services.py:699-704 | a lever image key reads back as itself |
| Overlay.LeftLeverRoundTrip | button_printer/services.py:699-704 | an `l_` lever key reads back as itself, including the stale `l_` of a position outside every band |
| Overlay.RightLeverRoundTrip | button_printer/services.py:699-704 | an `r_` lever key reads back as itself, including the bare `r_` |
| Overlay.KeyName | button_printer/services.py:699-704 | the key strings passed to `crete_event`; no contract of its own, characterised by `KeyNameRoundTrip` and `KeyNameInjective` |
| Overlay.KeyNameRoundTrip | button_printer/services.py:699-704 | every key string sent reads back as its key |
| Overlay.KeyNameInjective | button_printer/services.py:699-704 | distinct keys are sent as distinct strings |
| Overlay.LastWriteAppend | button_printer/services.py:699-704 | in a concatenation the last write of a key comes from the second part when it mentions the key, else from the first |
| Overlay.LastWriteNone | button_printer/services.py:699-704 | a batch leaves a key untouched exactly when no event in it names the key |
| Overlay.LastWriteFrom | button_printer/services.py:699-704 | a last write is the visibility of some event of the batch |
| Overlay.LastWriteAt | button_printer/services.py:699-704 | an event for a key with no later event for it is the last write |
| Overlay.HidesOnly | button_printer/services.py:119-123 | a batch of hides never leaves anything visible |
| Overlay.Apply | button_printer/services.py:699-704 | a display client applying a batch in order; no contract of its own, characterised by `ApplyIsLastWrite` |
| Overlay.ApplyIsLastWrite | button_printer/services.py:699-704 | applying a batch in order equals the last write for the key, or the previous visibility if there is none |
| Overlay.Names | button_printer/services.py:699-704 | the wire form of a batch has one `(key, visible)` record per event, in order |
| Overlay.LastWriteByNameAgrees | button_printer/services.py:699-704 | last-write-wins over the sent key strings agrees with last-write-wins over keys |
| HidReader.ParseHidData | button_printer/hid_reader.py:155-163 | the parse succeeds exactly on 63-byte buffers and otherwise fails with `struct.error` |
| HidReader.ParseHidDataFrame | button_printer/hid_reader.py:155-163 | the forwarded fields depend only on bytes 16..23 and 28..32 of the report |
| HidReader.EncodeHidData | button_printer/hid_reader.py:155-163 | the device layout of a report is 63 bytes long |
| HidReader.ParseEncodeRoundTrip | button_printer/hid_reader.py:155-163 | parsing a report the device laid out gives back rotary, switches and system status, whatever the other bytes are |
| HidReader.ReadStep | button_printer/hid_reader.py:125-153 | a read replaces the cached buffer; a report comes out exactly when the buffer is new and 63 bytes long, and it is that buffer's parse; with no device nothing changes |
| HidReader.ReadTwice | button_printer/hid_reader.py:125-153 | the same buffer read twice in a row is forwarded at most once |
| HidReader.HidReader.constructor | button_printer/hid_reader.py:78 | a new reader has no cached buffer (`self.data = None`) |
| HidReader.HidReader.ReadHidData | button_printer/hid_reader.py:125-153 | the method's new cache and result are those of `ReadStep` on the old cache |
| Translator.Initial | button_printer/services.py:466-494 | the class attributes start well formed |
| Translator.InitialConsistent | button_printer/services.py:466-494 | the initial state is consistent and no button is held |
| Translator.HeldSides | button_printer/services.py:234-245 | a hand counts as holding something exactly when one of its buttons is flagged held |
| Translator.ArbitrationEvents | button_printer/services.py:255-294 | the arbitration events name only lever images and the swing background |
| Translator.Arbitrate | button_printer/services.py:255-294 | the four-way case split on which hands hold something; no contract of its own, its cases' effects are stated by `Arbitrated`, `ArbitrationEvents`, `ArbitrationWrites` and `LeverMoved` |
| Translator.Arbitrated | button_printer/services.py:255-294 | each arbitration case sets the background flags and the sticky side as the source does, and changes nothing else |
| Translator.LeverStep | button_printer/services.py:247-304 | the lever step records the new raw position and reports the previous one |
| Translator.CloseSwingWrites | button_printer/services.py:119-123 | after `close_swing` every band's lever image is hidden and no other key is touched |
| Translator.ArbitrationWrites | button_printer/services.py:255-294 | of the arbitration events exactly the image arbitration picks ends visible |
| Translator.LeverMoved | button_printer/services.py:247-295 | when the raw position moved, the background flags and the sticky side are set as arbitration says (both held: both flags down; left only: `is_left` false; right only: `is_left` true) and nothing else but the position changes; exactly one lever-family image ends visible, the one for the holding side (both: neutral; one side: that side; none: the sticky side), every band image is written, and the stale side images of the previous band are written |
| Translator.LeverStill | button_printer/services.py:296-304 | when the raw position did not move only the sub-position is recorded; if it did not move either, the neutral image ends visible, both side images hidden and both background flags raised; otherwise nothing is sent |
| Translator.LeverStepFrame | button_printer/services.py:247-304 | the lever step never changes the hold flags, the hand arrays or the shown motion images, sends only lever images and the swing background, and ends with both background flags up only when the current sub-position is the recorded one |
| Translator.HideMotions | button_printer/services.py:363-372 | the reversed cell loop emits only hides of motion images held in the array |
| Translator.HideMotionsWrites | button_printer/services.py:363-372 | a held button's motion image ends hidden and every other motion image is untouched |
| Translator.FirstEmpty | button_printer/services.py:380-393 | the index found is the first empty cell from the start point, or the array length when there is none |
| Translator.InsertFirstEmpty | button_printer/services.py:380-393 | the array keeps its length and every occupied cell; a full array is unchanged; otherwise exactly the first empty cell now holds the button |
| Translator.PressSpec | button_printer/services.py:342-394 | a press keeps the state well formed; behaviour: see `PressState` and `PressEvents` |
| Translator.RoomForPress | button_printer/services.py:380-393 | a consistent hand that does not hold the pressed button has a free cell |
| Translator.HandFull | button_printer/services.py:380-393 | a full hand array holds every button of that hand |
| Translator.PressState | button_printer/services.py:342-394 | a press of a button not held keeps the bookkeeping consistent, makes exactly that button held, and fills the first empty cell of its hand only |
| Translator.PressBatchWrites | button_printer/services.py:345-372 | in a press batch the button and its motion image end visible, the own background hidden, the other held motion images hidden, and no other button image is touched |
| Translator.PressBatchOwn | button_printer/services.py:345-359 | the pressed button's image and motion image and the own background end as the press sets them |
| Translator.PressBatchHeld | button_printer/services.py:363-372 | another held button of the hand ends with its motion image hidden |
| Translator.PressBatchOther | button_printer/services.py:345-372 | no other button image is written by a press |
| Translator.LastWrite3 | button_printer/services.py:699-704 | last-write-wins over a three-part batch takes the latest part that names the key |
| Translator.PressEvents | button_printer/services.py:342-394 | a press shows the button and its motion image, hides the other held motion images of the hand and the own background, and writes no other button image |
| Translator.NewestMotion | button_printer/services.py:441-445 | the reversed scan shows at most one motion image, that of a held cell |
| Translator.ReleaseScan | button_printer/services.py:418-451 | the cell scan keeps the array at four cells; behaviour: see `ReleaseScanEffect`, `ReleaseFirstCell`, `ReleaseLaterCell` and `ReleaseOnward` |
| Translator.EmptyCount | button_printer/services.py:452-462 | `null_count` never exceeds the cells counted, and is smaller only when some cell is occupied |
| Translator.LastOccupied | button_printer/services.py:452-462 | the cell the counting loop keeps is occupied whenever any cell is |
| Translator.ReleaseSpec | button_printer/services.py:397-463 | a release keeps the state well formed; behaviour: see `ReleaseState`, `ReleaseEvents` and `ReleaseNotHeld` |
| Translator.LastOneShow | button_printer/services.py:452-462 | the end of a release shows at most one motion image, that of a button still in the array |
| Translator.Pairs | button_printer/services.py:418-451 | the skipped cells emit only hides of the button and its motion image |
| Translator.PairsWrite | button_printer/services.py:418-451 | after at least one skipped cell the button and its motion image end hidden and nothing else is touched |
| Translator.ScanNoMatch | button_printer/services.py:418-451 | cells that do not hold the button only reset the held flag and add hide pairs |
| Translator.PairsCommute | button_printer/services.py:418-451 | hide pairs may be counted from either end |
| Translator.ScanSkip | button_printer/services.py:418-451 | one skipped cell adds one hide pair and resets the held flag |
| Translator.PairsPrepend | button_printer/services.py:418-451 | a hide pair in front of more pairs is one more pair |
| Translator.ScanUntil | button_printer/services.py:418-451 | the scan up to the button's cell only adds hide pairs |
| Translator.ReleaseScanEffect | button_printer/services.py:418-451 | the scan of a hand holding the button once clears exactly that cell, drops the held flag and ends with the button and its motion image hidden |
| Translator.ReleaseFirstCell | button_printer/services.py:441-446 | a button released from cell 0 is cleared and the newest held motion image re-shown |
| Translator.ReleaseLaterCell | button_printer/services.py:422-440 | a button released from a later cell is cleared, promoting its predecessor's motion image when that is not the one shown |
| Translator.ReleaseSwapShow | button_printer/services.py:428-440 | the promoting branch hides the shown motion image, shows the predecessor's and hides the button's, and stops |
| Translator.ReleaseOnward | button_printer/services.py:446-451 | the scan after the cleared cell adds hide pairs only |
| Translator.SingleOccupied | button_printer/services.py:452-462 | with exactly one occupied cell the count loop finds three empty cells and that cell |
| Translator.ReleaseNotHeld | button_printer/services.py:397-401 | releasing a button that is not held sends nothing and changes nothing |
| Translator.ClearCell | button_printer/services.py:418-451 | clearing a held button's cell and dropping its flag keeps the bookkeeping consistent and changes no other button's held state |
| Translator.ReleaseState | button_printer/services.py:397-463 | a release of a held button keeps the bookkeeping consistent, makes exactly that button not held, clears its cell and changes nothing else in the arrays |
| Translator.ReleaseBatchWrites | button_printer/services.py:418-462 | in the release batch the button and its motion image end hidden, no other button image is touched, and a lone remaining button's motion image ends visible |
| Translator.ReleaseEvents | button_printer/services.py:397-463 | a release hides the button and its motion image, writes no other button image, and shows the motion image of a lone remaining button |
| Translator.LeverInput | button_printer/services.py:214-231 | the lever reading of a tick: `rotary[1]`/`rotary[0]` of an io4 report, `pos`/`sub_pos` of a digit-string message, nothing when either is missing; no contract of its own, its use is stated by `TickFailure` and `TickEffect` |
| Translator.KeyMapFor | button_printer/services.py:218-228 | the digit-string table for the device and `idk`, empty for an unnamed device; no contract of its own, its tables' injectivity is `Buttons.KeyMapsInjective` |
| Translator.PressedSet | button_printer/services.py:302-335 | the set of pressed buttons of a report, or `ValueError`; no contract of its own, characterised by `Buttons.DecodeIo4`, `Buttons.DecodeKeyString` and `Service.DecodePressed` |
| Translator.TickIndex | button_printer/services.py:601-601 | each button has one position in the tick's visiting order |
| Translator.ButtonEdge | button_printer/services.py:601-629 | one button of the tick keeps the state well formed and the lever position unchanged |
| Translator.ButtonsLoop | button_printer/services.py:601-629 | the per-button loop in tick order keeps the state well formed and the lever position; its behaviour is stated by `ButtonsLoopEffect` and `ButtonsLoopIdle` |
| Translator.ButtonsLoopTurn | button_printer/services.py:601-629 | the loop from position i is the edge for the i-th button followed by the loop from i + 1 |
| Translator.ButtonEdgeEffect | button_printer/services.py:601-629 | one button of the tick keeps consistency, leaves the button held exactly when pressed, changes no other button, and writes its image with the new state exactly when its state changed |
| Translator.PressEdge | button_printer/services.py:620-625 | a pressed button not yet held ends held, with its image shown |
| Translator.ReleaseEdge | button_printer/services.py:626-629 | a held button not pressed ends released, with its image hidden |
| Translator.ButtonsLoopEffect | button_printer/services.py:601-629 | the button loop keeps consistency, leaves every visited button held exactly when pressed, and each changed button's image last written with its new state, the others untouched |
| Translator.ButtonsLoopIdle | button_printer/services.py:601-629 | when the hold state already matches the pressed buttons the loop adds nothing |
| Translator.TickSpec | button_printer/services.py:521-653 | a tick keeps the state well formed; behaviour: see `TickEffect`, `TickFailure` and `RepeatedTick` |
| Translator.TickOn | button_printer/services.py:591-646 | a tick with a lever reading keeps the state well formed; behaviour: see `TickEffect` and `TickCore` |
| Translator.Finish | button_printer/services.py:601-653 | the rest of a tick keeps the state well formed; behaviour: see `TickFailure` and `AfterLeverEffect` |
| Translator.AfterLever | button_printer/services.py:601-646 | the button loop and background tail keep the state well formed; behaviour: see `AfterLeverEffect` |
| Translator.BgTail | button_printer/services.py:631-646 | the background tail on the current state; no contract of its own, characterised by `BgTailWrites` and `BgTailQuiet` |
| Translator.BgEvents | button_printer/services.py:639-646 | shows for free hands, then hides for lowered flags; no contract of its own, characterised by `BgEventsWrites`, `BgEventsLeft`, `BgEventsRight` and `BgEventsKeys` |
| Translator.BgTailWrites | button_printer/services.py:631-646 | after the background tail each background ends hidden when its flag is down, and shown when its flag is up and its hand holds nothing |
| Translator.BgEventsWrites | button_printer/services.py:639-646 | the background events end each background as the free hands and flags say |
| Translator.BgEventsLeft | button_printer/services.py:639-646 | the left background ends hidden when its flag is down, and shown when the flag is up and the left hand is free |
| Translator.BgEventsRight | button_printer/services.py:639-646 | the right background ends hidden when its flag is down, and shown when the flag is up and the right hand is free |
| Translator.TickFailure | button_printer/services.py:649-653 | a message without a lever reading changes nothing and sends nothing; a digit string that does not decode sends nothing but keeps the state the lever step left behind |
| Translator.AfterLeverEffect | button_printer/services.py:601-646 | after any lever step that left the hold bookkeeping alone, the rest of the tick makes exactly the pressed buttons held and writes exactly the changed button images, with the backgrounds as the flags say |
| Translator.AppendKeepsButtons | button_printer/services.py:631-646 | events that never name a button image leave each button image as before |
| Translator.BgEventsKeys | button_printer/services.py:639-646 | the background tail names only `l_0` and `r_0` |
| Translator.AfterLoop | button_printer/services.py:631-646 | the background tail does not change any button image's last write |
| Translator.TickCore | button_printer/services.py:591-646 | a tick on a lever reading and decoded buttons ends as `TickDone` says, and ends with both background flags up only when the current sub-position is the recorded one |
| Translator.TickEffect | button_printer/services.py:521-653 | after a tick that decoded, exactly the pressed buttons are held, the bookkeeping is consistent, the lever position is recorded, each changed button image ends with its new state, no other is touched, and the backgrounds end as the flags and hands say |
| Translator.QuietAppend | button_printer/services.py:631-646 | two batches that touch no button or motion image concatenate to one |
| Translator.BgTailQuiet | button_printer/services.py:631-646 | the background tail touches no button or motion image, and is empty only when both background flags are up |
| Translator.SecondTick | button_printer/services.py:591-646 | a tick on the lever position and buttons the state already reflects changes no hold state, touches no button or motion image, and still sends something |
| Translator.IdleAfter | button_printer/services.py:601-646 | the rest of such a tick adds only background events and changes no hold state |
| Translator.RepeatCore | button_printer/services.py:591-646 | the second of two identical ticks changes no hold state, touches no button or motion image, and is not empty |
| Translator.RepeatedTick | button_printer/services.py:521-653 | the same report twice in a row: the second tick changes no hold state, touches no button or motion image, and its batch is never empty |
| Service.CloseSwing | button_printer/services.py:119-123 | `close_swing` keeps the batch so far and appends the five lever hides, in some order |
| Service.CountIn | button_printer/services.py:631-637 | the running sum of the release flags that the `l_flag`/`r_flag` loop keeps; no contract of its own, its totals are `Translator.LeftCount`/`RightCount` by `HidService.HoldCounts` |
| Service.CountFour | button_printer/services.py:631-637 | the sum over four buttons is the sum of their four flags |
| Service.AnyCloseSwing | button_printer/services.py:119-123 | some ordering of the five lever hides is a valid `close_swing` batch |
| Service.FixedCloseSwing | button_printer/services.py:119-123 | the fixed ordering is a valid `close_swing` batch |
| Service.HidService.SnapshotWellFormed | button_printer/services.py:466-494 | the class state seen as a value is well formed |
| Service.HidService.constructor | button_printer/services.py:466-494 | module load computes the thresholds from the configured extremes and starts every attribute at its initial value |
| Service.HidService.HoldSides | button_printer/services.py:234-245 | the flag loop finds a held button on each hand exactly when that hand holds one |
| Service.HidService.HoldCounts | button_printer/services.py:631-637 | `l_flag` and `r_flag` are the held counts of the two hands |
| Service.HidService.ShowLever | button_printer/services.py:247-304 | the lever part of `show_lever` updates the state and sends the batch that `LeverStep` specifies, for some `close_swing` order |
| Service.HidService.MoveLever | button_printer/services.py:247-295 | a moved lever updates the state and sends the batch that `LeverStep` specifies |
| Service.HidService.RestLever | button_printer/services.py:296-304 | a lever at rest updates the state and sends the batch that `LeverStep` specifies, for every `close_swing` order |
| Service.HidService.ApplyArbitration | button_printer/services.py:255-294 | the four arbitration cases send the arbitration events and set the flags as `Arbitrated` says |
| Service.HidService.MPress | button_printer/services.py:342-394 | `m_press` updates the hold flag, the hand array and the shown motion image, and sends the batch, exactly as `PressSpec` specifies |
| Service.HidService.MRelease | button_printer/services.py:397-463 | `m_release` updates the state and sends the batch exactly as `ReleaseSpec` specifies |
| Service.HidService.ReleaseCells | button_printer/services.py:418-451 | the slot scan of a held button updates the hand array, the held flag and the shown motion image as `ReleaseScan` specifies |
| Service.HidService.ProcessStructuredHidData | button_printer/services.py:521-653 | the hardware path of a tick updates the state and returns the batch that `TickSpec` specifies, for some `close_swing` order |
| Service.HidService.FinishTick | button_printer/services.py:601-653 | the rest of a tick after the lever part is `Finish`: nothing on a failed decode, else the button loop and the background tail |
| Service.HidService.BackgroundTail | button_printer/services.py:639-646 | the background events are those of `BgTail` on the current state |
| Service.HidService.ButtonsPass | button_printer/services.py:601-629 | the per-button loop updates the state and appends the events as `ButtonsLoop` specifies |
| Service.HidService.ButtonTurn | button_printer/services.py:602-629 | one button of the loop updates the state and sends the batch that `ButtonEdge` specifies |
| Service.DecodePressed | button_printer/services.py:306-335 | the key decode succeeds exactly when `PressedSet` does (else `ValueError`) and reports exactly its buttons |
| Service.ScanCells | button_printer/services.py:418-451 | the in-place cell loop of `m_release` leaves the array, held flag, shown image and events that `ReleaseScan` specifies |
| Service.HideHeldMotions | button_printer/services.py:363-372 | the reversed cell loop of `m_press` emits exactly `HideMotions` of the array |
| Service.NewestHeldMotion | button_printer/services.py:441-445 | the reversed scan emits exactly `NewestMotion` of the array |
| Service.CountEmpty | button_printer/services.py:452-462 | the counting loop returns `null_count` and the last occupied cell |
| Service.FillFirstEmpty | button_printer/services.py:380-393 | the press records the button in the first empty cell and leaves a full array as it is |
| LeverHid.CoinConditionOf | test/test_lever_HID.py:71-75 | `CoinCondition(v)` succeeds exactly for 0..3 and otherwise fails with `ValueError` |
| LeverHid.CoinConditionRoundTrip | test/test_lever_HID.py:71-75 | each condition converts back from its value |
| LeverHid.CoinValueRoundTrip | test/test_lever_HID.py:71-75 | each accepted value converts back to itself |
| LeverHid.ParseOutputT | test/test_lever_HID.py:119-131 | `parse_output_t` succeeds exactly on 63-byte buffers whose two coin condition bytes are below 4; a wrong size is `struct.error` and a bad condition `ValueError`; a result has the field shapes of `output_t` |
| LeverHid.EncodeOutputT | test/test_lever_HID.py:119-131 | the board's layout of a report is 63 bytes long |
| LeverHid.ParseEncodeRoundTrip | test/test_lever_HID.py:119-131 | decoding what the board laid out gives back every field, whatever the padding |
| LeverHid.EncodeWords | test/test_lever_HID.py:119-131 | the analog, rotary and switch words read back from the layout |
| LeverHid.EncodeBytes | test/test_lever_HID.py:119-131 | the coin, system status and USB status bytes sit where the parser reads them |
| LeverHid.ParseOutputAgrees | test/test_lever_HID.py:119-131 | the service's reader accepts every 63-byte buffer, and where the monitor also accepts it the two agree on rotary, switches and system status |
| LeverHid.CoinJamOnlyHere | test/test_lever_HID.py:119-131 | a coin condition byte of 4 is rejected by the monitor but accepted by the service's reader |
| LeverHid.DataChanged | test/test_lever_HID.py:106-116 | a report counts as changed exactly when there is no previous report or it differs from it |
| LeverHid.ReadRound | test/test_lever_HID.py:93-103 | one pass of `read_hid_device`'s loop body; no contract of its own, characterised by `ReadHidDevice`, `RepeatsPrintOnce` and `DataChanged` |
| LeverHid.ReadTrace | test/test_lever_HID.py:93-103 | the printed values of a finite series of reads; no contract of its own, `ReadHidDevice` is proved equal to it and `RepeatsPrintOnce` states what it prints |
| LeverHid.ReadHidDevice | test/test_lever_HID.py:87-103 | the loop prints, for a finite series of reads, exactly the trace `ReadTrace` defines, or stops with the decode error |
| LeverHid.RepeatsPrintOnce | test/test_lever_HID.py:87-116 | a report read any number of times in a row is printed once, and not at all if it was the last one printed |
| LeverHid.Repeat | test/test_lever_HID.py:87-103 | n reads of the same buffer |
| LeverHid.ParseOutputData | test/test_lever_HID.py:134-143 | `parse_output_data` succeeds exactly on buffers of at least 24 bytes (else `struct.error`) and yields ten buttons, ten id bytes and a signed 16-bit lever |
| LeverHid.ParseOutputDataPrefix | test/test_lever_HID.py:134-143 | only the first 24 bytes are read |
| LeverHid.EncodeOutputData | test/test_lever_HID.py:134-143 | the 24-byte layout followed by the rest of the buffer |
| LeverHid.ParseOutputDataRoundTrip | test/test_lever_HID.py:134-143 | decoding the 24-byte layout gives back the five values, whatever follows it |
| LeverHid.MonitorRound | test/test_lever_HID.py:197-208 | the read is always cached; a lever value is printed exactly when the read differs from the cache and is at least 24 bytes long, and it is the decoded lever |
| LeverHid.MonitorRepeat | test/test_lever_HID.py:197-208 | the same read twice in a row prints at most once |

## Left out

- The `yuangeki` keyboard path of `process_structured_hid_data`
  (button_printer/services.py:561-589) and `show_lever_KM` are not part of
  this model. They belong to a keyboard device, not the hardware path.
- The `HID2KM` and `key_states` tables are left out because only the keyboard
  path uses them.
- `switches_to_binary_strings` and `_get_key_mapping` are left out because
  nothing calls them.
- `last_button` is never assigned, so it stays `''`.
  - Its branches in `show_lever` (line 253) and `m_press` (lines 373-377) are
    dead and are left out.
  - `diff1` and `diff2` are therefore always false.
- Device I/O is left out: opening, reading, reinitialising and closing the
  HID device, and loading the hidapi library.
  - `HidReader.HidReader.ReadHidData` and `LeverHid.ReadHidDevice` take what
    the device returned as a parameter.
  - Exceptions raised by the device are not modelled.
- The WebSocket connection, message routing, pings, printing and logging are
  left out. So is reading the configuration file: the configured extremes are
  parameters of `Lever.Thresholds` and the service constructor.
- Message fields other than `pos` and `sub_pos` are assumed present, with the
  types the devices send. A missing `pos` or `sub_pos` is modelled: the tick
  then fails before any change.
- `Service.CloseSwing`: the order in which the five hides are appended
  follows Python set iteration, which the source leaves unspecified.
  - The contract states only that some order of the five hides is appended.
  - The tick methods carry that order as a ghost value.
  - Every lemma holds for every order.
- `Service.HidService.ShowLever`: the key decode that `show_lever` runs after
  its lever part is a separate call, `Service.DecodePressed`, made right
  after it in `Service.HidService.ProcessStructuredHidData`. The order of
  effects is the same.
- `LeverHid.ReadHidDevice` runs over a finite series of reads, while the
  source loops until interrupted. The trace of any prefix of a run is what
  the contract states.
- `LeverHid.MonitorRound` models one round of `monitor_hid_device`, not the
  endless loop. `detect_packet_size` and the per-device detectors in the
  same file are left out.
- `Buttons.DecodeKeyString` takes key strings as ASCII. Python's `int()`
  also accepts every other Unicode decimal digit as a single character, so
  `٣` reads as 3 and `١` reads as 1 and presses the key. The model treats
  any character outside '0'..'9' as a `ValueError`, which makes such a tick
  send nothing. Other Unicode decimal digits are not modelled.
- The display client skips a key that is empty or names no image. For a
  lever position outside every band, the service sends `""`, `l_` and `r_`.
  `Translator.LeverMoved` proves that one of these ends "visible", but the
  screen then shows no lever image at all. The model states what is sent and
  how last-write-wins resolves it, not which images exist on the client.
- The integer widths are stated where the source's formats fix them.
  - `struct` fields are 8 or 16 bits.
  - The `pos`, `sub_pos` and `idk` values of a digit-string message are
    unbounded integers; its button states arrive in the `key` string. The
    rotary and switch words come only in io4 reports, bounded to 16 bits.
  - The source does no other arithmetic that could wrap.
