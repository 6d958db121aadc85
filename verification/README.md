# Will's Train Layout I/O core in Dafny

This project models the hardware-independent control logic of the
layout controller's I/O library, `WillsIO.cpp` / `WillsIO.h`: the
exit-dispatch queue and its indicator lamps, the point store with its
EEPROM mirror, the shift-register scan, the wear-levelled state machines,
the one-shot second timers, the debounced push buttons, the RFID frame
assembler and the two-line message display. Pins, the UART and the
EEPROM are data. Each `digitalRead` becomes an input argument. Each
`digitalWrite` and LCD row write becomes an element of a returned
sequence. An `EEPROM.update` becomes an assignment into a 4096-byte store.

- `bytes.dfy`: module `Bytes` holds bytes (`bv8`) and the 32-bit status
  words, modelled as 32 booleans with bit k at index k. It also holds the
  `(n - 1) & 0x1F` point and section numbering. Module `Eeprom` holds the
  4 KB EEPROM and its erase loop.
- `io_state.dfy`: module `IoState` holds the fields of the `IO` object,
  plus the function-local static `blinker` of `IO::updater`.
- `exit_queue.dfy`: module `ExitQueue` covers `addToQueue`,
  `getFromQueue`, `isThisSidingQueued`, `queueNotEmpty`,
  `clearActiveExit` and `setExitModeDisplay`. Its proofs cover FIFO
  order, refusal when full, the purge, and the lit/flashing encoding of
  the indicator byte. A popped siding stays queued as the active
  exit until `clearActiveExit` (WillsIO.cpp:436), a purge by
  `addToQueue(0)` (WillsIO.cpp:388), or the next `getFromQueue`, unless
  that pop takes another request for the same siding: each pop overwrites
  the active exit, with 0 when the queue is empty (WillsIO.cpp:410).
- `points.dfy`: module `Points` covers `setP1`, `setPoint`, `getPoint`,
  `testToti` and the point part of `IO::init`. It proves that RAM and
  EEPROM stay in agreement and that a restart restores the points.
- `scan.dfy`: module `Scan` covers `IO::updater`. That is the DPR wiring
  order, the inverted sense lines, the direct outputs for points 25..29,
  and the half-second refresh that makes flashing lamps alternate.
- `nv_state.dfy`: module `NvState` covers `State::init`, `moveToState`
  and `fetch`. It models the erase at line 588 as written and a
  corrected version. It proves restart recovery for the corrected version
  and for MERGE without the repeat flag, and exhibits the lost state
  otherwise (see Findings).
- `timers.dfy`: module `Timers` covers `Timer::init`, `tick` and
  `expired`. A timer fires after exactly n ticks and reports it at most
  once per start.
- `buttons.dfy`: module `Buttons` covers `Buttons::init` and `poll`: the
  six-bit pin value, the four-sample debounce, and the key-word table,
  both as written and with its second Cancel row corrected (see
  Findings). `poll` is modelled over either table: with the table as
  written (`AsWritten`) it is the source's `poll`.
- `rfid.dfy`: module `Rfid` covers `RFID::init` and `poll` on the bytes
  waiting in the UART. It proves the twelve-character round trip, the
  "**Error" suffix for short frames, and that bytes split across polls
  assemble the same way.
- `lcd.dfy`: module `Lcd` covers `Display::init` and `out`. Each
  '|'-separated piece scrolls the old bottom row to the top; a '$'
  message rewrites the bottom row in place when the bottom row also
  starts with '$'; a text ending in '!' beeps. Cutting and
  joining at '|' are proved inverse.

## Model

| member | source | states |
|---|---|---|
| Bytes.WrapIndex | WillsIO.cpp:296-306 | point and section numbers 1..32 map to bits 0..31, and number 0 wraps to bit 31 |
| Bytes.WrapIndexModulo | WillsIO.cpp:296-334 | every byte, 33..255 included, names bit (number - 1) mod 32, so `testToti`, `setP1` and `getPoint` reuse bits 0..31 for larger numbers |
| Eeprom.EraseRange | WillsIO.cpp:185-191 | the wipe loop writes 0xFF to exactly the addresses base..base+n-1 and leaves every other address alone |
| ExitQueue.SetExitModeDisplay | WillsIO.cpp:345-373 | a destination is lit iff some queued request or `myExit` targets it; it flashes iff `myExit` targets it; flashing implies lit; the next scan refreshes the lamps |
| ExitQueue.QueuedModes | WillsIO.cpp:365-367 | the OR of the queued destination nibbles has bit k set iff some slot targets destination k |
| ExitQueue.DisplayBits | WillsIO.cpp:368-370 | bit k of the indicator byte is set iff the queued modes have it, `myExit` targets destination k, or (for k < 4) `myExit` targets destination k+4 |
| ExitQueue.AddToQueue | WillsIO.cpp:376-400 | 0 purges the queue, the active exit and the lamps; a non-zero request is accepted iff some slot is empty, and then lands in the first empty slot; a refused request changes nothing |
| ExitQueue.GetFromQueue | WillsIO.cpp:402-412 | hands out slot 0, shifts the rest forward, zero-fills the last slot and records the value as the active exit |
| ExitQueue.IsThisSidingQueued | WillsIO.cpp:414-427 | true iff the siding has a non-zero request waiting or is the active exit |
| ExitQueue.QueueNotEmpty | WillsIO.cpp:429-432 | on a queue with no gap, looking at slot 0 alone answers whether any request waits |
| ExitQueue.ClearActiveExit | WillsIO.cpp:434-437 | afterwards a siding counts as queued iff it is in the queue itself |
| ExitQueue.AddAppends | WillsIO.cpp:392-399 | a request is accepted iff fewer than four wait, joins the end of the line and keeps the queue gap-free |
| ExitQueue.PopTakesOldest | WillsIO.cpp:402-412 | popping returns the oldest request (0 when none) and leaves the others waiting in order |
| ExitQueue.AddAllAppends | WillsIO.cpp:376-400 | requests that fit queue up in the order added |
| ExitQueue.PopAllTakesInOrder | WillsIO.cpp:402-412 | n pops return the first n waiting requests, oldest first |
| ExitQueue.Fifo | WillsIO.cpp:376-412 | up to four requests added to an empty queue come out in the order they went in |
| ExitQueue.FullQueueRefuses | WillsIO.cpp:392-399 | with four waiting, a fifth is refused and the state is unchanged |
| ExitQueue.PoppedSidingStaysQueued | WillsIO.cpp:402-437 | an accepted siding counts as queued, and still does after its request is popped, as the active exit; once that is cleared it counts iff another request for it waits |
| ExitQueue.NextPopForgetsSiding | WillsIO.cpp:402-412 | a lone request popped twice: queued after the first pop, no longer queued after the second, which returns 0 and overwrites the active exit |
| ExitQueue.PopKeepsQueuedSidings | WillsIO.cpp:402-427 | popping never un-queues a siding that was waiting |
| ExitQueue.PurgeEmpties | WillsIO.cpp:384-391 | after a purge no siding is queued and the queue reads empty |
| ExitQueue.MainFromSidingOneFlashes | WillsIO.cpp:345-412 | a MAIN request from siding 1, popped and displayed, gives indicator byte 0x11: MAIN lit and flashing, nothing else |
| Points.GetPoint | WillsIO.cpp:330-342 | a point reads set iff bit 0 of its EEPROM byte is clear |
| Points.TestToti | WillsIO.cpp:296-300 | section t reads occupied iff bit t-1 of the section word is set |
| Points.SetP1 | WillsIO.cpp:302-315 | exactly one point bit and one EEPROM byte change, and `getPoint` reads back the new value |
| Points.ClearSidingPoints | WillsIO.cpp:320-324 | points n..1 are cleared in RAM and EEPROM, and nothing else changes |
| Points.ClearStep | WillsIO.cpp:320-324 | clearing point n and then points n-1..1 clears points n..1 and changes nothing else |
| Points.SetPoint | WillsIO.cpp:317-328 | point 0 clears siding points 1..8 only; any other number is one `setP1`; only the 32 point bytes of EEPROM can change |
| Points.LoadPoints | WillsIO.cpp:195-203 | the rebuilt bits equal the EEPROM copies |
| Points.Init | WillsIO.cpp:168-206 | RAM mirrors EEPROM afterwards; with `clearVars` the 40 bytes are erased and all points clear; the queue is purged and the lamps are dark |
| Points.SetPointKeepsMirror | WillsIO.cpp:302-342 | setting a point keeps RAM and EEPROM in agreement |
| Points.RestartRestoresPoints | WillsIO.cpp:168-206 | after a power cycle the rebuilt point word equals the one in use before it, whatever RAM held |
| Points.PointFiveRoundTrip | WillsIO.cpp:302-342 | setting or clearing point 5 is what `getPoint(5)` reads back |
| Scan.ShiftOut | WillsIO.cpp:224-233 | shift position k puts the point bit the wiring table names for k |
| Scan.ShiftIn | WillsIO.cpp:236-237 | the level sampled at position k is stored inverted as section bit 23-k, and sections 25..32 are untouched |
| Scan.DirectOutputs | WillsIO.cpp:249-262 | points 25..29 drive D9, D10, D11, D12 and D8 |
| Scan.IndicatorLevel | WillsIO.cpp:273-290 | a lamp is high iff it is lit and either steady or in the on phase of the blinker |
| Scan.Blink | WillsIO.cpp:264-292 | when the divider runs out it restarts at 25, the blinker toggles and the four lamps are driven; otherwise the divider counts down and no lamp is driven |
| Scan.Updater | WillsIO.cpp:209-293 | one scan shifts the points out in wiring order, stores the inverted samples, drives the direct pins and then the half-second refresh |
| Scan.MapDPRIsPermutation | WillsIO.cpp:217 | the wiring table is a permutation of 0..23 with a two-sided inverse |
| Scan.ScanDrivesEachPoint | WillsIO.cpp:217-233 | every point 1..24 is driven exactly once per scan, at its one position |
| Scan.ScanFeedsTestToti | WillsIO.cpp:236-237 | after a scan, `testToti(t)` for t in 1..24 is the inverse of the sense level at position 24-t; other sections keep their state |
| Scan.DividerStaysInRange | WillsIO.cpp:264-266 | the half-second divider stays in 1..25, so its 16-bit decrement never wraps |
| Scan.DisplayChangeShowsNextScan | WillsIO.cpp:372 | after `setExitModeDisplay` the very next scan drives all four lamps, and only lit ones go high |
| Scan.QuietScans | WillsIO.cpp:264 | fewer scans than the divider holds drive no lamp and only count it down |
| Scan.ScanLamps | WillsIO.cpp:264-292 | one scan keeps the indicator byte; at a refresh it toggles the blinker and sets each lamp level from it |
| Scan.RefreshAfterQuiet | WillsIO.cpp:264-292 | from a fresh divider, 24 quiet scans drive nothing and the 25th drives each lamp with the flash phase toggled |
| Scan.FlashingAlternates | WillsIO.cpp:264-292 | two refreshes 25 scans apart drive a flashing lamp once high and once low, and a steady lit lamp high both times |
| NvState.Slot | WillsIO.cpp:558-561 | slot y of machine m lies in m's 128-byte block |
| NvState.FirstActive | WillsIO.cpp:572-580 | the lowest active slot at or after y, or 0 when none is active |
| NvState.Init | WillsIO.cpp:563-581 | with `clearVars` the block is erased and the state is 0; other blocks are untouched; the state is the lowest active slot, or 0, and never carries the repeat flag |
| NvState.NextState | WillsIO.cpp:590-595 | the new state keeps `newState`'s low seven bits; the repeat flag is set iff the old state's low bits equal `newState`, or `newState` already had bit 7 |
| NvState.OldSlotAsWritten | WillsIO.cpp:588 | the erase address as written equals the right slot only for MERGE without the repeat flag; MERGE with the flag and ENTER without it hit the next machine's block; ENTER with the flag and every EXIT address lie outside all three blocks |
| NvState.MoveToState | WillsIO.cpp:583-599 | as written: the line-588 address becomes 0xFF unless it is the new slot, the new slot is marked, and nothing else changes |
| NvState.MoveToStateCorrected | WillsIO.cpp:583-599 | the old slot is erased at the block's own stride and mask, the new slot is marked, and nothing outside the block changes |
| NvState.WipedIsConsistent | WillsIO.cpp:563-581 | a freshly wiped machine has no active slot and state 0 |
| NvState.CorrectedKeepsConsistent | WillsIO.cpp:550-553 | the corrected move keeps exactly the current state's slot active |
| NvState.RestartRecovers | WillsIO.cpp:550-581 | a consistent machine restarts in its stored state without the repeat flag |
| NvState.CorrectedLeavesOthers | WillsIO.cpp:558-561 | a move of one machine leaves the other machines' blocks alone |
| NvState.MovesKeepConsistent | WillsIO.cpp:583-599 | any run of corrected moves keeps the block consistent and ends in the last state moved to |
| NvState.RestartAfterMoves | WillsIO.cpp:550-599 | after a wipe and any run of corrected moves, a restart resumes in the last state |
| NvState.RepeatFlagOnReentry | WillsIO.cpp:590-595 | entering the same state twice sets the repeat flag on the second entry only |
| NvState.AsWrittenAgreesForMerge | WillsIO.cpp:588 | for MERGE without the repeat flag the move as written equals the corrected move |
| NvState.AsWrittenMergeRecovers | WillsIO.cpp:583-599 | in that case the move as written keeps the block consistent, and a restart recovers the new state |
| NvState.RepeatThenMoveLosesState | WillsIO.cpp:586-597 | MERGE moved to 5, 5, 7 from a wiped block erases ENTER's slot 5, leaves slots 5 and 7 marked and restarts in state 5 |
| NvState.EnterClearsExit | WillsIO.cpp:588 | ENTER moving between first-time states erases EXIT's slot and leaves its own old slot marked |
| Timers.Init | WillsIO.cpp:619-623 | the timer runs iff started with a non-zero count, and the flag is down |
| Timers.Tick | WillsIO.cpp:626-632 | a running timer loses one second and raises its flag iff it goes from 1 to 0; a stopped timer is untouched |
| Timers.Expired | WillsIO.cpp:634-640 | reports the flag and lowers it |
| Timers.TicksCount | WillsIO.cpp:626-632 | k ticks saturate the count at zero and raise the flag iff it was raised or a running timer had at most k seconds left |
| Timers.FiresAfterCountdown | WillsIO.cpp:619-640 | started with n > 0 the timer fires after exactly n ticks, not before, and only once |
| Timers.StoppedNeverFires | WillsIO.cpp:619-623 | a timer started with 0 never fires |
| Timers.RunFiresAtMostOwed | WillsIO.cpp:626-640 | any mix of ticks and checks reports no more expiries than owed |
| Timers.ExpiresOncePerStart | WillsIO.cpp:619-640 | after a start `expired()` answers true at most once, and never for a start with 0 |
| Buttons.PinsValue | WillsIO.cpp:501-506 | the value of n active-low pins is below 2^n |
| Buttons.PinsValueBits | WillsIO.cpp:501-506 | bit k of the value is set iff button k is held down |
| Buttons.PinsValueZero | WillsIO.cpp:501-506 | the value is 0 iff every button is released |
| Buttons.ReadPins | WillsIO.cpp:501-506 | the six pins give a value below 64 |
| Buttons.KeyWordFormat | WillsIO.cpp:478-495 | a key word is the name, a space, and '1' for a press or '0' for a release |
| Buttons.SourceRow | WillsIO.cpp:477-499 | rows 0..17 are keys and row 18 is the "X" end mark |
| Buttons.Row | WillsIO.cpp:494 | in either table rows 0..17 are keys and row 18 is the end mark |
| Buttons.Lookup | WillsIO.cpp:520-524 | the search ends at or before the end mark, and a row it stops at before the end mark carries the value |
| Buttons.LookupFirst | WillsIO.cpp:520-524 | no row the search passes over carries the value |
| Buttons.LookupAt | WillsIO.cpp:520-524 | the search stops at row k when row k matches and no earlier row does |
| Buttons.Answer | WillsIO.cpp:520-526 | the result is "" iff the search reaches the end mark |
| Buttons.AnswerAt | WillsIO.cpp:520-526 | the word returned is the key word of the first row carrying the value |
| Buttons.NoRowNoWord | WillsIO.cpp:520-526 | the result is "" iff no table row has the value |
| Buttons.TablesAgreeElsewhere | WillsIO.cpp:477-499 | the table as written and the corrected one give the same answer for every value except 0x0228 and 0x2028 |
| Buttons.ThroughFirstUnanswered | WillsIO.cpp:494 | as written, Goods added while Through is held (0x2028) gets no word, while Through and Goods after Down alone (0x0228) reads "Cancel 1" |
| Buttons.CancelEitherOrder | WillsIO.cpp:493-495 | with the corrected table, Through and Goods read "Cancel 1" pressed together or with either one first |
| Buttons.Poll | WillsIO.cpp:508-519 | a changed value restarts the count silently; a value is announced iff the last announced value changes, which happens on the fourth poll at a new value |
| Buttons.Word | WillsIO.cpp:520-535 | a quiet poll returns ""; an announced value gets the word the table answers for it |
| Buttons.WordIffRow | WillsIO.cpp:515-535 | a poll returns a word iff it announces a value some table row carries |
| Buttons.PollLevels | WillsIO.cpp:471-537 | the state is that of the debounce and the word that of the table for its decision; a non-empty word is only returned when a new value is announced |
| Buttons.ThroughThenGoodsPolled | WillsIO.cpp:494-526 | the source's poll returns "" when Goods joins an announced Through and "Cancel 1" when it joins an announced Down; the corrected table answers "Cancel 1" for the first |
| Buttons.After | WillsIO.cpp:508-514 | after polling a value at least once it is the previous value |
| Buttons.FourSamplesAnnounce | WillsIO.cpp:508-519 | after a change the new value is announced on the fourth poll and not before |
| Buttons.NoNewsNoWord | WillsIO.cpp:516 | the value already announced is never announced again |
| Buttons.SingleButtonWords | WillsIO.cpp:478-489 | each single button pressed from rest reads as its name and " 1", and released to rest as its name and " 0" (in both tables, by TablesAgreeElsewhere) |
| Buttons.UnknownComboStillRecorded | WillsIO.cpp:515-526 | Up and Main together have no word, yet become the last announced value |
| Buttons.UpAndDownIsTest | WillsIO.cpp:490-492 | Up and Down together read "Test 1" whichever was pressed first |
| Rfid.AsString | WillsIO.cpp:81 | each byte becomes the character with the same code |
| Rfid.Step | WillsIO.cpp:74-95 | waiting, only STX starts a frame; started, the byte is appended and the frame ends iff it reaches 12 characters or the byte is below '0', adding "**Error" when short |
| Rfid.Poll | WillsIO.cpp:59-99 | the bytes left over are a suffix of the input; no frame means all input was consumed; a frame leaves the assembler waiting for STX |
| Rfid.Collect | WillsIO.cpp:80-83 | data characters part way through a frame are appended one by one |
| Rfid.FrameRoundTrip | WillsIO.cpp:59-99 | STX and twelve data characters come back as exactly those characters; later bytes stay in the UART |
| Rfid.ShortFrameFlagged | WillsIO.cpp:84-93 | a character below '0' before the twelfth ends the frame with "**Error" appended |
| Rfid.IdleDiscards | WillsIO.cpp:74-79 | while waiting for STX every other byte is discarded |
| Rfid.SplitInvariance | WillsIO.cpp:66-99 | when a first poll ends without a frame, bytes split across it and a second poll assemble as if they had arrived together |
| Rfid.FrameShape | WillsIO.cpp:84-93 | every frame returned has twelve characters or ends in "**Error" |
| Lcd.Pad | WillsIO.cpp:718 | a row is the text padded with spaces or cut to 16 characters |
| Lcd.IndexOf | WillsIO.cpp:722 | the first position of the character, or -1 when it is absent |
| Lcd.Segments | WillsIO.cpp:722-739 | the pieces contain no '\|' |
| Lcd.Render | WillsIO.cpp:713-742 | one write per piece with `noLF`, else two; each row text is 16 characters; with `noLF` only the bottom row is written |
| Lcd.RenderWritesInPlace | WillsIO.cpp:713-742 | with `noLF` piece k is write k, to the bottom row |
| Lcd.RenderWritesScrolling | WillsIO.cpp:713-742 | without `noLF` piece k is write 2k + 1, to the bottom row, after write 2k copies the bottom row as it stood before piece k (the previous piece, or the old bottom line) to the top row |
| Lcd.Out | WillsIO.cpp:694-750 | beeps iff the text ends in '!'; the writes are the rendering of the text's pieces; the bottom line is the last piece shown |
| Lcd.JoinSegments | WillsIO.cpp:722-739 | rejoining the pieces with '\|' gives the text back, unless it ended in '\|' |
| Lcd.JoinCut | WillsIO.cpp:720-739 | cutting at the first '\|' before the last character: the joined pieces are the first piece, the '\|', and the joined pieces of the rest |
| Lcd.SegmentsJoin | WillsIO.cpp:722-739 | pieces without '\|', the last one non-empty, survive joining and cutting again |
| Lcd.InPlaceUpdate | WillsIO.cpp:710-719 | a '$' message after a '$' bottom line writes each piece to the bottom row only; any other message writes the top row before each piece |
| Lcd.TwoLines | WillsIO.cpp:713-742 | "a\|b" scrolls the old bottom row up, shows a, then scrolls a up and shows b |

## Left out

- Pin set-up (`pinMode`), the strobe and clock pulses and every `delay`/`delayMicroseconds`: they carry no data.
- Data pins appear as argument sequences (`sense`, `levels`) and returned pin writes. The electrical timing of the scan is not modelled.
- `EEPROM.update` is plain assignment. Wear, the settle delay and `EEPROM.read`'s 1 ms delay have no functional effect.
- `Serial.begin`, `available` and `read`: each UART is the byte sequence waiting when `poll()` is called. `rfidRead`'s port switch is not modelled.
- Ports outside 0..3: there `rfidAvailable` returns -1 as a byte (255), so `poll()` would spin reading an invalid port. The model only covers ports 0..3.
- `Beeper::out` and `tone`: only the fact that `Display::out` beeps is modelled, not the sound.
- The LiquidCrystal driver: a row write is modelled as (row, 16-character text).
- `Display::init`'s serial set-up and the test-mode serial echo in `Display::out`: debugging output only.
- `Display::tick` has an empty body. The `fifo` field is never used.
- The class-level `static bool blinker` in the header is never defined or used. The function-local static in `IO::updater` is the one modelled.
- Commented-out code: the "Error" and bit-string returns of `Buttons::poll`, and `StoredTrain`.
- Constructors, and the per-object arrays indexed by port, machine or timer number: each object only uses its own slot, so one object models one slot.
- `buttonPins` as a field: it is overwritten at the start of every poll, so only its value within the poll is modelled.
- NvState.MachineId: machines are restricted to 1..3 (MERGE, ENTER, EXIT), the values the header documents. Other numbers would address outside the three blocks.
- NvState.Fetch: `State::fetch` is a plain accessor of the RAM state and has no contract of its own; what it returns after moves is stated by NvState.RepeatFlagOnReentry.
- Lcd.Pad: display text is a sequence of characters, while an Arduino `String` counts bytes. So the 16-column cut of `substring(0, 16)` (WillsIO.cpp:718) matches the source only for single-byte characters. Every message the program shows uses only those.
- Scan.Updater: `halfSecond` is an unbounded integer rather than a 16-bit `int`. Scan.DividerStaysInRange proves that it stays in 1..25, where no wrap can occur.

## Findings

| source | as written | input that shows it | evidently intended | confidence | as-written member | corrected member |
|---|---|---|---|---|---|---|
| WillsIO.cpp:588 | `moveToState` erases `nvStates + 0x100*(m-1) + oldState`: the stride is 0x100 and the repeat flag is kept | MERGE from a wiped block: `moveToState(5)`, `moveToState(5)`, `moveToState(7)`. The third call erases 0x185 in ENTER's block, so slots 5 and 7 both stay marked and a restart resumes in 5, not 7 | erase `nvStates + 0x80*(m-1) + (oldState & 0x7F)`, the address every other access to the block uses | not executed | NvState.MoveToState, NvState.RepeatThenMoveLosesState | NvState.MoveToStateCorrected, NvState.CorrectedKeepsConsistent |
| WillsIO.cpp:494 | the row commented "needed in case Thru pressed first" is keyed 0x0228: Through and Goods after Down alone | Through pressed and announced (0x20), then Goods added: `poll` looks up 0x28 + 0x20 * 256 = 0x2028, which no row carries, so it returns "" instead of "Cancel 1" | key the row 0x2028, mirroring the Test rows 0x0103 and 0x0203 | not executed | Buttons.ThroughFirstUnanswered, Buttons.ThroughThenGoodsPolled | Buttons.CancelEitherOrder, Buttons.TablesAgreeElsewhere |
