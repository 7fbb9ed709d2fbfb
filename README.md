# Coke classification PLC loop: a Dafny model

This project models the decision core of the coke-classification control loop. A
YOLO model reports boxes for each webcam frame. The loop counts the Diet Coke and
Original Coke detections of the frame and pulses one PLC coil per detection over
Modbus. It then updates a table that holds one row per wall-clock second. The core
has three parts, and each has a module:

- `Detections` (`detections.dfy`): a box is a class id and a confidence. A box
  qualifies when `conf >= CONF_THRESHOLD` (0.3). Qualifying class-0 boxes count as
  Diet Coke and drive coil 1280. Qualifying class-1 boxes count as Original Coke and
  drive coil 1281. All other class ids are ignored. The counts and the coil sequence
  of a frame are specification functions (`CountClass`, `CoilAddresses`). Lemmas
  relate them to a positional reference definition, to each other and to
  concatenation of box runs.
- `Plc` (`plc.dfy`): `toggle_coil` becomes `ToggleCoil`. It writes True and then
  False to one coil. The Modbus client is modelled by the bus's answer to each write
  attempt of a frame: `client.write_coil` is modelled by `WriteCoil`, and attempt k
  raises a `ModbusException` exactly when `faults[k]` holds (attempts past the end
  of `faults` go through). A raise on the first write skips the second write, and
  `ToggleCoil` catches it and returns normally. `Trace` is the write trace of a
  sequence of pulses, and lemmas state what that trace guarantees. `CoilLevel`
  follows the level a coil is left at, under the assumption that a write takes
  effect exactly when it does not raise (see "## Left out").
- `CountLog` (`countlog.dfy`): a `Log` class holds the table `rows` and the
  staging dictionary `latest` (`latest_data`). `Update` does what one iteration does
  to them. It stages a row only for a frame with a non-zero count. It appends the
  staged row, drops duplicate timestamps keeping the first row, and pops the staging
  entry. `DropDuplicates` models pandas' `drop_duplicates(subset=["Timestamp"])`
  with its default `keep='first'`. `Replay` folds the update over a run of frames.
- `DetectionLoop` (`loop.dfy`): `ProcessFrame` is the per-box loop. `Step` is one
  iteration. `Run` is the `while` loop over the frames that were read. `Session`
  starts from the empty table that is written at start-up.

Some behaviours of the source are easy to misread. The model states them as the
source has them:

- A later frame of a second that already has a row does not replace or add to that
  row. The new row is concatenated after the old ones and `drop_duplicates` keeps
  the first. So the first frame of a second with a non-zero count decides that
  second's row (`LaterFrameOfSameSecondIgnored`, `FirstNonZeroFrameWins`).
- A row holds one frame's counts, not the counts of the whole second: both counts
  are reset for every frame (lines 77-78) (`PerFrameCountsScenario`).
- Nothing is pending between iterations: `latest_data` is set and popped in the same
  iteration (lines 107-124). `Log.Valid()` states that it is empty, and every
  `Update` preserves that. Nothing is left to flush at shutdown.
- Class ids other than 0 and 1 are not rejected. They are only labelled "Unknown"
  (line 87) and are neither counted nor actuated (`IgnoredBoxHasNoEffect`).
- A frame pulses once per qualifying detection, not once per class.
- When the switch-off write raises (lines 59-61), the exception is caught and the
  source makes no further switch-off attempt, so the coil can be left energised
  (`FaultedSwitchOffLeavesCoilOn`).

## Model

| member | source | states |
|---|---|---|
| `Detections.CountIsQualifyingIndices` | final4withPLC.py:89-96 | a frame's count of a class equals the number of box positions whose confidence is at least the threshold (inclusive) and whose class is that class |
| `Detections.CountClassConcat` | final4withPLC.py:77-96 | the counts start at zero per frame and add up over consecutive runs of boxes |
| `Detections.CoilAddressesConcat` | final4withPLC.py:81-97 | coils are dispatched in box order: the coils of a concatenation are the concatenation of the coils |
| `Detections.CoilsMatchCounts` | final4withPLC.py:90-97 | a frame pulses exactly diet-count times coil 1280 and original-count times coil 1281, and no other address; the number of pulses is the sum of the two counts |
| `Detections.IgnoredBoxHasNoEffect` | final4withPLC.py:90-97 | removing a box below the threshold, or a qualifying box of any class other than 0 and 1, changes neither count nor the coil sequence |
| `Plc.ToggleCoil` | final4withPLC.py:52-61 | a pulse is one or two writes to the same coil: True first, then False only if the True write went through; each write carries the bus's answer to its attempt, and a Modbus exception is caught so the call returns normally |
| `Plc.TraceOnWrites` | final4withPLC.py:52-61 | whatever the faults, every pulse of a sequence issues exactly one switch-on attempt, in order, so a fault never drops a later pulse; a trace has between one and two writes per pulse |
| `Plc.TraceOutcomes` | final4withPLC.py:54-61 | in a trace whose first write is attempt k, write i carries the bus's answer to attempt k + i; a frame's trace starts at attempt 0 |
| `Plc.TracePulsesComplete` | final4withPLC.py:54-59 | every switch-off directly follows a successful switch-on of the same coil, and every successful switch-on is directly followed by that coil's switch-off attempt, which may itself fault and leave the coil on |
| `Plc.PulseFinalLevel` | final4withPLC.py:54-61 | after a pulse its coil is off when both writes go through, keeps its previous level when the switch-on raises, and stays on when only the switch-off raises; other coils keep their level |
| `Plc.FaultedSwitchOffLeavesCoilOn` | final4withPLC.py:56-61 | a diet pulse whose switch-off attempt raises is the on write followed by a failed off write, and leaves coil 1280 energised |
| `Plc.TraceFaultFree` | final4withPLC.py:54-59 | with a bus that never faults, the trace is exactly on, off for each coil in order, twice as long as the coil sequence |
| `CountLog.DedupFromKeepsFirst` | final4withPLC.py:120 | dropping duplicates leaves no repeated timestamp and keeps every timestamp of the input, each kept row is the first input row with its timestamp, and the kept rows stay in the order in which their timestamps first occur in the input |
| `CountLog.DropDuplicatesUnchanged` | final4withPLC.py:120 | dropping duplicates of a duplicate-free table changes nothing |
| `CountLog.DropDuplicatesAbsorbs` | final4withPLC.py:117-120 | deduplicating after every append gives the same table as deduplicating once over all appended rows |
| `CountLog.AppendRow` | final4withPLC.py:115-120 | appending a row to a duplicate-free table and dropping duplicates leaves the table unchanged when its second is present and otherwise adds the row at the end; the result stays duplicate-free and no existing row is changed or removed |
| `CountLog.ReplayIsDropDuplicates` | final4withPLC.py:103-124 | running the per-iteration update over a sequence of frames equals appending all non-zero candidate rows and keeping the first row of each second |
| `CountLog.FirstNonZeroFrameWins` | final4withPLC.py:106-124 | from the empty table, the final table has unique timestamps, has a row for a second exactly when some frame of it counted something, and that row is the first such frame's counts |
| `CountLog.SecondWithRowIgnored` | final4withPLC.py:107-124 | once a second has a row, any frame of that second, however many frames came between, leaves the table unchanged: counts are not summed over the second |
| `CountLog.LaterFrameOfSameSecondIgnored` | final4withPLC.py:103-124 | a frame directly after a non-zero frame of the same second leaves the table as that frame left it |
| `CountLog.Log.constructor` | final4withPLC.py:36 | the table starts empty and nothing is staged |
| `CountLog.Log.Update` | final4withPLC.py:106-124 | the table gets the frame's row only when a count is non-zero and its second is new; otherwise it is unchanged; it stays duplicate-free and `latest_data` is empty afterwards |
| `DetectionLoop.ProcessFrame` | final4withPLC.py:77-97 | the per-box loop returns the diet and original counts of the frame and the write trace of one pulse per qualifying class-0 or class-1 box, in box order, each pulse starting at the write attempt after the previous pulse's last write |
| `DetectionLoop.Step` | final4withPLC.py:73-124 | one iteration counts and actuates at the 0.3 threshold, then applies the per-second update for the frame's counts |
| `DetectionLoop.Run` | final4withPLC.py:66-131 | the loop over the frames read leaves the table equal to the replay of their candidate rows, and returns each frame's write trace |
| `DetectionLoop.Session` | final4withPLC.py:36-131 | a whole run from the blank table ends with the replay of the frames' candidate rows, which has unique timestamps, one row for each second that had a non-zero frame, holding the first such frame's counts, and each frame's write trace |
| `DetectionLoop.SparseSecondsScenario` | final4withPLC.py:89-124 | two diet and one original detection (at exactly 0.3) in second 10, a 0.29 detection in second 11 and one diet detection in second 12 give the table rows (10, 2, 1) and (12, 1, 0) only |
| `DetectionLoop.PerFrameCountsScenario` | final4withPLC.py:76-124 | two frames in one second, seeing (1, 0) and then (1, 1) with both switch-on writes of the second frame faulting (so no hold separates them), leave the row (1, 0) |

## Left out

- Camera capture, frame reads, `cap.isOpened`, the break on a failed read and the
  'q' key (lines 40-42, 67-71, 127-131) are device I/O and UI. `Run` takes the
  frames that were read as a sequence.
- Model loading and inference (lines 21, 74) are foreign calls. A frame comes in as
  its sequence of boxes.
- Drawing, label formatting and the `int` conversion of box corners (lines 82, 87,
  99-101, 127) do not affect counts, coils or the table.
- The class id is `int(box.cls.item())`. The model takes the integer class id as
  given and does not model the float-to-int truncation.
- Confidences are floats compared with the float 0.3. The model uses exact reals, so
  rounding at the threshold is not captured.
- Modbus connect and close, and the `exit()` when the connection fails (lines
  45-50, 137), are network plumbing. Only the outcome of each write is modelled.
- The one-second `time.sleep` inside a pulse (line 57) is wall-clock timing. Only
  the order of the two writes is kept, and a frame's second is not tied to the holds
  of its pulses.
- Only `ModbusException` faults are modelled (line 60). Other exceptions leave the
  loop through the `finally` at lines 133-137. These are any other exception from
  `write_coil`, an interrupt during the hold at line 57, and an exception from
  `to_excel` at line 121, such as a locked file. The last one ends the run before
  line 124 pops `latest_data`, and the email call at line 178 is then never reached.
  The model does not capture these exits.
- `datetime.now().strftime` (line 104) reads the clock. The second is an input of
  each frame.
- Excel initialisation and `to_excel` (lines 33-37, 121) are file I/O. The table is
  the in-memory row sequence, and the DataFrame index is not modelled.
- `send_email_with_excel` and SMTP (lines 138-178) are network transport with no
  decision logic.
- `Plc.PulseFinalLevel`, `Plc.CoilLevel` and `Plc.FaultedSwitchOffLeavesCoilOn`
  assume that a `write_coil` that does not raise was applied by the PLC and one that
  raises was not. The source does not establish either. Lines 56 and 59 discard the
  return value of `write_coil`, so the source never sees an error response that is
  returned rather than raised. A raise that comes after the request reached the PLC
  may still have switched the coil. These lemmas describe the coil levels only
  under that assumption.
- `CountLog.Log.Update` requires an empty staging dictionary on entry. The source
  always meets that, because every iteration pops what it staged. The update's
  effect on stale staged entries is therefore not modelled.
