/** The detection loop: per frame, count and actuate box by box, then update the
    per-second table. Camera, inference, drawing, the clock and the Excel file are
    outside the model: a frame arrives as its detector boxes, the bus's answer to each
    write attempt, and the second at which its row is stamped. */
module DetectionLoop {
  import opened Detections
  import opened Plc
  import opened CountLog

  /** What one loop iteration sees of the outside world. The second is read from the clock
      after the pulses, each of which includes a one-second hold when its switch-on goes
      through; the model takes the second as given and does not tie it to those holds. */
  datatype Frame = Frame(boxes: seq<Box>, faults: seq<bool>, timestamp: Timestamp)

  /** The candidate row of a frame: its second and its two counts. */
  function FrameRow(f: Frame): Row
  {
    Row(f.timestamp, CountClass(f.boxes, CONF_THRESHOLD, DIET_COKE), CountClass(f.boxes, CONF_THRESHOLD, ORIGINAL_COKE))
  }

  /** The coil writes of a frame, boxes taken at the configured threshold. */
  function FrameTrace(f: Frame): seq<WriteEvent>
  {
    Trace(CoilAddresses(f.boxes, CONF_THRESHOLD), f.faults, 0)
  }

  /** The write traces of a run of frames, one per frame. */
  function FrameTraces(frames: seq<Frame>): seq<seq<WriteEvent>>
    decreases |frames|
  {
    if frames == [] then [] else [FrameTrace(frames[0])] + FrameTraces(frames[1..])
  }

  lemma {:induction false} FrameTracesAt(frames: seq<Frame>)
    ensures |FrameTraces(frames)| == |frames|
    ensures forall i :: 0 <= i < |frames| ==> FrameTraces(frames)[i] == FrameTrace(frames[i])
    decreases |frames|
  {
    if frames != [] {
      FrameTracesAt(frames[1..]);
    }
  }

  function FrameRows(frames: seq<Frame>): seq<Row>
    decreases |frames|
  {
    if frames == [] then [] else [FrameRow(frames[0])] + FrameRows(frames[1..])
  }

  /** Extending a run by one more frame. */
  lemma {:induction false} FramesSnoc(frames: seq<Frame>, f: Frame)
    ensures FrameRows(frames + [f]) == FrameRows(frames) + [FrameRow(f)]
    ensures FrameTraces(frames + [f]) == FrameTraces(frames) + [FrameTrace(f)]
    decreases |frames|
  {
    var longer := frames + [f];
    if frames == [] {
      assert longer == [f] && longer[1..] == [];
    } else {
      assert longer[0] == frames[0] && longer[1..] == frames[1..] + [f];
      FramesSnoc(frames[1..], f);
    }
  }

  /** The per-box loop of one frame: the counts start at zero, each qualifying box of a
      product class increments its count and pulses that product's coil. */
  method ProcessFrame(boxes: seq<Box>, threshold: real, faults: seq<bool>)
    returns (diet: nat, original: nat, trace: seq<WriteEvent>)
    ensures diet == CountClass(boxes, threshold, DIET_COKE)
    ensures original == CountClass(boxes, threshold, ORIGINAL_COKE)
    ensures trace == Trace(CoilAddresses(boxes, threshold), faults, 0)
  {
    original, diet := 0, 0;
    trace := [];
    var i := 0;
    while i < |boxes|
      invariant 0 <= i <= |boxes|
      invariant diet == CountClass(boxes[..i], threshold, DIET_COKE)
      invariant original == CountClass(boxes[..i], threshold, ORIGINAL_COKE)
      invariant trace + Trace(CoilAddresses(boxes[i..], threshold), faults, |trace|)
                == Trace(CoilAddresses(boxes, threshold), faults, 0)
    {
      var box := boxes[i];
      ghost var todo := CoilAddresses(boxes[i + 1..], threshold);
      assert CoilAddresses(boxes[i..], threshold) == CoilOf(box, threshold) + todo by {
        assert boxes[i..][0] == box && boxes[i..][1..] == boxes[i + 1..];
      }
      assert CountClass(boxes[..i + 1], threshold, DIET_COKE)
           == diet + (if box.conf >= threshold && box.cls == DIET_COKE then 1 else 0)
        && CountClass(boxes[..i + 1], threshold, ORIGINAL_COKE)
           == original + (if box.conf >= threshold && box.cls == ORIGINAL_COKE then 1 else 0) by {
        CountsStep(boxes, threshold, i);
      }
      if box.conf >= threshold {
        if box.cls == DIET_COKE {
          diet := diet + 1;
          var pulse := ToggleCoil(DIET_COKE_COIL, faults, |trace|);
          PulseThenRest(trace, pulse, DIET_COKE_COIL, todo, faults);
          trace := trace + pulse;
        } else if box.cls == ORIGINAL_COKE {
          original := original + 1;
          var pulse := ToggleCoil(ORIGINAL_COKE_COIL, faults, |trace|);
          PulseThenRest(trace, pulse, ORIGINAL_COKE_COIL, todo, faults);
          trace := trace + pulse;
        } else {
          assert CoilOf(box, threshold) + todo == todo;
        }
      } else {
        assert CoilOf(box, threshold) + todo == todo;
      }
      i := i + 1;
    }
    assert boxes[..|boxes|] == boxes && boxes[|boxes|..] == [];
  }

  /** The trace so far, then one pulse, then the pulses still to come. */
  lemma PulseThenRest(trace: seq<WriteEvent>, pulse: seq<WriteEvent>, c: nat, todo: seq<nat>, faults: seq<bool>)
    requires pulse == Pulse(c, faults, |trace|)
    ensures trace + Trace([c] + todo, faults, |trace|) == (trace + pulse) + Trace(todo, faults, |trace + pulse|)
  {
    var coils := [c] + todo;
    assert coils[0] == c && coils[1..] == todo;
    assert Trace(coils, faults, |trace|) == pulse + Trace(todo, faults, |trace| + |pulse|);
  }

  /** One loop iteration: process the frame's boxes at the configured threshold, then
      update the table for the frame's second. */
  method Step(log: Log, frame: Frame) returns (diet: nat, original: nat, trace: seq<WriteEvent>)
    requires log.Valid()
    modifies log
    ensures log.Valid()
    ensures diet == CountClass(frame.boxes, CONF_THRESHOLD, DIET_COKE)
    ensures original == CountClass(frame.boxes, CONF_THRESHOLD, ORIGINAL_COKE)
    ensures trace == FrameTrace(frame)
    ensures log.rows == AfterUpdate(old(log.rows), FrameRow(frame))
  {
    diet, original, trace := ProcessFrame(frame.boxes, CONF_THRESHOLD, frame.faults);
    log.Update(frame.timestamp, diet, original);
  }

  /** The loop over the frames read before the stream ended or the user stopped it. */
  method Run(log: Log, frames: seq<Frame>) returns (traces: seq<seq<WriteEvent>>)
    requires log.Valid()
    modifies log
    ensures log.Valid()
    ensures log.rows == Replay(old(log.rows), FrameRows(frames))
    ensures traces == FrameTraces(frames)
  {
    traces := [];
    ghost var start := log.rows;
    var i := 0;
    while i < |frames|
      invariant 0 <= i <= |frames|
      invariant log.Valid()
      invariant log.rows == Replay(start, FrameRows(frames[..i]))
      invariant traces == FrameTraces(frames[..i])
    {
      assert frames[..i + 1] == frames[..i] + [frames[i]];
      FramesSnoc(frames[..i], frames[i]);
      ReplaySnoc(start, FrameRows(frames[..i]), FrameRow(frames[i]));
      var diet, original, trace := Step(log, frames[i]);
      traces := traces + [trace];
      i := i + 1;
    }
    assert frames[..|frames|] == frames;
  }

  /** A whole run from the blank table created at start-up. The final table has one row
      per second in which some frame counted something, and that row holds the counts
      of the first such frame of the second. */
  method Session(frames: seq<Frame>) returns (rows: seq<Row>, traces: seq<seq<WriteEvent>>)
    ensures rows == Replay([], FrameRows(frames))
    ensures UniqueTimestamps(rows)
    ensures Timestamps(rows) == Timestamps(Staged(FrameRows(frames)))
    ensures forall r :: r in rows ==>
              r.timestamp in Timestamps(Staged(FrameRows(frames)))
              && r == FirstWith(Staged(FrameRows(frames)), r.timestamp)
    ensures |traces| == |frames|
    ensures forall i :: 0 <= i < |frames| ==>
              traces[i] == FrameTrace(frames[i])
  {
    var log := new Log();
    traces := Run(log, frames);
    rows := log.rows;
    FirstNonZeroFrameWins(FrameRows(frames));
    FrameTracesAt(frames);
  }

  /** Three seconds of frames: two diet and one original detection (the latter exactly
      at the threshold) in second 10, only a detection just below the threshold in
      second 11, one diet detection in second 12. The table gets rows for 10 and 12 only. */
  lemma SparseSecondsScenario()
    ensures var frames := [Frame([Box(0, 0.9), Box(0, 0.5), Box(1, 0.3)], [], "10"),
                           Frame([Box(1, 0.29)], [], "11"),
                           Frame([Box(0, 0.8)], [], "12")];
            Replay([], FrameRows(frames)) == [Row("10", 2, 1), Row("12", 1, 0)]
  {
    var b0 := [Box(0, 0.9), Box(0, 0.5), Box(1, 0.3)];
    var f0, f1, f2 := Frame(b0, [], "10"), Frame([Box(1, 0.29)], [], "11"), Frame([Box(0, 0.8)], [], "12");
    assert FrameRow(f0) == Row("10", 2, 1) by {
      assert b0[..2] == [Box(0, 0.9), Box(0, 0.5)] && b0[..2][..1] == [Box(0, 0.9)] && [Box(0, 0.9)][..0] == [];
      assert CountClass([Box(0, 0.9)], CONF_THRESHOLD, DIET_COKE) == 1;
      assert CountClass([Box(0, 0.9), Box(0, 0.5)], CONF_THRESHOLD, DIET_COKE) == 2;
      assert CountClass([Box(0, 0.9)], CONF_THRESHOLD, ORIGINAL_COKE) == 0;
      assert CountClass([Box(0, 0.9), Box(0, 0.5)], CONF_THRESHOLD, ORIGINAL_COKE) == 0;
    }
    assert FrameRow(f1) == Row("11", 0, 0) by {
      assert [Box(1, 0.29)][..0] == [];
    }
    assert FrameRow(f2) == Row("12", 1, 0) by {
      assert [Box(0, 0.8)][..0] == [];
    }
    var r0, r1, r2 := Row("10", 2, 1), Row("11", 0, 0), Row("12", 1, 0);
    assert FrameRows([f0, f1, f2]) == [r0, r1, r2] by {
      assert [f0, f1, f2][1..] == [f1, f2] && [f1, f2][1..] == [f2] && [f2][1..] == [];
      assert FrameRows([f2]) == [r2];
      assert FrameRows([f1, f2]) == [r1, r2];
    }
    assert AfterUpdate([], r0) == [r0] by {
      AppendRow([], r0);
    }
    assert AfterUpdate([r0], r2) == [r0, r2] by {
      AppendRow([r0], r2);
      assert "12" !in Timestamps([r0]);
    }
    assert Replay([], [r0, r1, r2]) == [r0, r2] by {
      assert [r0, r1, r2][1..] == [r1, r2] && [r1, r2][1..] == [r2] && [r2][1..] == [];
      assert Replay([r0, r2], []) == [r0, r2];
      assert Replay([r0], [r2]) == [r0, r2];
      assert Replay([r0], [r1, r2]) == [r0, r2];
    }
  }

  /** Counts are per frame: two frames in the same second, the second one seeing more,
      leave the first frame's counts in the table. Both switch-on writes of the second
      frame fault, so it holds no one-second pulse and can be stamped in the same second
      as the first. */
  lemma PerFrameCountsScenario()
    ensures var frames := [Frame([Box(0, 0.9)], [], "10"),
                           Frame([Box(0, 0.9), Box(1, 0.9)], [true, true], "10")];
            Replay([], FrameRows(frames)) == [Row("10", 1, 0)]
  {
    var b1 := [Box(0, 0.9), Box(1, 0.9)];
    var f0, f1 := Frame([Box(0, 0.9)], [], "10"), Frame(b1, [true, true], "10");
    assert FrameRow(f0) == Row("10", 1, 0) by {
      assert [Box(0, 0.9)][..0] == [];
    }
    assert FrameRow(f1) == Row("10", 1, 1) by {
      assert b1[..1] == [Box(0, 0.9)] && [Box(0, 0.9)][..0] == [];
    }
    var r0, r1 := Row("10", 1, 0), Row("10", 1, 1);
    assert FrameRows([f0, f1]) == [r0, r1] by {
      assert [f0, f1][1..] == [f1] && [f1][1..] == [];
      assert FrameRows([f1]) == [r1];
    }
    assert AfterUpdate([], r0) == [r0] by {
      AppendRow([], r0);
    }
    assert AfterUpdate([r0], r1) == [r0] by {
      AppendRow([r0], r1);
      assert r0 in [r0];
    }
    assert Replay([], [r0, r1]) == [r0] by {
      assert [r0, r1][1..] == [r1] && [r1][1..] == [];
      assert Replay([r0], []) == [r0];
      assert Replay([r0], [r1]) == [r0];
    }
  }
}
