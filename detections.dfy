/** Detections of one frame and what the control loop counts from them.
    A detector result is an ordered sequence of boxes; only the class id and the
    confidence take part in any decision (the box corners are only drawn). */
module Detections {

  /** One detection: the class id reported by the model and its confidence. */
  datatype Box = Box(cls: int, conf: real)

  /** Minimum confidence of a detection that is counted and actuated. */
  const CONF_THRESHOLD: real := 0.3

  /** Class ids of the two products. */
  const DIET_COKE: int := 0
  const ORIGINAL_COKE: int := 1

  /** Coil addresses on the PLC, one per product. */
  const DIET_COKE_COIL: nat := 1280
  const ORIGINAL_COKE_COIL: nat := 1281

  /** The confidence filter: inclusive at the threshold. */
  predicate Qualifies(b: Box, threshold: real)
  {
    b.conf >= threshold
  }

  /** Number of qualifying boxes of class `cls`, counted box by box. */
  function CountClass(boxes: seq<Box>, threshold: real, cls: int): nat
    decreases |boxes|
  {
    if boxes == [] then 0
    else
      var last := boxes[|boxes| - 1];
      CountClass(boxes[..|boxes| - 1], threshold, cls)
        + (if Qualifies(last, threshold) && last.cls == cls then 1 else 0)
  }

  /** The coil a box pulses: none when it does not qualify or its class is neither product. */
  function CoilOf(b: Box, threshold: real): seq<nat>
  {
    if !Qualifies(b, threshold) then []
    else if b.cls == DIET_COKE then [DIET_COKE_COIL]
    else if b.cls == ORIGINAL_COKE then [ORIGINAL_COKE_COIL]
    else []
  }

  /** The coils pulsed for a frame, in box order. */
  function CoilAddresses(boxes: seq<Box>, threshold: real): seq<nat>
    decreases |boxes|
  {
    if boxes == [] then []
    else CoilOf(boxes[0], threshold) + CoilAddresses(boxes[1..], threshold)
  }

  /** Reference definition of a count: the positions of the qualifying boxes of a class. */
  function QualifyingIndices(boxes: seq<Box>, threshold: real, cls: int): set<int>
  {
    set i | 0 <= i < |boxes| && Qualifies(boxes[i], threshold) && boxes[i].cls == cls
  }

  /** Extending a prefix of the frame by its next box. */
  lemma CountsStep(boxes: seq<Box>, threshold: real, i: int)
    requires 0 <= i < |boxes|
    ensures CountClass(boxes[..i + 1], threshold, DIET_COKE)
            == CountClass(boxes[..i], threshold, DIET_COKE)
               + (if Qualifies(boxes[i], threshold) && boxes[i].cls == DIET_COKE then 1 else 0)
    ensures CountClass(boxes[..i + 1], threshold, ORIGINAL_COKE)
            == CountClass(boxes[..i], threshold, ORIGINAL_COKE)
               + (if Qualifies(boxes[i], threshold) && boxes[i].cls == ORIGINAL_COKE then 1 else 0)
    ensures CoilAddresses(boxes[..i + 1], threshold) == CoilAddresses(boxes[..i], threshold) + CoilOf(boxes[i], threshold)
  {
    var next := boxes[..i + 1];
    assert next[..|next| - 1] == boxes[..i];
    assert next[|next| - 1] == boxes[i];
    assert next == boxes[..i] + [boxes[i]];
    CoilAddressesConcat(boxes[..i], [boxes[i]], threshold);
    SingleBox(boxes[i], threshold, DIET_COKE);
  }

  /** A count is the number of positions holding a qualifying box of that class. */
  lemma {:induction false} CountIsQualifyingIndices(boxes: seq<Box>, threshold: real, cls: int)
    ensures CountClass(boxes, threshold, cls) == |QualifyingIndices(boxes, threshold, cls)|
    decreases |boxes|
  {
    if boxes == [] {
      assert QualifyingIndices(boxes, threshold, cls) == {};
    } else {
      var n := |boxes| - 1;
      var p := boxes[..n];
      CountIsQualifyingIndices(p, threshold, cls);
      assert forall i :: 0 <= i < n ==> p[i] == boxes[i];
      if Qualifies(boxes[n], threshold) && boxes[n].cls == cls {
        assert QualifyingIndices(boxes, threshold, cls) == QualifyingIndices(p, threshold, cls) + {n};
        assert n !in QualifyingIndices(p, threshold, cls);
      } else {
        assert QualifyingIndices(boxes, threshold, cls) == QualifyingIndices(p, threshold, cls);
      }
    }
  }

  /** Counting is additive over consecutive runs of boxes. */
  lemma {:induction false} CountClassConcat(a: seq<Box>, b: seq<Box>, threshold: real, cls: int)
    ensures CountClass(a + b, threshold, cls) == CountClass(a, threshold, cls) + CountClass(b, threshold, cls)
    decreases |b|
  {
    if b == [] {
      assert a + b == a;
    } else {
      var b' := b[..|b| - 1];
      CountClassConcat(a, b', threshold, cls);
      assert (a + b)[..|a + b| - 1] == a + b';
      assert (a + b)[|a + b| - 1] == b[|b| - 1];
    }
  }

  /** Coil dispatch preserves box order: the coils of consecutive runs are concatenated. */
  lemma {:induction false} CoilAddressesConcat(a: seq<Box>, b: seq<Box>, threshold: real)
    ensures CoilAddresses(a + b, threshold) == CoilAddresses(a, threshold) + CoilAddresses(b, threshold)
    decreases |a|
  {
    if a == [] {
      assert a + b == b;
    } else {
      assert (a + b)[0] == a[0];
      assert (a + b)[1..] == a[1..] + b;
      CoilAddressesConcat(a[1..], b, threshold);
    }
  }

  /** The coils of a frame agree with its counts: one diet coil per diet count, one original
      coil per original count, and no other address. */
  lemma {:induction false} CoilsMatchCounts(boxes: seq<Box>, threshold: real)
    ensures |CoilAddresses(boxes, threshold)|
            == CountClass(boxes, threshold, DIET_COKE) + CountClass(boxes, threshold, ORIGINAL_COKE)
    ensures multiset(CoilAddresses(boxes, threshold))[DIET_COKE_COIL] == CountClass(boxes, threshold, DIET_COKE)
    ensures multiset(CoilAddresses(boxes, threshold))[ORIGINAL_COKE_COIL] == CountClass(boxes, threshold, ORIGINAL_COKE)
    ensures forall a :: a in CoilAddresses(boxes, threshold) ==> a == DIET_COKE_COIL || a == ORIGINAL_COKE_COIL
    decreases |boxes|
  {
    if boxes != [] {
      var n := |boxes| - 1;
      CoilsMatchCounts(boxes[..n], threshold);
      CountsStep(boxes, threshold, n);
      assert boxes[..n + 1] == boxes;
    }
  }

  /** A frame of one box. */
  lemma SingleBox(b: Box, threshold: real, cls: int)
    ensures CountClass([b], threshold, cls) == if Qualifies(b, threshold) && b.cls == cls then 1 else 0
    ensures CoilAddresses([b], threshold) == CoilOf(b, threshold)
  {
    assert [b][..0] == [];
  }

  /** Removing a box that does not count towards class `cls` leaves that count as it was. */
  lemma IgnoredBoxCount(boxes: seq<Box>, threshold: real, i: int, cls: int)
    requires 0 <= i < |boxes|
    requires !Qualifies(boxes[i], threshold) || boxes[i].cls != cls
    ensures CountClass(boxes, threshold, cls) == CountClass(boxes[..i] + boxes[i + 1..], threshold, cls)
  {
    var pre, one, post := boxes[..i], [boxes[i]], boxes[i + 1..];
    assert boxes == (pre + one) + post;
    SingleBox(boxes[i], threshold, cls);
    CountClassConcat(pre + one, post, threshold, cls);
    CountClassConcat(pre, one, threshold, cls);
    CountClassConcat(pre, post, threshold, cls);
  }

  /** Removing a box that pulses no coil leaves the coil sequence as it was. */
  lemma IgnoredBoxCoils(boxes: seq<Box>, threshold: real, i: int)
    requires 0 <= i < |boxes|
    requires CoilOf(boxes[i], threshold) == []
    ensures CoilAddresses(boxes, threshold) == CoilAddresses(boxes[..i] + boxes[i + 1..], threshold)
  {
    var pre, one, post := boxes[..i], [boxes[i]], boxes[i + 1..];
    assert boxes == pre + (one + post);
    assert one + post == [boxes[i]] + post;
    CoilAddressesConcat(pre, one + post, threshold);
    CoilAddressesConcat(pre, post, threshold);
    assert (one + post)[1..] == post;
  }

  /** A box below the threshold, or of a class that is neither product, has no effect:
      removing it leaves both counts and the coil sequence as they were. */
  lemma IgnoredBoxHasNoEffect(boxes: seq<Box>, threshold: real, i: int)
    requires 0 <= i < |boxes|
    requires !Qualifies(boxes[i], threshold) || (boxes[i].cls != DIET_COKE && boxes[i].cls != ORIGINAL_COKE)
    ensures CountClass(boxes, threshold, DIET_COKE) == CountClass(boxes[..i] + boxes[i + 1..], threshold, DIET_COKE)
    ensures CountClass(boxes, threshold, ORIGINAL_COKE) == CountClass(boxes[..i] + boxes[i + 1..], threshold, ORIGINAL_COKE)
    ensures CoilAddresses(boxes, threshold) == CoilAddresses(boxes[..i] + boxes[i + 1..], threshold)
  {
    IgnoredBoxCount(boxes, threshold, i, DIET_COKE);
    IgnoredBoxCount(boxes, threshold, i, ORIGINAL_COKE);
    IgnoredBoxCoils(boxes, threshold, i);
  }
}
