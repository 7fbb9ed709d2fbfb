/** Coil writes on the PLC and the pulse that `toggle_coil` issues.
    The Modbus client is abstracted as the outcome of each write attempt: `faults[k]`
    says whether the k-th write attempt of a frame raises a Modbus exception (attempts
    past the end of `faults` succeed). The one-second hold between the two writes is
    not modelled; only the order of the writes is. */
module Plc {

  /** One attempted `write_coil`: the address, the value written, and whether it went
      through (`ok == false` means the write raised a Modbus exception). */
  datatype WriteEvent = WriteEvent(address: nat, value: bool, ok: bool)

  /** Does write attempt number `k` fault? */
  predicate Faulted(faults: seq<bool>, k: nat)
  {
    k < |faults| && faults[k]
  }

  /** The events of one pulse whose first write is attempt number `k`: switch on, and
      only if that succeeded, switch off. A fault ends the pulse without an error. */
  function Pulse(address: nat, faults: seq<bool>, k: nat): seq<WriteEvent>
  {
    if Faulted(faults, k) then [WriteEvent(address, true, false)]
    else [WriteEvent(address, true, true), WriteEvent(address, false, !Faulted(faults, k + 1))]
  }

  /** The events of a sequence of pulses issued one after another, the first write of
      the first pulse being attempt number `k` and each pulse starting with the attempt
      after the previous pulse's last write. */
  function Trace(coils: seq<nat>, faults: seq<bool>, k: nat): seq<WriteEvent>
    decreases |coils|
  {
    if coils == [] then []
    else
      var first := Pulse(coils[0], faults, k);
      first + Trace(coils[1..], faults, k + |first|)
  }

  /** The addresses of the switch-on writes of a trace, in order. */
  function OnWrites(events: seq<WriteEvent>): seq<nat>
    decreases |events|
  {
    if events == [] then []
    else (if events[0].value then [events[0].address] else []) + OnWrites(events[1..])
  }

  /** One `write_coil` call on the bus: it either goes through or raises. */
  method WriteCoil(address: nat, value: bool, faults: seq<bool>, k: nat) returns (event: WriteEvent, raised: bool)
    ensures raised <==> Faulted(faults, k)
    ensures event.address == address && event.value == value && event.ok == !raised
  {
    raised := Faulted(faults, k);
    event := WriteEvent(address, value, !raised);
  }

  /** `toggle_coil`: write True, then write False, to the same coil. A Modbus exception
      is caught and the call returns normally; a fault on the first write skips the second. */
  method ToggleCoil(address: nat, faults: seq<bool>, k: nat) returns (events: seq<WriteEvent>)
    ensures events == Pulse(address, faults, k)
    ensures 1 <= |events| <= 2
    ensures events[0].value
    ensures |events| == 2 ==> !events[1].value
    ensures |events| == 2 <==> events[0].ok
    ensures forall i :: 0 <= i < |events| ==> events[i].address == address && events[i].ok == !Faulted(faults, k + i)
  {
    var on, raised := WriteCoil(address, true, faults, k);
    events := [on];
    if !raised {
      var off, raisedOff := WriteCoil(address, false, faults, k + 1);
      events := events + [off];
    }
  }

  lemma {:induction false} OnWritesConcat(a: seq<WriteEvent>, b: seq<WriteEvent>)
    ensures OnWrites(a + b) == OnWrites(a) + OnWrites(b)
    decreases |a|
  {
    if a == [] {
      assert a + b == b;
    } else {
      assert (a + b)[0] == a[0];
      assert (a + b)[1..] == a[1..] + b;
      OnWritesConcat(a[1..], b);
    }
  }

  lemma PulseOnWrites(address: nat, faults: seq<bool>, k: nat)
    ensures OnWrites(Pulse(address, faults, k)) == [address]
  {
    var p := Pulse(address, faults, k);
    if |p| == 1 {
      assert p[1..] == [];
    } else {
      assert p[1..] == [p[1]] && [p[1]][1..] == [];
      assert OnWrites(p[1..]) == [];
    }
  }

  /** Whatever the faults, every coil of the sequence gets exactly one switch-on
      attempt, in order: a fault never drops a later pulse. Each pulse is one or two writes. */
  lemma {:induction false} TraceOnWrites(coils: seq<nat>, faults: seq<bool>, k: nat)
    ensures OnWrites(Trace(coils, faults, k)) == coils
    ensures |coils| <= |Trace(coils, faults, k)| <= 2 * |coils|
    decreases |coils|
  {
    if coils != [] {
      var first := Pulse(coils[0], faults, k);
      var rest := Trace(coils[1..], faults, k + |first|);
      assert Trace(coils, faults, k) == first + rest;
      TraceOnWrites(coils[1..], faults, k + |first|);
      OnWritesConcat(first, rest);
      PulseOnWrites(coils[0], faults, k);
      assert [coils[0]] + coils[1..] == coils;
    }
  }

  /** Write i of a pulse carries the bus's answer to attempt number k + i. */
  lemma PulseOutcomes(address: nat, faults: seq<bool>, k: nat)
    ensures forall i :: 0 <= i < |Pulse(address, faults, k)| ==> Pulse(address, faults, k)[i].ok == !Faulted(faults, k + i)
  {
  }

  /** Write i of a trace carries the bus's answer to attempt number k + i. */
  lemma {:induction false} TraceOutcomes(coils: seq<nat>, faults: seq<bool>, k: nat)
    ensures forall i :: 0 <= i < |Trace(coils, faults, k)| ==> Trace(coils, faults, k)[i].ok == !Faulted(faults, k + i)
    decreases |coils|
  {
    if coils != [] {
      var first := Pulse(coils[0], faults, k);
      var rest := Trace(coils[1..], faults, k + |first|);
      var tr := first + rest;
      assert Trace(coils, faults, k) == tr;
      TraceOutcomes(coils[1..], faults, k + |first|);
      PulseOutcomes(coils[0], faults, k);
      forall i | 0 <= i < |tr|
        ensures tr[i].ok == !Faulted(faults, k + i)
      {
        if i < |first| {
          assert tr[i] == first[i];
        } else {
          assert tr[i] == rest[i - |first|];
          assert k + |first| + (i - |first|) == k + i;
        }
      }
    }
  }

  /** Every switch-off write directly follows a successful switch-on of the same coil. */
  predicate OffFollowsOn(tr: seq<WriteEvent>)
  {
    forall i :: 0 <= i < |tr| && !tr[i].value ==> 0 < i && tr[i - 1] == WriteEvent(tr[i].address, true, true)
  }

  /** Every successful switch-on is directly followed by the switch-off of that coil. */
  predicate OnIsSwitchedOff(tr: seq<WriteEvent>)
  {
    forall i :: 0 <= i < |tr| && tr[i].value && tr[i].ok ==>
      i + 1 < |tr| && tr[i + 1].address == tr[i].address && !tr[i + 1].value
  }

  /** Pulse structure: a coil that was switched on gets its switch-off attempt as the next
      write (that attempt may itself fault, see `FaultedSwitchOffLeavesCoilOn`), and nothing
      is switched off that was not just switched on. */
  lemma {:induction false} TracePulsesComplete(coils: seq<nat>, faults: seq<bool>, k: nat)
    ensures OffFollowsOn(Trace(coils, faults, k))
    ensures OnIsSwitchedOff(Trace(coils, faults, k))
    decreases |coils|
  {
    if coils != [] {
      var p := Pulse(coils[0], faults, k);
      var rest := Trace(coils[1..], faults, k + |p|);
      var tr := p + rest;
      TracePulsesComplete(coils[1..], faults, k + |p|);
      assert tr == Trace(coils, faults, k);
      forall i | 0 <= i < |tr| && !tr[i].value
        ensures 0 < i && tr[i - 1] == WriteEvent(tr[i].address, true, true)
      {
        if i < |p| {
          assert i == 1 && tr[0] == p[0];
        } else {
          assert tr[i] == rest[i - |p|];
          assert rest[i - |p|].value == false;
          assert 0 < i - |p|;
          assert tr[i - 1] == rest[i - 1 - |p|];
        }
      }
      forall i | 0 <= i < |tr| && tr[i].value && tr[i].ok
        ensures i + 1 < |tr| && tr[i + 1].address == tr[i].address && !tr[i + 1].value
      {
        if i < |p| {
          assert i == 0 && tr[1] == p[1];
        } else {
          assert tr[i] == rest[i - |p|];
          assert tr[i + 1] == rest[i + 1 - |p|];
        }
      }
    }
  }

  /** With a bus that never faults, each coil gets exactly the pair on, off. */
  lemma {:induction false} TraceFaultFree(coils: seq<nat>, faults: seq<bool>, k: nat)
    requires forall j :: 0 <= j < |faults| ==> !faults[j]
    ensures |Trace(coils, faults, k)| == 2 * |coils|
    ensures forall i :: 0 <= i < |coils| ==>
              Trace(coils, faults, k)[2 * i] == WriteEvent(coils[i], true, true)
              && Trace(coils, faults, k)[2 * i + 1] == WriteEvent(coils[i], false, true)
    decreases |coils|
  {
    if coils != [] {
      var p := Pulse(coils[0], faults, k);
      var rest := Trace(coils[1..], faults, k + 2);
      TraceFaultFree(coils[1..], faults, k + 2);
      assert Trace(coils, faults, k) == p + rest;
      forall i | 0 <= i < |coils|
        ensures (p + rest)[2 * i] == WriteEvent(coils[i], true, true)
                && (p + rest)[2 * i + 1] == WriteEvent(coils[i], false, true)
      {
        if i > 0 {
          assert coils[i] == coils[1..][i - 1];
          assert (p + rest)[2 * i] == rest[2 * (i - 1)];
          assert (p + rest)[2 * i + 1] == rest[2 * (i - 1) + 1];
        }
      }
    }
  }

  /** The level of coil `address` after the writes `events`, starting from `level`, under
      the assumption that a write takes effect exactly when it does not raise: a write
      that went through sets it, a faulted write leaves it. */
  function CoilLevel(events: seq<WriteEvent>, address: nat, level: bool): bool
    decreases |events|
  {
    if events == [] then level
    else
      var e := events[0];
      CoilLevel(events[1..], address, if e.ok && e.address == address then e.value else level)
  }

  /** What a pulse leaves on the bus: its own coil ends switched off when both writes go
      through, keeps its level when the switch-on faults, and stays energised when the
      switch-on goes through but the switch-off faults. Other coils are untouched. */
  lemma PulseFinalLevel(address: nat, faults: seq<bool>, k: nat, other: nat, level: bool)
    ensures CoilLevel(Pulse(address, faults, k), address, level)
            == if Faulted(faults, k) then level else Faulted(faults, k + 1)
    ensures other != address ==> CoilLevel(Pulse(address, faults, k), other, level) == level
  {
    var p := Pulse(address, faults, k);
    if Faulted(faults, k) {
      assert p[1..] == [];
    } else {
      var off := p[1..];
      assert off == [p[1]] && off[1..] == [];
      assert CoilLevel(p, address, level) == CoilLevel(off, address, true);
      assert CoilLevel(off, address, true) == Faulted(faults, k + 1);
      if other != address {
        assert CoilLevel(p, other, level) == CoilLevel(off, other, level);
      }
    }
  }

  /** A caught fault on the switch-off write leaves the coil energised: a frame with one
      diet coil whose second write attempt faults ends with coil 1280 on. */
  lemma FaultedSwitchOffLeavesCoilOn()
    ensures Trace([1280], [false, true], 0) == [WriteEvent(1280, true, true), WriteEvent(1280, false, false)]
    ensures CoilLevel(Trace([1280], [false, true], 0), 1280, false)
  {
    assert [1280][1..] == [];
    PulseFinalLevel(1280, [false, true], 0, 1280, false);
    assert Trace([1280], [false, true], 0) == Pulse(1280, [false, true], 0) + [];
  }
}
