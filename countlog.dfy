/** The per-second count table and the staging dictionary in front of it.
    A row is (Timestamp, Diet Coke Count, Original Coke Count); the table is kept
    without duplicate timestamps by pandas' `drop_duplicates(subset=["Timestamp"])`
    with its default `keep='first'`. */
module CountLog {

  /** A wall-clock second as formatted text, `%Y-%m-%d %H:%M:%S`; only equality matters. */
  type Timestamp = string

  datatype Row = Row(timestamp: Timestamp, diet: nat, original: nat)

  /** A row is staged only for a frame in which something was counted. */
  predicate NonZero(r: Row)
  {
    r.diet > 0 || r.original > 0
  }

  function Timestamps(rows: seq<Row>): set<Timestamp>
  {
    set r | r in rows :: r.timestamp
  }

  predicate UniqueTimestamps(rows: seq<Row>)
  {
    forall i, j :: 0 <= i < j < |rows| ==> rows[i].timestamp != rows[j].timestamp
  }

  /** The position of the first row of `rows` carrying timestamp `t`. */
  function FirstIndex(rows: seq<Row>, t: Timestamp): (i: nat)
    requires t in Timestamps(rows)
    ensures i < |rows| && rows[i].timestamp == t
    ensures forall j :: 0 <= j < i ==> rows[j].timestamp != t
    decreases |rows|
  {
    if rows[0].timestamp == t then 0
    else
      assert t in Timestamps(rows[1..]) by {
        var r :| r in rows && r.timestamp == t;
        assert r != rows[0];
        assert r in rows[1..];
      }
      1 + FirstIndex(rows[1..], t)
  }

  /** The first row of `rows` carrying timestamp `t`. */
  function FirstWith(rows: seq<Row>, t: Timestamp): Row
    requires t in Timestamps(rows)
  {
    rows[FirstIndex(rows, t)]
  }

  /** Below a leading row of another second, first positions shift by one. */
  lemma FirstIndexTail(rows: seq<Row>, t: Timestamp)
    requires rows != [] && rows[0].timestamp != t
    requires t in Timestamps(rows[1..])
    ensures t in Timestamps(rows)
    ensures FirstIndex(rows, t) == 1 + FirstIndex(rows[1..], t)
    ensures FirstWith(rows, t) == FirstWith(rows[1..], t)
  {
    assert rows == [rows[0]] + rows[1..];
    TimestampsCons(rows[0], rows[1..]);
  }

  /** Left-to-right scan that keeps a row when its timestamp has not been seen. */
  function DedupFrom(rows: seq<Row>, seen: set<Timestamp>): seq<Row>
    decreases |rows|
  {
    if rows == [] then []
    else if rows[0].timestamp in seen then DedupFrom(rows[1..], seen)
    else [rows[0]] + DedupFrom(rows[1..], seen + {rows[0].timestamp})
  }

  /** `drop_duplicates(subset=["Timestamp"], keep='first')`. */
  function DropDuplicates(rows: seq<Row>): seq<Row>
  {
    DedupFrom(rows, {})
  }

  lemma TimestampsConcat(a: seq<Row>, b: seq<Row>)
    ensures Timestamps(a + b) == Timestamps(a) + Timestamps(b)
  {
    assert forall r :: r in a + b <==> r in a || r in b;
  }

  lemma TimestampsCons(r: Row, rows: seq<Row>)
    ensures Timestamps([r] + rows) == {r.timestamp} + Timestamps(rows)
  {
    TimestampsConcat([r], rows);
    assert Timestamps([r]) == {r.timestamp};
  }

  /** The scan keeps exactly the unseen timestamps of its input. */
  lemma {:induction false} DedupFromTimestamps(rows: seq<Row>, seen: set<Timestamp>)
    ensures Timestamps(DedupFrom(rows, seen)) == Timestamps(rows) - seen
    decreases |rows|
  {
    if rows != [] {
      var t := rows[0].timestamp;
      var tail := rows[1..];
      assert rows == [rows[0]] + tail;
      TimestampsCons(rows[0], tail);
      if t in seen {
        DedupFromTimestamps(tail, seen);
      } else {
        DedupFromTimestamps(tail, seen + {t});
        TimestampsCons(rows[0], DedupFrom(tail, seen + {t}));
      }
    }
  }

  /** Every row the scan keeps is the first input row with its timestamp. */
  lemma {:induction false} DedupFromFirst(rows: seq<Row>, seen: set<Timestamp>)
    ensures forall r :: r in DedupFrom(rows, seen) ==>
              r.timestamp in Timestamps(rows) && r.timestamp !in seen && r == FirstWith(rows, r.timestamp)
    decreases |rows|
  {
    if rows != [] {
      var t := rows[0].timestamp;
      var tail := rows[1..];
      assert rows == [rows[0]] + tail;
      TimestampsCons(rows[0], tail);
      if t in seen {
        DedupFromFirst(tail, seen);
        forall r | r in DedupFrom(rows, seen)
          ensures r.timestamp in Timestamps(rows) && r.timestamp !in seen && r == FirstWith(rows, r.timestamp)
        {
          FirstIndexTail(rows, r.timestamp);
        }
      } else {
        var rest := DedupFrom(tail, seen + {t});
        DedupFromFirst(tail, seen + {t});
        forall r | r in DedupFrom(rows, seen)
          ensures r.timestamp in Timestamps(rows) && r.timestamp !in seen && r == FirstWith(rows, r.timestamp)
        {
          if r != rows[0] {
            assert r in rest;
            FirstIndexTail(rows, r.timestamp);
          }
        }
      }
    }
  }

  /** The rows of `d` come from `rows` in the order in which their seconds first occur there. */
  predicate InInputOrder(d: seq<Row>, rows: seq<Row>)
  {
    forall i, j :: 0 <= i < j < |d| ==> FirstBefore(rows, d[i], d[j])
  }

  /** Row `a`'s second first occurs in `rows` before row `b`'s. */
  predicate FirstBefore(rows: seq<Row>, a: Row, b: Row)
  {
    a.timestamp in Timestamps(rows) && b.timestamp in Timestamps(rows)
    && FirstIndex(rows, a.timestamp) < FirstIndex(rows, b.timestamp)
  }

  /** Rows in input order after a leading row of another second stay in input order. */
  lemma OrderSkip(d: seq<Row>, rows: seq<Row>)
    requires rows != [] && InInputOrder(d, rows[1..])
    requires forall r :: r in d ==> r.timestamp != rows[0].timestamp
    ensures InInputOrder(d, rows)
  {
    forall i, j | 0 <= i < j < |d|
      ensures FirstBefore(rows, d[i], d[j])
    {
      assert d[i] in d && d[j] in d;
      FirstIndexTail(rows, d[i].timestamp);
      FirstIndexTail(rows, d[j].timestamp);
    }
  }

  /** Keeping the leading row in front of rows of later seconds keeps input order. */
  lemma OrderCons(d: seq<Row>, rows: seq<Row>)
    requires rows != [] && InInputOrder(d, rows[1..])
    requires forall r :: r in d ==> r.timestamp != rows[0].timestamp && r.timestamp in Timestamps(rows[1..])
    ensures InInputOrder([rows[0]] + d, rows)
  {
    OrderSkip(d, rows);
    var out := [rows[0]] + d;
    assert rows[0] in rows;
    forall i, j | 0 <= i < j < |out|
      ensures FirstBefore(rows, out[i], out[j])
    {
      assert out[j] == d[j - 1];
      if i == 0 {
        assert d[j - 1] in d;
        FirstIndexTail(rows, d[j - 1].timestamp);
      } else {
        assert out[i] == d[i - 1];
      }
    }
  }

  /** The scan keeps rows in input order. */
  lemma {:induction false} DedupFromOrder(rows: seq<Row>, seen: set<Timestamp>)
    ensures InInputOrder(DedupFrom(rows, seen), rows)
    decreases |rows|
  {
    if rows != [] {
      var t := rows[0].timestamp;
      var tail := rows[1..];
      if t in seen {
        DedupFromOrder(tail, seen);
        DedupFromFirst(tail, seen);
        OrderSkip(DedupFrom(tail, seen), rows);
      } else {
        DedupFromOrder(tail, seen + {t});
        DedupFromFirst(tail, seen + {t});
        OrderCons(DedupFrom(tail, seen + {t}), rows);
      }
    }
  }

  /** Putting a row of a new second in front of a duplicate-free table keeps it so. */
  lemma UniqueCons(h: Row, rows: seq<Row>)
    requires UniqueTimestamps(rows)
    requires h.timestamp !in Timestamps(rows)
    ensures UniqueTimestamps([h] + rows)
  {
    var out := [h] + rows;
    forall i, j | 0 <= i < j < |out|
      ensures out[i].timestamp != out[j].timestamp
    {
      assert out[j] == rows[j - 1];
      if i == 0 {
        assert rows[j - 1] in rows;
      } else {
        assert out[i] == rows[i - 1];
      }
    }
  }

  /** The scan never keeps two rows of the same second. */
  lemma {:induction false} DedupFromUnique(rows: seq<Row>, seen: set<Timestamp>)
    ensures UniqueTimestamps(DedupFrom(rows, seen))
    decreases |rows|
  {
    if rows != [] {
      var t := rows[0].timestamp;
      var tail := rows[1..];
      if t in seen {
        DedupFromUnique(tail, seen);
      } else {
        var rest := DedupFrom(tail, seen + {t});
        assert DedupFrom(rows, seen) == [rows[0]] + rest;
        DedupFromUnique(tail, seen + {t});
        DedupFromTimestamps(tail, seen + {t});
        UniqueCons(rows[0], rest);
      }
    }
  }

  /** What the scan keeps: no repeated timestamp, every unseen timestamp of the input,
      for each of them the first row that had it, and these rows in input order. */
  lemma DedupFromKeepsFirst(rows: seq<Row>, seen: set<Timestamp>)
    ensures UniqueTimestamps(DedupFrom(rows, seen))
    ensures Timestamps(DedupFrom(rows, seen)) == Timestamps(rows) - seen
    ensures forall r :: r in DedupFrom(rows, seen) ==>
              r.timestamp in Timestamps(rows) && r == FirstWith(rows, r.timestamp)
    ensures InInputOrder(DedupFrom(rows, seen), rows)
  {
    DedupFromUnique(rows, seen);
    DedupFromTimestamps(rows, seen);
    DedupFromFirst(rows, seen);
    DedupFromOrder(rows, seen);
  }

  /** The seen set after scanning a leading row. */
  function SeenAfter(h: Row, seen: set<Timestamp>): set<Timestamp>
  {
    if h.timestamp in seen then seen else seen + {h.timestamp}
  }

  /** The seen set after scanning all of `rows`. */
  function ScanSeen(rows: seq<Row>, seen: set<Timestamp>): set<Timestamp>
    decreases |rows|
  {
    if rows == [] then seen else ScanSeen(rows[1..], SeenAfter(rows[0], seen))
  }

  /** The scan has seen its initial set and every timestamp it passed. */
  lemma {:induction false} ScanSeenIsUnion(rows: seq<Row>, seen: set<Timestamp>)
    ensures ScanSeen(rows, seen) == seen + Timestamps(rows)
    decreases |rows|
  {
    if rows == [] {
      assert Timestamps(rows) == {};
    } else {
      ScanSeenIsUnion(rows[1..], SeenAfter(rows[0], seen));
      assert rows == [rows[0]] + rows[1..];
      TimestampsCons(rows[0], rows[1..]);
    }
  }

  lemma {:induction false} DedupFromConcatScan(a: seq<Row>, b: seq<Row>, seen: set<Timestamp>)
    ensures DedupFrom(a + b, seen) == DedupFrom(a, seen) + DedupFrom(b, ScanSeen(a, seen))
    decreases |a|
  {
    if a == [] {
      assert a + b == b;
    } else {
      var h, tail := a[0], a[1..];
      assert (a + b)[0] == h && (a + b)[1..] == tail + b;
      var seen' := SeenAfter(h, seen);
      DedupFromConcatScan(tail, b, seen');
      var keep := if h.timestamp in seen then [] else [h];
      var front := DedupFrom(tail, seen');
      var back := DedupFrom(b, ScanSeen(tail, seen'));
      assert DedupFrom(a, seen) == keep + front;
      assert DedupFrom(a + b, seen) == keep + (front + back);
      assert keep + (front + back) == (keep + front) + back;
    }
  }

  /** Scanning a concatenation: the second part is scanned with the first part's
      timestamps already seen. */
  lemma DedupFromConcat(a: seq<Row>, b: seq<Row>, seen: set<Timestamp>)
    ensures DedupFrom(a + b, seen) == DedupFrom(a, seen) + DedupFrom(b, seen + Timestamps(a))
  {
    DedupFromConcatScan(a, b, seen);
    ScanSeenIsUnion(a, seen);
  }

  /** The scan leaves a duplicate-free sequence of unseen timestamps as it is. */
  lemma {:induction false} DedupFromUnchanged(rows: seq<Row>, seen: set<Timestamp>)
    requires UniqueTimestamps(rows)
    requires Timestamps(rows) !! seen
    ensures DedupFrom(rows, seen) == rows
    decreases |rows|
  {
    if rows != [] {
      var t := rows[0].timestamp;
      var tail := rows[1..];
      assert rows == [rows[0]] + tail;
      TimestampsCons(rows[0], tail);
      assert t !in seen by {
        assert rows[0] in rows;
        assert t in Timestamps(rows);
      }
      assert t !in Timestamps(tail) by {
        forall r | r in tail ensures r.timestamp != t {
          var j :| 0 <= j < |tail| && tail[j] == r;
          assert rows[j + 1] == r;
        }
      }
      assert UniqueTimestamps(tail) by {
        forall i, j | 0 <= i < j < |tail| ensures tail[i].timestamp != tail[j].timestamp {
          assert tail[i] == rows[i + 1] && tail[j] == rows[j + 1];
        }
      }
      DedupFromUnchanged(tail, seen + {t});
    }
  }

  /** Dropping duplicates of a table that has none changes nothing. */
  lemma DropDuplicatesUnchanged(rows: seq<Row>)
    requires UniqueTimestamps(rows)
    ensures DropDuplicates(rows) == rows
  {
    DedupFromUnchanged(rows, {});
  }

  /** Deduplicating on every append gives the same table as deduplicating once at the end. */
  lemma DropDuplicatesAbsorbs(a: seq<Row>, b: seq<Row>)
    ensures DropDuplicates(DropDuplicates(a) + b) == DropDuplicates(a + b)
  {
    var d := DropDuplicates(a);
    DedupFromKeepsFirst(a, {});
    DedupFromConcat(d, b, {});
    DedupFromConcat(a, b, {});
    DedupFromUnchanged(d, {});
    assert {} + Timestamps(d) == {} + Timestamps(a);
  }

  /** Appending one row to a duplicate-free table and dropping duplicates: the table is
      unchanged when the row's second is already present, and grows by that row at the
      end otherwise. No existing row is ever modified or removed. */
  lemma AppendRow(rows: seq<Row>, r: Row)
    requires UniqueTimestamps(rows)
    ensures DropDuplicates(rows + [r]) == if r.timestamp in Timestamps(rows) then rows else rows + [r]
    ensures UniqueTimestamps(DropDuplicates(rows + [r]))
  {
    DedupFromConcat(rows, [r], {});
    DedupFromUnchanged(rows, {});
    assert {} + Timestamps(rows) == Timestamps(rows);
    assert [r][1..] == [];
    DedupFromKeepsFirst(rows + [r], {});
  }

  /** The table after one loop iteration that staged the candidate row `u`. */
  function AfterUpdate(rows: seq<Row>, u: Row): seq<Row>
  {
    if NonZero(u) then DropDuplicates(rows + [u]) else rows
  }

  /** The table after a sequence of loop iterations, one candidate row per frame. */
  function Replay(rows: seq<Row>, updates: seq<Row>): seq<Row>
    decreases |updates|
  {
    if updates == [] then rows
    else Replay(AfterUpdate(rows, updates[0]), updates[1..])
  }

  /** Replaying one more frame. */
  lemma {:induction false} ReplaySnoc(rows: seq<Row>, updates: seq<Row>, u: Row)
    ensures Replay(rows, updates + [u]) == AfterUpdate(Replay(rows, updates), u)
    decreases |updates|
  {
    if updates == [] {
      assert updates + [u] == [u];
      assert [u][1..] == [];
    } else {
      var longer := updates + [u];
      assert longer[0] == updates[0];
      assert longer[1..] == updates[1..] + [u];
      ReplaySnoc(AfterUpdate(rows, updates[0]), updates[1..], u);
    }
  }

  /** The candidate rows that were staged, in frame order. */
  function Staged(updates: seq<Row>): seq<Row>
    decreases |updates|
  {
    if updates == [] then []
    else (if NonZero(updates[0]) then [updates[0]] else []) + Staged(updates[1..])
  }

  /** One update followed by dropping duplicates over more rows is the same as
      dropping duplicates once over the staged row and those rows. */
  lemma AfterUpdateAbsorbs(rows: seq<Row>, u: Row, more: seq<Row>)
    ensures DropDuplicates(AfterUpdate(rows, u) + more)
            == DropDuplicates(rows + ((if NonZero(u) then [u] else []) + more))
  {
    if NonZero(u) {
      DropDuplicatesAbsorbs(rows + [u], more);
      assert rows + [u] + more == rows + ([u] + more);
    } else {
      assert [] + more == more;
    }
  }

  /** Replaying frames one by one is the same as keeping the first staged row of every
      second, after the rows already in the table. */
  lemma {:induction false} ReplayIsDropDuplicates(rows: seq<Row>, updates: seq<Row>)
    requires UniqueTimestamps(rows)
    ensures Replay(rows, updates) == DropDuplicates(rows + Staged(updates))
    decreases |updates|
  {
    if updates == [] {
      assert rows + [] == rows;
      DropDuplicatesUnchanged(rows);
    } else {
      var u, rest := updates[0], updates[1..];
      var after := AfterUpdate(rows, u);
      assert UniqueTimestamps(after) by {
        AppendRow(rows, u);
      }
      ReplayIsDropDuplicates(after, rest);
      AfterUpdateAbsorbs(rows, u, Staged(rest));
    }
  }

  /** Over a whole run starting from the empty table: timestamps stay unique, a second
      has a row exactly when some frame of it counted something, and that row is the
      first such frame's counts. */
  lemma FirstNonZeroFrameWins(updates: seq<Row>)
    ensures UniqueTimestamps(Replay([], updates))
    ensures Timestamps(Replay([], updates)) == Timestamps(Staged(updates))
    ensures forall r :: r in Replay([], updates) ==>
              r.timestamp in Timestamps(Staged(updates)) && r == FirstWith(Staged(updates), r.timestamp)
  {
    ReplayIsDropDuplicates([], updates);
    assert [] + Staged(updates) == Staged(updates);
    DedupFromKeepsFirst(Staged(updates), {});
  }

  /** Counts are per frame and not summed over the second: a frame of a second that
      already has a row leaves the table as it was. */
  lemma SecondWithRowIgnored(rows: seq<Row>, v: Row)
    requires UniqueTimestamps(rows)
    requires v.timestamp in Timestamps(rows)
    ensures AfterUpdate(rows, v) == rows
  {
    if NonZero(v) {
      AppendRow(rows, v);
    }
  }

  /** The frame directly after a non-zero frame of the same second changes nothing. */
  lemma LaterFrameOfSameSecondIgnored(rows: seq<Row>, u: Row, v: Row)
    requires UniqueTimestamps(rows)
    requires NonZero(u)
    requires v.timestamp == u.timestamp
    ensures AfterUpdate(AfterUpdate(rows, u), v) == AfterUpdate(rows, u)
  {
    AppendRow(rows, u);
    var after := AfterUpdate(rows, u);
    assert u.timestamp in Timestamps(after) by {
      if u.timestamp !in Timestamps(rows) {
        assert u in after;
      }
    }
    if NonZero(v) {
      AppendRow(after, v);
    }
  }

  /** The table and the staging dictionary `latest_data`. */
  class Log {
    var rows: seq<Row>
    var latest: map<Timestamp, Row>

    /** The table has no duplicate second and nothing is left staged between iterations. */
    ghost predicate Valid()
      reads this
    {
      UniqueTimestamps(rows) && latest == map[]
    }

    /** The empty table written at start-up and an empty staging dictionary. */
    constructor ()
      ensures Valid()
      ensures rows == []
    {
      rows := [];
      latest := map[];
    }

    /** One iteration's log update for the second `timestamp` with the frame's counts. */
    method Update(timestamp: Timestamp, diet: nat, original: nat)
      requires Valid()
      modifies this
      ensures Valid()
      ensures rows == AfterUpdate(old(rows), Row(timestamp, diet, original))
      ensures diet == 0 && original == 0 ==> rows == old(rows)
      ensures timestamp in Timestamps(old(rows)) ==> rows == old(rows)
      ensures (diet > 0 || original > 0) && timestamp !in Timestamps(old(rows)) ==>
                rows == old(rows) + [Row(timestamp, diet, original)]
    {
      if diet > 0 || original > 0 {
        latest := latest[timestamp := Row(timestamp, diet, original)];
      }
      if timestamp in latest {
        AppendRow(rows, latest[timestamp]);
        rows := DropDuplicates(rows + [latest[timestamp]]);
        latest := latest - {timestamp};
      }
    }
  }
}
