/** The storage step of `process_equipment`: fetched positions are added to
    the `Position` table unless an identical row (same equipment, latitude,
    longitude and timestamp) is already there, and the equipment's
    `last_position` moves forward only. Timestamps are the parsed
    `deviceTime`, in whole seconds. */
module Ingest {
  import opened Wrappers

  datatype Fetched<L> = Fetched(lat: L, lon: L, deviceTime: string, ts: int)

  /** The fields the duplicate query compares. */
  datatype Position<L> = Position(equipment: int, lat: L, lon: L, ts: int)

  function RowOf<L>(equipment: int, p: Fetched<L>): Position<L> {
    Position(equipment, p.lat, p.lon, p.ts)
  }

  function Rows<L>(equipment: int, batch: seq<Fetched<L>>): (r: seq<Position<L>>)
    ensures |r| == |batch| && forall j :: 0 <= j < |batch| ==> r[j] == RowOf(equipment, batch[j])
  {
    if |batch| == 0 then [] else [RowOf(equipment, batch[0])] + Rows(equipment, batch[1..])
  }

  /** The loop over the batch. The session autoflushes before each query,
      so a row added earlier in the same batch already counts as stored. */
  function Ingest<L(==)>(store: seq<Position<L>>, equipment: int, batch: seq<Fetched<L>>): (r: seq<Position<L>>)
    ensures |r| >= |store| && r[..|store|] == store
    ensures forall j :: 0 <= j < |batch| ==> RowOf(equipment, batch[j]) in r
    ensures forall i :: |store| <= i < |r| ==> r[i] in Rows(equipment, batch)
    decreases |batch|
  {
    if |batch| == 0 then store
    else
      var row := RowOf(equipment, batch[0]);
      var next := if row in store then store else store + [row];
      var r := Ingest(next, equipment, batch[1..]);
      assert forall j :: 1 <= j < |batch| ==> batch[j] == batch[1..][j - 1];
      assert Rows(equipment, batch) == [row] + Rows(equipment, batch[1..]);
      assert r[..|store|] == next[..|store|];
      r
  }

  predicate NoDuplicates<T(==)>(s: seq<T>) {
    forall i, j :: 0 <= i < j < |s| ==> s[i] != s[j]
  }

  /** A table without duplicate positions stays without them. */
  lemma {:induction false} IngestNoDuplicates<L>(store: seq<Position<L>>, equipment: int, batch: seq<Fetched<L>>)
    requires NoDuplicates(store)
    ensures NoDuplicates(Ingest(store, equipment, batch))
    decreases |batch|
  {
    if |batch| > 0 {
      var row := RowOf(equipment, batch[0]);
      var next := if row in store then store else store + [row];
      IngestNoDuplicates(next, equipment, batch[1..]);
    }
  }

  /** A batch whose positions are all stored adds nothing. */
  lemma {:induction false} IngestStored<L>(store: seq<Position<L>>, equipment: int, batch: seq<Fetched<L>>)
    requires forall j :: 0 <= j < |batch| ==> RowOf(equipment, batch[j]) in store
    ensures Ingest(store, equipment, batch) == store
    decreases |batch|
  {
    if |batch| > 0 {
      IngestStored(store, equipment, batch[1..]);
    }
  }

  /** Re-ingesting the same batch adds nothing. */
  lemma IngestIdempotent<L>(store: seq<Position<L>>, equipment: int, batch: seq<Fetched<L>>)
    ensures Ingest(Ingest(store, equipment, batch), equipment, batch) == Ingest(store, equipment, batch)
  {
    IngestStored(Ingest(store, equipment, batch), equipment, batch);
  }

  // ---------------------------------------------------------------------------
  // last_position

  /** Python's `<` on `str`: code point by code point, a proper prefix first. */
  predicate StrLess(a: string, b: string)
    decreases |a|
  {
    |b| > 0 && (|a| == 0 || a[0] < b[0] || (a[0] == b[0] && StrLess(a[1..], b[1..])))
  }

  lemma {:induction false} StrLessTrans(a: string, b: string, c: string)
    requires StrLess(a, b) && StrLess(b, c)
    ensures StrLess(a, c)
    decreases |a|
  {
    if |a| > 0 && a[0] == b[0] && b[0] == c[0] {
      StrLessTrans(a[1..], b[1..], c[1..]);
    }
  }

  lemma {:induction false} StrLessTotal(a: string, b: string)
    ensures a == b || StrLess(a, b) || StrLess(b, a)
    ensures !(StrLess(a, b) && StrLess(b, a))
    decreases |a|
  {
    if |a| > 0 && |b| > 0 && a[0] == b[0] {
      StrLessTotal(a[1..], b[1..]);
      if a[1..] == b[1..] {
        assert a == [a[0]] + a[1..] && b == [b[0]] + b[1..];
      }
    }
  }

  /** `sorted(positions, key=deviceTime)[-1]`: a position with the greatest
      `deviceTime` text, the last one among equal texts (the sort is stable). */
  function Latest<L>(ps: seq<Fetched<L>>): (r: Fetched<L>)
    requires |ps| > 0
    ensures r in ps
    ensures forall i :: 0 <= i < |ps| ==> !StrLess(r.deviceTime, ps[i].deviceTime)
  {
    if |ps| == 1 then
      StrLessTotal(ps[0].deviceTime, ps[0].deviceTime);
      ps[0]
    else
      var m := Latest(ps[..|ps| - 1]);
      var last := ps[|ps| - 1];
      assert forall i :: 0 <= i < |ps| - 1 ==> ps[i] == ps[..|ps| - 1][i];
      if StrLess(last.deviceTime, m.deviceTime) then
        StrLessTotal(last.deviceTime, m.deviceTime);
        m
      else
        forall i | 0 <= i < |ps| ensures !StrLess(last.deviceTime, ps[i].deviceTime) {
          StrLessTotal(last.deviceTime, m.deviceTime);
          StrLessTotal(m.deviceTime, ps[i].deviceTime);
          if StrLess(last.deviceTime, ps[i].deviceTime) && i < |ps| - 1 {
            if last.deviceTime != m.deviceTime {
              StrLessTrans(m.deviceTime, last.deviceTime, ps[i].deviceTime);
            }
          }
          StrLessTotal(last.deviceTime, ps[i].deviceTime);
        }
        last
  }

  /** The newest stored timestamp of the equipment, as the fallback query
      orders them; None when it has no position. */
  function NewestStored<L>(store: seq<Position<L>>, equipment: int): (r: Option<int>)
    ensures r.None? <==> forall i :: 0 <= i < |store| ==> store[i].equipment != equipment
    ensures r.Some? ==> forall i :: 0 <= i < |store| && store[i].equipment == equipment ==> store[i].ts <= r.value
    ensures r.Some? ==> exists i :: 0 <= i < |store| && store[i].equipment == equipment && store[i].ts == r.value
  {
    if |store| == 0 then None
    else
      var rest := NewestStored(store[1..], equipment);
      assert forall i :: 1 <= i < |store| ==> store[i] == store[1..][i - 1];
      if store[0].equipment != equipment then
        rest
      else if rest.Some? && rest.value > store[0].ts then
        assert exists i :: 0 <= i < |store| && store[i].equipment == equipment && store[i].ts == rest.value by {
          var i :| 0 <= i < |store[1..]| && store[1..][i].equipment == equipment && store[1..][i].ts == rest.value;
          assert store[i + 1] == store[1..][i];
        }
        rest
      else Some(store[0].ts)
  }

  /** The new `last_position`: the latest fetched time if strictly later (or
      none was set); with nothing set after that, the newest stored row. */
  function UpdateLastPosition<L>(last: Option<int>, batch: seq<Fetched<L>>, store: seq<Position<L>>, equipment: int): (r: Option<int>)
    ensures last.Some? ==> r.Some? && r.value >= last.value
    ensures |batch| > 0 ==> r.Some? && r.value >= Latest(batch).ts
    ensures r.Some? && last.Some? && r.value != last.value ==> |batch| > 0 && r.value == Latest(batch).ts
    ensures last.None? && |batch| == 0 ==> r == NewestStored(store, equipment)
  {
    var fromBatch :=
      if |batch| > 0 && (last.None? || Latest(batch).ts > last.value) then Some(Latest(batch).ts) else last;
    if fromBatch.None? then NewestStored(store, equipment) else fromBatch
  }

  /** Applying two batches in turn never moves `last_position` back. */
  lemma LastPositionMonotone<L>(last: Option<int>, b1: seq<Fetched<L>>, b2: seq<Fetched<L>>,
                                s1: seq<Position<L>>, s2: seq<Position<L>>, equipment: int)
    requires last.Some?
    ensures var l1 := UpdateLastPosition(last, b1, s1, equipment);
      var l2 := UpdateLastPosition(l1, b2, s2, equipment);
      l2.Some? && l2.value >= l1.value >= last.value
  {
  }
}
