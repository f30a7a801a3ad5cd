/** `aggregate_overlapping_zones` with regions as finite sets of points:
    `difference`, `intersection` and `is_empty` become `-`, `*` and `== {}`.
    Each daily zone is cut against the pieces built so far, so that the
    result partitions the covered area and every piece lists the dates of
    all the zones that cover it. */
module Regions {
  import opened Wrappers

  datatype Zone<P> = Zone(geom: set<P>, dates: seq<string>, ids: Option<seq<int>>)

  /** `zone.get('ids')` used as a condition: present and non-empty. */
  predicate Truthy(ids: Option<seq<int>>) {
    ids.Some? && |ids.value| > 0
  }

  /** The ids of an intersection piece: the existing ids, then the added ones;
      absent when neither side has any. */
  function MergeIds(existing: Option<seq<int>>, added: Option<seq<int>>): Option<seq<int>> {
    if existing.Some? || Truthy(added) then
      Some((if existing.Some? then existing.value else []) + (if Truthy(added) then added.value else []))
    else None
  }

  /** The ids of the uncovered rest of an added zone. */
  function RestIds(added: Option<seq<int>>): Option<seq<int>> {
    if Truthy(added) then added else None
  }

  /** The pieces an existing piece `ex` is split into by a zone covering g:
      the part outside g keeps its dates, the part inside gains the zone's
      dates and ids; empty parts are dropped. */
  function Head<P>(ex: Zone<P>, g: set<P>, z: Zone<P>): seq<Zone<P>> {
    var diff, inter := ex.geom - g, ex.geom * g;
    (if diff != {} then [Zone(diff, ex.dates, ex.ids)] else [])
    + (if inter != {} then [Zone(inter, ex.dates + z.dates, MergeIds(ex.ids, z.ids))] else [])
  }

  /** The inner loop over the existing pieces: each one is split into the
      part outside the zone still to be placed and the part inside it, and
      the zone loses what the piece covered. Returns the new pieces and what
      is left of the zone. */
  function Cut<P>(fs: seq<Zone<P>>, g: set<P>, z: Zone<P>): (seq<Zone<P>>, set<P>)
    decreases |fs|
  {
    if |fs| == 0 then ([], g)
    else
      var rest := Cut(fs[1..], g - fs[0].geom, z);
      (Head(fs[0], g, z) + rest.0, rest.1)
  }

  /** What no existing piece covered becomes a piece of its own. */
  function Rest<P>(c: (seq<Zone<P>>, set<P>), z: Zone<P>): seq<Zone<P>> {
    if c.1 != {} then [Zone(c.1, z.dates, RestIds(z.ids))] else []
  }

  /** One pass of the outer loop: cut, then keep what no piece covered. */
  function AddZone<P>(fs: seq<Zone<P>>, z: Zone<P>): seq<Zone<P>> {
    var c := Cut(fs, z.geom, z);
    c.0 + Rest(c, z)
  }

  /** The pieces after the first |zs| zones; the first zone is taken as is. */
  function Aggregate<P>(zs: seq<Zone<P>>): (r: seq<Zone<P>>)
    ensures |zs| == 0 ==> r == []
  {
    if |zs| == 0 then []
    else if |zs| == 1 then [zs[0]]
    else AddZone(Aggregate(zs[..|zs| - 1]), zs[|zs| - 1])
  }

  // ---------------------------------------------------------------------------
  // Reference notions

  function Union<P>(fs: seq<Zone<P>>): set<P> {
    if |fs| == 0 then {} else fs[0].geom + Union(fs[1..])
  }

  /** Each piece shares no point with the pieces after it. */
  predicate Disjoint<P>(fs: seq<Zone<P>>) {
    |fs| == 0 || (fs[0].geom * Union(fs[1..]) == {} && Disjoint(fs[1..]))
  }

  predicate NonEmpty<P>(fs: seq<Zone<P>>) {
    forall i :: 0 <= i < |fs| ==> fs[i].geom != {}
  }

  /** The dates of the first piece containing p. */
  function DatesAt<P>(fs: seq<Zone<P>>, p: P): seq<string> {
    if |fs| == 0 then [] else if p in fs[0].geom then fs[0].dates else DatesAt(fs[1..], p)
  }

  /** The dates of every input zone covering p, in input order. */
  function CoverDates<P>(zs: seq<Zone<P>>, p: P): seq<string> {
    if |zs| == 0 then []
    else CoverDates(zs[..|zs| - 1], p) + (if p in zs[|zs| - 1].geom then zs[|zs| - 1].dates else [])
  }

  // ---------------------------------------------------------------------------
  // Lemmas on the reference notions

  lemma {:induction false} UnionAppend<P>(a: seq<Zone<P>>, b: seq<Zone<P>>)
    ensures Union(a + b) == Union(a) + Union(b)
  {
    if |a| > 0 {
      assert (a + b)[1..] == a[1..] + b;
      UnionAppend(a[1..], b);
    } else {
      assert a + b == b;
    }
  }

  lemma {:induction false} UnionMember<P>(fs: seq<Zone<P>>, i: int, p: P)
    requires 0 <= i < |fs| && p in fs[i].geom
    ensures p in Union(fs)
  {
    if i > 0 {
      UnionMember(fs[1..], i - 1, p);
    }
  }

  lemma {:induction false} UnionHas<P>(fs: seq<Zone<P>>, p: P)
    requires p in Union(fs)
    ensures exists i :: 0 <= i < |fs| && p in fs[i].geom
  {
    if p !in fs[0].geom {
      UnionHas(fs[1..], p);
      var i :| 0 <= i < |fs[1..]| && p in fs[1..][i].geom;
      assert p in fs[i + 1].geom;
    }
  }

  lemma {:induction false} DisjointAppend<P>(a: seq<Zone<P>>, b: seq<Zone<P>>)
    requires Disjoint(a) && Disjoint(b) && Union(a) * Union(b) == {}
    ensures Disjoint(a + b)
  {
    if |a| > 0 {
      assert (a + b)[1..] == a[1..] + b;
      UnionAppend(a[1..], b);
      DisjointAppend(a[1..], b);
    } else {
      assert a + b == b;
    }
  }

  lemma {:induction false} DatesAtAppend<P>(a: seq<Zone<P>>, b: seq<Zone<P>>, p: P)
    ensures DatesAt(a + b, p) == if p in Union(a) then DatesAt(a, p) else DatesAt(b, p)
  {
    if |a| > 0 {
      assert (a + b)[1..] == a[1..] + b;
      DatesAtAppend(a[1..], b, p);
    } else {
      assert a + b == b;
    }
  }

  lemma NotInHead<P>(fs: seq<Zone<P>>, p: P)
    requires Disjoint(fs) && |fs| > 0 && p in Union(fs[1..])
    ensures p !in fs[0].geom
  {
    assert p !in fs[0].geom * Union(fs[1..]);
  }

  /** In disjoint pieces, the piece holding p is the one `DatesAt` finds. */
  lemma {:induction false} DatesAtPiece<P>(fs: seq<Zone<P>>, i: int, p: P)
    requires Disjoint(fs) && 0 <= i < |fs| && p in fs[i].geom
    ensures DatesAt(fs, p) == fs[i].dates
  {
    if i > 0 {
      assert fs[1..][i - 1] == fs[i];
      UnionMember(fs[1..], i - 1, p);
      NotInHead(fs, p);
      DatesAtPiece(fs[1..], i - 1, p);
    }
  }

  lemma {:induction false} DisjointPairwise<P>(fs: seq<Zone<P>>, i: int, j: int)
    requires Disjoint(fs) && 0 <= i < j < |fs|
    ensures fs[i].geom * fs[j].geom == {}
  {
    if i > 0 {
      DisjointPairwise(fs[1..], i - 1, j - 1);
    } else {
      forall p | p in fs[j].geom ensures p !in fs[0].geom {
        assert fs[1..][j - 1] == fs[j];
        UnionMember(fs[1..], j - 1, p);
        NotInHead(fs, p);
      }
    }
  }

  lemma {:induction false} CoverDatesOutside<P>(zs: seq<Zone<P>>, p: P)
    requires p !in Union(zs)
    ensures CoverDates(zs, p) == []
  {
    if |zs| > 0 {
      var k := |zs| - 1;
      assert zs == zs[..k] + [zs[k]];
      UnionAppend(zs[..k], [zs[k]]);
      CoverDatesOutside(zs[..k], p);
    }
  }

  // ---------------------------------------------------------------------------
  // The cut

  /** What the inner loop does, given disjoint pieces: the pieces still cover
      exactly the same points and stay disjoint and non-empty; what is left
      of the zone is what no piece covered; a point keeps its dates outside
      the zone and gains the zone's dates inside it. */
  lemma CutSpec<P>(fs: seq<Zone<P>>, g: set<P>, z: Zone<P>)
    requires Disjoint(fs)
    ensures var c := Cut(fs, g, z);
      && c.1 == g - Union(fs)
      && Union(c.0) == Union(fs)
      && Disjoint(c.0)
      && NonEmpty(c.0)
      && forall p :: p in Union(c.0) ==>
           DatesAt(c.0, p) == if p in g then DatesAt(fs, p) + z.dates else DatesAt(fs, p)
  {
    CutShape(fs, g, z);
    CutDates(fs, g, z);
  }

  lemma {:induction false} CutShape<P>(fs: seq<Zone<P>>, g: set<P>, z: Zone<P>)
    requires Disjoint(fs)
    ensures var c := Cut(fs, g, z);
      && c.1 == g - Union(fs)
      && Union(c.0) == Union(fs)
      && Disjoint(c.0)
      && NonEmpty(c.0)
  {
    if |fs| > 0 {
      var head, rest := Head(fs[0], g, z), Cut(fs[1..], g - fs[0].geom, z);
      CutShape(fs[1..], g - fs[0].geom, z);
      HeadSpec(fs[0], g, z);
      UnionAppend(head, rest.0);
      DisjointAppend(head, rest.0);
    }
  }

  lemma {:induction false} CutDates<P>(fs: seq<Zone<P>>, g: set<P>, z: Zone<P>)
    requires Disjoint(fs)
    ensures var c := Cut(fs, g, z);
      forall p :: p in Union(c.0) ==>
        DatesAt(c.0, p) == if p in g then DatesAt(fs, p) + z.dates else DatesAt(fs, p)
  {
    if |fs| > 0 {
      var head, rest := Head(fs[0], g, z), Cut(fs[1..], g - fs[0].geom, z);
      CutShape(fs[1..], g - fs[0].geom, z);
      CutDates(fs[1..], g - fs[0].geom, z);
      HeadSpec(fs[0], g, z);
      UnionAppend(head, rest.0);
      forall p | p in Union(head + rest.0)
        ensures DatesAt(head + rest.0, p)
             == if p in g then DatesAt(fs, p) + z.dates else DatesAt(fs, p)
      {
        DatesAtAppend(head, rest.0, p);
      }
    }
  }

  /** The one or two pieces an existing piece is split into. */
  lemma HeadSpec<P>(ex: Zone<P>, g: set<P>, z: Zone<P>)
    ensures var head := Head(ex, g, z);
      && Union(head) == ex.geom && Disjoint(head) && NonEmpty(head)
      && forall p :: p in ex.geom ==>
           DatesAt(head, p) == if p in g then ex.dates + z.dates else ex.dates
  {
    var diff, inter := ex.geom - g, ex.geom * g;
    var a: seq<Zone<P>> := if diff != {} then [Zone(diff, ex.dates, ex.ids)] else [];
    var b: seq<Zone<P>> := if inter != {} then [Zone(inter, ex.dates + z.dates, MergeIds(ex.ids, z.ids))] else [];
    assert Union(a) == diff && Union(b) == inter by {
      if diff != {} { assert Union(a) == diff + Union(a[1..]); }
      if inter != {} { assert Union(b) == inter + Union(b[1..]); }
    }
    UnionAppend(a, b);
    DisjointAppend(a, b);
    forall p | p in ex.geom
      ensures DatesAt(a + b, p) == if p in g then ex.dates + z.dates else ex.dates
    {
      DatesAtAppend(a, b, p);
    }
  }

  // ---------------------------------------------------------------------------
  // The whole aggregation

  /** The pieces built from zs: disjoint, covering the union of zs, and each
      point carrying the dates of the zones covering it. */
  predicate Good<P>(fs: seq<Zone<P>>, zs: seq<Zone<P>>) {
    && Disjoint(fs)
    && Union(fs) == Union(zs)
    && forall p :: p in Union(fs) ==> DatesAt(fs, p) == CoverDates(zs, p)
  }

  lemma RestSpec<P>(c: (seq<Zone<P>>, set<P>), z: Zone<P>)
    ensures Union(Rest(c, z)) == c.1 && Disjoint(Rest(c, z)) && NonEmpty(Rest(c, z))
    ensures forall p :: p in c.1 ==> DatesAt(Rest(c, z), p) == z.dates
  {
    if c.1 != {} {
      assert Union(Rest(c, z)) == c.1 + Union(Rest(c, z)[1..]);
    }
  }

  lemma CoverDatesLast<P>(zs: seq<Zone<P>>, z: Zone<P>, p: P)
    ensures CoverDates(zs + [z], p) == CoverDates(zs, p) + (if p in z.geom then z.dates else [])
  {
    assert (zs + [z])[..|zs|] == zs;
  }

  lemma AddZoneGood<P>(fs: seq<Zone<P>>, zs: seq<Zone<P>>, z: Zone<P>)
    requires Good(fs, zs)
    ensures Good(AddZone(fs, z), zs + [z])
    ensures NonEmpty(AddZone(fs, z))
  {
    AddZoneShape(fs, z);
    AddZoneUnion(fs, zs, z);
    AddZoneDates(fs, zs, z);
  }

  lemma AddZoneShape<P>(fs: seq<Zone<P>>, z: Zone<P>)
    requires Disjoint(fs)
    ensures Disjoint(AddZone(fs, z)) && NonEmpty(AddZone(fs, z))
  {
    var c := Cut(fs, z.geom, z);
    CutShape(fs, z.geom, z);
    RestSpec(c, z);
    DisjointAppend(c.0, Rest(c, z));
  }

  lemma AddZoneUnion<P>(fs: seq<Zone<P>>, zs: seq<Zone<P>>, z: Zone<P>)
    requires Disjoint(fs) && Union(fs) == Union(zs)
    ensures Union(AddZone(fs, z)) == Union(zs + [z])
  {
    var c := Cut(fs, z.geom, z);
    CutShape(fs, z.geom, z);
    RestSpec(c, z);
    UnionAppend(zs, [z]);
    assert Union([z]) == z.geom + Union([z][1..]);
    UnionAppend(c.0, Rest(c, z));
  }

  lemma AddZoneDates<P>(fs: seq<Zone<P>>, zs: seq<Zone<P>>, z: Zone<P>)
    requires Good(fs, zs)
    ensures var c := Cut(fs, z.geom, z);
      forall p :: p in Union(c.0 + Rest(c, z)) ==> DatesAt(c.0 + Rest(c, z), p) == CoverDates(zs + [z], p)
  {
    var c := Cut(fs, z.geom, z);
    var tail := Rest(c, z);
    CutSpec(fs, z.geom, z);
    RestSpec(c, z);
    UnionAppend(c.0, tail);
    forall p | p in Union(c.0 + tail)
      ensures DatesAt(c.0 + tail, p) == CoverDates(zs + [z], p)
    {
      DatesAtAppend(c.0, tail, p);
      CoverDatesLast(zs, z, p);
      if p !in Union(c.0) {
        CoverDatesOutside(zs, p);
      }
    }
  }

  lemma {:induction false} AggregateGood<P>(zs: seq<Zone<P>>)
    ensures Good(Aggregate(zs), zs)
    ensures |zs| >= 2 || (|zs| == 1 && zs[0].geom != {}) ==> NonEmpty(Aggregate(zs))
  {
    if |zs| == 1 {
      assert Union(zs) == zs[0].geom + Union(zs[1..]);
      forall p | p in Union(Aggregate(zs)) ensures DatesAt(Aggregate(zs), p) == CoverDates(zs, p) {
        assert zs[..0] == [];
      }
    } else if |zs| >= 2 {
      var k := |zs| - 1;
      AggregateGood(zs[..k]);
      assert zs == zs[..k] + [zs[k]];
      AddZoneGood(Aggregate(zs[..k]), zs[..k], zs[k]);
    }
  }

  /** `aggregate_overlapping_zones` returns a partition of the covered area:
      pieces pairwise disjoint, their union the union of the inputs, none
      empty (unless the input is one empty zone), and every point of a piece
      covered by exactly the input zones whose dates the piece lists. */
  lemma AggregatePartition<P>(zs: seq<Zone<P>>)
    ensures var r := Aggregate(zs);
      && Union(r) == Union(zs)
      && (forall i, j :: 0 <= i < j < |r| ==> r[i].geom * r[j].geom == {})
      && (|zs| >= 2 || (|zs| == 1 && zs[0].geom != {}) ==> forall i :: 0 <= i < |r| ==> r[i].geom != {})
      && forall i, p :: 0 <= i < |r| && p in r[i].geom ==> r[i].dates == CoverDates(zs, p)
  {
    var r := Aggregate(zs);
    AggregateGood(zs);
    forall i, j | 0 <= i < j < |r| ensures r[i].geom * r[j].geom == {} {
      DisjointPairwise(r, i, j);
    }
    forall i, p | 0 <= i < |r| && p in r[i].geom ensures r[i].dates == CoverDates(zs, p) {
      DatesAtPiece(r, i, p);
      UnionMember(r, i, p);
    }
  }

  /** Two identical zones aggregate to one piece listing both dates
      (one square's area, two passes). */
  lemma IdenticalZones<P>(a: Zone<P>, b: Zone<P>)
    requires a.geom == b.geom && a.geom != {}
    ensures Aggregate([a, b]) == [Zone(a.geom, a.dates + b.dates, MergeIds(a.ids, b.ids))]
  {
    assert [a, b][..1] == [a];
    assert [a][1..] == [];
    assert a.geom - b.geom == {} && a.geom * b.geom == a.geom && b.geom - a.geom == {};
    var none: seq<Zone<P>> := [];
    var piece := Zone(a.geom, a.dates + b.dates, MergeIds(a.ids, b.ids));
    assert Cut([a][1..], b.geom - a.geom, b) == (none, b.geom - a.geom);
    assert Cut([a], b.geom, b) == (none + [piece] + none, b.geom - a.geom);
    assert none + [piece] + none == [piece];
  }
}
