/** The day grouping of `cluster_positions`: positions are grouped by the
    first ten characters of their `deviceTime`, and only days with at least
    three positions are clustered. The clustering of one day (DBSCAN, alpha
    shapes) is a parameter. */
module DayGroups {
  import opened Seqs

  /** A fetched position: its coordinates (opaque) and its `deviceTime` text. */
  datatype Fix<L> = Fix(coord: L, deviceTime: string)

  /** DBSCAN's `min_samples`, also the smallest day that is clustered. */
  const MinPoints: nat := 3

  /** `deviceTime[:10]`: a Python slice, so shorter texts are kept whole. */
  function DayKey(t: string): (k: string)
    ensures |k| <= 10
    ensures |t| >= 10 ==> k == t[..10]
    ensures |t| < 10 ==> k == t
  {
    if |t| <= 10 then t else t[..10]
  }

  function OnDay<L>(k: string): Fix<L> -> bool {
    (x: Fix<L>) => DayKey(x.deviceTime) == k
  }

  /** The positions of one day, in input order. */
  function Group<L>(ps: seq<Fix<L>>, k: string): seq<Fix<L>> {
    Filter(ps, OnDay(k))
  }

  function Days<L>(ps: seq<Fix<L>>): set<string> {
    set i | 0 <= i < |ps| :: DayKey(ps[i].deviceTime)
  }

  /** The clustered days, each with what its clustering produced. */
  function ClusterByDay<L, R>(ps: seq<Fix<L>>, cluster: seq<Fix<L>> -> R): map<string, R> {
    map k | k in Days(ps) && |Group(ps, k)| >= MinPoints :: cluster(Group(ps, k))
  }

  /** A day is clustered exactly when it has at least three positions, and
      it is clustered on exactly its own positions. */
  lemma ClusteredDays<L, R>(ps: seq<Fix<L>>, cluster: seq<Fix<L>> -> R, k: string)
    ensures k in ClusterByDay(ps, cluster) <==> Count(ps, OnDay(k)) >= MinPoints
    ensures k in ClusterByDay(ps, cluster) ==> ClusterByDay(ps, cluster)[k] == cluster(Group(ps, k))
  {
    FilterCount(ps, OnDay(k));
    if Count(ps, OnDay(k)) >= MinPoints {
      var x := Group(ps, k)[0];
      FilterMember(ps, OnDay(k), x);
      var i :| 0 <= i < |ps| && ps[i] == x;
      assert DayKey(ps[i].deviceTime) == k;
    }
  }

  /** Every position lands in the group of its own day, and a group holds
      only positions of that day: the groups partition the input. */
  lemma GroupsPartition<L>(ps: seq<Fix<L>>, x: Fix<L>, k: string)
    ensures x in Group(ps, k) <==> x in ps && DayKey(x.deviceTime) == k
  {
    FilterMember(ps, OnDay(k), x);
  }

  /** Positions of other days change nothing about a day's group, so its
      clustering depends on its own positions only. */
  lemma GroupLocal<L>(ps: seq<Fix<L>>, qs: seq<Fix<L>>, k: string)
    requires forall j :: 0 <= j < |qs| ==> DayKey(qs[j].deviceTime) != k
    ensures Group(ps + qs, k) == Group(ps, k)
    ensures Group(qs + ps, k) == Group(ps, k)
  {
    FilterAppend(ps, qs, OnDay(k));
    FilterAppend(qs, ps, OnDay(k));
    FilterNone(qs, OnDay(k));
  }
}
