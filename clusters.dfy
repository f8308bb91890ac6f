/**
 * The deterministic labelling that follows k-means: per-cluster means, the first argmax
 * of volume times private share among high-volume clusters for "A", the first argmin of
 * the female share for "C", everything else "B"; the per-year guard, the reference year
 * and the ten lowest female shares. The cluster assignment and the volume threshold are
 * inputs.
 */
module Clusters {
  import opened Wrappers
  import opened Sorting
  import opened Aggregate

  datatype Label = A | B | C

  /** The rows of year `y` of the municipal indicator table. */
  function YearRows(t: seq<Indicator>, y: int): (rs: seq<Indicator>)
    ensures forall r :: r in rs <==> r in t && r.key.year == y
    ensures forall j :: 0 <= j < |rs| ==> rs[j].key.year == y
    ensures |rs| <= |t|
  {
    if t == [] then []
    else
      var init := t[..|t| - 1];
      var r := t[|t| - 1];
      assert forall x :: x in t <==> x in init || x == r;
      YearRows(init, y) + (if r.key.year == y then [r] else [])
  }

  /** The years of the table, ascending and each once: `sorted(df_ind['ANO'].unique())`. */
  function Years(t: seq<Indicator>): (ys: seq<int>)
    ensures StrictlySorted(ys)
    ensures forall y :: y in ys <==> exists r :: r in t && r.key.year == y
  {
    var all := seq(|t|, i requires 0 <= i < |t| => t[i].key.year);
    assert forall y :: y in all <==> exists r :: r in t && r.key.year == y by {
      forall y ensures y in all <==> exists r :: r in t && r.key.year == y {
        if exists r :: r in t && r.key.year == y {
          var r :| r in t && r.key.year == y;
          var i :| 0 <= i < |t| && t[i] == r;
          assert all[i] == y;
        }
      }
    }
    SortedDistinct(all)
  }

  /** `ano_ref = df_ind['ANO'].max()`: a year of the table that no other row exceeds. */
  function ReferenceYear(t: seq<Indicator>): (y: int)
    requires |t| > 0
    ensures exists i :: 0 <= i < |t| && t[i].key.year == y
    ensures forall i :: 0 <= i < |t| ==> t[i].key.year <= y
  {
    if |t| == 1 then t[0].key.year
    else
      var m := ReferenceYear(t[..|t| - 1]);
      var last := t[|t| - 1].key.year;
      assert forall i :: 0 <= i < |t| - 1 ==> t[..|t| - 1][i] == t[i];
      if last > m then last else m
  }

  /** The reference year is the last year the per-year loop visits. */
  lemma ReferenceYearIsLast(t: seq<Indicator>)
    requires |t| > 0
    ensures |Years(t)| > 0 && Years(t)[|Years(t)| - 1] == ReferenceYear(t)
  {
    var ys := Years(t);
    var y := ReferenceYear(t);
    assert t[0] in t;
    assert t[0].key.year in ys;
    var i :| 0 <= i < |t| && t[i].key.year == y;
    assert t[i] in t;
    assert y in ys;
    var last := ys[|ys| - 1];
    assert last in ys;
    var r :| r in t && r.key.year == last;
    var j :| 0 <= j < |t| && t[j] == r;
    assert last <= y;
  }

  /** The rows k-means put in cluster `id`, in table order. */
  function Members(rs: seq<Indicator>, assign: seq<int>, id: int): (ms: seq<Indicator>)
    requires |assign| == |rs|
    ensures |ms| <= |rs|
    ensures |ms| > 0 <==> id in assign
    ensures forall r :: r in ms ==> r in rs
  {
    if rs == [] then []
    else
      var n := |rs| - 1;
      var ms := Members(rs[..n], assign[..n], id);
      assert forall x :: x in assign <==> x in assign[..n] || x == assign[n];
      ms + (if assign[n] == id then [rs[n]] else [])
  }

  /** The members of cluster `id` are exactly the rows assigned `id`: there are as many as
      `assign` holds `id`, each such row is a member, and each member is one of them. */
  lemma {:induction false} MembersExact(rs: seq<Indicator>, assign: seq<int>, id: int)
    requires |assign| == |rs|
    ensures |Members(rs, assign, id)| == multiset(assign)[id]
    ensures forall j :: 0 <= j < |rs| && assign[j] == id ==> rs[j] in Members(rs, assign, id)
    ensures forall r :: r in Members(rs, assign, id) ==> exists j :: 0 <= j < |rs| && assign[j] == id && rs[j] == r
  {
    if rs != [] {
      var n := |rs| - 1;
      MembersExact(rs[..n], assign[..n], id);
      var ms := Members(rs[..n], assign[..n], id);
      var last := if assign[n] == id then [rs[n]] else [];
      assert Members(rs, assign, id) == ms + last;
      assert assign == assign[..n] + [assign[n]];
      forall j | 0 <= j < |rs| && assign[j] == id ensures rs[j] in ms + last {
        if j < n {
          assert rs[..n][j] == rs[j] && assign[..n][j] == assign[j];
        }
      }
      forall r | r in ms + last ensures exists j :: 0 <= j < |rs| && assign[j] == id && rs[j] == r {
        if r in ms {
          var j :| 0 <= j < n && assign[..n][j] == id && rs[..n][j] == r;
          assert assign[j] == id && rs[j] == r;
        } else {
          assert assign[n] == id && rs[n] == r;
        }
      }
    }
  }

  function SomeSum(xs: seq<Option<real>>): real
  {
    if xs == [] then 0.0
    else SomeSum(xs[..|xs| - 1]) + xs[|xs| - 1].GetOr(0.0)
  }

  function SomeCount(xs: seq<Option<real>>): (n: nat)
    ensures n <= |xs|
    ensures n == 0 <==> forall i :: 0 <= i < |xs| ==> xs[i].None?
  {
    if xs == [] then 0
    else
      var init := xs[..|xs| - 1];
      assert forall i :: 0 <= i < |init| ==> init[i] == xs[i];
      SomeCount(init) + (if xs[|xs| - 1].Some? then 1 else 0)
  }

  /** pandas' `mean`, which skips NaN and is NaN when every value is. */
  function SkipNaMean(xs: seq<Option<real>>): (m: Option<real>)
    ensures m.None? <==> forall i :: 0 <= i < |xs| ==> xs[i].None?
    ensures m.Some? ==> m.value * (SomeCount(xs) as real) == SomeSum(xs)
  {
    if SomeCount(xs) == 0 then None else Some(SomeSum(xs) / SomeCount(xs) as real)
  }

  function VolumeSum(ms: seq<Indicator>): int
  {
    if ms == [] then 0 else VolumeSum(ms[..|ms| - 1]) + ms[|ms| - 1].volume
  }

  /** The mean of `n` values adding up to `total`. */
  function Mean(total: int, n: nat): (m: real)
    requires n > 0
    ensures m * (n as real) == total as real
  {
    total as real / n as real
  }

  function FemShares(ms: seq<Indicator>): (r: seq<Option<real>>)
    ensures |r| == |ms| && forall i :: 0 <= i < |ms| ==> r[i] == ms[i].pctFem
  {
    if ms == [] then [] else FemShares(ms[..|ms| - 1]) + [ms[|ms| - 1].pctFem]
  }

  function PrivateShares(ms: seq<Indicator>): (r: seq<Option<real>>)
    ensures |r| == |ms| && forall i :: 0 <= i < |ms| ==> r[i] == ms[i].pctPrivada
  {
    if ms == [] then [] else PrivateShares(ms[..|ms| - 1]) + [ms[|ms| - 1].pctPrivada]
  }

  /** One row of `means`: a cluster's mean PCT_FEM_STEM, VOLUME_STEM and PCT_PRIVADA. */
  datatype Means = Means(id: int, fem: Option<real>, volume: real, priv: Option<real>)

  /** A cluster's means: the volume is the plain mean, and each share is the NaN-skipping
      mean of its members' shares. */
  function ClusterMeans(ms: seq<Indicator>, id: int): (m: Means)
    requires |ms| > 0
    ensures m.id == id
    ensures m.volume * (|ms| as real) == VolumeSum(ms) as real
    ensures m.fem.None? <==> forall i :: 0 <= i < |ms| ==> ms[i].pctFem.None?
    ensures m.priv.None? <==> forall i :: 0 <= i < |ms| ==> ms[i].pctPrivada.None?
  {
    Means(id, SkipNaMean(FemShares(ms)), Mean(VolumeSum(ms), |ms|), SkipNaMean(PrivateShares(ms)))
  }

  /** A cluster's mean female and private shares are the NaN-skipping means of its members'
      shares, in the sense of `SkipNaMean`. */
  lemma MeanShares(ms: seq<Indicator>, id: int)
    requires |ms| > 0
    ensures ClusterMeans(ms, id).fem == SkipNaMean(FemShares(ms))
    ensures ClusterMeans(ms, id).priv == SkipNaMean(PrivateShares(ms))
  {
  }

  /** `groupby('CLUSTER').mean()`: one row per cluster that occurs, by ascending id; what
      each row averages is stated by `MeansOfCluster`. */
  function MeansTable(rs: seq<Indicator>, assign: seq<int>): (m: seq<Means>)
    requires |assign| == |rs|
    ensures |m| == |SortedDistinct(assign)|
    ensures forall i :: 0 <= i < |m| ==> m[i].id == SortedDistinct(assign)[i]
    ensures forall i, j :: 0 <= i < j < |m| ==> m[i].id < m[j].id
    ensures forall id :: id in assign <==> exists i :: 0 <= i < |m| && m[i].id == id
  {
    var ids := SortedDistinct(assign);
    var m := seq(|ids|, i requires 0 <= i < |ids| => ClusterMeans(Members(rs, assign, ids[i]), ids[i]));
    assert forall id :: id in assign <==> exists i :: 0 <= i < |m| && m[i].id == id by {
      forall id ensures id in assign <==> exists i :: 0 <= i < |m| && m[i].id == id {
        if id in assign {
          var i :| 0 <= i < |ids| && ids[i] == id;
          assert m[i].id == id;
        }
      }
    }
    m
  }

  /** Row `i` of `means` averages exactly the rows assigned its cluster: its volume is their
      total volume over their number, its shares are the NaN-skipping means of their shares,
      and every such row is among them. */
  lemma MeansOfCluster(rs: seq<Indicator>, assign: seq<int>, i: nat)
    requires |assign| == |rs| && i < |SortedDistinct(assign)|
    ensures var m := MeansTable(rs, assign)[i];
      && m.id in assign
      && multiset(assign)[m.id] > 0
      && m.volume == VolumeSum(Members(rs, assign, m.id)) as real / multiset(assign)[m.id] as real
      && m.fem == SkipNaMean(FemShares(Members(rs, assign, m.id)))
      && m.priv == SkipNaMean(PrivateShares(Members(rs, assign, m.id)))
      && (forall j :: 0 <= j < |rs| && assign[j] == m.id ==> rs[j] in Members(rs, assign, m.id))
      && (forall r :: r in Members(rs, assign, m.id) ==> exists j :: 0 <= j < |rs| && assign[j] == m.id && rs[j] == r)
  {
    var id := SortedDistinct(assign)[i];
    assert MeansTable(rs, assign)[i] == ClusterMeans(Members(rs, assign, id), id);
    MembersExact(rs, assign, id);
    MeanShares(Members(rs, assign, id), id);
  }

  /** `score_a = VOLUME_STEM * PCT_PRIVADA.fillna(0)`. */
  function Score(m: Means): real
  {
    m.volume * m.priv.GetOr(0.0)
  }

  predicate Eligible(m: Means, thr: real)
  {
    m.volume >= thr
  }

  predicate Candidate(m: Means, thr: real, restrict: bool)
  {
    !restrict || Eligible(m, thr)
  }

  /** `idxmax` over the candidates: the first of the highest scores. */
  function FirstArgMax(ms: seq<Means>, thr: real, restrict: bool): (r: Option<nat>)
    ensures r.None? <==> forall i :: 0 <= i < |ms| ==> !Candidate(ms[i], thr, restrict)
    ensures r.Some? ==> r.value < |ms| && Candidate(ms[r.value], thr, restrict)
    ensures r.Some? ==> forall i :: 0 <= i < |ms| && Candidate(ms[i], thr, restrict) ==> Score(ms[i]) <= Score(ms[r.value])
    ensures r.Some? ==> forall i :: 0 <= i < r.value && Candidate(ms[i], thr, restrict) ==> Score(ms[i]) < Score(ms[r.value])
  {
    if ms == [] then None
    else
      var init := ms[..|ms| - 1];
      var last := ms[|ms| - 1];
      var r := FirstArgMax(init, thr, restrict);
      assert forall i :: 0 <= i < |init| ==> init[i] == ms[i];
      if Candidate(last, thr, restrict) && (r.None? || Score(ms[r.value]) < Score(last)) then Some(|ms| - 1) else r
  }

  /** `cid_a`: the first argmax among the eligible clusters, or among all when none is eligible. */
  function PickA(ms: seq<Means>, thr: real): (r: Option<nat>)
    ensures r.Some? <==> |ms| > 0
    ensures r.Some? ==> r.value < |ms|
    ensures r.Some? && (exists i :: 0 <= i < |ms| && Eligible(ms[i], thr)) ==>
      && Eligible(ms[r.value], thr)
      && (forall i :: 0 <= i < |ms| && Eligible(ms[i], thr) ==> Score(ms[i]) <= Score(ms[r.value]))
      && (forall i :: 0 <= i < r.value && Eligible(ms[i], thr) ==> Score(ms[i]) < Score(ms[r.value]))
    ensures r.Some? && (forall i :: 0 <= i < |ms| ==> !Eligible(ms[i], thr)) ==>
      && (forall i :: 0 <= i < |ms| ==> Score(ms[i]) <= Score(ms[r.value]))
      && (forall i :: 0 <= i < r.value ==> Score(ms[i]) < Score(ms[r.value]))
  {
    var e := FirstArgMax(ms, thr, true);
    if e.Some? then e
    else
      var all := FirstArgMax(ms, thr, false);
      assert |ms| > 0 ==> Candidate(ms[0], thr, false);
      all
  }

  /** `cid_c = means['PCT_FEM_STEM'].idxmin()`: the first of the lowest present female shares. */
  function PickC(ms: seq<Means>): (r: Option<nat>)
    ensures r.None? <==> forall i :: 0 <= i < |ms| ==> ms[i].fem.None?
    ensures r.Some? ==> r.value < |ms| && ms[r.value].fem.Some?
    ensures r.Some? ==> forall i :: 0 <= i < |ms| && ms[i].fem.Some? ==> ms[r.value].fem.value <= ms[i].fem.value
    ensures r.Some? ==> forall i :: 0 <= i < r.value && ms[i].fem.Some? ==> ms[r.value].fem.value < ms[i].fem.value
  {
    if ms == [] then None
    else
      var init := ms[..|ms| - 1];
      var last := ms[|ms| - 1];
      var r := PickC(init);
      assert forall i :: 0 <= i < |init| ==> init[i] == ms[i];
      if last.fem.Some? && (r.None? || last.fem.value < ms[r.value].fem.value) then Some(|ms| - 1) else r
  }

  /** The branch of the labelling loop: "A" first, then "C", otherwise "B". */
  function LabelAt(i: nat, a: Option<nat>, c: Option<nat>): Label
  {
    if a == Some(i) then A else if c == Some(i) then C else B
  }

  /** The label of each row of `means`. */
  function Labels(ms: seq<Means>, thr: real): (l: seq<Label>)
    ensures |l| == |ms|
  {
    var a := PickA(ms, thr);
    var c := PickC(ms);
    seq(|ms|, i requires 0 <= i < |ms| => LabelAt(i, a, c))
  }

  /** The `labels` (or `labmap`) dictionary, filled cluster by cluster. */
  method BuildLabels(ms: seq<Means>, thr: real) returns (labels: seq<Label>)
    ensures labels == Labels(ms, thr)
  {
    var a := PickA(ms, thr);
    var c := PickC(ms);
    labels := [];
    for i := 0 to |ms|
      invariant |labels| == i
      invariant forall j :: 0 <= j < i ==> labels[j] == Labels(ms, thr)[j]
    {
      if a == Some(i) {
        labels := labels + [A];
      } else if c == Some(i) {
        labels := labels + [C];
      } else {
        labels := labels + [B];
      }
    }
  }

  /** Exactly one cluster is labelled "A", and it is the one `PickA` chose. */
  lemma ExactlyOneA(ms: seq<Means>, thr: real)
    requires |ms| > 0
    ensures var l := Labels(ms, thr);
      && (exists i :: 0 <= i < |l| && l[i] == A)
      && (forall i :: 0 <= i < |l| && l[i] == A ==> Some(i) == PickA(ms, thr))
  {
    var a := PickA(ms, thr);
    assert Labels(ms, thr)[a.value] == A;
  }

  /** At most one cluster is labelled "C", it has the least female share, and there is no "C"
      exactly when no cluster has a female share or the least one belongs to the "A" cluster. */
  lemma AtMostOneC(ms: seq<Means>, thr: real)
    ensures var l := Labels(ms, thr);
      && (forall i, j :: 0 <= i < |l| && 0 <= j < |l| && l[i] == C && l[j] == C ==> i == j)
      && (forall i :: 0 <= i < |l| && l[i] == C ==>
            ms[i].fem.Some? && forall j :: 0 <= j < |ms| && ms[j].fem.Some? ==> ms[i].fem.value <= ms[j].fem.value)
      && ((forall i :: 0 <= i < |l| ==> l[i] != C) <==> PickC(ms).None? || PickC(ms) == PickA(ms, thr))
  {
    var l := Labels(ms, thr);
    var c := PickC(ms);
    if c.Some? && c != PickA(ms, thr) {
      assert l[c.value] == C;
    }
  }

  /** The "A" cluster maximises the score among the eligible clusters, or among all of them
      when none is eligible. */
  lemma AIsBest(ms: seq<Means>, thr: real, i: nat)
    requires i < |ms| && Labels(ms, thr)[i] == A
    ensures (exists j :: 0 <= j < |ms| && Eligible(ms[j], thr)) ==>
      Eligible(ms[i], thr) && forall j :: 0 <= j < |ms| && Eligible(ms[j], thr) ==> Score(ms[j]) <= Score(ms[i])
    ensures (forall j :: 0 <= j < |ms| ==> !Eligible(ms[j], thr)) ==>
      forall j :: 0 <= j < |ms| ==> Score(ms[j]) <= Score(ms[i])
  {
  }

  /**
   * Five municipalities with (female share, volume, public share) (0.10, 900, 0.2),
   * (0.12, 850, 0.1), (0.45, 50, 0.9), (0.48, 40, 0.95) and (0.50, 30, 1.0), clustered as
   * {1, 2}, {3, 4}, {5}, with the 75th percentile of the volumes, 850: the low-share cluster
   * also has the best volume times private share, so it is "A" and no cluster is "C".
   */
  lemma LowShareHighVolumeIsA()
    ensures Labels([Means(0, Some(0.11), 875.0, Some(0.85)),
                    Means(1, Some(0.465), 45.0, Some(0.075)),
                    Means(2, Some(0.5), 30.0, Some(0.0))], 850.0) == [A, B, B]
  {
    var ms := [Means(0, Some(0.11), 875.0, Some(0.85)),
               Means(1, Some(0.465), 45.0, Some(0.075)),
               Means(2, Some(0.5), 30.0, Some(0.0))];
    assert PickA(ms, 850.0) == Some(0);
    assert PickC(ms) == Some(0);
  }

  /** The index of cluster `id` in `means`. */
  function IndexIn(ids: seq<int>, id: int): (i: nat)
    requires id in ids
    ensures i < |ids| && ids[i] == id
  {
    if ids[0] == id then 0 else 1 + IndexIn(ids[1..], id)
  }

  /** One row of `dfka`: an indicator row with its cluster and label. */
  datatype LabelledRow = LabelledRow(ind: Indicator, cluster: int, tag: Label)

  /** Each row with its cluster and the label `labs` gives that cluster's position in `ids`. */
  function TagRows(rs: seq<Indicator>, assign: seq<int>, ids: seq<int>, labs: seq<Label>): (out: seq<LabelledRow>)
    requires |assign| == |rs| && |labs| == |ids|
    requires forall x :: x in assign ==> x in ids
    ensures |out| == |rs|
    ensures forall j :: 0 <= j < |out| ==> out[j].ind == rs[j] && out[j].cluster == assign[j]
    ensures forall j :: 0 <= j < |out| ==> assign[j] in ids && out[j].tag == labs[IndexIn(ids, assign[j])]
  {
    if rs == [] then []
    else
      var n := |rs| - 1;
      assert assign[n] in assign;
      assert forall x :: x in assign[..n] ==> x in assign;
      TagRows(rs[..n], assign[..n], ids, labs) + [LabelledRow(rs[n], assign[n], labs[IndexIn(ids, assign[n])])]
  }

  /** `dfka['LABEL'] = dfka['CLUSTER'].map(labmap)`. */
  function LabelRows(rs: seq<Indicator>, assign: seq<int>, thr: real): (out: seq<LabelledRow>)
    requires |assign| == |rs|
    ensures |out| == |rs|
    ensures forall j :: 0 <= j < |out| ==> out[j].ind == rs[j] && out[j].cluster == assign[j]
  {
    TagRows(rs, assign, SortedDistinct(assign), Labels(MeansTable(rs, assign), thr))
  }

  /** Every row carries the label of its cluster. */
  lemma RowCarriesClusterLabel(rs: seq<Indicator>, assign: seq<int>, thr: real, j: nat, i: nat)
    requires |assign| == |rs| && j < |rs|
    ensures i < |MeansTable(rs, assign)| && MeansTable(rs, assign)[i].id == assign[j] ==>
      LabelRows(rs, assign, thr)[j].tag == Labels(MeansTable(rs, assign), thr)[i]
  {
    var m := MeansTable(rs, assign);
    if i < |m| && m[i].id == assign[j] {
      var ids := SortedDistinct(assign);
      var k := IndexIn(ids, assign[j]);
      assert ids[i] == assign[j];
      assert StrictlySorted(ids);
      assert i == k;
    }
  }

  /** Two clusters labelled "A" are the same cluster. */
  lemma SameA(ms: seq<Means>, thr: real, p: nat, q: nat)
    requires p < |ms| && q < |ms|
    ensures Labels(ms, thr)[p] == A && Labels(ms, thr)[q] == A ==> p == q
  {
    if Labels(ms, thr)[p] == A && Labels(ms, thr)[q] == A {
      ExactlyOneA(ms, thr);
    }
  }

  /** All rows labelled "A" lie in one cluster. */
  lemma OneClusterIsA(rs: seq<Indicator>, assign: seq<int>, thr: real, j: nat, k: nat)
    requires |assign| == |rs| && j < |rs| && k < |rs|
    ensures LabelRows(rs, assign, thr)[j].tag == A && LabelRows(rs, assign, thr)[k].tag == A ==>
      assign[j] == assign[k]
  {
    var ids := SortedDistinct(assign);
    var labs := Labels(MeansTable(rs, assign), thr);
    var out := LabelRows(rs, assign, thr);
    assert out == TagRows(rs, assign, ids, labs);
    if out[j].tag == A && out[k].tag == A {
      var p := IndexIn(ids, assign[j]);
      var q := IndexIn(ids, assign[k]);
      SameA(MeansTable(rs, assign), thr, p, q);
    }
  }

  /** The labelling of one year: `None` when the year has fewer than three municipalities
      (the per-year run is skipped; at the reference year k-means refuses such input). */
  function ClusterYear(t: seq<Indicator>, y: int, assign: seq<int>, thr: real): (r: Option<seq<LabelledRow>>)
    requires |YearRows(t, y)| >= 3 ==> |assign| == |YearRows(t, y)|
    ensures r.None? <==> |YearRows(t, y)| < 3
    ensures r.Some? ==> |r.value| == |YearRows(t, y)|
    ensures r.Some? ==> forall j :: 0 <= j < |r.value| ==>
      r.value[j].ind == YearRows(t, y)[j] && r.value[j].ind.key.year == y && r.value[j].cluster == assign[j]
  {
    var rs := YearRows(t, y);
    if |rs| < 3 then None
    else
      Some(LabelRows(rs, assign, thr))
  }

  /** The labelling of one year as recorded by the per-year loop. */
  datatype YearClusters = YearClusters(year: int, labelled: Option<seq<LabelledRow>>)

  /** `[f(y) for y in ys]`, built from the front as the per-year loop builds its record. */
  function MapYears<T>(ys: seq<int>, f: int -> T): (r: seq<T>)
    ensures |r| == |ys|
  {
    if ys == [] then [] else MapYears(ys[..|ys| - 1], f) + [f(ys[|ys| - 1])]
  }

  /** Entry `i` of the record is `f` of the `i`-th year. */
  lemma {:induction false} MapYearsAt<T>(ys: seq<int>, f: int -> T)
    ensures forall i :: 0 <= i < |ys| ==> MapYears(ys, f)[i] == f(ys[i])
    decreases |ys|
  {
    if ys != [] {
      var n := |ys| - 1;
      MapYearsAt(ys[..n], f);
      forall i | 0 <= i < n ensures MapYears(ys, f)[i] == f(ys[i]) {
        assert MapYears(ys, f)[i] == MapYears(ys[..n], f)[i];
        assert ys[..n][i] == ys[i];
      }
    }
  }

  /** The loop over `sorted(df_ind['ANO'].unique())`, with the k-means output and the
      threshold of each year as inputs. */
  method ClusterEveryYear(t: seq<Indicator>, kmeans: int -> seq<int>, thresholds: int -> real)
    returns (out: seq<YearClusters>)
    requires forall y :: |YearRows(t, y)| >= 3 ==> |kmeans(y)| == |YearRows(t, y)|
    ensures |out| == |Years(t)|
    ensures forall i :: 0 <= i < |out| ==>
      out[i] == YearClusters(Years(t)[i], ClusterYear(t, Years(t)[i], kmeans(Years(t)[i]), thresholds(Years(t)[i])))
  {
    var ys := Years(t);
    var entry := y => YearClusters(y, ClusterYear(t, y, kmeans(y), thresholds(y)));
    out := [];
    for i := 0 to |ys|
      invariant out == MapYears(ys[..i], entry)
    {
      out := out + [entry(ys[i])];
      assert ys[..i + 1][..i] == ys[..i];
    }
    assert ys[..|ys|] == ys;
    MapYearsAt(ys, entry);
  }

  /** Every year in the loop has rows, and the loop skips exactly the years with fewer than
      three of them. */
  lemma EveryYearGuard(t: seq<Indicator>, kmeans: int -> seq<int>, thresholds: int -> real, y: int)
    requires forall y :: |YearRows(t, y)| >= 3 ==> |kmeans(y)| == |YearRows(t, y)|
    requires y in Years(t)
    ensures |YearRows(t, y)| > 0
    ensures ClusterYear(t, y, kmeans(y), thresholds(y)).None? <==> |YearRows(t, y)| < 3
  {
    var r :| r in t && r.key.year == y;
    assert r in YearRows(t, y);
  }

  /** `sort_values('PCT_FEM_STEM')`: missing shares sort last. */
  predicate FemLe(a: LabelledRow, b: LabelledRow)
  {
    match (a.ind.pctFem, b.ind.pctFem)
    case (_, None) => true
    case (None, Some(_)) => false
    case (Some(x), Some(y)) => x <= y
  }

  predicate FemSorted(s: seq<LabelledRow>)
  {
    forall i, j :: 0 <= i < j < |s| ==> FemLe(s[i], s[j])
  }

  function InsertByFem(x: LabelledRow, s: seq<LabelledRow>): (r: seq<LabelledRow>)
    requires FemSorted(s)
    ensures FemSorted(r) && multiset(r) == multiset(s) + multiset{x}
    ensures |r| == |s| + 1
  {
    if s == [] then [x]
    else if FemLe(x, s[0]) then
      assert forall k :: 0 <= k < |s| ==> FemLe(s[0], s[k]);
      [x] + s
    else
      var rest := InsertByFem(x, s[1..]);
      assert s == [s[0]] + s[1..];
      assert forall k :: 0 <= k < |rest| ==> FemLe(s[0], rest[k]) by {
        forall k | 0 <= k < |rest| ensures FemLe(s[0], rest[k]) {
          assert rest[k] in multiset(rest);
          assert rest[k] == x || rest[k] in multiset(s[1..]);
          if rest[k] != x {
            var m :| 0 <= m < |s[1..]| && s[1..][m] == rest[k];
            assert s[1 + m] == rest[k];
          }
        }
      }
      [s[0]] + rest
  }

  function SortByFem(s: seq<LabelledRow>): (r: seq<LabelledRow>)
    ensures FemSorted(r) && multiset(r) == multiset(s)
    ensures |r| == |s|
  {
    if s == [] then []
    else
      assert s == [s[0]] + s[1..];
      InsertByFem(s[0], SortByFem(s[1..]))
  }

  function Min(a: nat, b: nat): nat
  {
    if a <= b then a else b
  }

  /** `top_desertos`: the ten rows of lowest female share. */
  function LowestTen(rows: seq<LabelledRow>): (r: seq<LabelledRow>)
    ensures |r| == Min(10, |rows|)
    ensures FemSorted(r)
    ensures multiset(r) <= multiset(rows)
    ensures forall x, y :: x in rows && x !in r && y in r ==> FemLe(y, x)
  {
    var s := SortByFem(rows);
    var n := Min(10, |rows|);
    assert s == s[..n] + s[n..];
    assert multiset(s) == multiset(s[..n]) + multiset(s[n..]);
    forall x, y | x in rows && x !in s[..n] && y in s[..n] ensures FemLe(y, x) {
      assert x in multiset(s);
      assert x in s;
      var j :| 0 <= j < |s| && s[j] == x;
      var i :| 0 <= i < n && s[i] == y;
    }
    s[..n]
  }
}
