/**
 * The roll-ups behind the plots: frames binned by quarter hour of the day
 * per OBSTYPE, orphaned science time per proposal, and the rankings the
 * plots and listings are drawn in. The charts themselves are not modelled.
 */
module Plotting {
  import opened Wrappers
  import opened Grouping
  import opened Frames
  import opened LcoHelpers
  import LcoDefault

  // ---------------------------------------------------------------------
  // roundtime15, bintime
  // ---------------------------------------------------------------------

  const MicrosPerMinute: int := 60_000_000
  /** A quarter of an hour, in microseconds. */
  const Quarter: int := 900_000_000
  /** Quarter hours in a day: the length of `type_timebins`. */
  const BinsPerDay: int := 96

  /** `roundtime15`: subtracts the minutes past the last quarter hour and
      the seconds and microseconds. */
  function RoundTime15(t: int): int
  {
    t - ((MinuteOf(t) % 15) * 60 + SecondOf(t)) * MicrosPerSecond - MicroOf(t)
  }

  /** `bintime`: the quarter hour of the day the rounded time falls in. */
  function BinTime(t: int): (b: int)
    ensures 0 <= b < BinsPerDay
  {
    var rounded := RoundTime15(t);
    HourOf(rounded) * 4 + MinuteOf(rounded) / 15
  }

  /** Rounding goes down to the quarter hour: the result is the largest
      multiple of 15 minutes not after `t`. */
  lemma RoundTime15Floor(t: int)
    ensures RoundTime15(t) == (t / Quarter) * Quarter
    ensures t - RoundTime15(t) == t % Quarter
  {
    var u, s, m, hours := MicroOf(t), SecondOf(t), MinuteOf(t), HoursOf(t);
    var secs, mins := SecondsOf(t), MinutesOf(t);
    assert t == secs * 1_000_000 + u;
    assert secs == mins * 60 + s;
    assert mins == hours * 60 + m;
    assert m == (m / 15) * 15 + m % 15;
    var offset := ((m % 15) * 60 + s) * 1_000_000 + u;
    assert 0 <= offset < Quarter;
    calc {
      t;
      ((hours * 60 + m) * 60 + s) * 1_000_000 + u;
      (hours * 4 + m / 15) * Quarter + offset;
    }
    DivModOf(t, Quarter, hours * 4 + m / 15, offset);
  }

  /** The rounded time is at most 15 minutes earlier, and rounding again
      changes nothing. */
  lemma RoundTime15Bounds(t: int)
    ensures RoundTime15(t) <= t < RoundTime15(t) + Quarter
    ensures RoundTime15(RoundTime15(t)) == RoundTime15(t)
  {
    RoundTime15Floor(t);
    var q := t / Quarter;
    RoundTime15Floor(q * Quarter);
    DivModOf(q * Quarter, Quarter, q, 0);
  }

  /** The rounded time has no seconds or microseconds and its minute is a
      multiple of 15; the hour is unchanged. */
  lemma RoundTime15Fields(t: int)
    ensures MicroOf(RoundTime15(t)) == 0 && SecondOf(RoundTime15(t)) == 0
    ensures MinuteOf(RoundTime15(t)) == MinuteOf(t) - MinuteOf(t) % 15
    ensures HourOf(RoundTime15(t)) == HourOf(t)
  {
    RoundTime15Floor(t);
    var q := t / Quarter;
    QuarterFields(q);
    var hours, m := HoursOf(t), MinuteOf(t);
    assert t == ((hours * 60 + m) * 60 + SecondOf(t)) * 1_000_000 + MicroOf(t);
    assert q == hours * 4 + m / 15 by {
      DivModOf(t, Quarter, hours * 4 + m / 15, ((m % 15) * 60 + SecondOf(t)) * 1_000_000 + MicroOf(t));
    }
    DivModOf(hours * 4 + m / 15, 4, hours, m / 15);
  }

  /** The fields of the instant `q` quarter hours after the epoch. */
  lemma QuarterFields(q: int)
    ensures MicroOf(q * Quarter) == 0 && SecondOf(q * Quarter) == 0
    ensures MinutesOf(q * Quarter) == q * 15
    ensures MinuteOf(q * Quarter) == (q % 4) * 15
    ensures HoursOf(q * Quarter) == q / 4
  {
    DivModOf(q * Quarter, 1_000_000, q * 900, 0);
    DivModOf(q * 900, 60, q * 15, 0);
    DivModOf(q * 15, 60, q / 4, (q % 4) * 15);
  }

  /** The bin of a time is its quarter hour of the day, so every bin index
      lies in 0..95, the index range of `type_timebins`. */
  lemma BinTimeIsQuarterOfDay(t: int)
    ensures BinTime(t) == (t / Quarter) % BinsPerDay
    ensures BinTime(t) == HourOf(t) * 4 + MinuteOf(t) / 15
  {
    RoundTime15Floor(t);
    RoundTime15Fields(t);
    var q := t / Quarter;
    QuarterFields(q);
    var m := MinuteOf(t);
    assert (m - m % 15) / 15 == m / 15;
    DivModOf(q, BinsPerDay, (q / 4) / 24, ((q / 4) % 24) * 4 + q % 4);
  }

  // ---------------------------------------------------------------------
  // plot_time_distribution: the per-OBSTYPE histograms
  // ---------------------------------------------------------------------

  function TimebinKey(f: Frame): Key { I(BinTime(f.datetime)) }

  /** The frames of a group in bin `b`: `len(timebin_group)`. */
  function BinCount(g: seq<Frame>, b: int): nat
  {
    |Group(g, TimebinKey, I(b))|
  }

  /** The 96 bin counts of a group of frames. */
  function Histogram(g: seq<Frame>): (h: seq<nat>)
    ensures |h| == BinsPerDay && forall b :: 0 <= b < BinsPerDay ==> h[b] == BinCount(g, b)
  {
    seq(BinsPerDay, b requires 0 <= b < BinsPerDay => BinCount(g, b))
  }

  /** `type_timebins`: a list of 96 zeros, then each bin that has frames
      set to their number. */
  method TypeTimebins(typeGroup: seq<Frame>) returns (typeTimebins: array<nat>)
    ensures fresh(typeTimebins)
    ensures typeTimebins[..] == Histogram(typeGroup)
  {
    typeTimebins := new nat[BinsPerDay](_ => 0);
    var groups := GroupBy(typeGroup, TimebinKey);
    var j := 0;
    while j < |groups|
      modifies typeTimebins
      invariant j <= |groups|
      invariant forall b :: 0 <= b < BinsPerDay ==>
        typeTimebins[b] == if BinSeen(groups, j, b) then BinCount(typeGroup, b) else 0
    {
      var timebinGroup := groups[j].rows;
      var timebin := BinTime(timebinGroup[0].datetime);
      GroupBin(typeGroup, j);
      typeTimebins[timebin] := |timebinGroup|;
      forall b | 0 <= b < BinsPerDay ensures BinSeen(groups, j + 1, b) <==> BinSeen(groups, j, b) || b == timebin {
        BinSeenStep(groups, j, b);
      }
      j := j + 1;
    }
    forall b | 0 <= b < BinsPerDay ensures typeTimebins[b] == BinCount(typeGroup, b) {
      if !BinSeen(groups, j, b) {
        BinUnseen(typeGroup, b);
      }
    }
  }

  /** Some of the first `j` groups is the group of bin `b`. */
  predicate BinSeen(groups: seq<Grp<Frame>>, j: nat, b: int)
    requires j <= |groups|
  {
    exists m :: 0 <= m < j && groups[m].key == I(b)
  }

  lemma BinSeenStep(groups: seq<Grp<Frame>>, j: nat, b: int)
    requires j < |groups|
    ensures BinSeen(groups, j + 1, b) <==> BinSeen(groups, j, b) || groups[j].key == I(b)
  {
    if BinSeen(groups, j + 1, b) && !BinSeen(groups, j, b) {
      var m :| 0 <= m < j + 1 && groups[m].key == I(b);
      assert m == j;
    }
  }

  /** A time-bin group is the group of the bin of its first frame, and its
      size is that bin's count. */
  lemma GroupBin(typeGroup: seq<Frame>, j: nat)
    requires j < |GroupBy(typeGroup, TimebinKey)|
    ensures var g := GroupBy(typeGroup, TimebinKey)[j];
      var t := BinTime(g.rows[0].datetime);
      g.key == I(t) && |g.rows| == BinCount(typeGroup, t)
  {
    var g := GroupBy(typeGroup, TimebinKey)[j];
    assert g.rows[0] in g.rows;
    GroupMembers(typeGroup, TimebinKey, g.key);
  }

  /** A bin no group stands for holds no frames. */
  lemma BinUnseen(typeGroup: seq<Frame>, b: int)
    requires !BinSeen(GroupBy(typeGroup, TimebinKey), |GroupBy(typeGroup, TimebinKey)|, b)
    ensures BinCount(typeGroup, b) == 0
  {
    var gs := GroupBy(typeGroup, TimebinKey);
    GroupByCovers(typeGroup, TimebinKey);
    forall i | 0 <= i < |typeGroup| ensures TimebinKey(typeGroup[i]) != I(b) {
      assert typeGroup[i] in typeGroup;
    }
    GroupAbsent(typeGroup, TimebinKey, I(b));
  }

  /** The OBSTYPEs present in the table. */
  function ObstypesOf(df: seq<Frame>): set<string>
  {
    set f | f in df :: f.obstype
  }

  /** The histograms of `plot_time_distribution`: one per OBSTYPE present,
      counting that OBSTYPE's frames per quarter hour of the day. */
  method TimeDistribution(df: seq<Frame>) returns (timebinData: map<string, seq<nat>>)
    ensures timebinData.Keys == ObstypesOf(df)
    ensures forall o :: o in timebinData ==> timebinData[o] == Histogram(Group(df, ObstypeKey, S(o)))
  {
    var groups := GroupBy(df, ObstypeKey);
    forall m | 0 <= m < |groups| ensures groups[m].key == S(groups[m].rows[0].obstype) {
      GroupMembers(df, ObstypeKey, groups[m].key);
      assert groups[m].rows[0] in groups[m].rows;
    }
    timebinData := HistogramsOf(df, groups);
    forall o | o in ObstypesOf(df) ensures o in timebinData {
      var f :| f in df && f.obstype == o;
      GroupByCovers(df, ObstypeKey);
      var m :| 0 <= m < |groups| && groups[m].key == ObstypeKey(f);
    }
    forall o | o in timebinData ensures o in ObstypesOf(df) {
      var m :| 0 <= m < |groups| && groups[m].key == S(o);
      assert groups[m].rows[0] in df by {
        GroupMembers(df, ObstypeKey, groups[m].key);
        assert groups[m].rows[0] in groups[m].rows;
      }
    }
  }

  /** The loop of `plot_time_distribution` over the OBSTYPE groups. */
  method HistogramsOf(df: seq<Frame>, gs: seq<Grp<Frame>>) returns (timebinData: map<string, seq<nat>>)
    requires forall m :: 0 <= m < |gs| ==>
      |gs[m].rows| > 0 && gs[m].key == S(gs[m].rows[0].obstype) && gs[m].rows == Group(df, ObstypeKey, gs[m].key)
    ensures forall o :: o in timebinData <==> exists m :: 0 <= m < |gs| && gs[m].key == S(o)
    ensures forall o :: o in timebinData ==> timebinData[o] == Histogram(Group(df, ObstypeKey, S(o)))
  {
    timebinData := map[];
    var i := 0;
    while i < |gs|
      invariant i <= |gs|
      invariant forall o :: o in timebinData <==> exists m :: 0 <= m < i && gs[m].key == S(o)
      invariant forall o :: o in timebinData ==> timebinData[o] == Histogram(Group(df, ObstypeKey, S(o)))
    {
      var typeGroup := gs[i].rows;
      var obstype := typeGroup[0].obstype;
      var typeTimebins := TypeTimebins(typeGroup);
      timebinData := timebinData[obstype := typeTimebins[..]];
      i := i + 1;
    }
  }

  function SumNat(xs: seq<nat>): nat
  {
    if |xs| == 0 then 0 else SumNat(xs[..|xs| - 1]) + xs[|xs| - 1]
  }

  lemma {:induction false} SumNatBump(xs: seq<nat>, k: nat)
    requires k < |xs|
    ensures SumNat(xs[k := xs[k] + 1]) == SumNat(xs) + 1
  {
    var ys := xs[k := xs[k] + 1];
    if k < |xs| - 1 {
      SumNatBump(xs[..|xs| - 1], k);
      assert ys[..|ys| - 1] == xs[..|xs| - 1][k := xs[k] + 1];
    } else {
      assert ys[..|ys| - 1] == xs[..|xs| - 1];
    }
  }

  /** A histogram accounts for every frame of its group exactly once: its
      96 counts add up to the group's size. */
  lemma {:induction false} HistogramTotal(g: seq<Frame>)
    ensures SumNat(Histogram(g)) == |g|
  {
    if |g| == 0 {
      assert Histogram(g) == seq(BinsPerDay, b => 0);
      ZeroSum(BinsPerDay);
    } else {
      var init := g[..|g| - 1];
      var f := g[|g| - 1];
      HistogramTotal(init);
      var k := BinTime(f.datetime);
      assert Histogram(g) == Histogram(init)[k := Histogram(init)[k] + 1];
      SumNatBump(Histogram(init), k);
    }
  }

  lemma {:induction false} ZeroSum(n: nat)
    ensures SumNat(seq(n, b => 0)) == 0
  {
    if n > 0 {
      ZeroSum(n - 1);
      assert seq(n, b => 0)[..n - 1] == seq(n - 1, b => 0);
    }
  }

  /** A bin stays at zero exactly when no frame of the group falls in it. */
  lemma EmptyBins(g: seq<Frame>, b: int)
    ensures BinCount(g, b) == 0 <==> forall f :: f in g ==> BinTime(f.datetime) != b
  {
    GroupMembers(g, TimebinKey, I(b));
    if BinCount(g, b) != 0 {
      assert Group(g, TimebinKey, I(b))[0] in Group(g, TimebinKey, I(b));
    }
  }

  // ---------------------------------------------------------------------
  // get_orphan_data
  // ---------------------------------------------------------------------

  /** The per-proposal entry of `orphan_data`. Times are hours; the
      percentage is undefined (numpy's NaN) when both times are zero. */
  datatype PropData = PropData(
    trueCount: nat,
    trueTime: real,
    falseCount: nat,
    falseTime: real,
    percentage: Option<real>)

  function PropidKey(b: LcoDefault.Block): Key { S(b.propid) }

  /** The blocks whose `orphan` value is `o`: `prop_group[prop_group['orphan'] == True]`
      and its False counterpart. */
  function Having(g: seq<LcoDefault.Block>, o: LcoDefault.Orphan): (h: seq<LcoDefault.Block>)
    ensures |h| <= |g|
    ensures forall b :: b in h <==> b in g && b.orphan == o
  {
    if |g| == 0 then []
    else
      var init := Having(g[..|g| - 1], o);
      assert forall b :: b in g <==> b in g[..|g| - 1] || b == g[|g| - 1] by {
        assert g == g[..|g| - 1] + [g[|g| - 1]];
      }
      if g[|g| - 1].orphan == o then init + [g[|g| - 1]] else init
  }

  /** `duration.sum()`, in seconds. */
  function Durations(g: seq<LcoDefault.Block>): real
  {
    if |g| == 0 then 0.0 else Durations(g[..|g| - 1]) + g[|g| - 1].duration
  }

  /** The entry `get_orphan_data` computes for one proposal's blocks. */
  function PropDataOf(g: seq<LcoDefault.Block>): PropData
  {
    var trueTime := Durations(Having(g, LcoDefault.Orphaned)) / 3600.0;
    var falseTime := Durations(Having(g, LcoDefault.NotOrphaned)) / 3600.0;
    PropData(
      |Having(g, LcoDefault.Orphaned)|, trueTime,
      |Having(g, LcoDefault.NotOrphaned)|, falseTime,
      if trueTime + falseTime == 0.0 then None else Some(trueTime / (trueTime + falseTime)))
  }

  /** The proposals present among the blocks. */
  function PropidsOf(bl: seq<LcoDefault.Block>): set<string>
  {
    set b | b in bl :: b.propid
  }

  /** `get_orphan_data`: one entry per proposal. */
  method GetOrphanData(bl: seq<LcoDefault.Block>) returns (orphanData: map<string, PropData>)
    ensures orphanData.Keys == PropidsOf(bl)
    ensures forall p :: p in orphanData ==> orphanData[p] == PropDataOf(Group(bl, PropidKey, S(p)))
  {
    var groups := GroupBy(bl, PropidKey);
    forall m | 0 <= m < |groups| ensures groups[m].key == S(groups[m].rows[0].propid) {
      GroupMembers(bl, PropidKey, groups[m].key);
      assert groups[m].rows[0] in groups[m].rows;
    }
    orphanData := PropDataFor(groups);
    OrphanEntriesMeaning(bl, groups);
    forall p | p in PropidsOf(bl) ensures p in orphanData {
      var b :| b in bl && b.propid == p;
      GroupByCovers(bl, PropidKey);
      var m :| 0 <= m < |groups| && groups[m].key == PropidKey(b);
    }
    forall p | p in orphanData ensures p in PropidsOf(bl) {
      var m :| 0 <= m < |groups| && groups[m].key == S(p);
      assert groups[m].rows[0] in bl by {
        GroupMembers(bl, PropidKey, groups[m].key);
        assert groups[m].rows[0] in groups[m].rows;
      }
    }
  }

  /** The loop of `get_orphan_data` over the proposal groups. */
  method PropDataFor(gs: seq<Grp<LcoDefault.Block>>) returns (orphanData: map<string, PropData>)
    requires forall m :: 0 <= m < |gs| ==> |gs[m].rows| > 0
    ensures orphanData == OrphanEntries(gs, PropDataOf)
  {
    orphanData := map[];
    var i := 0;
    while i < |gs|
      invariant i <= |gs|
      invariant orphanData == OrphanEntries(gs[..i], PropDataOf)
    {
      var propGroup := gs[i].rows;
      var proposalId := propGroup[0].propid;
      var propData := PropDataOf(propGroup);
      assert gs[..i + 1][..i] == gs[..i];
      orphanData := orphanData[proposalId := propData];
      i := i + 1;
    }
    assert gs[..i] == gs;
  }

  /** The dictionary the loop builds: each group's entry `f` under its
      first block's proposal, later groups overwriting earlier ones. */
  function OrphanEntries<V>(gs: seq<Grp<LcoDefault.Block>>, f: seq<LcoDefault.Block> -> V): map<string, V>
    requires forall m :: 0 <= m < |gs| ==> |gs[m].rows| > 0
  {
    if |gs| == 0 then map[]
    else
      var g := gs[|gs| - 1].rows;
      OrphanEntries(gs[..|gs| - 1], f)[g[0].propid := f(g)]
  }

  /** When each group is the group of its first block's proposal, the
      dictionary has one entry per group, computed from that proposal's
      blocks. */
  lemma OrphanEntriesMeaning(bl: seq<LcoDefault.Block>, gs: seq<Grp<LcoDefault.Block>>)
    requires forall m :: 0 <= m < |gs| ==>
      |gs[m].rows| > 0 && gs[m].key == S(gs[m].rows[0].propid) && gs[m].rows == Group(bl, PropidKey, gs[m].key)
    ensures forall p :: p in OrphanEntries(gs, PropDataOf) <==> exists m :: 0 <= m < |gs| && gs[m].key == S(p)
    ensures forall p :: p in OrphanEntries(gs, PropDataOf) ==>
      OrphanEntries(gs, PropDataOf)[p] == PropDataOf(Group(bl, PropidKey, S(p)))
  {
    OrphanEntriesKeys(gs, PropDataOf);
    OrphanEntriesValues(bl, gs, PropDataOf);
  }

  lemma {:induction false} OrphanEntriesKeys<V>(gs: seq<Grp<LcoDefault.Block>>, f: seq<LcoDefault.Block> -> V)
    requires forall m :: 0 <= m < |gs| ==> |gs[m].rows| > 0
    ensures forall p :: p in OrphanEntries(gs, f) <==> exists m :: 0 <= m < |gs| && gs[m].rows[0].propid == p
  {
    if |gs| > 0 {
      var init := gs[..|gs| - 1];
      OrphanEntriesKeys(init, f);
      forall p ensures p in OrphanEntries(gs, f) <==> exists m :: 0 <= m < |gs| && gs[m].rows[0].propid == p {
        if p in OrphanEntries(init, f) {
          var m :| 0 <= m < |init| && init[m].rows[0].propid == p;
          assert gs[m] == init[m];
        }
        if exists m :: 0 <= m < |gs| - 1 && gs[m].rows[0].propid == p {
          var m :| 0 <= m < |gs| - 1 && gs[m].rows[0].propid == p;
          assert init[m] == gs[m];
        }
      }
    }
  }

  lemma {:induction false} OrphanEntriesValues<V>(bl: seq<LcoDefault.Block>, gs: seq<Grp<LcoDefault.Block>>, f: seq<LcoDefault.Block> -> V)
    requires forall m :: 0 <= m < |gs| ==>
      |gs[m].rows| > 0 && gs[m].key == S(gs[m].rows[0].propid) && gs[m].rows == Group(bl, PropidKey, gs[m].key)
    ensures forall p :: p in OrphanEntries(gs, f) ==> OrphanEntries(gs, f)[p] == f(Group(bl, PropidKey, S(p)))
  {
    if |gs| > 0 {
      OrphanEntriesValues(bl, gs[..|gs| - 1], f);
    }
  }

  /** Every block is orphaned, not orphaned, or outside science proposals,
      so the two counts leave out exactly the non-science blocks, and the
      durations split the same way. */
  lemma {:induction false} OrphanSplit(g: seq<LcoDefault.Block>)
    ensures |Having(g, LcoDefault.Orphaned)| + |Having(g, LcoDefault.NotOrphaned)|
      == |g| - |Having(g, LcoDefault.NotScience)|
    ensures Durations(Having(g, LcoDefault.Orphaned)) + Durations(Having(g, LcoDefault.NotOrphaned))
      == Durations(g) - Durations(Having(g, LcoDefault.NotScience))
  {
    if |g| > 0 {
      var init := g[..|g| - 1];
      OrphanSplit(init);
      var b := g[|g| - 1];
      DurationsSnoc(Having(init, b.orphan), b);
    }
  }

  lemma DurationsSnoc(g: seq<LcoDefault.Block>, b: LcoDefault.Block)
    ensures Durations(g + [b]) == Durations(g) + b.duration
  {
    assert (g + [b])[..|g|] == g;
  }

  lemma {:induction false} DurationsNonNegative(g: seq<LcoDefault.Block>)
    requires forall b :: b in g ==> b.duration >= 0.0
    ensures Durations(g) >= 0.0
  {
    if |g| > 0 {
      assert forall b :: b in g[..|g| - 1] ==> b in g;
      DurationsNonNegative(g[..|g| - 1]);
    }
  }

  /** With non-negative durations the orphaned share is a fraction in
      [0, 1], and it is undefined exactly when neither orphaned nor
      non-orphaned blocks took any time. */
  lemma PercentageBounds(g: seq<LcoDefault.Block>)
    requires forall b :: b in g ==> b.duration >= 0.0
    ensures var d := PropDataOf(g);
      && d.trueTime >= 0.0 && d.falseTime >= 0.0
      && (d.percentage.None? <==> d.trueTime == 0.0 && d.falseTime == 0.0)
      && (d.percentage.Some? ==> 0.0 <= d.percentage.value <= 1.0)
  {
    DurationsNonNegative(Having(g, LcoDefault.Orphaned));
    DurationsNonNegative(Having(g, LcoDefault.NotOrphaned));
    var d := PropDataOf(g);
    if d.percentage.Some? {
      Fraction(d.trueTime, d.falseTime);
    }
  }

  lemma Fraction(a: real, b: real)
    requires a >= 0.0 && b >= 0.0 && a + b != 0.0
    ensures 0.0 <= a / (a + b) <= 1.0
  {
    assert a / (a + b) * (a + b) == a;
  }

  // ---------------------------------------------------------------------
  // sorted(..., key=..., reverse=True): a stable descending sort
  // ---------------------------------------------------------------------

  /** Places `x` after every element whose key is at least its own. */
  function InsertDesc<T>(x: T, ys: seq<T>, key: T -> real): (r: seq<T>)
    ensures |r| == |ys| + 1
  {
    if |ys| == 0 || key(ys[0]) < key(x) then [x] + ys
    else [ys[0]] + InsertDesc(x, ys[1..], key)
  }

  /** Python's `sorted(xs, key=key, reverse=True)`: by non-increasing key,
      equal keys keeping their order in `xs`. */
  function SortDesc<T>(xs: seq<T>, key: T -> real): (r: seq<T>)
    ensures |r| == |xs|
  {
    if |xs| == 0 then [] else InsertDesc(xs[|xs| - 1], SortDesc(xs[..|xs| - 1], key), key)
  }

  predicate NonIncreasing<T>(xs: seq<T>, key: T -> real)
  {
    forall i, j :: 0 <= i < j < |xs| ==> key(xs[i]) >= key(xs[j])
  }

  /** The elements of `xs` with key `k`, in their order in `xs`. */
  function WithKey<T>(xs: seq<T>, key: T -> real, k: real): seq<T>
  {
    if |xs| == 0 then [] else (if key(xs[0]) == k then [xs[0]] else []) + WithKey(xs[1..], key, k)
  }

  lemma {:induction false} InsertDescPermutation<T>(x: T, ys: seq<T>, key: T -> real)
    ensures multiset(InsertDesc(x, ys, key)) == multiset(ys) + multiset{x}
  {
    if |ys| > 0 && key(ys[0]) >= key(x) {
      InsertDescPermutation(x, ys[1..], key);
      assert ys == [ys[0]] + ys[1..];
    }
  }

  /** Inserting an element no larger than a bound into a sequence whose
      keys are all within that bound keeps every key within it. */
  lemma {:induction false} InsertDescBound<T>(x: T, ys: seq<T>, key: T -> real, c: real)
    requires key(x) <= c
    requires forall i :: 0 <= i < |ys| ==> key(ys[i]) <= c
    ensures forall i :: 0 <= i < |ys| + 1 ==> key(InsertDesc(x, ys, key)[i]) <= c
  {
    if |ys| > 0 && key(ys[0]) >= key(x) {
      InsertDescBound(x, ys[1..], key, c);
      var r := InsertDesc(x, ys, key);
      assert r == [ys[0]] + InsertDesc(x, ys[1..], key);
      forall i | 0 < i < |ys| + 1 ensures key(r[i]) <= c {
        assert r[i] == InsertDesc(x, ys[1..], key)[i - 1];
      }
    }
  }

  lemma {:induction false} InsertDescSorted<T>(x: T, ys: seq<T>, key: T -> real)
    requires NonIncreasing(ys, key)
    ensures NonIncreasing(InsertDesc(x, ys, key), key)
  {
    if |ys| > 0 && key(ys[0]) >= key(x) {
      var tail := ys[1..];
      assert NonIncreasing(tail, key) by {
        forall i, j | 0 <= i < j < |tail| ensures key(tail[i]) >= key(tail[j]) {
          assert tail[i] == ys[i + 1] && tail[j] == ys[j + 1];
        }
      }
      InsertDescSorted(x, tail, key);
      forall i | 0 <= i < |tail| ensures key(tail[i]) <= key(ys[0]) {
        assert tail[i] == ys[i + 1];
      }
      InsertDescBound(x, tail, key, key(ys[0]));
    }
  }

  /** The result of the sort lists keys in non-increasing order and is a
      rearrangement of the input. */
  lemma {:induction false} SortDescSorted<T>(xs: seq<T>, key: T -> real)
    ensures NonIncreasing(SortDesc(xs, key), key)
    ensures multiset(SortDesc(xs, key)) == multiset(xs)
  {
    if |xs| > 0 {
      SortDescSorted(xs[..|xs| - 1], key);
      InsertDescSorted(xs[|xs| - 1], SortDesc(xs[..|xs| - 1], key), key);
      InsertDescPermutation(xs[|xs| - 1], SortDesc(xs[..|xs| - 1], key), key);
      assert xs == xs[..|xs| - 1] + [xs[|xs| - 1]];
    }
  }

  lemma {:induction false} WithKeyAppend<T>(a: seq<T>, b: seq<T>, key: T -> real, k: real)
    ensures WithKey(a + b, key, k) == WithKey(a, key, k) + WithKey(b, key, k)
  {
    if |a| > 0 {
      WithKeyAppend(a[1..], b, key, k);
      assert (a + b)[1..] == a[1..] + b;
    } else {
      assert a + b == b;
    }
  }

  lemma WithKeySingle<T>(x: T, key: T -> real, k: real)
    ensures WithKey([x], key, k) == if key(x) == k then [x] else []
  {
    assert [x][1..] == [];
  }

  lemma {:induction false} WithKeyNone<T>(ys: seq<T>, key: T -> real, k: real)
    requires forall i :: 0 <= i < |ys| ==> key(ys[i]) != k
    ensures WithKey(ys, key, k) == []
  {
    if |ys| > 0 {
      WithKeyNone(ys[1..], key, k);
    }
  }

  lemma {:induction false} InsertDescStable<T>(x: T, ys: seq<T>, key: T -> real, k: real)
    requires NonIncreasing(ys, key)
    ensures WithKey(InsertDesc(x, ys, key), key, k) == WithKey(ys + [x], key, k)
  {
    WithKeyAppend(ys, [x], key, k);
    WithKeySingle(x, key, k);
    if |ys| == 0 || key(ys[0]) < key(x) {
      WithKeyAppend([x], ys, key, k);
      if key(x) == k {
        WithKeyNone(ys, key, k);
      }
    } else {
      var tail := ys[1..];
      assert NonIncreasing(tail, key) by {
        forall i, j | 0 <= i < j < |tail| ensures key(tail[i]) >= key(tail[j]) {
          assert tail[i] == ys[i + 1] && tail[j] == ys[j + 1];
        }
      }
      InsertDescStable(x, tail, key, k);
      WithKeyAppend([ys[0]], InsertDesc(x, tail, key), key, k);
      WithKeyAppend(tail, [x], key, k);
      WithKeyAppend([ys[0]], tail, key, k);
      assert ys == [ys[0]] + tail;
      calc {
        WithKey(InsertDesc(x, ys, key), key, k);
        WithKey([ys[0]] + InsertDesc(x, tail, key), key, k);
        WithKey([ys[0]], key, k) + WithKey(InsertDesc(x, tail, key), key, k);
        WithKey([ys[0]], key, k) + (WithKey(tail, key, k) + WithKey([x], key, k));
        WithKey(ys, key, k) + WithKey([x], key, k);
      }
    }
  }

  /** The sort is stable: the elements sharing any one key come out in the
      order they went in. */
  lemma {:induction false} SortDescStable<T>(xs: seq<T>, key: T -> real, k: real)
    ensures WithKey(SortDesc(xs, key), key, k) == WithKey(xs, key, k)
  {
    if |xs| > 0 {
      var init := xs[..|xs| - 1];
      SortDescStable(init, key, k);
      SortDescSorted(init, key);
      InsertDescStable(xs[|xs| - 1], SortDesc(init, key), key, k);
      WithKeyAppend(SortDesc(init, key), [xs[|xs| - 1]], key, k);
      WithKeyAppend(init, [xs[|xs| - 1]], key, k);
      assert xs == init + [xs[|xs| - 1]];
    }
  }

  // ---------------------------------------------------------------------
  // print_proposal_patterns
  // ---------------------------------------------------------------------

  /** The two columns of the block list `print_proposal_patterns` reads. */
  datatype PatternRow = PatternRow(propid: string, pattern: string)

  /** One `[len(g2), pattern]` entry of `pattern_list`. */
  datatype PatternCount = PatternCount(count: nat, pattern: string)

  /** The lines printed for one proposal. */
  datatype ProposalPatterns = ProposalPatterns(propid: string, ranked: seq<PatternCount>)

  function RowPropidKey(r: PatternRow): Key { S(r.propid) }
  function PatternKey(r: PatternRow): Key { S(r.pattern) }
  function CountKey(pc: PatternCount): real { pc.count as real }

  /** `pattern_list` for a list of pattern groups, in group order. */
  function CountsOf(gs: seq<Grp<PatternRow>>): (pl: seq<PatternCount>)
    requires forall j :: 0 <= j < |gs| ==> |gs[j].rows| > 0
    ensures |pl| == |gs|
    ensures forall j :: 0 <= j < |gs| ==> pl[j] == PatternCount(|gs[j].rows|, gs[j].rows[0].pattern)
  {
    if |gs| == 0 then [] else [PatternCount(|gs[0].rows|, gs[0].rows[0].pattern)] + CountsOf(gs[1..])
  }

  /** `pattern_list` of one proposal's rows: one entry per pattern, in
      ascending pattern order. */
  function PatternList(group: seq<PatternRow>): seq<PatternCount>
  {
    CountsOf(GroupBy(group, PatternKey))
  }

  /** The ranking printed for one proposal. */
  function Ranked(group: seq<PatternRow>): seq<PatternCount>
  {
    SortDesc(PatternList(group), CountKey)
  }

  /** `print_proposal_patterns`: for each proposal in ascending order, its
      patterns by decreasing frequency. */
  method PrintProposalPatterns(blockList: seq<PatternRow>) returns (listing: seq<ProposalPatterns>)
    ensures |listing| == |GroupBy(blockList, RowPropidKey)|
    ensures forall k :: 0 <= k < |listing| ==>
      var g := GroupBy(blockList, RowPropidKey)[k];
      listing[k] == ProposalPatterns(g.rows[0].propid, Ranked(g.rows))
  {
    listing := RankProposals(GroupBy(blockList, RowPropidKey));
  }

  /** The proposal loop of `print_proposal_patterns`. */
  method RankProposals(gs: seq<Grp<PatternRow>>) returns (listing: seq<ProposalPatterns>)
    requires forall k :: 0 <= k < |gs| ==> |gs[k].rows| > 0
    ensures |listing| == |gs|
    ensures forall k :: 0 <= k < |gs| ==> listing[k] == ProposalPatterns(gs[k].rows[0].propid, Ranked(gs[k].rows))
  {
    listing := [];
    var k := 0;
    while k < |gs|
      invariant k <= |gs|
      invariant |listing| == k
      invariant forall m :: 0 <= m < k ==> listing[m] == ProposalPatterns(gs[m].rows[0].propid, Ranked(gs[m].rows))
    {
      var group := gs[k].rows;
      var ranked := RankPatterns(group);
      listing := listing + [ProposalPatterns(group[0].propid, ranked)];
      k := k + 1;
    }
  }

  /** One proposal's `pattern_list`, sorted by decreasing count. */
  method RankPatterns(group: seq<PatternRow>) returns (ranked: seq<PatternCount>)
    ensures ranked == Ranked(group)
  {
    var patternList := CollectPatterns(group);
    ranked := SortDesc(patternList, CountKey);
  }

  /** The inner loop: `pattern_list.append([len(g2), pattern])` for each
      pattern group. */
  method CollectPatterns(group: seq<PatternRow>) returns (patternList: seq<PatternCount>)
    ensures patternList == PatternList(group)
  {
    var byPattern := GroupBy(group, PatternKey);
    patternList := CountGroups(byPattern);
  }

  /** The loop over the pattern groups of one proposal. */
  method CountGroups(byPattern: seq<Grp<PatternRow>>) returns (patternList: seq<PatternCount>)
    requires forall j :: 0 <= j < |byPattern| ==> |byPattern[j].rows| > 0
    ensures patternList == CountsOf(byPattern)
  {
    patternList := [];
    var j := 0;
    while j < |byPattern|
      invariant j <= |byPattern|
      invariant |patternList| == j
      invariant forall m :: 0 <= m < j ==> patternList[m] == PatternCount(|byPattern[m].rows|, byPattern[m].rows[0].pattern)
    {
      var g2 := byPattern[j].rows;
      patternList := patternList + [PatternCount(|g2|, g2[0].pattern)];
      j := j + 1;
    }
  }

  function SumCounts(pl: seq<PatternCount>): nat
  {
    if |pl| == 0 then 0 else pl[0].count + SumCounts(pl[1..])
  }

  lemma {:induction false} SumCountsFlatten(gs: seq<Grp<PatternRow>>)
    requires forall j :: 0 <= j < |gs| ==> |gs[j].rows| > 0
    ensures SumCounts(CountsOf(gs)) == |Flatten(gs)|
  {
    if |gs| > 0 {
      SumCountsFlatten(gs[1..]);
      assert CountsOf(gs)[1..] == CountsOf(gs[1..]);
    }
  }

  lemma {:induction false} SumCountsInsert(x: PatternCount, ys: seq<PatternCount>)
    ensures SumCounts(InsertDesc(x, ys, CountKey)) == x.count + SumCounts(ys)
  {
    if |ys| > 0 && CountKey(ys[0]) >= CountKey(x) {
      SumCountsInsert(x, ys[1..]);
    }
  }

  lemma {:induction false} SumCountsAppend(a: seq<PatternCount>, b: seq<PatternCount>)
    ensures SumCounts(a + b) == SumCounts(a) + SumCounts(b)
  {
    if |a| > 0 {
      SumCountsAppend(a[1..], b);
      assert (a + b)[1..] == a[1..] + b;
    } else {
      assert a + b == b;
    }
  }

  lemma {:induction false} SumCountsSorted(xs: seq<PatternCount>)
    ensures SumCounts(SortDesc(xs, CountKey)) == SumCounts(xs)
  {
    if |xs| > 0 {
      var init := xs[..|xs| - 1];
      SumCountsSorted(init);
      SumCountsInsert(xs[|xs| - 1], SortDesc(init, CountKey));
      SumCountsAppend(init, [xs[|xs| - 1]]);
      assert xs == init + [xs[|xs| - 1]];
    }
  }

  /** A rearrangement of a sequence whose elements differ under `f` still
      has elements that differ under `f`. */
  lemma DistinctByPermutation<T, U>(a: seq<T>, b: seq<T>, f: T -> U)
    requires multiset(a) == multiset(b)
    requires forall i, j :: 0 <= i < j < |a| ==> f(a[i]) != f(a[j])
    ensures forall i, j :: 0 <= i < j < |b| ==> f(b[i]) != f(b[j])
  {
    forall i, j | 0 <= i < j < |b| ensures f(b[i]) != f(b[j]) {
      if f(b[i]) == f(b[j]) {
        assert b[i] in multiset(a) && b[j] in multiset(a);
        var p :| 0 <= p < |a| && a[p] == b[i];
        var q :| 0 <= q < |a| && a[q] == b[j];
        if p == q {
          assert b == b[..j] + b[j..];
          assert b[i] in b[..j] && b[j] in b[j..];
          assert multiset(b)[b[i]] >= 2;
          MultiplicityOne(a, f, p);
        }
      }
    }
  }

  lemma MultiplicityOne<T, U>(a: seq<T>, f: T -> U, p: nat)
    requires p < |a|
    requires forall i, j :: 0 <= i < j < |a| ==> f(a[i]) != f(a[j])
    ensures multiset(a)[a[p]] == 1
  {
    assert a == a[..p] + [a[p]] + a[p + 1..];
    assert a[p] !in a[..p] by {
      forall i | 0 <= i < p ensures a[..p][i] != a[p] {
        assert f(a[i]) != f(a[p]);
      }
    }
    var rest := a[p + 1..];
    assert a[p] !in rest by {
      forall i | 0 <= i < |rest| ensures rest[i] != a[p] {
        assert rest[i] == a[p + 1 + i];
        assert f(a[p]) != f(a[p + 1 + i]);
      }
    }
  }

  /** `pattern_list` holds one entry per pattern of the proposal's rows,
      with the number of rows showing it. */
  lemma PatternListCounts(group: seq<PatternRow>)
    ensures var pl := PatternList(group);
      && (forall j :: 0 <= j < |pl| ==> pl[j].count == |Group(group, PatternKey, S(pl[j].pattern))| > 0)
      && (forall r :: r in group ==> exists j :: 0 <= j < |pl| && pl[j].pattern == r.pattern)
  {
    var gs := GroupBy(group, PatternKey);
    var pl := PatternList(group);
    forall j | 0 <= j < |gs| ensures gs[j].key == S(pl[j].pattern) {
      GroupMembers(group, PatternKey, gs[j].key);
      assert gs[j].rows[0] in gs[j].rows;
    }
    forall r | r in group ensures exists j :: 0 <= j < |pl| && pl[j].pattern == r.pattern {
      GroupByCovers(group, PatternKey);
      var j :| 0 <= j < |gs| && gs[j].key == PatternKey(r);
    }
  }

  /** No pattern is listed twice. */
  lemma PatternListDistinct(group: seq<PatternRow>)
    ensures var pl := PatternList(group);
      forall i, j :: 0 <= i < j < |pl| ==> pl[i].pattern != pl[j].pattern
  {
    var gs := GroupBy(group, PatternKey);
    var pl := PatternList(group);
    forall j | 0 <= j < |gs| ensures gs[j].key == S(pl[j].pattern) {
      GroupMembers(group, PatternKey, gs[j].key);
      assert gs[j].rows[0] in gs[j].rows;
    }
    GroupByAscending(group, PatternKey);
    forall i, j | 0 <= i < j < |pl| ensures pl[i].pattern != pl[j].pattern {
      assert KeyLt(gs[i].key, gs[j].key);
      KeyLtIrreflexive(gs[i].key);
    }
  }

  /** The counts of `pattern_list` add up to the proposal's row count. */
  lemma PatternListTotal(group: seq<PatternRow>)
    ensures SumCounts(PatternList(group)) == |group|
  {
    var gs := GroupBy(group, PatternKey);
    SumCountsFlatten(gs);
    GroupByPermutation(group, PatternKey);
    assert |multiset(Flatten(gs))| == |multiset(group)|;
  }

  /** What `print_proposal_patterns` lists for a proposal: every pattern of
      its rows exactly once, with the number of rows showing it, most
      frequent first; the counts add up to the proposal's row count. */
  lemma RankedPatterns(group: seq<PatternRow>)
    ensures var ranked := Ranked(group);
      && NonIncreasing(ranked, CountKey)
      && (forall pc :: pc in ranked ==> pc.count == |Group(group, PatternKey, S(pc.pattern))| > 0)
      && (forall r :: r in group ==> exists pc :: pc in ranked && pc.pattern == r.pattern)
      && (forall i, j :: 0 <= i < j < |ranked| ==> ranked[i].pattern != ranked[j].pattern)
      && SumCounts(ranked) == |group|
  {
    var pl := PatternList(group);
    var ranked := Ranked(group);
    PatternListCounts(group);
    PatternListDistinct(group);
    PatternListTotal(group);
    SortDescSorted(pl, CountKey);
    forall pc | pc in ranked ensures pc.count == |Group(group, PatternKey, S(pc.pattern))| > 0 {
      assert pc in multiset(pl);
    }
    forall r | r in group ensures exists pc :: pc in ranked && pc.pattern == r.pattern {
      var j :| 0 <= j < |pl| && pl[j].pattern == r.pattern;
      assert pl[j] in multiset(ranked);
    }
    DistinctByPermutation(pl, ranked, (pc: PatternCount) => pc.pattern);
    SumCountsSorted(pl);
  }

  // ---------------------------------------------------------------------
  // plot_orphan_percentages
  // ---------------------------------------------------------------------

  function PercentKey(e: (string, real)): real { e.1 }

  /** `perc_data` after its in-place sort: the proposals of the
      `orphan_data` items, in the order given, by decreasing percentage. */
  function OrphanPercentages(items: seq<(string, PropData)>): seq<(string, real)>
    requires forall i :: 0 <= i < |items| ==> items[i].1.percentage.Some?
  {
    SortDesc(seq(|items|, i requires 0 <= i < |items| => (items[i].0, items[i].1.percentage.value)), PercentKey)
  }

  /** The bars run from the largest orphaned share to the smallest, one per
      item, proposals with equal shares keeping their item order. */
  lemma PercentagesRanked(items: seq<(string, PropData)>)
    requires forall i :: 0 <= i < |items| ==> items[i].1.percentage.Some?
    ensures var percData := seq(|items|, i requires 0 <= i < |items| => (items[i].0, items[i].1.percentage.value));
      && NonIncreasing(OrphanPercentages(items), PercentKey)
      && multiset(OrphanPercentages(items)) == multiset(percData)
      && forall k :: WithKey(OrphanPercentages(items), PercentKey, k) == WithKey(percData, PercentKey, k)
  {
    var percData := seq(|items|, i requires 0 <= i < |items| => (items[i].0, items[i].1.percentage.value));
    SortDescSorted(percData, PercentKey);
    forall k ensures WithKey(OrphanPercentages(items), PercentKey, k) == WithKey(percData, PercentKey, k) {
      SortDescStable(percData, PercentKey, k);
    }
  }
}
