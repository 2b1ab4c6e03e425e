/**
 * The consistency checks run over the frame table: frames are grouped by
 * observation time, by request, or by exposure (request and time), and each
 * group is tested for columns that take more than one value. Printing is
 * replaced by returning what would be printed.
 */
module CheckStructure {
  import opened Wrappers
  import opened Grouping
  import opened Frames
  import LcoDefault
  import opened LcoHelpers

  // ---------------------------------------------------------------------
  // Columns that take more than one value inside a group
  // ---------------------------------------------------------------------

  /** One column of a group, as `group[param]`. */
  function Col<V>(g: seq<Frame>, c: Frame -> V): (col: seq<V>)
    ensures |col| == |g| && forall j :: 0 <= j < |g| ==> col[j] == c(g[j])
  {
    seq(|g|, j requires 0 <= j < |g| => c(g[j]))
  }

  /** `len(group) > 1 and len(group[param].unique()) > 1`. */
  predicate Mixed<V(==,!new)>(g: seq<Frame>, c: Frame -> V)
  {
    |g| > 1 && |Unique(Col(g, c))| > 1
  }

  /** A group is mixed in a column exactly when some row disagrees with the
      first one; the size guard adds nothing. */
  lemma MixedMeans<V(!new)>(g: seq<Frame>, c: Frame -> V)
    ensures Mixed(g, c) <==> exists j :: 0 <= j < |g| && c(g[j]) != c(g[0])
  {
    var col := Col(g, c);
    UniqueMoreThanOne(col);
    if exists j :: 0 <= j < |g| && c(g[j]) != c(g[0]) {
      var j :| 0 <= j < |g| && c(g[j]) != c(g[0]);
      assert col[j] != col[0];
    }
  }

  /** A group of `groupby` is mixed in a column exactly when two rows of the
      whole table carrying the group's key disagree in that column. */
  lemma GroupMixed<V(!new)>(df: seq<Frame>, key: Frame -> Key, c: Frame -> V, i: nat)
    requires i < |GroupBy(df, key)|
    ensures var g := GroupBy(df, key)[i];
      Mixed(g.rows, c) <==>
        exists x, y :: x in df && y in df && key(x) == g.key && key(y) == g.key && c(x) != c(y)
  {
    var g := GroupBy(df, key)[i];
    GroupMembers(df, key, g.key);
    MixedMeans(g.rows, c);
    if Mixed(g.rows, c) {
      var j :| 0 <= j < |g.rows| && c(g.rows[j]) != c(g.rows[0]);
      assert g.rows[j] in g.rows && g.rows[0] in g.rows;
    }
    if exists x, y :: x in df && y in df && key(x) == g.key && key(y) == g.key && c(x) != c(y) {
      var x, y :| x in df && y in df && key(x) == g.key && key(y) == g.key && c(x) != c(y);
      MixedWitness(g.rows, c, x, y);
    }
  }

  /** Two rows of a group that disagree make it mixed. */
  lemma MixedWitness<V(!new)>(g: seq<Frame>, c: Frame -> V, x: Frame, y: Frame)
    requires x in g && y in g && c(x) != c(y)
    ensures Mixed(g, c)
  {
    MixedMeans(g, c);
    var jx :| 0 <= jx < |g| && g[jx] == x;
    var jy :| 0 <= jy < |g| && g[jy] == y;
    assert c(g[jx]) != c(g[0]) || c(g[jy]) != c(g[0]);
  }

  /** The number of groups mixed in a column: what the per-parameter
      counters of the checks end up holding. */
  function CountMixed<V(==,!new)>(gs: seq<Grp<Frame>>, c: Frame -> V): nat
  {
    if |gs| == 0 then 0
    else CountMixed(gs[..|gs| - 1], c) + (if Mixed(gs[|gs| - 1].rows, c) then 1 else 0)
  }

  lemma {:induction false} CountMixedZero<V(!new)>(gs: seq<Grp<Frame>>, c: Frame -> V)
    ensures CountMixed(gs, c) == 0 <==> forall i :: 0 <= i < |gs| ==> !Mixed(gs[i].rows, c)
  {
    if |gs| > 0 {
      CountMixedZero(gs[..|gs| - 1], c);
      assert forall i :: 0 <= i < |gs| - 1 ==> gs[..|gs| - 1][i] == gs[i];
    }
  }

  /** No group is counted exactly when the column is a function of the key:
      rows sharing a key agree in the column. */
  lemma Homogeneous<V(!new)>(df: seq<Frame>, key: Frame -> Key, c: Frame -> V)
    ensures CountMixed(GroupBy(df, key), c) == 0 <==>
      forall x, y :: x in df && y in df && key(x) == key(y) ==> c(x) == c(y)
  {
    var gs := GroupBy(df, key);
    CountMixedZero(gs, c);
    if CountMixed(gs, c) == 0 {
      forall x, y | x in df && y in df && key(x) == key(y) ensures c(x) == c(y) {
        GroupByCovers(df, key);
        var i :| 0 <= i < |gs| && gs[i].key == key(x);
        GroupMixed(df, key, c, i);
      }
    } else {
      var i :| 0 <= i < |gs| && Mixed(gs[i].rows, c);
      GroupMixed(df, key, c, i);
    }
  }

  // ---------------------------------------------------------------------
  // check_reqnums
  // ---------------------------------------------------------------------

  function ReqnumOf(f: Frame): int { f.reqnum }

  /** A recorded case: the observation time and the distinct REQNUMs seen at it. */
  datatype ReqnumCase = ReqnumCase(dateObs: string, reqnums: seq<int>)

  /** The cases `check_reqnums` records, in group order. */
  function ReqnumCases(gs: seq<Grp<Frame>>): seq<ReqnumCase>
  {
    if |gs| == 0 then []
    else
      var g := gs[|gs| - 1].rows;
      ReqnumCases(gs[..|gs| - 1])
        + (if Mixed(g, ReqnumOf) then [ReqnumCase(g[0].dateObs, Unique(Col(g, ReqnumOf)))] else [])
  }

  /** `check_reqnums`: walks the DATE_OBS groups and records each one whose
      frames belong to more than one request; `triggered` selects the warning
      over the success message. */
  method CheckReqnums(df: seq<Frame>) returns (triggered: bool, trigCases: seq<ReqnumCase>)
    ensures trigCases == ReqnumCases(GroupBy(df, DateObsKey))
    ensures triggered <==> |trigCases| > 0
  {
    var groups := GroupBy(df, DateObsKey);
    triggered, trigCases := RecordReqnumCases(groups);
  }

  /** The group loop of `check_reqnums`. */
  method RecordReqnumCases(groups: seq<Grp<Frame>>) returns (triggered: bool, trigCases: seq<ReqnumCase>)
    requires forall k :: 0 <= k < |groups| ==> |groups[k].rows| > 0
    ensures trigCases == ReqnumCases(groups)
    ensures triggered <==> |trigCases| > 0
  {
    triggered := false;
    trigCases := [];
    var i := 0;
    while i < |groups|
      invariant i <= |groups|
      invariant trigCases == ReqnumCases(groups[..i])
      invariant triggered <==> |trigCases| > 0
    {
      var group := groups[i].rows;
      ReqnumCasesStep(groups, i);
      if |group| > 1 {
        var reqnums := Unique(Col(group, ReqnumOf));
        if |reqnums| > 1 {
          triggered := true;
          trigCases := trigCases + [ReqnumCase(group[0].dateObs, reqnums)];
        }
      }
      i := i + 1;
    }
    assert groups[..i] == groups;
  }

  lemma ReqnumCasesStep(gs: seq<Grp<Frame>>, i: nat)
    requires i < |gs| && |gs[i].rows| > 0
    ensures var g := gs[i].rows;
      ReqnumCases(gs[..i + 1]) == ReqnumCases(gs[..i])
        + (if Mixed(g, ReqnumOf) then [ReqnumCase(g[0].dateObs, Unique(Col(g, ReqnumOf)))] else [])
  {
    assert gs[..i + 1][..i] == gs[..i];
  }

  lemma {:induction false} ReqnumCasesMembers(gs: seq<Grp<Frame>>)
    ensures forall c :: c in ReqnumCases(gs) <==>
      exists i :: 0 <= i < |gs| && Mixed(gs[i].rows, ReqnumOf)
        && c == ReqnumCase(gs[i].rows[0].dateObs, Unique(Col(gs[i].rows, ReqnumOf)))
  {
    if |gs| > 0 {
      ReqnumCasesMembers(gs[..|gs| - 1]);
      assert forall i :: 0 <= i < |gs| - 1 ==> gs[..|gs| - 1][i] == gs[i];
    }
  }

  /** Every reported time has two frames taken at it that belong to
      different requests. */
  lemma ReqnumsReportedSound(df: seq<Frame>)
    ensures forall c :: c in ReqnumCases(GroupBy(df, DateObsKey)) ==>
      exists x, y :: x in df && y in df && x.dateObs == c.dateObs && y.dateObs == c.dateObs && x.reqnum != y.reqnum
  {
    var gs := GroupBy(df, DateObsKey);
    ReqnumCasesMembers(gs);
    forall c | c in ReqnumCases(gs)
      ensures exists x, y :: x in df && y in df && x.dateObs == c.dateObs && y.dateObs == c.dateObs && x.reqnum != y.reqnum
    {
      var i :| 0 <= i < |gs| && Mixed(gs[i].rows, ReqnumOf)
        && c == ReqnumCase(gs[i].rows[0].dateObs, Unique(Col(gs[i].rows, ReqnumOf)));
      GroupMembers(df, DateObsKey, gs[i].key);
      assert gs[i].rows[0] in gs[i].rows;
      GroupMixed(df, DateObsKey, ReqnumOf, i);
    }
  }

  /** Two simultaneous frames of different requests get their time
      reported; so the success message is printed exactly when simultaneous
      frames always share their REQNUM. */
  lemma ReqnumsReportedComplete(df: seq<Frame>)
    ensures forall x, y :: x in df && y in df && x.dateObs == y.dateObs && x.reqnum != y.reqnum ==>
      exists c :: c in ReqnumCases(GroupBy(df, DateObsKey)) && c.dateObs == x.dateObs
  {
    var gs := GroupBy(df, DateObsKey);
    ReqnumCasesMembers(gs);
    forall x, y | x in df && y in df && x.dateObs == y.dateObs && x.reqnum != y.reqnum
      ensures exists c :: c in ReqnumCases(gs) && c.dateObs == x.dateObs
    {
      GroupByCovers(df, DateObsKey);
      var i :| 0 <= i < |gs| && gs[i].key == DateObsKey(x);
      GroupMembers(df, DateObsKey, gs[i].key);
      MixedWitness(gs[i].rows, ReqnumOf, x, y);
      assert gs[i].rows[0] in gs[i].rows;
      var c := ReqnumCase(gs[i].rows[0].dateObs, Unique(Col(gs[i].rows, ReqnumOf)));
      assert c in ReqnumCases(gs);
    }
  }

  // ---------------------------------------------------------------------
  // Per-parameter counters (check_request_homogeneity,
  // check_exposure_homogeneity)
  // ---------------------------------------------------------------------

  /** The columns the homogeneity checks inspect. */
  datatype Param = PROPID | OBJECT | INSTRUME | EXPTIME | FILTER

  datatype Value = Text(s: string) | Number(r: real)

  function ColumnOf(p: Param): Frame -> Value
  {
    match p
    case PROPID => (f: Frame) => Text(f.propid)
    case OBJECT => (f: Frame) => Text(f.objectName)
    case INSTRUME => (f: Frame) => Text(f.instrume)
    case EXPTIME => (f: Frame) => Number(f.exptime)
    case FILTER => (f: Frame) => Text(f.filter)
  }

  const RequestParams: seq<Param> := [PROPID, OBJECT, INSTRUME]
  const ExposureParams: seq<Param> := [EXPTIME, OBJECT, INSTRUME, FILTER]

  /** A counter's value, zero when the dictionary has no entry. */
  function Get(m: map<Param, nat>, p: Param): nat
  {
    if p in m then m[p] else 0
  }

  /** `counts[param] += 1`, falling back to `counts[param] = 1` when the
      entry is missing. */
  function Bump(m: map<Param, nat>, p: Param): map<Param, nat>
  {
    m[p := Get(m, p) + 1]
  }

  /** The counters after the parameter loop has run over one group. */
  function TallyGroup(m: map<Param, nat>, g: seq<Frame>, params: seq<Param>): map<Param, nat>
  {
    if |params| == 0 then m
    else
      var m' := TallyGroup(m, g, params[..|params| - 1]);
      var p := params[|params| - 1];
      if Mixed(g, ColumnOf(p)) then Bump(m', p) else m'
  }

  /** The counters after the group loop has run over the groups. */
  function Tally(gs: seq<Grp<Frame>>, params: seq<Param>): map<Param, nat>
  {
    if |gs| == 0 then map[]
    else TallyGroup(Tally(gs[..|gs| - 1], params), gs[|gs| - 1].rows, params)
  }

  lemma {:induction false} TallyGroupMeaning(m: map<Param, nat>, g: seq<Frame>, params: seq<Param>)
    requires Distinct(params)
    ensures var r := TallyGroup(m, g, params);
      && (forall p :: p in r <==> p in m || (p in params && Mixed(g, ColumnOf(p))))
      && (forall p :: Get(r, p) == Get(m, p) + (if p in params && Mixed(g, ColumnOf(p)) then 1 else 0))
  {
    if |params| > 0 {
      var init := params[..|params| - 1];
      TallyGroupMeaning(m, g, init);
      assert params == init + [params[|params| - 1]];
    }
  }

  /** Each counter holds the number of groups mixed in its column, and a
      parameter has an entry exactly when that number is positive; a column
      the loop does not inspect never gets an entry. */
  lemma {:induction false} TallyMeaning(gs: seq<Grp<Frame>>, params: seq<Param>)
    requires Distinct(params)
    ensures var r := Tally(gs, params);
      && (forall p :: Get(r, p) == (if p in params then CountMixed(gs, ColumnOf(p)) else 0))
      && (forall p :: p in r <==> Get(r, p) > 0)
  {
    if |gs| > 0 {
      var init := gs[..|gs| - 1];
      TallyMeaning(init, params);
      TallyGroupMeaning(Tally(init, params), gs[|gs| - 1].rows, params);
    }
  }

  /** The distinct OBSTYPEs of a group, sorted: the tuple
      `check_request_homogeneity` collects. */
  function TypeTuple(g: seq<Frame>): (t: seq<string>)
  {
    var ks := SortedKeys(Col(g, ObstypeKey));
    seq(|ks|, i requires 0 <= i < |ks| => if ks[i].S? then ks[i].s else "")
  }

  /** The OBSTYPEs occurring in a group. */
  function Obstypes(g: seq<Frame>): set<string>
  {
    set f | f in g :: f.obstype
  }

  /** The tuple lists each OBSTYPE of the group once, in ascending order. */
  lemma TypeTupleMeaning(g: seq<Frame>)
    ensures var t := TypeTuple(g);
      && (forall i, j :: 0 <= i < j < |t| ==> StrLt(t[i], t[j]))
      && (forall s :: s in t <==> s in Obstypes(g))
  {
    var col := Col(g, ObstypeKey);
    var ks := SortedKeys(col);
    var t := TypeTuple(g);
    forall i | 0 <= i < |ks| ensures ks[i].S? && t[i] == ks[i].s {
      assert ks[i] in col;
    }
    forall s ensures s in t <==> s in Obstypes(g) {
      if s in t {
        var i :| 0 <= i < |t| && t[i] == s;
        assert ks[i] in col;
        var j :| 0 <= j < |g| && col[j] == ks[i];
        assert g[j] in g;
      }
      if s in Obstypes(g) {
        var f :| f in g && f.obstype == s;
        var j :| 0 <= j < |g| && g[j] == f;
        assert col[j] == S(s);
        assert S(s) in col;
        assert S(s) in ks;
        var i :| 0 <= i < |ks| && ks[i] == S(s);
        assert t[i] == s;
      }
    }
  }

  /** The keys of a group's OBSTYPE column are its OBSTYPEs. */
  lemma ObstypeKeys(g: seq<Frame>)
    ensures forall k :: k in Col(g, ObstypeKey) <==> k.S? && k.s in Obstypes(g)
  {
    var col := Col(g, ObstypeKey);
    forall k ensures k in col <==> k.S? && k.s in Obstypes(g) {
      if k.S? && k.s in Obstypes(g) {
        var f :| f in g && f.obstype == k.s;
        var j :| 0 <= j < |g| && g[j] == f;
        assert col[j] == k;
      }
    }
  }

  /** The tuple depends only on which OBSTYPEs occur, not on the order or
      multiplicity of the group's rows. */
  lemma TypeTupleOrderFree(g: seq<Frame>, h: seq<Frame>)
    requires Obstypes(g) == Obstypes(h)
    ensures TypeTuple(g) == TypeTuple(h)
  {
    ObstypeKeys(g);
    ObstypeKeys(h);
    AscendingUnique(SortedKeys(Col(g, ObstypeKey)), SortedKeys(Col(h, ObstypeKey)));
  }

  /** A REQNUM group of several frames mixed in one of the inspected columns. */
  predicate Inhomogeneous(g: seq<Frame>, params: seq<Param>)
  {
    exists p :: p in params && Mixed(g, ColumnOf(p))
  }

  /** `multiple_target_type_set` once the loop has run over the groups. */
  function TypeSet(gs: seq<Grp<Frame>>, params: seq<Param>): set<seq<string>>
  {
    if |gs| == 0 then {}
    else
      var g := gs[|gs| - 1].rows;
      TypeSet(gs[..|gs| - 1], params) + (if Inhomogeneous(g, params) then {TypeTuple(g)} else {})
  }

  lemma {:induction false} TypeSetMembers(gs: seq<Grp<Frame>>, params: seq<Param>)
    ensures forall t :: t in TypeSet(gs, params) <==>
      exists i :: 0 <= i < |gs| && Inhomogeneous(gs[i].rows, params) && t == TypeTuple(gs[i].rows)
  {
    if |gs| > 0 {
      TypeSetMembers(gs[..|gs| - 1], params);
      assert forall i :: 0 <= i < |gs| - 1 ==> gs[..|gs| - 1][i] == gs[i];
    }
  }

  /** The parameter loop of `check_request_homogeneity` over one group. */
  method TallyRequestGroup(counts: map<Param, nat>, types: set<seq<string>>, group: seq<Frame>, params: seq<Param>)
    returns (counts': map<Param, nat>, types': set<seq<string>>)
    ensures counts' == TallyGroup(counts, group, params)
    ensures types' == types + (if Inhomogeneous(group, params) then {TypeTuple(group)} else {})
  {
    counts', types' := counts, types;
    var k := 0;
    while k < |params|
      invariant k <= |params|
      invariant counts' == TallyGroup(counts, group, params[..k])
      invariant types' == types + (if Inhomogeneous(group, params[..k]) then {TypeTuple(group)} else {})
    {
      var param := params[k];
      assert params[..k + 1][..k] == params[..k];
      InhomogeneousStep(group, params, k);
      if |group| > 1 && |Unique(Col(group, ColumnOf(param)))| > 1 {
        types' := types' + {TypeTuple(group)};
        counts' := Bump(counts', param);
      }
      k := k + 1;
    }
    assert params[..k] == params;
  }

  lemma InhomogeneousStep(g: seq<Frame>, params: seq<Param>, k: nat)
    requires k < |params|
    ensures Inhomogeneous(g, params[..k + 1]) <==>
      Inhomogeneous(g, params[..k]) || Mixed(g, ColumnOf(params[k]))
  {
    assert params[..k + 1] == params[..k] + [params[k]];
  }

  /** `check_request_homogeneity`: over the REQNUM groups, counts per
      inspected column the groups that are not homogeneous in it, and
      collects the sorted OBSTYPE tuples of those groups. A parameter
      without a counter is reported homogeneous. */
  method CheckRequestHomogeneity(df: seq<Frame>)
    returns (triggerCases: map<Param, nat>, multipleTargetTypeSet: set<seq<string>>, homogeneous: seq<bool>)
    ensures triggerCases == Tally(GroupBy(df, ReqnumKey), RequestParams)
    ensures multipleTargetTypeSet == TypeSet(GroupBy(df, ReqnumKey), RequestParams)
    ensures |homogeneous| == |RequestParams|
    ensures forall k :: 0 <= k < |RequestParams| ==> (homogeneous[k] <==> RequestParams[k] !in triggerCases)
  {
    var groups := GroupBy(df, ReqnumKey);
    triggerCases, multipleTargetTypeSet := TallyRequests(groups);
    homogeneous := [];
    var k := 0;
    while k < |RequestParams|
      invariant k <= |RequestParams|
      invariant |homogeneous| == k
      invariant forall j :: 0 <= j < k ==> (homogeneous[j] <==> RequestParams[j] !in triggerCases)
    {
      homogeneous := homogeneous + [RequestParams[k] !in triggerCases];
      k := k + 1;
    }
  }

  /** The group loop of `check_request_homogeneity`. */
  method TallyRequests(groups: seq<Grp<Frame>>)
    returns (triggerCases: map<Param, nat>, multipleTargetTypeSet: set<seq<string>>)
    ensures triggerCases == Tally(groups, RequestParams)
    ensures multipleTargetTypeSet == TypeSet(groups, RequestParams)
  {
    triggerCases, multipleTargetTypeSet := map[], {};
    var i := 0;
    while i < |groups|
      invariant i <= |groups|
      invariant triggerCases == Tally(groups[..i], RequestParams)
      invariant multipleTargetTypeSet == TypeSet(groups[..i], RequestParams)
    {
      TallyStep(groups, RequestParams, i);
      triggerCases, multipleTargetTypeSet := TallyRequestGroup(triggerCases, multipleTargetTypeSet, groups[i].rows, RequestParams);
      i := i + 1;
    }
    assert groups[..i] == groups;
  }

  lemma TallyStep(gs: seq<Grp<Frame>>, params: seq<Param>, i: nat)
    requires i < |gs|
    ensures Tally(gs[..i + 1], params) == TallyGroup(Tally(gs[..i], params), gs[i].rows, params)
    ensures TypeSet(gs[..i + 1], params) ==
      TypeSet(gs[..i], params) + (if Inhomogeneous(gs[i].rows, params) then {TypeTuple(gs[i].rows)} else {})
  {
    assert gs[..i + 1][..i] == gs[..i];
  }

  /** A parameter is reported homogeneous exactly when all frames of a
      request agree in it; otherwise its counter is the number of requests
      that disagree. */
  lemma RequestReport(df: seq<Frame>, p: Param)
    requires p in RequestParams
    ensures var r := Tally(GroupBy(df, ReqnumKey), RequestParams);
      && (p !in r <==> forall x, y :: x in df && y in df && x.reqnum == y.reqnum ==> ColumnOf(p)(x) == ColumnOf(p)(y))
      && Get(r, p) == CountMixed(GroupBy(df, ReqnumKey), ColumnOf(p))
  {
    TallyMeaning(GroupBy(df, ReqnumKey), RequestParams);
    Homogeneous(df, ReqnumKey, ColumnOf(p));
  }

  /** Each collected tuple is the OBSTYPE tuple of a request whose frames
      disagree in PROPID, OBJECT or INSTRUME, and every such request
      contributes its tuple. */
  lemma RequestTypeSet(df: seq<Frame>)
    ensures var gs := GroupBy(df, ReqnumKey);
      forall t :: t in TypeSet(gs, RequestParams) <==>
        exists i :: 0 <= i < |gs| && Inhomogeneous(gs[i].rows, RequestParams) && t == TypeTuple(gs[i].rows)
  {
    TypeSetMembers(GroupBy(df, ReqnumKey), RequestParams);
  }

  /** The parameter loop of `check_exposure_homogeneity` over one group. */
  method TallyGroupCounts(counts: map<Param, nat>, group: seq<Frame>, params: seq<Param>)
    returns (counts': map<Param, nat>)
    ensures counts' == TallyGroup(counts, group, params)
  {
    counts' := counts;
    var k := 0;
    while k < |params|
      invariant k <= |params|
      invariant counts' == TallyGroup(counts, group, params[..k])
    {
      assert params[..k + 1][..k] == params[..k];
      if |group| > 1 && |Unique(Col(group, ColumnOf(params[k])))| > 1 {
        counts' := Bump(counts', params[k]);
      }
      k := k + 1;
    }
    assert params[..k] == params;
  }

  /** A group of a single frame never moves a counter. */
  lemma {:induction false} SingleFrameUncounted(m: map<Param, nat>, g: seq<Frame>, params: seq<Param>)
    requires |g| <= 1
    ensures TallyGroup(m, g, params) == m
  {
    if |params| > 0 {
      SingleFrameUncounted(m, g, params[..|params| - 1]);
    }
  }

  // ---------------------------------------------------------------------
  // Histogram of exposure sizes (check_exposure_homogeneity)
  // ---------------------------------------------------------------------

  /** The number of groups of `n` frames. */
  function SizeCount(gs: seq<Grp<Frame>>, n: nat): nat
  {
    if |gs| == 0 then 0
    else SizeCount(gs[..|gs| - 1], n) + (if |gs[|gs| - 1].rows| == n then 1 else 0)
  }

  /** The groups of `n` frames, in group order. */
  function SizedGroups(gs: seq<Grp<Frame>>, n: nat): seq<seq<Frame>>
  {
    if |gs| == 0 then []
    else SizedGroups(gs[..|gs| - 1], n) + (if |gs[|gs| - 1].rows| == n then [gs[|gs| - 1].rows] else [])
  }

  /** The exposures of `n` frames kept as examples are exactly as many as
      the histogram counts, and all have `n` frames. */
  lemma {:induction false} SizedGroupsCount(gs: seq<Grp<Frame>>, n: nat)
    ensures |SizedGroups(gs, n)| == SizeCount(gs, n)
    ensures forall k :: 0 <= k < |SizedGroups(gs, n)| ==> |SizedGroups(gs, n)[k]| == n
  {
    if |gs| > 0 {
      SizedGroupsCount(gs[..|gs| - 1], n);
    }
  }

  /** The histogram's bins below `m`, added up. */
  function CountBelow(gs: seq<Grp<Frame>>, m: nat): nat
  {
    if m == 0 then 0 else CountBelow(gs, m - 1) + SizeCount(gs, m - 1)
  }

  /** The number of groups of fewer than `m` frames. */
  function SmallGroups(gs: seq<Grp<Frame>>, m: nat): nat
  {
    if |gs| == 0 then 0
    else SmallGroups(gs[..|gs| - 1], m) + (if |gs[|gs| - 1].rows| < m then 1 else 0)
  }

  lemma {:induction false} SmallGroupsStep(gs: seq<Grp<Frame>>, m: nat)
    ensures SmallGroups(gs, m + 1) == SmallGroups(gs, m) + SizeCount(gs, m)
  {
    if |gs| > 0 {
      SmallGroupsStep(gs[..|gs| - 1], m);
    }
  }

  lemma {:induction false} CountBelowSmall(gs: seq<Grp<Frame>>, m: nat)
    ensures CountBelow(gs, m) == SmallGroups(gs, m)
  {
    if m == 0 {
      SmallGroupsNone(gs);
    } else {
      CountBelowSmall(gs, m - 1);
      SmallGroupsStep(gs, m - 1);
    }
  }

  lemma {:induction false} SmallGroupsNone(gs: seq<Grp<Frame>>)
    ensures SmallGroups(gs, 0) == 0
  {
    if |gs| > 0 {
      SmallGroupsNone(gs[..|gs| - 1]);
    }
  }

  lemma {:induction false} SmallGroupsAll(gs: seq<Grp<Frame>>, m: nat)
    requires forall i :: 0 <= i < |gs| ==> |gs[i].rows| < m
    ensures SmallGroups(gs, m) == |gs|
  {
    if |gs| > 0 {
      SmallGroupsAll(gs[..|gs| - 1], m);
    }
  }

  lemma {:induction false} GroupSize<T>(rows: seq<T>, key: T -> Key, k: Key)
    ensures |Group(rows, key, k)| <= |rows|
  {
    if |rows| > 0 {
      GroupSize(rows[..|rows| - 1], key, k);
    }
  }

  /** The histogram of exposure sizes accounts for every exposure once: its
      bins from 0 to the table size add up to the number of groups. */
  lemma FrameNumsTotal(df: seq<Frame>)
    ensures CountBelow(GroupBy(df, ExposureKey), |df| + 1) == |GroupBy(df, ExposureKey)|
  {
    var gs := GroupBy(df, ExposureKey);
    forall i | 0 <= i < |gs| ensures |gs[i].rows| < |df| + 1 {
      GroupSize(df, ExposureKey, gs[i].key);
    }
    CountBelowSmall(gs, |df| + 1);
    SmallGroupsAll(gs, |df| + 1);
  }

  /** The histogram after the first `i` groups. */
  ghost predicate HistogramOf(frameNums: map<nat, nat>, examples: map<nat, seq<seq<Frame>>>, gs: seq<Grp<Frame>>)
  {
    && examples.Keys == frameNums.Keys
    && (forall n :: n in frameNums <==> SizeCount(gs, n) > 0)
    && (forall n :: n in frameNums ==> frameNums[n] == SizeCount(gs, n))
    && (forall n :: n in examples ==> examples[n] == SizedGroups(gs, n))
  }

  /** The histogram update of one group: `frame_nums[n] += 1` and
      `frame_num_examples[n].append(group)`, or both entries created. */
  method CountSize(frameNums: map<nat, nat>, examples: map<nat, seq<seq<Frame>>>, gs: seq<Grp<Frame>>, i: nat)
    returns (frameNums': map<nat, nat>, examples': map<nat, seq<seq<Frame>>>)
    requires i < |gs| && HistogramOf(frameNums, examples, gs[..i])
    ensures HistogramOf(frameNums', examples', gs[..i + 1])
  {
    var group := gs[i].rows;
    var n := |group|;
    assert gs[..i + 1][..i] == gs[..i];
    assert forall m :: SizeCount(gs[..i + 1], m) == SizeCount(gs[..i], m) + (if m == n then 1 else 0);
    assert forall m :: SizedGroups(gs[..i + 1], m) == SizedGroups(gs[..i], m) + (if m == n then [group] else []);
    SizedGroupsCount(gs[..i], n);
    if n in frameNums {
      frameNums' := frameNums[n := frameNums[n] + 1];
      examples' := examples[n := examples[n] + [group]];
    } else {
      frameNums' := frameNums[n := 1];
      examples' := examples[n := [group]];
    }
  }

  /** `check_exposure_homogeneity`: over the (REQNUM, DATE_OBS) groups,
      counts per inspected column the groups that are not homogeneous in
      it, and keeps a histogram of group sizes with the groups of each
      size. */
  method CheckExposureHomogeneity(df: seq<Frame>)
    returns (trigCases: map<Param, nat>, frameNums: map<nat, nat>, frameNumExamples: map<nat, seq<seq<Frame>>>)
    ensures trigCases == Tally(GroupBy(df, ExposureKey), ExposureParams)
    ensures frameNumExamples.Keys == frameNums.Keys
    ensures forall n :: n in frameNums <==> SizeCount(GroupBy(df, ExposureKey), n) > 0
    ensures forall n :: n in frameNums ==> frameNums[n] == SizeCount(GroupBy(df, ExposureKey), n)
    ensures forall n :: n in frameNumExamples ==> frameNumExamples[n] == SizedGroups(GroupBy(df, ExposureKey), n)
  {
    var groups := GroupBy(df, ExposureKey);
    trigCases, frameNums, frameNumExamples := TallyExposures(groups);
  }

  /** The group loop of `check_exposure_homogeneity`. */
  method TallyExposures(groups: seq<Grp<Frame>>)
    returns (trigCases: map<Param, nat>, frameNums: map<nat, nat>, frameNumExamples: map<nat, seq<seq<Frame>>>)
    ensures trigCases == Tally(groups, ExposureParams)
    ensures HistogramOf(frameNums, frameNumExamples, groups)
  {
    trigCases, frameNums, frameNumExamples := map[], map[], map[];
    var i := 0;
    while i < |groups|
      invariant i <= |groups|
      invariant trigCases == Tally(groups[..i], ExposureParams)
      invariant HistogramOf(frameNums, frameNumExamples, groups[..i])
    {
      TallyStep(groups, ExposureParams, i);
      frameNums, frameNumExamples := CountSize(frameNums, frameNumExamples, groups, i);
      trigCases := TallyGroupCounts(trigCases, groups[i].rows, ExposureParams);
      i := i + 1;
    }
    assert groups[..i] == groups;
  }

  /** The OBSTYPEs seen among the kept examples of one size. */
  method ExampleTypes(examples: seq<seq<Frame>>) returns (types: set<string>)
    ensures forall t :: t in types <==> exists k :: 0 <= k < |examples| && t in Obstypes(examples[k])
  {
    types := {};
    var k := 0;
    while k < |examples|
      invariant k <= |examples|
      invariant forall t :: t in types <==> exists j :: 0 <= j < k && t in Obstypes(examples[j])
    {
      types := types + Obstypes(examples[k]);
      k := k + 1;
    }
  }

  /** A parameter gets no counter exactly when all frames of an exposure
      agree in it; otherwise its counter is the number of exposures that
      disagree. */
  lemma ExposureReport(df: seq<Frame>, p: Param)
    requires p in ExposureParams
    ensures var r := Tally(GroupBy(df, ExposureKey), ExposureParams);
      && (p !in r <==> forall x, y :: x in df && y in df && x.reqnum == y.reqnum && x.dateObs == y.dateObs ==> ColumnOf(p)(x) == ColumnOf(p)(y))
      && Get(r, p) == CountMixed(GroupBy(df, ExposureKey), ColumnOf(p))
  {
    TallyMeaning(GroupBy(df, ExposureKey), ExposureParams);
    Homogeneous(df, ExposureKey, ColumnOf(p));
  }

  // ---------------------------------------------------------------------
  // reduce_frames, the variant that keeps ties
  // ---------------------------------------------------------------------

  /** The rows of a group at reduction level `lvl`, in order. */
  function AtLevel(g: seq<Frame>, lvl: int): (r: seq<Frame>)
    ensures forall x :: x in r <==> x in g && x.rlevel == lvl
  {
    if |g| == 0 then []
    else
      var last := g[|g| - 1];
      assert g == g[..|g| - 1] + [last];
      AtLevel(g[..|g| - 1], lvl) + (if last.rlevel == lvl then [last] else [])
  }

  /** `obs_frames[obs_frames['RLEVEL'] == obs_frames['RLEVEL'].max()]`. */
  function AtMax(g: seq<Frame>): seq<Frame>
    requires |g| > 0
  {
    AtLevel(g, LcoDefault.MaxRlevel(g))
  }

  function TiesOf(gs: seq<Grp<Frame>>): (ts: seq<seq<Frame>>)
    requires forall i :: 0 <= i < |gs| ==> |gs[i].rows| > 0
    ensures |ts| == |gs| && forall i :: 0 <= i < |gs| ==> ts[i] == AtMax(gs[i].rows)
  {
    seq(|gs|, i requires 0 <= i < |gs| => AtMax(gs[i].rows))
  }

  /** What the variant `reduce_frames` builds: every row at its datetime
      group's top level, groups in ascending datetime order. */
  function KeepTies(df: seq<Frame>): seq<Frame>
  {
    Concat(TiesOf(GroupBy(df, LcoDefault.DatetimeKey)))
  }

  /** `reduce_frames` of the structure checks: the expected count is the
      number of distinct datetimes; the new table keeps all tied rows. On an
      empty table there is no group and `pd.concat` raises. */
  method ReduceFramesKeepTies(df: seq<Frame>) returns (expected: nat, newDf: Result<seq<Frame>, ConcatError>)
    ensures expected == |GroupBy(df, LcoDefault.DatetimeKey)|
    ensures expected == 0 <==> |df| == 0
    ensures newDf.Err? <==> |df| == 0
    ensures newDf.Ok? ==> newDf.value == KeepTies(df)
  {
    var obsGroups := GroupBy(df, LcoDefault.DatetimeKey);
    GroupByEmpty(df, LcoDefault.DatetimeKey);
    expected := |obsGroups|;
    if |obsGroups| == 0 {
      return expected, Err(NoObjectsToConcatenate);
    }
    var tied := ConcatTies(obsGroups);
    newDf := Ok(tied);
  }

  /** `pd.concat` of the tied rows of each group, group by group. */
  method ConcatTies(gs: seq<Grp<Frame>>) returns (newDf: seq<Frame>)
    requires forall i :: 0 <= i < |gs| ==> |gs[i].rows| > 0
    ensures newDf == Concat(TiesOf(gs))
  {
    ghost var parts := TiesOf(gs);
    newDf := [];
    var i := 0;
    while i < |gs|
      invariant i <= |gs|
      invariant newDf == Concat(parts[..i])
    {
      var obsFrames := gs[i].rows;
      ConcatSnoc(parts, i);
      newDf := newDf + AtLevel(obsFrames, LcoDefault.MaxRlevel(obsFrames));
      i := i + 1;
    }
    assert parts[..i] == parts;
  }

  lemma ConcatSnoc<T>(rs: seq<seq<T>>, i: nat)
    requires i < |rs|
    ensures Concat(rs[..i + 1]) == Concat(rs[..i]) + rs[i]
  {
    ConcatAppend(rs[..i], [rs[i]]);
    assert rs[..i + 1] == rs[..i] + [rs[i]];
    assert Concat([rs[i]]) == rs[i] + Concat([]);
  }

  lemma {:induction false} InConcatIff<T>(rs: seq<seq<T>>, x: T)
    ensures x in Concat(rs) <==> exists i :: 0 <= i < |rs| && x in rs[i]
  {
    if |rs| > 0 {
      InConcatIff(rs[1..], x);
      if exists i :: 0 <= i < |rs| && x in rs[i] {
        var i :| 0 <= i < |rs| && x in rs[i];
        if i > 0 {
          assert rs[1..][i - 1] == rs[i];
        }
      }
    }
  }

  /** A row is kept exactly when no row of its datetime has a higher
      reduction level. */
  lemma KeepTiesMembers(df: seq<Frame>)
    ensures forall x :: x in KeepTies(df) <==>
      x in df && forall y :: y in df && y.datetime == x.datetime ==> y.rlevel <= x.rlevel
  {
    var gs := GroupBy(df, LcoDefault.DatetimeKey);
    var ts := TiesOf(gs);
    forall x ensures x in KeepTies(df) <==>
      x in df && forall y :: y in df && y.datetime == x.datetime ==> y.rlevel <= x.rlevel
    {
      InConcatIff(ts, x);
      if x in KeepTies(df) {
        var i :| 0 <= i < |ts| && x in ts[i];
        TopOfGroup(df, i, x);
      }
      if x in df && forall y :: y in df && y.datetime == x.datetime ==> y.rlevel <= x.rlevel {
        GroupByCovers(df, LcoDefault.DatetimeKey);
        var i :| 0 <= i < |gs| && gs[i].key == LcoDefault.DatetimeKey(x);
        TopOfGroup(df, i, x);
        assert x in ts[i];
      }
    }
  }

  /** Inside one datetime group, being at the group's top level means no
      row of the table with that datetime is higher. */
  lemma TopOfGroup(df: seq<Frame>, i: nat, x: Frame)
    requires i < |GroupBy(df, LcoDefault.DatetimeKey)|
    ensures var g := GroupBy(df, LcoDefault.DatetimeKey)[i];
      x in AtMax(g.rows) <==>
        x in df && LcoDefault.DatetimeKey(x) == g.key && forall y :: y in df && y.datetime == x.datetime ==> y.rlevel <= x.rlevel
  {
    var g := GroupBy(df, LcoDefault.DatetimeKey)[i];
    GroupMembers(df, LcoDefault.DatetimeKey, g.key);
    var m := LcoDefault.MaxRlevel(g.rows);
    var j :| 0 <= j < |g.rows| && g.rows[j].rlevel == m;
    assert g.rows[j] in g.rows;
    if x in df && LcoDefault.DatetimeKey(x) == g.key && forall y :: y in df && y.datetime == x.datetime ==> y.rlevel <= x.rlevel {
      assert x in g.rows;
      var k :| 0 <= k < |g.rows| && g.rows[k] == x;
    }
    if x in AtMax(g.rows) {
      var k :| 0 <= k < |g.rows| && g.rows[k] == x;
    }
  }

  lemma {:induction false} ConcatLength<T>(rs: seq<seq<T>>)
    requires forall i :: 0 <= i < |rs| ==> |rs[i]| > 0
    ensures |Concat(rs)| >= |rs|
    ensures |Concat(rs)| == |rs| <==> forall i :: 0 <= i < |rs| ==> |rs[i]| == 1
  {
    if |rs| > 0 {
      ConcatLength(rs[1..]);
      assert forall i :: 1 <= i < |rs| ==> rs[1..][i - 1] == rs[i];
    }
  }

  /** The variant never keeps fewer rows than there are datetimes, and keeps
      exactly that many when no datetime has two rows tied at its top level. */
  lemma KeepTiesCount(df: seq<Frame>)
    ensures var gs := GroupBy(df, LcoDefault.DatetimeKey);
      && |KeepTies(df)| >= |gs|
      && (|KeepTies(df)| == |gs| <==> forall i :: 0 <= i < |gs| ==> |AtMax(gs[i].rows)| == 1)
  {
    var gs := GroupBy(df, LcoDefault.DatetimeKey);
    var ts := TiesOf(gs);
    forall i | 0 <= i < |ts| ensures |ts[i]| > 0 {
      var m := LcoDefault.MaxRlevel(gs[i].rows);
      var j :| 0 <= j < |gs[i].rows| && gs[i].rows[j].rlevel == m;
      assert gs[i].rows[j] in ts[i];
    }
    ConcatLength(ts);
  }

  lemma {:induction false} AtLevelNone(g: seq<Frame>, lvl: int)
    requires forall j :: 0 <= j < |g| ==> g[j].rlevel != lvl
    ensures AtLevel(g, lvl) == []
  {
    if |g| > 0 {
      AtLevelNone(g[..|g| - 1], lvl);
    }
  }

  /** The first row at a level is the row at that level with no earlier one. */
  lemma {:induction false} AtLevelFirst(g: seq<Frame>, lvl: int, k: nat)
    requires k < |g| && g[k].rlevel == lvl
    requires forall j :: 0 <= j < k ==> g[j].rlevel != lvl
    ensures |AtLevel(g, lvl)| > 0 && AtLevel(g, lvl)[0] == g[k]
  {
    var init := g[..|g| - 1];
    if k < |g| - 1 {
      AtLevelFirst(init, lvl, k);
    } else {
      AtLevelNone(init, lvl);
    }
  }

  /** The default `reduce_frames` keeps, of each datetime's tied rows, the
      first: its table is the variant's with every tie cut to one row. */
  lemma ReducedIsFirstOfTies(df: seq<Frame>)
    ensures var gs := GroupBy(df, LcoDefault.DatetimeKey);
      && |LcoDefault.Reduced(df)| == |gs|
      && forall i :: 0 <= i < |gs| ==> LcoDefault.Reduced(df)[i] == AtMax(gs[i].rows)[0]
  {
    var gs := GroupBy(df, LcoDefault.DatetimeKey);
    forall i | 0 <= i < |gs| ensures LcoDefault.Reduced(df)[i] == AtMax(gs[i].rows)[0] {
      var g := gs[i].rows;
      var f := LcoDefault.FirstAtMax(g);
      var m := LcoDefault.MaxRlevel(g);
      var k :| 0 <= k < |g| && g[k] == f && forall j :: 0 <= j < k ==> g[j].rlevel < f.rlevel;
      var j :| 0 <= j < |g| && g[j].rlevel == m;
      assert f.rlevel == m;
      AtLevelFirst(g, m, k);
    }
  }
}
