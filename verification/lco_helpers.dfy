/**
 * The helpers the exploratory scripts share: grouping keys, the date
 * cleaning used in listings, the plain footprint centroid, and the
 * request-by-request exposure listing.
 */
module LcoHelpers {
  import opened Wrappers
  import opened Grouping
  import opened Frames
  import LcoDefault

  /** The keys the scripts group frames on: `DATE_OBS`, `REQNUM`,
      `['REQNUM', 'DATE_OBS']` and `OBSTYPE`. */
  function DateObsKey(f: Frame): Key { S(f.dateObs) }
  function ReqnumKey(f: Frame): Key { I(f.reqnum) }
  function ExposureKey(f: Frame): Key { P(f.reqnum, f.dateObs) }
  function ObstypeKey(f: Frame): Key { S(f.obstype) }

  // ---------------------------------------------------------------------
  // clean_date
  // ---------------------------------------------------------------------

  function Count(s: string, c: char): (n: nat)
    ensures n <= |s|
  {
    if |s| == 0 then 0
    else
      assert s == s[..|s| - 1] + [s[|s| - 1]];
      Count(s[..|s| - 1], c) + (if s[|s| - 1] == c then 1 else 0)
  }

  /** What `clean_date` makes of one character. */
  function CleanChar(c: char): string
  {
    if c == 'T' then " " else if c == 'Z' then "" else [c]
  }

  /** `clean_date`: `date.replace('T', ' ').replace('Z', '')`. The space the
      first replacement writes is never a 'Z', so both replacements are done
      in a single pass over the characters. */
  function CleanDate(date: string): string
  {
    FlatMap(date, CleanChar)
  }

  /** The pieces `f` makes of each element, concatenated in order. */
  function FlatMap<T>(s: seq<T>, f: T -> seq<T>): seq<T>
  {
    if |s| == 0 then [] else FlatMap(s[..|s| - 1], f) + f(s[|s| - 1])
  }

  lemma {:induction false} FlatMapConcat<T>(a: seq<T>, b: seq<T>, f: T -> seq<T>)
    ensures FlatMap(a + b, f) == FlatMap(a, f) + FlatMap(b, f)
  {
    if |b| == 0 {
      assert a + b == a;
    } else {
      var init := b[..|b| - 1];
      FlatMapConcat(a, init, f);
      assert (a + b)[..|a + b| - 1] == a + init;
      assert (a + b)[|a + b| - 1] == b[|b| - 1];
    }
  }

  /** The cleaned date holds no 'T' and no 'Z', and is shorter than the
      input by the number of 'Z's. */
  lemma {:induction false} CleanDateShape(date: string)
    ensures 'T' !in CleanDate(date) && 'Z' !in CleanDate(date)
    ensures |CleanDate(date)| == |date| - Count(date, 'Z')
  {
    if |date| > 0 {
      CleanDateShape(date[..|date| - 1]);
    }
  }

  /** Cleaning works character by character: it distributes over
      concatenation, keeps every character other than 'T' and 'Z', turns
      'T' into a space and drops 'Z'. */
  lemma CleanDateConcat(a: string, b: string)
    ensures CleanDate(a + b) == CleanDate(a) + CleanDate(b)
  {
    FlatMapConcat(a, b, CleanChar);
  }

  lemma CleanDateChar(c: char)
    ensures CleanDate([c]) == CleanChar(c)
  {
    assert [c][..0] == [];
    assert FlatMap([c], CleanChar) == FlatMap([], CleanChar) + CleanChar(c);
  }

  /** A cleaned date is left alone by a second cleaning. */
  lemma {:induction false} CleanDateIdempotent(s: string)
    ensures CleanDate(CleanDate(s)) == CleanDate(s)
  {
    CleanDateShape(s);
    CleanFixed(CleanDate(s));
  }

  lemma {:induction false} CleanFixed(s: string)
    requires 'T' !in s && 'Z' !in s
    ensures CleanDate(s) == s
  {
    if |s| > 0 {
      var init := s[..|s| - 1];
      assert s == init + [s[|s| - 1]];
      assert forall c :: c in init ==> c in s;
      CleanFixed(init);
      CleanDateConcat(init, [s[|s| - 1]]);
      CleanDateChar(s[|s| - 1]);
    }
  }

  // ---------------------------------------------------------------------
  // get_centroid (plain variant)
  // ---------------------------------------------------------------------

  /** `get_centroid` of the helper script: the means of the corner RAs and
      Decs of the first ring, with no shift of a negative RA. */
  method GetCentroid(area: LcoDefault.Area) returns (c: Option<Position>)
    ensures c.None? <==> LcoDefault.UsableRing(area).None?
    ensures c.Some? ==>
      var ring := LcoDefault.UsableRing(area).value;
      && c.value.ra == LcoDefault.Mean(LcoDefault.RasOf(ring))
      && c.value.dec == LcoDefault.Mean(LcoDefault.DecsOf(ring))
  {
    var found := LcoDefault.UsableRing(area);
    if found.None? {
      return None;
    }
    var coordinates := found.value;
    var ra: seq<real> := [];
    var dec: seq<real> := [];
    var i := 0;
    while i < |coordinates|
      invariant i <= |coordinates|
      invariant ra == LcoDefault.RasOf(coordinates[..i])
      invariant dec == LcoDefault.DecsOf(coordinates[..i])
    {
      ra := ra + [coordinates[i].ra];
      dec := dec + [coordinates[i].dec];
      i := i + 1;
    }
    assert coordinates[..i] == coordinates;
    c := Some(Position(LcoDefault.Mean(ra), LcoDefault.Mean(dec)));
  }

  /** The plain centroid `c1` of this script and the centroid `c2` of the
      default script, for the same area: the default one is a bare `None`
      only where the plain one has no centroid; otherwise both have a
      position or neither, with the same Dec, and the RAs agree unless the
      plain mean RA is negative, where they differ by exactly 360 degrees. */
  lemma CentroidsAgree(area: LcoDefault.Area, c1: Option<Position>, c2: LcoDefault.Centroid)
    requires c1.None? <==> LcoDefault.UsableRing(area).None?
    requires c1.Some? ==>
      var ring := LcoDefault.UsableRing(area).value;
      && c1.value.ra == LcoDefault.Mean(LcoDefault.RasOf(ring))
      && c1.value.dec == LcoDefault.Mean(LcoDefault.DecsOf(ring))
    requires c2.Bare? <==> LcoDefault.NullRing(area)
    requires c2.Pair? ==> (c2.pos.None? <==> LcoDefault.UsableRing(area).None?)
    requires c2.Pair? && c2.pos.Some? ==>
      var ring := LcoDefault.UsableRing(area).value;
      && c2.pos.value.ra == LcoDefault.WrapRa(LcoDefault.Mean(LcoDefault.RasOf(ring)))
      && c2.pos.value.dec == LcoDefault.Mean(LcoDefault.DecsOf(ring))
    ensures c2.Bare? ==> c1.None?
    ensures c2.Pair? ==> (c1.None? <==> c2.pos.None?)
    ensures c2.Pair? && c2.pos.Some? ==>
      && c1.Some?
      && c2.pos.value.dec == c1.value.dec
      && c2.pos.value.ra == (if c1.value.ra < 0.0 then c1.value.ra + 360.0 else c1.value.ra)
  {
    if c2.Bare? {
      // A None ring is not a usable ring.
      assert LcoDefault.UsableRing(area).None?;
    }
  }

  // ---------------------------------------------------------------------
  // loop_through_requests
  // ---------------------------------------------------------------------

  /** One numbered exposure of a request listing. */
  datatype Exposure = Exposure(number: nat, start: string, frames: seq<Frame>)

  /** The exposures listed for one request. */
  datatype Listing = Listing(reqnum: int, exposures: seq<Exposure>)

  /** The exposures of one request, numbered from 1 in DATE_OBS order. */
  function ExposuresOf(g: seq<Frame>): (es: seq<Exposure>)
  {
    var byStart := GroupBy(g, DateObsKey);
    seq(|byStart|, j requires 0 <= j < |byStart| =>
      Exposure(j + 1, CleanDate(byStart[j].rows[0].dateObs), byStart[j].rows))
  }

  /** The numbering of one request: `exp_number` counts up as the DATE_OBS
      groups are walked. */
  method NumberExposures(g: seq<Frame>) returns (exposures: seq<Exposure>)
    ensures exposures == ExposuresOf(g)
  {
    var groupByStart := GroupBy(g, DateObsKey);
    var expNumber := 0;
    exposures := [];
    var j := 0;
    while j < |groupByStart|
      invariant j <= |groupByStart|
      invariant expNumber == j == |exposures|
      invariant forall m :: 0 <= m < j ==>
        exposures[m] == Exposure(m + 1, CleanDate(groupByStart[m].rows[0].dateObs), groupByStart[m].rows)
    {
      expNumber := expNumber + 1;
      var gTime := groupByStart[j].rows;
      exposures := exposures + [Exposure(expNumber, CleanDate(gTime[0].dateObs), gTime)];
      j := j + 1;
    }
  }

  /** `loop_through_requests`: announces the number of requests, then lists
      each request (ascending REQNUM) with its exposures. */
  method LoopThroughRequests(df: seq<Frame>) returns (requestCount: nat, listing: seq<Listing>)
    ensures requestCount == |GroupBy(df, ReqnumKey)| == |listing|
    ensures forall k :: 0 <= k < |listing| ==>
      listing[k] == Listing(GroupBy(df, ReqnumKey)[k].rows[0].reqnum, ExposuresOf(GroupBy(df, ReqnumKey)[k].rows))
  {
    var groupByReqnum := GroupBy(df, ReqnumKey);
    requestCount := |groupByReqnum|;
    listing := ListRequests(groupByReqnum);
  }

  /** The request loop of `loop_through_requests`. */
  method ListRequests(gs: seq<Grp<Frame>>) returns (listing: seq<Listing>)
    requires forall k :: 0 <= k < |gs| ==> |gs[k].rows| > 0
    ensures |listing| == |gs|
    ensures forall k :: 0 <= k < |gs| ==> listing[k] == Listing(gs[k].rows[0].reqnum, ExposuresOf(gs[k].rows))
  {
    listing := [];
    var k := 0;
    while k < |gs|
      invariant k <= |gs|
      invariant |listing| == k
      invariant forall m :: 0 <= m < k ==> listing[m] == Listing(gs[m].rows[0].reqnum, ExposuresOf(gs[m].rows))
    {
      var gReqnum := gs[k].rows;
      var exposures := NumberExposures(gReqnum);
      listing := listing + [Listing(gReqnum[0].reqnum, exposures)];
      k := k + 1;
    }
  }

  lemma {:induction false} DistinctCard<T>(s: seq<T>)
    requires Distinct(s)
    ensures |set x | x in s| == |s|
  {
    if |s| > 0 {
      var init := s[..|s| - 1];
      DistinctCard(init);
      assert (set x | x in s) == (set x | x in init) + {s[|s| - 1]};
    }
  }

  /** Within a request the exposures are numbered 1, 2, ... up to the number
      of distinct DATE_OBS values among the request's frames. */
  lemma ExposureNumbering(df: seq<Frame>, k: nat)
    requires k < |GroupBy(df, ReqnumKey)|
    ensures var g := GroupBy(df, ReqnumKey)[k];
      var es := ExposuresOf(g.rows);
      && |es| == |set x | x in df && ReqnumKey(x) == g.key :: DateObsKey(x)|
      && (forall j :: 0 <= j < |es| ==> es[j].number == j + 1)
  {
    var g := GroupBy(df, ReqnumKey)[k];
    GroupMembers(df, ReqnumKey, g.key);
    ExposureCount(g.rows);
    assert (set x | x in df && ReqnumKey(x) == g.key :: DateObsKey(x)) == (set x | x in g.rows :: DateObsKey(x));
  }

  /** The exposures of a run of frames are numbered 1, 2, ... up to the
      number of distinct DATE_OBS values among them. */
  lemma ExposureCount(rows: seq<Frame>)
    ensures var es := ExposuresOf(rows);
      && |es| == |set x | x in rows :: DateObsKey(x)|
      && (forall j :: 0 <= j < |es| ==> es[j].number == j + 1)
  {
    var ks := SortedKeys(KeysOf(rows, DateObsKey));
    AscendingDistinct(ks);
    DistinctCard(ks);
    var want := set x | x in rows :: DateObsKey(x);
    forall key ensures key in ks <==> key in want {
      if key in ks {
        var j :| 0 <= j < |rows| && KeysOf(rows, DateObsKey)[j] == key;
        assert rows[j] in rows;
      }
      if key in want {
        var x :| x in rows && DateObsKey(x) == key;
        var j :| 0 <= j < |rows| && rows[j] == x;
        assert KeysOf(rows, DateObsKey)[j] == key;
      }
    }
    assert (set key | key in ks) == want;
  }

  /** Each exposure lists exactly the request's frames taken at its start. */
  lemma ExposureFrames(df: seq<Frame>, k: nat)
    requires k < |GroupBy(df, ReqnumKey)|
    ensures var g := GroupBy(df, ReqnumKey)[k];
      var es := ExposuresOf(g.rows);
      forall j, x :: 0 <= j < |es| ==>
        (x in es[j].frames <==> x in df && ReqnumKey(x) == g.key && DateObsKey(x) == DateObsKey(es[j].frames[0]))
  {
    var g := GroupBy(df, ReqnumKey)[k];
    GroupMembers(df, ReqnumKey, g.key);
    RequestExposureMembers(df, g.key, g.rows);
  }

  lemma RequestExposureMembers(df: seq<Frame>, r: Key, rows: seq<Frame>)
    requires forall x :: x in rows <==> x in df && ReqnumKey(x) == r
    ensures var es := ExposuresOf(rows);
      forall j, x :: 0 <= j < |es| ==>
        (x in es[j].frames <==> x in df && ReqnumKey(x) == r && DateObsKey(x) == DateObsKey(es[j].frames[0]))
  {
    ExposureMembers(rows);
  }

  /** The frames of an exposure are the rows taken at its start. */
  lemma ExposureMembers(rows: seq<Frame>)
    ensures var es := ExposuresOf(rows);
      forall j, x :: 0 <= j < |es| ==>
        (x in es[j].frames <==> x in rows && DateObsKey(x) == DateObsKey(es[j].frames[0]))
  {
    var byStart := GroupBy(rows, DateObsKey);
    GroupByMembers(rows, DateObsKey);
    forall j | 0 <= j < |byStart| ensures byStart[j].key == DateObsKey(byStart[j].rows[0]) {
      assert byStart[j].rows[0] in byStart[j].rows;
    }
  }

  /** The exposures of a request come in strictly ascending DATE_OBS order. */
  lemma ExposureOrder(g: seq<Frame>)
    ensures var es := ExposuresOf(g);
      forall i, j :: 0 <= i < j < |es| ==> StrLt(es[i].frames[0].dateObs, es[j].frames[0].dateObs)
  {
    var byStart := GroupBy(g, DateObsKey);
    GroupByMembers(g, DateObsKey);
    GroupByAscending(g, DateObsKey);
    forall j | 0 <= j < |byStart| ensures byStart[j].key == DateObsKey(byStart[j].rows[0]) {
      assert byStart[j].rows[0] in byStart[j].rows;
    }
  }
}
