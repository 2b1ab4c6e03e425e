/**
 * The frame normalisation and block summary of the LCO analysis script
 * (get_dataframe_lco_default.py): timestamp parsing, footprint centroids,
 * proposal-id filling, duplicate-frame reduction, the science-proposal
 * pattern and the PROPID/BLKUID run analysis of `contiguous3`.
 */
module LcoDefault {
  import opened Wrappers
  import opened Grouping
  import opened Frames

  // ---------------------------------------------------------------------
  // DATE_OBS parsing

  /** The ValueError `strptime` raises when the fallback layout fails too. */
  datatype ParseError = ValueError(input: string)

  predicate IsDigit(c: char) { '0' <= c <= '9' }

  predicate AllDigits(s: string)
  {
    forall i :: 0 <= i < |s| ==> IsDigit(s[i])
  }

  function DigitsValue(s: string): nat
    requires AllDigits(s)
    decreases |s|
  {
    if |s| == 0 then 0
    else DigitsValue(s[..|s| - 1]) * 10 + (s[|s| - 1] as int - '0' as int)
  }

  function Pow10(n: nat): (p: nat)
    ensures p >= 1
  {
    if n == 0 then 1 else 10 * Pow10(n - 1)
  }

  /** `strptime` matches the literal letters of its format ignoring case. */
  predicate IsT(c: char) { c == 'T' || c == 't' }

  predicate IsZ(c: char) { c == 'Z' || c == 'z' }

  /** The `%Y-%m-%dT%H:%M:%S` part both layouts share, with two-digit fields. */
  predicate DatePartShape(s: string)
  {
    && |s| >= 19
    && AllDigits(s[0..4]) && s[4] == '-'
    && AllDigits(s[5..7]) && s[7] == '-'
    && AllDigits(s[8..10]) && IsT(s[10])
    && AllDigits(s[11..13]) && s[13] == ':'
    && AllDigits(s[14..16]) && s[16] == ':'
    && AllDigits(s[17..19])
  }

  function DatePart(s: string, micro: int): DateTime
    requires DatePartShape(s)
  {
    DateTime(DigitsValue(s[0..4]), DigitsValue(s[5..7]), DigitsValue(s[8..10]),
             DigitsValue(s[11..13]), DigitsValue(s[14..16]), DigitsValue(s[17..19]), micro)
  }

  /** `strptime(s, "%Y-%m-%dT%H:%M:%S.%fZ")`, or None where it raises. `%f`
      takes one to six digits, padded on the right to microseconds; the
      `T` and the `Z` may be either case. */
  function ParseFractional(s: string): Option<DateTime>
  {
    if DatePartShape(s) && 22 <= |s| <= 27 && s[19] == '.' && IsZ(s[|s| - 1])
       && AllDigits(s[20..|s| - 1])
    then
      var d := DatePart(s, DigitsValue(s[20..|s| - 1]) * Pow10(27 - |s|));
      if ValidDateTime(d) then Some(d) else None
    else None
  }

  /** `strptime(s, "%Y-%m-%dT%H:%M:%SZ")`, or None where it raises. */
  function ParseWhole(s: string): Option<DateTime>
  {
    if DatePartShape(s) && |s| == 20 && IsZ(s[19]) then
      var d := DatePart(s, 0);
      if ValidDateTime(d) then Some(d) else None
    else None
  }

  /** `str_to_datetime`: the fractional-seconds layout first, the whole-seconds
      layout only when that fails; the fallback is not guarded, so a string
      matching neither raises. */
  function StrToDatetime(s: string): (r: Result<DateTime, ParseError>)
    ensures r.Ok? ==> ValidDateTime(r.value)
    ensures r.Err? <==> ParseFractional(s).None? && ParseWhole(s).None?
    ensures ParseFractional(s).Some? ==> r == Ok(ParseFractional(s).value)
  {
    match ParseFractional(s)
    case Some(d) => Ok(d)
    case None =>
      match ParseWhole(s)
      case Some(d) => Ok(d)
      case None => Err(ValueError(s))
  }

  /** No string fits both layouts, so the order of the attempts never
      changes the parsed value. */
  lemma LayoutsExclusive(s: string)
    ensures !(ParseFractional(s).Some? && ParseWhole(s).Some?)
  {
  }

  /** `n` written with exactly `w` digits, zero-padded. */
  function Pad(n: nat, w: nat): (r: string)
    requires n < Pow10(w)
    ensures |r| == w && AllDigits(r) && DigitsValue(r) == n
  {
    if w == 0 then ""
    else
      var r := Pad(n / 10, w - 1) + [('0' as int + n % 10) as char];
      assert r[..|r| - 1] == Pad(n / 10, w - 1);
      r
  }

  /** `%Y-%m-%dT%H:%M:%S` of a datetime. */
  function DateText(d: DateTime): (r: string)
    requires ValidDateTime(d)
    ensures |r| == 19
  {
    Pad(d.year, 4) + "-" + Pad(d.month, 2) + "-" + Pad(d.day, 2) + "T"
      + Pad(d.hour, 2) + ":" + Pad(d.minute, 2) + ":" + Pad(d.second, 2)
  }

  /** The archive's `DATE_OBS` with microseconds. */
  function FormatFractional(d: DateTime): (r: string)
    requires ValidDateTime(d)
    ensures |r| == 27
  {
    DateText(d) + "." + Pad(d.microsecond, 6) + "Z"
  }

  /** The archive's `DATE_OBS` without fractional seconds. */
  function FormatWhole(d: DateTime): (r: string)
    requires ValidDateTime(d)
    ensures |r| == 20
  {
    DateText(d) + "Z"
  }

  lemma DatePartOfText(d: DateTime, tail: string, micro: int)
    requires ValidDateTime(d)
    ensures DatePartShape(DateText(d) + tail)
    ensures DatePart(DateText(d) + tail, micro) == d.(microsecond := micro)
  {
    var s := DateText(d) + tail;
    assert s[0..4] == Pad(d.year, 4);
    assert s[5..7] == Pad(d.month, 2);
    assert s[8..10] == Pad(d.day, 2);
    assert s[11..13] == Pad(d.hour, 2);
    assert s[14..16] == Pad(d.minute, 2);
    assert s[17..19] == Pad(d.second, 2);
  }

  /** Every valid datetime printed with microseconds parses back to itself. */
  lemma RoundTripFractional(d: DateTime)
    requires ValidDateTime(d)
    ensures StrToDatetime(FormatFractional(d)) == Ok(d)
  {
    FractionalParses(d);
  }

  lemma FractionalParses(d: DateTime)
    requires ValidDateTime(d)
    ensures ParseFractional(FormatFractional(d)) == Some(d)
  {
    var p, q := DateText(d), Pad(d.microsecond, 6);
    DatePartOfText(d, "", d.microsecond);
    assert p + "" == p;
    FractionalOf(p, q);
  }

  /** The date part lies in the first nineteen characters. */
  lemma DatePartPrefix(s: string, micro: int)
    requires |s| >= 19 && DatePartShape(s[..19])
    ensures DatePartShape(s) && DatePart(s, micro) == DatePart(s[..19], micro)
  {
    var p := s[..19];
    assert s[0..4] == p[0..4] && s[5..7] == p[5..7] && s[8..10] == p[8..10];
    assert s[11..13] == p[11..13] && s[14..16] == p[14..16] && s[17..19] == p[17..19];
  }

  /** The fractional layout reads the date part and the six digits after
      the point. */
  lemma FractionalOf(p: string, q: string)
    requires |p| == 19 && DatePartShape(p) && |q| == 6 && AllDigits(q)
    ensures var d := DatePart(p, DigitsValue(q));
      ParseFractional(p + "." + q + "Z") == if ValidDateTime(d) then Some(d) else None
  {
    var s := p + "." + q + "Z";
    assert s[..19] == p;
    DatePartPrefix(s, DigitsValue(q));
    assert s[20..|s| - 1] == q;
    assert s[19] == '.' && s[|s| - 1] == 'Z';
    assert Pow10(27 - |s|) == 1;
  }

  /** A datetime on a whole second printed without a fraction is rejected by
      the first layout and recovered by the fallback. */
  lemma RoundTripWhole(d: DateTime)
    requires ValidDateTime(d) && d.microsecond == 0
    ensures ParseFractional(FormatWhole(d)).None?
    ensures StrToDatetime(FormatWhole(d)) == Ok(d)
  {
    DatePartOfText(d, "Z", 0);
  }

  /** A string that is neither layout is a parse error (spelled out for a
      date-only `DATE_OBS`). */
  lemma DateOnlyIsError()
    ensures StrToDatetime("2016-05-01").Err?
  {
  }

  /** The case of the `T` and of the `Z` never changes whether a string
      parses, nor what it parses to. */
  lemma LetterCaseIgnored(s: string)
    requires |s| >= 20 && IsT(s[10]) && IsZ(s[|s| - 1])
    ensures StrToDatetime(s[10 := 't'][|s| - 1 := 'z']).Ok? <==> StrToDatetime(s).Ok?
    ensures StrToDatetime(s).Ok? ==> StrToDatetime(s[10 := 't'][|s| - 1 := 'z']) == StrToDatetime(s)
  {
    var t := s[10 := 't'][|s| - 1 := 'z'];
    assert t[0..4] == s[0..4] && t[5..7] == s[5..7] && t[8..10] == s[8..10];
    assert t[11..13] == s[11..13] && t[14..16] == s[14..16] && t[17..19] == s[17..19];
    assert |t| == |s| && IsZ(t[|t| - 1]);
    assert DatePartShape(t) == DatePartShape(s);
    if |s| > 20 {
      assert t[19] == s[19] && t[20..|t| - 1] == s[20..|s| - 1];
    }
    assert DatePartShape(s) ==> DatePart(t, 0) == DatePart(s, 0);
    assert ParseWhole(t) == ParseWhole(s);
    assert ParseFractional(t) == ParseFractional(s);
  }

  /** `convert_dates_obs`: the `datetime` column is `DATE_OBS` parsed; the
      first unparseable value aborts the whole conversion. */
  function ConvertDatesObs(rows: seq<Frame>): (r: Result<seq<Frame>, ParseError>)
    ensures r.Ok? <==> forall i :: 0 <= i < |rows| ==> StrToDatetime(rows[i].dateObs).Ok?
    ensures r.Ok? ==> |r.value| == |rows|
    ensures r.Ok? ==> forall i :: 0 <= i < |rows| ==>
      r.value[i] == rows[i].(datetime := Micros(StrToDatetime(rows[i].dateObs).value))
  {
    if |rows| == 0 then Ok([])
    else
      match StrToDatetime(rows[0].dateObs)
      case Err(e) => Err(e)
      case Ok(d) =>
        match ConvertDatesObs(rows[1..])
        case Err(e) => Err(e)
        case Ok(rest) => Ok([rows[0].(datetime := Micros(d))] + rest)
  }

  // ---------------------------------------------------------------------
  // Footprint centroid

  /** The `area` field of a frame: absent (None), or a dictionary whose
      `coordinates` entry may be missing; its first element is a ring of
      (RA, Dec) corners or None. */
  datatype Area = NoArea | AreaDict(coordinates: Option<seq<Option<seq<Position>>>>)

  /** The corner ring `get_centroid` averages, if the area has one.
      A missing area or a missing, None or empty `coordinates` list raises
      inside the `try` and ends in the except branch; an empty ring gives
      numpy's NaN mean, which is also no position. A None ring has no corners
      either, but what `get_centroid` returns for it differs between the two
      scripts (see NullRing). */
  function UsableRing(area: Area): Option<seq<Position>>
  {
    match area
    case NoArea => None
    case AreaDict(coords) =>
      if coords.None? || |coords.value| == 0 || coords.value[0].None? || |coords.value[0].value| == 0
      then None
      else Some(coords.value[0].value)
  }

  function Sum(xs: seq<real>): real
  {
    if |xs| == 0 then 0.0 else Sum(xs[..|xs| - 1]) + xs[|xs| - 1]
  }

  /** `numpy.mean` of a non-empty list. */
  function Mean(xs: seq<real>): real
    requires |xs| > 0
  {
    Sum(xs) / (|xs| as real)
  }

  /** The mean lies between the least and the greatest value. */
  lemma {:induction false} SumBounds(xs: seq<real>, lo: real, hi: real)
    requires forall i :: 0 <= i < |xs| ==> lo <= xs[i] < hi
    ensures (|xs| as real) * lo <= Sum(xs)
    ensures |xs| > 0 ==> Sum(xs) < (|xs| as real) * hi
  {
    if |xs| > 0 {
      SumBounds(xs[..|xs| - 1], lo, hi);
    }
  }

  lemma MeanBounds(xs: seq<real>, lo: real, hi: real)
    requires |xs| > 0
    requires forall i :: 0 <= i < |xs| ==> lo <= xs[i] < hi
    ensures lo <= Mean(xs) < hi
  {
    SumBounds(xs, lo, hi);
    var n := |xs| as real;
    assert Sum(xs) / n >= lo by {
      assert Sum(xs) >= n * lo;
    }
    assert Sum(xs) / n < hi by {
      assert Sum(xs) < n * hi;
    }
  }

  /** A negative mean RA is moved up by exactly one turn. */
  function WrapRa(ra: real): real
  {
    if ra < 0.0 then ra + 360.0 else ra
  }

  function RasOf(ring: seq<Position>): (r: seq<real>)
    ensures |r| == |ring| && forall i :: 0 <= i < |ring| ==> r[i] == ring[i].ra
  {
    seq(|ring|, i requires 0 <= i < |ring| => ring[i].ra)
  }

  function DecsOf(ring: seq<Position>): (r: seq<real>)
    ensures |r| == |ring| && forall i :: 0 <= i < |ring| ==> r[i] == ring[i].dec
  {
    seq(|ring|, i requires 0 <= i < |ring| => ring[i].dec)
  }

  /** The first ring is present but None: this `get_centroid` returns a bare
      `None` for it instead of a pair of values. */
  predicate NullRing(area: Area)
  {
    area.AreaDict? && area.coordinates.Some? && |area.coordinates.value| > 0
    && area.coordinates.value[0].None?
  }

  /** What `get_centroid` returns: a bare `None`, or a `pd.Series` pair whose
      values are both None when there is no position. */
  datatype Centroid = Bare | Pair(pos: Option<Position>)

  /** `get_centroid`: collects the corner RAs and Decs of the first ring and
      returns their means, the RA mean shifted by +360 when negative. */
  method GetCentroid(area: Area) returns (c: Centroid)
    ensures c.Bare? <==> NullRing(area)
    ensures c.Pair? ==> (c.pos.None? <==> UsableRing(area).None?)
    ensures c.Pair? && c.pos.Some? ==>
      var ring := UsableRing(area).value;
      && c.pos.value.ra == WrapRa(Mean(RasOf(ring)))
      && c.pos.value.dec == Mean(DecsOf(ring))
  {
    if NullRing(area) {
      return Bare;
    }
    var found := UsableRing(area);
    if found.None? {
      return Pair(None);
    }
    var coordinates := found.value;
    var ra: seq<real> := [];
    var dec: seq<real> := [];
    var i := 0;
    while i < |coordinates|
      invariant i <= |coordinates|
      invariant ra == RasOf(coordinates[..i])
      invariant dec == DecsOf(coordinates[..i])
    {
      ra := ra + [coordinates[i].ra];
      dec := dec + [coordinates[i].dec];
      i := i + 1;
    }
    assert coordinates[..i] == coordinates;
    var meanRa := Mean(ra);
    if meanRa < 0.0 {
      meanRa := meanRa + 360.0;
    }
    c := Pair(Some(Position(meanRa, Mean(dec))));
  }

  /** With corner RAs in [-360, 360) the centroid RA lands in [0, 360). */
  lemma CentroidRaInRange(ring: seq<Position>)
    requires |ring| > 0
    requires forall i :: 0 <= i < |ring| ==> -360.0 <= ring[i].ra < 360.0
    ensures 0.0 <= WrapRa(Mean(RasOf(ring))) < 360.0
  {
    MeanBounds(RasOf(ring), -360.0, 360.0);
  }

  /** The error `add_ra_dec` raises when pandas cannot build the RA/DEC pair
      from a column of results that mixes a bare `None` with pairs. */
  datatype ApplyError = CentroidNotAPair

  /** `add_ra_dec`: the RA/DEC columns are the centroids of the `area` column.
      A bare `None` among the results makes the assignment raise. */
  function AddRaDec(rows: seq<Frame>, areas: seq<Area>): (r: Result<seq<Frame>, ApplyError>)
    requires |areas| == |rows|
    ensures r.Err? <==> exists i :: 0 <= i < |areas| && NullRing(areas[i])
    ensures r.Ok? ==> |r.value| == |rows|
    ensures r.Ok? ==> forall i :: 0 <= i < |rows| ==>
      && r.value[i].(pos := rows[i].pos) == rows[i]
      && (r.value[i].pos.None? <==> UsableRing(areas[i]).None?)
      && (r.value[i].pos.Some? ==>
            r.value[i].pos.value.ra == WrapRa(Mean(RasOf(UsableRing(areas[i]).value)))
            && r.value[i].pos.value.dec == Mean(DecsOf(UsableRing(areas[i]).value)))
  {
    if exists i :: 0 <= i < |areas| && NullRing(areas[i]) then Err(CentroidNotAPair)
    else Ok(seq(|rows|, i requires 0 <= i < |rows| =>
      rows[i].(pos := match UsableRing(areas[i])
                      case None => None
                      case Some(ring) => Some(Position(WrapRa(Mean(RasOf(ring))), Mean(DecsOf(ring)))))))
  }

  // ---------------------------------------------------------------------
  // Proposal ids

  /** `fill_empty_proposal`: the empty id becomes "no_proposal". */
  function FillEmptyProposal(s: string): (r: string)
    ensures |r| > 0
    ensures |s| > 0 ==> r == s
    ensures |s| == 0 ==> r == "no_proposal"
  {
    if |s| == 0 then "no_proposal" else s
  }

  lemma FillEmptyProposalIdempotent(s: string)
    ensures FillEmptyProposal(FillEmptyProposal(s)) == FillEmptyProposal(s)
  {
  }

  /** `fill_empty_propids`: applied to every row, only the PROPID changes. */
  function FillEmptyPropids(rows: seq<Frame>): (r: seq<Frame>)
    ensures |r| == |rows|
    ensures forall i :: 0 <= i < |rows| ==>
      r[i].propid != "" && r[i] == rows[i].(propid := FillEmptyProposal(rows[i].propid))
  {
    seq(|rows|, i requires 0 <= i < |rows| => rows[i].(propid := FillEmptyProposal(rows[i].propid)))
  }

  predicate IsWordChar(c: char)
  {
    ('a' <= c <= 'z') || ('A' <= c <= 'Z') || IsDigit(c) || c == '_'
  }

  predicate AllWord(s: string)
  {
    forall i :: 0 <= i < |s| ==> IsWordChar(s[i])
  }

  /** `\d{4}\w-\d` starting at position `i`. */
  predicate TailAt(s: string, i: nat)
  {
    && i + 7 <= |s|
    && IsDigit(s[i]) && IsDigit(s[i + 1]) && IsDigit(s[i + 2]) && IsDigit(s[i + 3])
    && IsWordChar(s[i + 4]) && s[i + 5] == '-' && IsDigit(s[i + 6])
  }

  /** What `re.match('\w+\d{4}\w-\d+', s)` asks: some non-empty run of word
      characters at the start is followed by the rest of the pattern
      (`\d+` needs one digit; what follows it does not matter). */
  ghost predicate MatchesScienceId(s: string)
  {
    exists i: nat :: 1 <= i && i + 7 <= |s| && AllWord(s[..i]) && TailAt(s, i)
  }

  /** Tries every end `j >= i` of the `\w+` prefix in turn, giving up at the
      first non-word character. */
  function ScanFrom(s: string, i: nat): bool
    requires 1 <= i <= |s|
    decreases |s| - i
  {
    if i + 7 > |s| || !IsWordChar(s[i - 1]) then false
    else TailAt(s, i) || ScanFrom(s, i + 1)
  }

  lemma {:induction false} ScanFromCorrect(s: string, i: nat)
    requires 1 <= i <= |s| && AllWord(s[..i - 1])
    ensures ScanFrom(s, i) <==> exists j: nat :: i <= j && j + 7 <= |s| && AllWord(s[..j]) && TailAt(s, j)
    decreases |s| - i
  {
    if i + 7 > |s| {
    } else if !IsWordChar(s[i - 1]) {
      forall j: nat | i <= j && j + 7 <= |s| ensures !AllWord(s[..j]) {
        assert s[..j][i - 1] == s[i - 1];
      }
    } else {
      assert AllWord(s[..i]) by {
        forall k | 0 <= k < i ensures IsWordChar(s[..i][k]) {
          if k < i - 1 {
            assert s[..i][k] == s[..i - 1][k];
          }
        }
      }
      ScanFromCorrect(s, i + 1);
    }
  }

  /** `check_science_propid`. */
  function CheckSciencePropid(s: string): (b: bool)
    ensures b <==> MatchesScienceId(s)
  {
    if |s| == 0 then false
    else
      ScanFromCorrect(s, 1);
      ScanFrom(s, 1)
  }

  lemma ScienceExamples()
    ensures CheckSciencePropid("LCO2016A-005")
    ensures !CheckSciencePropid("no_proposal")
  {
    var s := "LCO2016A-005";
    assert AllWord(s[..3]) && TailAt(s, 3);
    var t := "no_proposal";
    forall i: nat | 1 <= i && i + 7 <= |t| && AllWord(t[..i]) ensures !TailAt(t, i) {
      assert t[i + 5] != '-';
    }
  }

  /** The match is anchored at the start only: any extension of a science id
      is a science id. */
  lemma ScienceIdExtends(s: string, t: string)
    requires CheckSciencePropid(s)
    ensures CheckSciencePropid(s + t)
  {
    var i: nat :| 1 <= i && i + 7 <= |s| && AllWord(s[..i]) && TailAt(s, i);
    assert (s + t)[..i] == s[..i];
    assert TailAt(s + t, i);
  }

  // ---------------------------------------------------------------------
  // Duplicate frames

  function DatetimeKey(f: Frame): Key { I(f.datetime) }

  function MaxRlevel(g: seq<Frame>): (m: int)
    requires |g| > 0
    ensures forall j :: 0 <= j < |g| ==> g[j].rlevel <= m
    ensures exists j :: 0 <= j < |g| && g[j].rlevel == m
  {
    if |g| == 1 then g[0].rlevel
    else
      var m := MaxRlevel(g[1..]);
      assert forall j :: 1 <= j < |g| ==> g[j] == g[1..][j - 1];
      if g[0].rlevel > m then g[0].rlevel else m
  }

  function FirstIndexAt(g: seq<Frame>, level: int, from: nat): (k: nat)
    requires from <= |g|
    requires exists j :: from <= j < |g| && g[j].rlevel == level
    ensures from <= k < |g| && g[k].rlevel == level
    ensures forall j :: from <= j < k ==> g[j].rlevel != level
    decreases |g| - from
  {
    if g[from].rlevel == level then from else FirstIndexAt(g, level, from + 1)
  }

  /** `f` is a row of `g` and no earlier row of `g` reaches its RLEVEL. */
  predicate EarliestAtLevel(g: seq<Frame>, f: Frame)
  {
    exists k :: 0 <= k < |g| && g[k] == f && forall j :: 0 <= j < k ==> g[j].rlevel < f.rlevel
  }

  /** `obs_frames[obs_frames['RLEVEL'] == obs_frames['RLEVEL'].max()].head(1)`:
      the first row, in group order, at the group's highest reduction level. */
  function FirstAtMax(g: seq<Frame>): (f: Frame)
    requires |g| > 0
    ensures forall j :: 0 <= j < |g| ==> g[j].rlevel <= f.rlevel
    ensures EarliestAtLevel(g, f)
  {
    g[FirstIndexAt(g, MaxRlevel(g), 0)]
  }

  /** What `reduce_frames` returns: one row per datetime group, in ascending
      datetime order. */
  function Reduced(rows: seq<Frame>): seq<Frame>
  {
    var gs := GroupBy(rows, DatetimeKey);
    seq(|gs|, i requires 0 <= i < |gs| => FirstAtMax(gs[i].rows))
  }

  /** `reduce_frames`: one representative per datetime group. On an empty
      table there is no group and `pd.concat` raises; otherwise the count
      comparison it prints can never fail. */
  method ReduceFrames(rows: seq<Frame>) returns (newDf: Result<seq<Frame>, ConcatError>, mismatch: bool)
    ensures newDf.Err? <==> |rows| == 0
    ensures newDf.Ok? ==> newDf.value == Reduced(rows)
    ensures !mismatch
  {
    var obsGroups := GroupBy(rows, DatetimeKey);
    GroupByEmpty(rows, DatetimeKey);
    var expectedFrames := |obsGroups|;
    var kept := FirstOfGroups(obsGroups);
    if |kept| == 0 {
      return Err(NoObjectsToConcatenate), false;
    }
    assert kept == Reduced(rows);
    newDf := Ok(kept);
    var resultantFrames := |kept|;
    mismatch := resultantFrames != expectedFrames;
  }

  /** The list comprehension inside `reduce_frames`: the first top-RLEVEL
      row of each group, group by group. */
  method FirstOfGroups(gs: seq<Grp<Frame>>) returns (kept: seq<Frame>)
    requires forall i :: 0 <= i < |gs| ==> |gs[i].rows| > 0
    ensures |kept| == |gs|
    ensures forall j :: 0 <= j < |gs| ==> kept[j] == FirstAtMax(gs[j].rows)
  {
    kept := [];
    var i := 0;
    while i < |gs|
      invariant i <= |gs|
      invariant |kept| == i
      invariant forall j :: 0 <= j < i ==> kept[j] == FirstAtMax(gs[j].rows)
    {
      kept := kept + [FirstAtMax(gs[i].rows)];
      i := i + 1;
    }
  }

  /** The kept row of each group is a row of that group, hence of the input,
      and carries the group's datetime. */
  lemma ReducedRows(rows: seq<Frame>)
    ensures var r := Reduced(rows);
      var gs := GroupBy(rows, DatetimeKey);
      && |r| == |gs|
      && forall i :: 0 <= i < |r| ==> r[i] in gs[i].rows && r[i] in rows && DatetimeKey(r[i]) == gs[i].key
  {
    var gs := GroupBy(rows, DatetimeKey);
    var r := Reduced(rows);
    forall i | 0 <= i < |r|
      ensures r[i] in gs[i].rows && r[i] in rows && DatetimeKey(r[i]) == gs[i].key
    {
      GroupMembers(rows, DatetimeKey, gs[i].key);
    }
  }

  /** One row per distinct datetime, in strictly ascending datetime order,
      and every datetime of the input is represented. */
  lemma ReducedOnePerDatetime(rows: seq<Frame>)
    ensures var r := Reduced(rows);
      && |r| == |SortedKeys(KeysOf(rows, DatetimeKey))|
      && (forall i, j :: 0 <= i < j < |r| ==> r[i].datetime < r[j].datetime)
      && (forall x :: x in rows ==> exists i :: 0 <= i < |r| && r[i].datetime == x.datetime)
  {
    ReducedAscending(rows);
    ReducedCovers(rows);
  }

  lemma ReducedAscending(rows: seq<Frame>)
    ensures var r := Reduced(rows);
      && |r| == |SortedKeys(KeysOf(rows, DatetimeKey))|
      && (forall i, j :: 0 <= i < j < |r| ==> r[i].datetime < r[j].datetime)
  {
    ReducedRows(rows);
    GroupByAscending(rows, DatetimeKey);
  }

  lemma ReducedCovers(rows: seq<Frame>)
    ensures var r := Reduced(rows);
      forall x :: x in rows ==> exists i :: 0 <= i < |r| && r[i].datetime == x.datetime
  {
    ReducedRows(rows);
    GroupByCovers(rows, DatetimeKey);
    CoveredByKeys(rows, Reduced(rows), GroupBy(rows, DatetimeKey));
  }

  lemma CoveredByKeys(rows: seq<Frame>, r: seq<Frame>, gs: seq<Grp<Frame>>)
    requires |r| == |gs| && forall i :: 0 <= i < |r| ==> DatetimeKey(r[i]) == gs[i].key
    requires forall x :: x in rows ==> exists i :: 0 <= i < |gs| && gs[i].key == DatetimeKey(x)
    ensures forall x :: x in rows ==> exists i :: 0 <= i < |r| && r[i].datetime == x.datetime
  {
    forall x | x in rows ensures exists i :: 0 <= i < |r| && r[i].datetime == x.datetime {
      var i :| 0 <= i < |gs| && gs[i].key == DatetimeKey(x);
      assert r[i].datetime == x.datetime;
    }
  }

  /** Each kept row has the highest RLEVEL among the input rows sharing its
      datetime, and no earlier row of that datetime reaches that level. */
  lemma ReducedKeepsFirstHighest(rows: seq<Frame>)
    ensures var r := Reduced(rows);
      && (forall i, x :: 0 <= i < |r| && x in rows && x.datetime == r[i].datetime ==> x.rlevel <= r[i].rlevel)
      && (forall i :: 0 <= i < |r| ==> EarliestAtLevel(Group(rows, DatetimeKey, I(r[i].datetime)), r[i]))
  {
    var gs := GroupBy(rows, DatetimeKey);
    var r := Reduced(rows);
    ReducedRows(rows);
    forall i, x | 0 <= i < |r| && x in rows && x.datetime == r[i].datetime
      ensures x.rlevel <= r[i].rlevel
    {
      GroupMembers(rows, DatetimeKey, gs[i].key);
      var j :| 0 <= j < |gs[i].rows| && gs[i].rows[j] == x;
    }
    forall i | 0 <= i < |r|
      ensures EarliestAtLevel(Group(rows, DatetimeKey, I(r[i].datetime)), r[i])
    {
      var g := gs[i].rows;
      assert I(r[i].datetime) == gs[i].key;
      assert Group(rows, DatetimeKey, I(r[i].datetime)) == g;
      assert r[i] == FirstAtMax(g);
    }
  }

  /** A table whose datetimes strictly ascend is already reduced. */
  lemma ReducedOfAscending(r: seq<Frame>)
    requires forall a, b :: 0 <= a < b < |r| ==> r[a].datetime < r[b].datetime
    ensures Reduced(r) == r
  {
    var ks := KeysOf(r, DatetimeKey);
    assert Ascending(ks) by {
      forall i, j | 0 <= i < j < |ks| ensures KeyLt(ks[i], ks[j]) {
        assert r[i].datetime < r[j].datetime;
      }
    }
    AscendingUnique(SortedKeys(ks), ks);
    var gs := GroupBy(r, DatetimeKey);
    assert |gs| == |r|;
    forall i | 0 <= i < |r| ensures Reduced(r)[i] == r[i] {
      assert gs[i].key == ks[i];
      SingletonGroup(r, i);
      assert gs[i].rows == [r[i]];
    }
  }

  /** Reducing twice changes nothing. */
  lemma ReducedIdempotent(rows: seq<Frame>)
    ensures Reduced(Reduced(rows)) == Reduced(rows)
  {
    ReducedOnePerDatetime(rows);
    ReducedOfAscending(Reduced(rows));
  }

  lemma {:induction false} SingletonGroup(r: seq<Frame>, i: nat)
    requires i < |r|
    requires forall a, b :: 0 <= a < b < |r| ==> r[a].datetime < r[b].datetime
    ensures Group(r, DatetimeKey, I(r[i].datetime)) == [r[i]]
  {
    var last := |r| - 1;
    if i == last {
      GroupAbsent(r[..last], DatetimeKey, I(r[i].datetime));
    } else {
      assert r[..last][i] == r[i];
      SingletonGroup(r[..last], i);
    }
  }

  // ---------------------------------------------------------------------
  // Block analysis (contiguous3)

  /** The `orphaned` value: True, False, or "-" outside science proposals. */
  datatype Orphan = Orphaned | NotOrphaned | NotScience

  /** One sub-block `contiguous3` reports. Times are microseconds, `end`
      adds the last frame's EXPTIME; `duration` and exposures are seconds;
      efficiencies are percentages, undefined (numpy's inf/NaN) when their
      denominator is zero. */
  datatype Block = Block(
    propid: string,
    start: int,
    end: real,
    duration: real,
    exposure: real,
    efficiency: Option<real>,
    sciExposure: real,
    sciEfficiency: Option<real>,
    targets: seq<string>,
    moving: bool,
    meanRa: Option<real>,
    meanDec: Option<real>,
    orphan: Orphan)

  /** The column `df.PROPID != df.PROPID.shift()` compares. */
  function PropidOf(f: Frame): string { f.propid }

  /** `df.BLKUID != df.BLKUID.shift()` says "same" only for equal present
      ids: NaN differs from everything. */
  function SameBlkuid(a: Frame, b: Frame): bool
  {
    a.blkuid.Some? && b.blkuid.Some? && a.blkuid.value == b.blkuid.value
  }

  predicate IsScienceType(obstype: string) { obstype == "EXPOSE" || obstype == "SPECTRUM" }

  /** Among the first `n` frames, `i` is the one `nsmallest(1, 'datetime')`
      keeps: the first frame at the earliest datetime. */
  predicate EarliestAmong(g: seq<Frame>, n: int, i: int)
    requires n <= |g|
  {
    0 <= i < n && (forall j :: 0 <= j < n ==> g[i].datetime <= g[j].datetime)
    && forall j :: 0 <= j < i ==> g[j].datetime > g[i].datetime
  }

  /** Among the first `n` frames, `k` is the one `nlargest(1, 'datetime')`
      keeps: the first frame at the latest datetime. */
  predicate LatestAmong(g: seq<Frame>, n: int, k: int)
    requires n <= |g|
  {
    0 <= k < n && (forall j :: 0 <= j < n ==> g[j].datetime <= g[k].datetime)
    && forall j :: 0 <= j < k ==> g[j].datetime < g[k].datetime
  }

  /** `EXPTIME.astype(float).sum()`. */
  function ExptimeSum(g: seq<Frame>): real
  {
    if |g| == 0 then 0.0 else ExptimeSum(g[..|g| - 1]) + g[|g| - 1].exptime
  }

  /** `sublock[sublock.OBSTYPE.isin(['EXPOSE', 'SPECTRUM'])]`. */
  function ScienceFrames(g: seq<Frame>): (r: seq<Frame>)
    ensures forall f :: f in r <==> f in g && IsScienceType(f.obstype)
  {
    if |g| == 0 then []
    else
      var last := g[|g| - 1];
      assert g == g[..|g| - 1] + [last];
      ScienceFrames(g[..|g| - 1]) + (if IsScienceType(last.obstype) then [last] else [])
  }

  /** The positions present, in frame order: the values `RA.mean()` and
      `DEC.mean()` average once NaN is skipped. */
  function Located(g: seq<Frame>): (r: seq<Position>)
    ensures |r| <= |g|
    ensures |r| == 0 <==> forall j :: 0 <= j < |g| ==> g[j].pos.None?
  {
    if |g| == 0 then []
    else
      var last := g[|g| - 1];
      Located(g[..|g| - 1]) + (if last.pos.Some? then [last.pos.value] else [])
  }

  /** What `contiguous3` reads off a sub-block, accumulated over its frames:
      the rows `nsmallest` and `nlargest` keep, the EXPTIME total, the EXPTIME
      total of the EXPOSE and SPECTRUM frames, the sums and the count of the
      positions present (pandas' `mean` skips NaN), and whether an EXPOSE or
      SPECTRUM frame occurs. */
  datatype Stats = Stats(
    first: nat, last: nat,
    exposure: real, sciExposure: real,
    raSum: real, decSum: real, located: nat,
    hasScience: bool)

  /** The statistics of the first `n` frames. */
  function StatsUpTo(g: seq<Frame>, n: nat): (st: Stats)
    requires 0 < n <= |g|
    ensures st.first < n && st.last < n
  {
    var f := g[n - 1];
    var sciExp := if IsScienceType(f.obstype) then f.exptime else 0.0;
    var ra := if f.pos.Some? then f.pos.value.ra else 0.0;
    var dec := if f.pos.Some? then f.pos.value.dec else 0.0;
    var seen := if f.pos.Some? then 1 else 0;
    if n == 1 then Stats(0, 0, f.exptime, sciExp, ra, dec, seen, IsScienceType(f.obstype))
    else
      var st := StatsUpTo(g, n - 1);
      Stats(
        if f.datetime < g[st.first].datetime then n - 1 else st.first,
        if f.datetime > g[st.last].datetime then n - 1 else st.last,
        st.exposure + f.exptime,
        st.sciExposure + sciExp,
        st.raSum + ra,
        st.decSum + dec,
        st.located + seen,
        st.hasScience || IsScienceType(f.obstype))
  }

  function StatsOf(g: seq<Frame>): (st: Stats)
    requires |g| > 0
    ensures st.first < |g| && st.last < |g|
  {
    StatsUpTo(g, |g|)
  }

  function Objects(g: seq<Frame>): (r: seq<string>)
    ensures |r| == |g| && forall i :: 0 <= i < |g| ==> r[i] == g[i].objectName
  {
    seq(|g|, i requires 0 <= i < |g| => g[i].objectName)
  }

  function Delta(a: real, b: real): real { if a >= b then a - b else b - a }

  /** Moving: the earliest and the latest frame differ by more than 0.001 in
      RA or Dec. A missing position compares false, as NaN does. */
  predicate Moves(first: Frame, last: Frame)
  {
    first.pos.Some? && last.pos.Some?
    && (Delta(first.pos.value.ra, last.pos.value.ra) > 0.001
        || Delta(first.pos.value.dec, last.pos.value.dec) > 0.001)
  }

  /** `part / whole * 100`, undefined (numpy's inf or NaN) when `whole` is
      zero. */
  function Percentage(part: real, whole: real): (r: Option<real>)
    ensures r.None? <==> whole == 0.0
    ensures r.Some? ==> r.value * whole == part * 100.0
  {
    if whole == 0.0 then None else Some(part / whole * 100.0)
  }

  /** The quantities `contiguous3` derives for one sub-block. */
  function BlockOf(g: seq<Frame>, science: bool): Block
    requires |g| > 0
  {
    var st := StatsOf(g);
    var first := g[st.first];
    var last := g[st.last];
    var endTime := last.datetime as real + last.exptime * 1000000.0;
    var duration := (endTime - first.datetime as real) / 1000000.0;
    Block(
      g[0].propid,
      first.datetime,
      endTime,
      duration,
      st.exposure,
      Percentage(st.exposure, duration),
      st.sciExposure,
      Percentage(st.sciExposure, st.exposure),
      Unique(Objects(g)),
      Moves(first, last),
      if st.located == 0 then None else Some(st.raSum / (st.located as real)),
      if st.located == 0 then None else Some(st.decSum / (st.located as real)),
      if !science then NotScience else if st.hasScience then NotOrphaned else Orphaned)
  }

  /** `science_attempt`: some PROPID of the run is a science proposal. */
  predicate ScienceAttempt(run: seq<Frame>)
  {
    exists i :: 0 <= i < |run| && CheckSciencePropid(run[i].propid)
  }

  function Propids(g: seq<Frame>): (r: seq<string>)
    ensures |r| == |g| && forall i :: 0 <= i < |g| ==> r[i] == g[i].propid
  {
    seq(|g|, i requires 0 <= i < |g| => g[i].propid)
  }

  /** Looking at the distinct PROPIDs only decides the same thing. */
  lemma ScienceAttemptOfUnique(g: seq<Frame>)
    ensures ScienceAttempt(g) <==> exists p :: p in Unique(Propids(g)) && CheckSciencePropid(p)
  {
    var u := Unique(Propids(g));
    if ScienceAttempt(g) {
      var i :| 0 <= i < |g| && CheckSciencePropid(g[i].propid);
      assert Propids(g)[i] in u;
    }
    if m :| 0 <= m < |u| && CheckSciencePropid(u[m]) {
      assert u[m] in Propids(g);
    }
  }

  function BlkuidRuns(run: seq<Frame>): (rs: seq<seq<Frame>>)
    ensures forall i :: 0 <= i < |rs| ==> |rs[i]| > 0
  {
    RunsNonEmpty(run, SameBlkuid);
    Runs(run, SameBlkuid)
  }

  function PropidRuns(df: seq<Frame>): seq<seq<Frame>>
  {
    Runs(df, SameBy(PropidOf))
  }

  /** A BLKUID run together with the science decision of its PROPID run:
      what one pass of the inner loop of `contiguous3` summarises. */
  datatype SubBlock = SubBlock(frames: seq<Frame>, science: bool)

  /** The sub-blocks of one PROPID run, one per BLKUID run. */
  function RunSubBlocks(run: seq<Frame>): (r: seq<SubBlock>)
    ensures forall k :: 0 <= k < |r| ==> |r[k].frames| > 0
    ensures |r| == |BlkuidRuns(run)|
    ensures forall k :: 0 <= k < |r| ==> r[k] == SubBlock(BlkuidRuns(run)[k], ScienceAttempt(run))
  {
    Tagged(BlkuidRuns(run), ScienceAttempt(run))
  }

  /** Each group paired with one science decision. */
  function Tagged(groups: seq<seq<Frame>>, science: bool): (r: seq<SubBlock>)
    ensures |r| == |groups| && forall k :: 0 <= k < |r| ==> r[k] == SubBlock(groups[k], science)
  {
    seq(|groups|, k requires 0 <= k < |groups| => SubBlock(groups[k], science))
  }

  function AllSubBlocks(runs: seq<seq<Frame>>): (r: seq<SubBlock>)
    ensures forall k :: 0 <= k < |r| ==> |r[k].frames| > 0
  {
    if |runs| == 0 then [] else AllSubBlocks(runs[..|runs| - 1]) + RunSubBlocks(runs[|runs| - 1])
  }

  /** The block of one sub-block. */
  function Summary(x: SubBlock): Block
    requires |x.frames| > 0
  {
    BlockOf(x.frames, x.science)
  }

  /** Everything `contiguous3` reports, in order. */
  function Contiguous3Blocks(df: seq<Frame>): seq<Block>
  {
    MapSeq(AllSubBlocks(PropidRuns(df)), Summary)
  }

  /** The `science_attempt` loop of `contiguous3`: scans the distinct
      PROPIDs of a run and stops at the first science id. */
  method IsScienceAttempt(g: seq<Frame>) returns (scienceAttempt: bool)
    ensures scienceAttempt == ScienceAttempt(g)
  {
    var propids := Unique(Propids(g));
    ScienceAttemptOfUnique(g);
    scienceAttempt := false;
    var k := 0;
    while k < |propids|
      invariant k <= |propids|
      invariant !scienceAttempt
      invariant forall m :: 0 <= m < k ==> !CheckSciencePropid(propids[m])
    {
      if CheckSciencePropid(propids[k]) {
        scienceAttempt := true;
        assert propids[k] in propids;
        break;
      }
      k := k + 1;
    }
  }

  /** The inner loop of `contiguous3`: one block per BLKUID run of `g`. */
  method SummariseSubBlocks(g: seq<Frame>, scienceAttempt: bool) returns (runBlocks: seq<Block>)
    requires scienceAttempt == ScienceAttempt(g)
    ensures runBlocks == MapSeq(RunSubBlocks(g), Summary)
  {
    var blkuidGroups := BlkuidRuns(g);
    runBlocks := SummariseGroups(blkuidGroups, scienceAttempt);
  }

  /** The loop over the BLKUID groups of one PROPID run. */
  method SummariseGroups(groups: seq<seq<Frame>>, scienceAttempt: bool) returns (runBlocks: seq<Block>)
    requires forall k :: 0 <= k < |groups| ==> |groups[k]| > 0
    ensures runBlocks == MapSeq(Tagged(groups, scienceAttempt), Summary)
  {
    ghost var subs := Tagged(groups, scienceAttempt);
    runBlocks := [];
    var j := 0;
    while j < |groups|
      invariant j <= |groups|
      invariant runBlocks == MapSeq(subs[..j], Summary)
    {
      MapSeqStep(subs, Summary, j);
      runBlocks := runBlocks + [Summary(SubBlock(groups[j], scienceAttempt))];
      j := j + 1;
    }
    assert subs[..j] == subs;
  }

  /** `contiguous3`: walks the PROPID runs, decides per run whether it is a
      science attempt, and summarises each BLKUID run inside it. */
  method Contiguous3(df: seq<Frame>) returns (blocks: seq<Block>)
    ensures blocks == Contiguous3Blocks(df)
  {
    var contiguousPropid := PropidRuns(df);
    blocks := [];
    var i := 0;
    while i < |contiguousPropid|
      invariant i <= |contiguousPropid|
      invariant blocks == MapSeq(AllSubBlocks(contiguousPropid[..i]), Summary)
    {
      var g := contiguousPropid[i];
      var scienceAttempt := IsScienceAttempt(g);
      var runBlocks := SummariseSubBlocks(g, scienceAttempt);
      Contiguous3Step(contiguousPropid, i);
      blocks := blocks + runBlocks;
      i := i + 1;
    }
    assert contiguousPropid[..i] == contiguousPropid;
  }

  /** One pass of the outer loop of `contiguous3` appends the blocks of
      one PROPID run. */
  lemma Contiguous3Step(runs: seq<seq<Frame>>, i: nat)
    requires i < |runs|
    ensures MapSeq(AllSubBlocks(runs[..i + 1]), Summary)
      == MapSeq(AllSubBlocks(runs[..i]), Summary) + MapSeq(RunSubBlocks(runs[i]), Summary)
  {
    assert runs[..i + 1][..i] == runs[..i];
    assert AllSubBlocks(runs[..i + 1]) == AllSubBlocks(runs[..i]) + RunSubBlocks(runs[i]);
    MapSeqAppend(AllSubBlocks(runs[..i]), RunSubBlocks(runs[i]), Summary);
  }

  // ---------------------------------------------------------------------
  // Properties of the block analysis

  predicate OnePropid(g: seq<Frame>)
  {
    forall j :: 0 <= j < |g| ==> g[j].propid == g[0].propid
  }

  function FramesOf(xs: seq<SubBlock>): (r: seq<seq<Frame>>)
    ensures |r| == |xs| && forall k :: 0 <= k < |xs| ==> r[k] == xs[k].frames
  {
    seq(|xs|, k requires 0 <= k < |xs| => xs[k].frames)
  }

  /** What every sub-block `contiguous3` summarises looks like: non-empty,
      of one PROPID, each frame sharing a present BLKUID with its
      predecessor, and a science attempt exactly when its PROPID is a
      science id. */
  predicate WellCut(x: SubBlock)
  {
    && |x.frames| > 0
    && OnePropid(x.frames)
    && (forall j :: 0 < j < |x.frames| ==> SameBlkuid(x.frames[j - 1], x.frames[j]))
    && x.science == CheckSciencePropid(x.frames[0].propid)
  }

  lemma RunSubBlocksWellCut(r: seq<Frame>)
    requires |r| > 0 && OnePropid(r)
    ensures Concat(FramesOf(RunSubBlocks(r))) == r
    ensures forall k :: 0 <= k < |RunSubBlocks(r)| ==> WellCut(RunSubBlocks(r)[k])
  {
    var subs := BlkuidRuns(r);
    var xs := RunSubBlocks(r);
    RunsPartition(r, SameBlkuid);
    assert FramesOf(xs) == subs;
    assert ScienceAttempt(r) == CheckSciencePropid(r[0].propid);
    forall k | 0 <= k < |subs|
      ensures OnePropid(subs[k]) && subs[k][0].propid == r[0].propid
    {
      forall j | 0 <= j < |subs[k]| ensures subs[k][j].propid == r[0].propid {
        InConcat(subs, k, j);
      }
    }
  }

  lemma AllSubBlocksWellCut(runs: seq<seq<Frame>>)
    requires forall i :: 0 <= i < |runs| ==> |runs[i]| > 0 && OnePropid(runs[i])
    ensures Concat(FramesOf(AllSubBlocks(runs))) == Concat(runs)
    ensures forall k :: 0 <= k < |AllSubBlocks(runs)| ==> WellCut(AllSubBlocks(runs)[k])
  {
    AllSubBlocksConcat(runs);
    AllSubBlocksCut(runs);
  }

  lemma {:induction false} AllSubBlocksConcat(runs: seq<seq<Frame>>)
    requires forall i :: 0 <= i < |runs| ==> |runs[i]| > 0 && OnePropid(runs[i])
    ensures Concat(FramesOf(AllSubBlocks(runs))) == Concat(runs)
  {
    if |runs| > 0 {
      var init := runs[..|runs| - 1];
      var r := runs[|runs| - 1];
      AllSubBlocksConcat(init);
      RunSubBlocksWellCut(r);
      FramesOfAppend(AllSubBlocks(init), RunSubBlocks(r));
      ConcatAppend(FramesOf(AllSubBlocks(init)), FramesOf(RunSubBlocks(r)));
      ConcatLast(runs);
    }
  }

  lemma FramesOfAppend(xs: seq<SubBlock>, ys: seq<SubBlock>)
    ensures FramesOf(xs + ys) == FramesOf(xs) + FramesOf(ys)
  {
  }

  lemma ConcatLast(runs: seq<seq<Frame>>)
    requires |runs| > 0
    ensures Concat(runs) == Concat(runs[..|runs| - 1]) + runs[|runs| - 1]
  {
    var init, r := runs[..|runs| - 1], runs[|runs| - 1];
    ConcatAppend(init, [r]);
    assert runs == init + [r];
    assert Concat([r]) == r + Concat([]);
  }

  lemma {:induction false} AllSubBlocksCut(runs: seq<seq<Frame>>)
    requires forall i :: 0 <= i < |runs| ==> |runs[i]| > 0 && OnePropid(runs[i])
    ensures forall k :: 0 <= k < |AllSubBlocks(runs)| ==> WellCut(AllSubBlocks(runs)[k])
  {
    if |runs| > 0 {
      var init := runs[..|runs| - 1];
      var r := runs[|runs| - 1];
      AllSubBlocksCut(init);
      RunSubBlocksWellCut(r);
      assert AllSubBlocks(runs) == AllSubBlocks(init) + RunSubBlocks(r);
    }
  }

  /** `contiguous3` reports one block per sub-block: the sub-blocks cut the
      frame table into consecutive non-empty pieces, each of a single PROPID,
      inside which every frame shares a present BLKUID with its predecessor;
      a block belongs to a science attempt exactly when its own PROPID is a
      science id. */
  lemma Contiguous3Structure(df: seq<Frame>)
    ensures var xs := AllSubBlocks(PropidRuns(df));
      && Concat(FramesOf(xs)) == df
      && (forall k :: 0 <= k < |xs| ==> WellCut(xs[k]))
      && |Contiguous3Blocks(df)| == |xs|
      && forall k :: 0 <= k < |xs| ==> Contiguous3Blocks(df)[k] == BlockOf(xs[k].frames, xs[k].science)
  {
    forall k | 0 <= k < |AllSubBlocks(PropidRuns(df))| {
      MapSeqAt(AllSubBlocks(PropidRuns(df)), Summary, k);
    }
    var runs := PropidRuns(df);
    RunsPartition(df, SameBy(PropidOf));
    forall i | 0 <= i < |runs| ensures OnePropid(runs[i]) {
      forall j | 0 <= j < |runs[i]| ensures runs[i][j].propid == runs[i][0].propid {
        RunUniform(df, PropidOf, i, j);
      }
    }
    AllSubBlocksWellCut(runs);
  }

  /** The accumulated rows are the ones `nsmallest(1, 'datetime')` and
      `nlargest(1, 'datetime')` keep; the exposure totals are the EXPTIME sums
      over all frames and over the EXPOSE/SPECTRUM frames, and with
      non-negative exposure times the science total lies between zero and
      the whole; the position count and sums are those of the located frames;
      the EXPOSE/SPECTRUM flag says whether such a frame occurs. */
  lemma {:induction false} StatsMeaning(g: seq<Frame>, n: nat)
    requires 0 < n <= |g|
    ensures var st := StatsUpTo(g, n);
      && EarliestAmong(g, n, st.first)
      && LatestAmong(g, n, st.last)
      && st.exposure == ExptimeSum(g[..n])
      && st.sciExposure == ExptimeSum(ScienceFrames(g[..n]))
      && st.located == |Located(g[..n])|
      && st.raSum == Sum(RasOf(Located(g[..n])))
      && st.decSum == Sum(DecsOf(Located(g[..n])))
      && (st.hasScience <==> exists j :: 0 <= j < n && IsScienceType(g[j].obstype))
      && (st.located == 0 <==> forall j :: 0 <= j < n ==> g[j].pos.None?)
      && ((forall j :: 0 <= j < n ==> g[j].exptime >= 0.0) ==> 0.0 <= st.sciExposure <= st.exposure)
  {
    StatsFirstLast(g, n);
    StatsExposureSums(g, n);
    StatsPositionSums(g, n);
    StatsFlags(g, n);
    if forall j :: 0 <= j < n ==> g[j].exptime >= 0.0 {
      StatsExposure(g, n);
    }
  }

  lemma {:induction false} StatsFirstLast(g: seq<Frame>, n: nat)
    requires 0 < n <= |g|
    ensures EarliestAmong(g, n, StatsUpTo(g, n).first)
    ensures LatestAmong(g, n, StatsUpTo(g, n).last)
  {
    if n > 1 {
      StatsFirstLast(g, n - 1);
    }
  }

  lemma {:induction false} StatsFlags(g: seq<Frame>, n: nat)
    requires 0 < n <= |g|
    ensures StatsUpTo(g, n).hasScience <==> exists j :: 0 <= j < n && IsScienceType(g[j].obstype)
    ensures StatsUpTo(g, n).located == 0 <==> forall j :: 0 <= j < n ==> g[j].pos.None?
  {
    if n > 1 {
      StatsFlags(g, n - 1);
    }
  }

  /** The accumulated exposure totals are the EXPTIME sums over the frames
      and over their EXPOSE/SPECTRUM frames. */
  lemma StatsExposureSums(g: seq<Frame>, n: nat)
    requires 0 < n <= |g|
    ensures StatsUpTo(g, n).exposure == ExptimeSum(g[..n])
    ensures StatsUpTo(g, n).sciExposure == ExptimeSum(ScienceFrames(g[..n]))
  {
    StatsTotal(g, n);
    StatsScienceTotal(g, n);
  }

  lemma {:induction false} StatsTotal(g: seq<Frame>, n: nat)
    requires 0 < n <= |g|
    ensures StatsUpTo(g, n).exposure == ExptimeSum(g[..n])
  {
    assert g[..n][..n - 1] == g[..n - 1];
    if n > 1 {
      StatsTotal(g, n - 1);
    }
  }

  lemma {:induction false} StatsScienceTotal(g: seq<Frame>, n: nat)
    requires 0 < n <= |g|
    ensures StatsUpTo(g, n).sciExposure == ExptimeSum(ScienceFrames(g[..n]))
  {
    ScienceFramesStep(g, n);
    if n > 1 {
      StatsScienceTotal(g, n - 1);
    }
  }

  /** One more frame adds its EXPTIME to the science total exactly when it
      is an EXPOSE or SPECTRUM frame. */
  lemma ScienceFramesStep(g: seq<Frame>, n: nat)
    requires 0 < n <= |g|
    ensures ExptimeSum(ScienceFrames(g[..n])) ==
      ExptimeSum(ScienceFrames(g[..n - 1])) + (if IsScienceType(g[n - 1].obstype) then g[n - 1].exptime else 0.0)
  {
    var h := g[..n];
    assert h[..n - 1] == g[..n - 1];
    var prev := ScienceFrames(g[..n - 1]);
    if IsScienceType(g[n - 1].obstype) {
      assert ScienceFrames(h) == prev + [g[n - 1]];
      ExptimeSumSnoc(prev, g[n - 1]);
    } else {
      assert ScienceFrames(h) == prev;
    }
  }

  lemma ExptimeSumSnoc(g: seq<Frame>, f: Frame)
    ensures ExptimeSum(g + [f]) == ExptimeSum(g) + f.exptime
  {
    assert (g + [f])[..|g|] == g;
  }

  /** The accumulated position count and sums are those of the located
      frames. */
  lemma {:induction false} StatsPositionSums(g: seq<Frame>, n: nat)
    requires 0 < n <= |g|
    ensures StatsUpTo(g, n).located == |Located(g[..n])|
    ensures StatsUpTo(g, n).raSum == Sum(RasOf(Located(g[..n])))
    ensures StatsUpTo(g, n).decSum == Sum(DecsOf(Located(g[..n])))
  {
    var h := g[..n];
    assert h[..n - 1] == g[..n - 1];
    var prev := Located(h[..n - 1]);
    var f := h[n - 1];
    if f.pos.Some? {
      assert Located(h) == prev + [f.pos.value];
      SumsSnoc(prev, f.pos.value);
    } else {
      assert Located(h) == prev;
    }
    if n > 1 {
      StatsPositionSums(g, n - 1);
    } else {
      assert prev == [];
    }
  }

  lemma SumsSnoc(ps: seq<Position>, p: Position)
    ensures Sum(RasOf(ps + [p])) == Sum(RasOf(ps)) + p.ra
    ensures Sum(DecsOf(ps + [p])) == Sum(DecsOf(ps)) + p.dec
  {
    assert RasOf(ps + [p])[..|ps|] == RasOf(ps);
    assert DecsOf(ps + [p])[..|ps|] == DecsOf(ps);
  }

  lemma {:induction false} StatsExposure(g: seq<Frame>, n: nat)
    requires 0 < n <= |g|
    requires forall j :: 0 <= j < n ==> g[j].exptime >= 0.0
    ensures 0.0 <= StatsUpTo(g, n).sciExposure <= StatsUpTo(g, n).exposure
  {
    if n > 1 {
      StatsExposure(g, n - 1);
    }
  }

  /** With non-negative exposure times, the science exposure of a block is
      non-negative and never exceeds its total exposure, so the science
      efficiency, when defined, is a percentage; it is undefined exactly when
      the block exposed for no time at all. */
  lemma BlockExposures(g: seq<Frame>, science: bool)
    requires |g| > 0
    requires forall j :: 0 <= j < |g| ==> g[j].exptime >= 0.0
    ensures var b := BlockOf(g, science);
      && 0.0 <= b.sciExposure <= b.exposure
      && (b.sciEfficiency.None? <==> b.exposure == 0.0)
      && (b.sciEfficiency.Some? ==> 0.0 <= b.sciEfficiency.value <= 100.0)
  {
    StatsMeaning(g, |g|);
    var b := BlockOf(g, science);
    if b.exposure != 0.0 {
      DivAtMostOne(b.sciExposure, b.exposure);
    }
  }

  lemma DivAtMostOne(x: real, y: real)
    requires 0.0 <= x <= y && y != 0.0
    ensures 0.0 <= x / y * 100.0 <= 100.0
  {
    assert x / y <= 1.0 by {
      assert x / y * y == x;
    }
  }

  /** The block starts at the earliest frame and ends at the latest frame's
      datetime plus its EXPTIME; its duration is the time between, in
      seconds, and its efficiency the EXPTIME total as a percentage of that
      duration, undefined only for a zero-length block. With non-negative
      exposure times the block ends no earlier than any frame begins, so its
      duration is never negative. */
  lemma BlockTimes(g: seq<Frame>, science: bool)
    requires |g| > 0
    ensures var b := BlockOf(g, science);
      && (exists i :: EarliestAmong(g, |g|, i) && b.start == g[i].datetime)
      && (exists k :: LatestAmong(g, |g|, k) && b.end == g[k].datetime as real + g[k].exptime * 1000000.0)
      && b.duration == (b.end - b.start as real) / 1000000.0
      && b.efficiency == Percentage(ExptimeSum(g), b.duration)
      && ((forall j :: 0 <= j < |g| ==> g[j].exptime >= 0.0) ==>
            && (forall j :: 0 <= j < |g| ==> b.start <= g[j].datetime && (g[j].datetime as real) <= b.end)
            && b.duration >= 0.0)
  {
    var b, st := BlockOf(g, science), StatsOf(g);
    StatsFirstLast(g, |g|);
    BlockEnds(g, science);
    assert EarliestAmong(g, |g|, st.first) && b.start == g[st.first].datetime;
    assert LatestAmong(g, |g|, st.last) && b.end == g[st.last].datetime as real + g[st.last].exptime * 1000000.0;
    BlockEfficiency(g, science);
    if forall j :: 0 <= j < |g| ==> g[j].exptime >= 0.0 {
      BlockSpan(g, science);
    }
  }

  /** The block's start, end and duration, read off the accumulated rows. */
  lemma BlockEnds(g: seq<Frame>, science: bool)
    requires |g| > 0
    ensures var b := BlockOf(g, science); var st := StatsOf(g);
      && b.start == g[st.first].datetime
      && b.end == g[st.last].datetime as real + g[st.last].exptime * 1000000.0
      && b.duration == (b.end - b.start as real) / 1000000.0
  {
  }

  lemma BlockEfficiency(g: seq<Frame>, science: bool)
    requires |g| > 0
    ensures BlockOf(g, science).efficiency == Percentage(ExptimeSum(g), BlockOf(g, science).duration)
  {
    var b := BlockOf(g, science);
    var st := StatsOf(g);
    assert b.efficiency == Percentage(st.exposure, b.duration);
    StatsTotal(g, |g|);
    assert g[..|g|] == g;
    assert st.exposure == ExptimeSum(g);
  }

  lemma BlockSpan(g: seq<Frame>, science: bool)
    requires |g| > 0
    requires forall j :: 0 <= j < |g| ==> g[j].exptime >= 0.0
    ensures var b := BlockOf(g, science);
      && (forall j :: 0 <= j < |g| ==> b.start <= g[j].datetime && (g[j].datetime as real) <= b.end)
      && b.duration >= 0.0
  {
    StatsFirstLast(g, |g|);
    var st := StatsOf(g);
    BlockEnds(g, science);
    assert g[st.last].exptime * 1000000.0 >= 0.0;
  }

  /** The block's exposure is the EXPTIME total of its frames and its
      science exposure that of its EXPOSE/SPECTRUM frames; the science
      efficiency is the second as a percentage of the first, undefined when
      the total is zero. */
  lemma BlockExposureSums(g: seq<Frame>, science: bool)
    requires |g| > 0
    ensures var b := BlockOf(g, science);
      && b.exposure == ExptimeSum(g)
      && b.sciExposure == ExptimeSum(ScienceFrames(g))
      && b.sciEfficiency == Percentage(ExptimeSum(ScienceFrames(g)), ExptimeSum(g))
  {
    StatsExposureSums(g, |g|);
    assert g[..|g|] == g;
  }

  /** A block is orphaned exactly when it belongs to a science attempt and
      none of its frames is an EXPOSE or SPECTRUM frame; blocks outside a
      science attempt carry no orphan flag. */
  lemma BlockOrphan(g: seq<Frame>, science: bool)
    requires |g| > 0
    ensures var b := BlockOf(g, science);
      && (b.orphan == Orphaned <==> science && forall j :: 0 <= j < |g| ==> g[j].obstype != "EXPOSE" && g[j].obstype != "SPECTRUM")
      && (b.orphan == NotScience <==> !science)
  {
    StatsMeaning(g, |g|);
  }

  /** A block is moving exactly when its earliest and latest frames both have
      a position and differ by more than 0.001 degrees in RA or in Dec. */
  lemma BlockMoving(g: seq<Frame>, science: bool)
    requires |g| > 0
    ensures BlockOf(g, science).moving <==>
      exists i, k :: EarliestAmong(g, |g|, i) && LatestAmong(g, |g|, k) && Moves(g[i], g[k])
  {
    StatsMeaning(g, |g|);
    var st := StatsOf(g);
    forall i, k | EarliestAmong(g, |g|, i) && LatestAmong(g, |g|, k) ensures i == st.first && k == st.last {
      EarliestUnique(g, st.first, i);
      LatestUnique(g, st.last, k);
    }
  }

  lemma EarliestUnique(g: seq<Frame>, a: int, b: int)
    requires EarliestAmong(g, |g|, a) && EarliestAmong(g, |g|, b)
    ensures a == b
  {
    assert g[a].datetime == g[b].datetime;
  }

  lemma LatestUnique(g: seq<Frame>, a: int, b: int)
    requires LatestAmong(g, |g|, a) && LatestAmong(g, |g|, b)
    ensures a == b
  {
    assert g[a].datetime == g[b].datetime;
  }

  /** The targets are the distinct OBJECTs of the block; the mean position
      is the mean RA and the mean Dec of the frames that have a position,
      undefined exactly when no frame of the block has one. */
  lemma BlockTargetsAndMean(g: seq<Frame>, science: bool)
    requires |g| > 0
    ensures var b := BlockOf(g, science);
      && Distinct(b.targets)
      && (forall t :: t in b.targets <==> exists j :: 0 <= j < |g| && g[j].objectName == t)
      && (b.meanRa.None? <==> forall j :: 0 <= j < |g| ==> g[j].pos.None?)
      && (b.meanRa.None? <==> b.meanDec.None?)
      && b.meanRa == (if |Located(g)| == 0 then None else Some(Mean(RasOf(Located(g)))))
      && b.meanDec == (if |Located(g)| == 0 then None else Some(Mean(DecsOf(Located(g)))))
  {
    StatsPositionSums(g, |g|);
    assert g[..|g|] == g;
  }
}
