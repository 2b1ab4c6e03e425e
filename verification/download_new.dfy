/**
 * The parallel downloader's bookkeeping: the three-month date ranges the
 * archive is queried over, the controller that follows the download
 * processes' progress messages, and the elapsed-time display. The
 * processes, the message queue's producers and the clock are outside the
 * model; the queue is the list of messages waiting when it is drained.
 */
module DownloadNew {
  import opened Wrappers
  import Frames

  // ---------------------------------------------------------------------
  // Date ranges (control_download_all_files, count_date_entries)
  // ---------------------------------------------------------------------

  /** A `datetime.date`. */
  datatype Date = Date(year: int, month: int, day: int)

  predicate ValidDate(d: Date)
  {
    1 <= d.month <= 12 && 1 <= d.day <= Frames.DaysInMonth(d.year, d.month)
  }

  /** Date order, as Python compares dates. */
  predicate DateLt(a: Date, b: Date)
  {
    a.year < b.year || (a.year == b.year && (a.month < b.month || (a.month == b.month && a.day < b.day)))
  }

  /** Months since year 0 of a date's month. */
  function MonthIndex(d: Date): int
  {
    d.year * 12 + d.month - 1
  }

  /** The first day the archive holds data for: 2014-05-01. */
  const ArchiveStart: Date := Date(2014, 5, 1)

  /** `d + relativedelta(months=n)`: the same day `n` months on, clipped to
      the length of the month reached. */
  function AddMonths(d: Date, n: nat): (r: Date)
    requires ValidDate(d)
    ensures ValidDate(r)
    ensures MonthIndex(r) == MonthIndex(d) + n
  {
    var total := MonthIndex(d) + n;
    var y := total / 12;
    var m := total % 12 + 1;
    var dim := Frames.DaysInMonth(y, m);
    Date(y, m, if d.day <= dim then d.day else dim)
  }

  lemma MonthIndexOrder(a: Date, b: Date)
    requires ValidDate(a) && ValidDate(b)
    ensures MonthIndex(a) < MonthIndex(b) ==> DateLt(a, b)
    ensures DateLt(a, b) ==> MonthIndex(a) <= MonthIndex(b)
  {
  }

  /** The ranges from `start` to `today`: three months at a time, the last
      one cut short at `today`. */
  function Ranges(start: Date, today: Date): seq<(Date, Date)>
    requires ValidDate(start) && ValidDate(today)
    decreases MonthIndex(today) - MonthIndex(start), today.day - start.day
  {
    if !DateLt(start, today) then []
    else
      var stepped := AddMonths(start, 3);
      var end := if DateLt(today, stepped) then today else stepped;
      MonthIndexOrder(start, today);
      MonthIndexOrder(stepped, today);
      [(start, end)] + Ranges(end, today)
  }

  /** One range taken off the front: the range from `start` to the next
      end, then the ranges from that end. */
  lemma RangesStep(start: Date, today: Date)
    requires ValidDate(start) && ValidDate(today) && DateLt(start, today)
    ensures var stepped := AddMonths(start, 3);
      var end := if DateLt(today, stepped) then today else stepped;
      && ValidDate(end)
      && Ranges(start, today) == [(start, end)] + Ranges(end, today)
  {
  }

  /** The loop of `control_download_all_files` that fills `dt_pairs`,
      clipping an end after today. */
  method ControlDateRanges(today: Date) returns (dtPairs: seq<(Date, Date)>)
    requires ValidDate(today)
    ensures dtPairs == Ranges(ArchiveStart, today)
  {
    dtPairs := [];
    var startDt := ArchiveStart;
    while DateLt(startDt, today)
      invariant ValidDate(startDt)
      invariant dtPairs + Ranges(startDt, today) == Ranges(ArchiveStart, today)
      decreases |Ranges(startDt, today)|
    {
      var endDt := AddMonths(startDt, 3);
      if DateLt(today, endDt) {
        endDt := today;
      }
      RangesStep(startDt, today);
      dtPairs := dtPairs + [(startDt, endDt)];
      startDt := endDt;
    }
  }

  /** The loop of `count_date_entries`, which clips an end on or after
      today: the ranges it queries the archive over. */
  method CountDateEntries(today: Date) returns (queried: seq<(Date, Date)>)
    requires ValidDate(today)
    ensures queried == Ranges(ArchiveStart, today)
  {
    queried := [];
    var queryStartDt := ArchiveStart;
    while DateLt(queryStartDt, today)
      invariant ValidDate(queryStartDt)
      invariant queried + Ranges(queryStartDt, today) == Ranges(ArchiveStart, today)
      decreases |Ranges(queryStartDt, today)|
    {
      var queryEndDt := AddMonths(queryStartDt, 3);
      if !DateLt(queryEndDt, today) {
        queryEndDt := today;
      }
      ClipAgrees(AddMonths(queryStartDt, 3), today);
      RangesStep(queryStartDt, today);
      queried := queried + [(queryStartDt, queryEndDt)];
      queryStartDt := queryEndDt;
    }
  }

  /** Clipping an end on or after today and clipping one after today give
      the same end. */
  lemma ClipAgrees(stepped: Date, today: Date)
    ensures (if !DateLt(stepped, today) then today else stepped) == (if DateLt(today, stepped) then today else stepped)
  {
  }

  /** The ranges tile the days from `start` to `today`: they chain end to
      start, each is non-empty, none ends after today, the last ends on
      today, and each one but the last spans exactly three months. */
  lemma {:induction false} RangesTile(start: Date, today: Date)
    requires ValidDate(start) && ValidDate(today)
    ensures var rs := Ranges(start, today);
      && (|rs| == 0 <==> !DateLt(start, today))
      && (|rs| > 0 ==> rs[0].0 == start && rs[|rs| - 1].1 == today)
      && (forall k :: 0 < k < |rs| ==> rs[k].0 == rs[k - 1].1)
      && (forall k :: 0 <= k < |rs| ==> DateLt(rs[k].0, rs[k].1) && !DateLt(today, rs[k].1))
      && (forall k :: 0 <= k < |rs| - 1 ==> ValidDate(rs[k].0) && rs[k].1 == AddMonths(rs[k].0, 3))
    decreases MonthIndex(today) - MonthIndex(start), today.day - start.day
  {
    if DateLt(start, today) {
      var stepped := AddMonths(start, 3);
      var end := if DateLt(today, stepped) then today else stepped;
      MonthIndexOrder(start, today);
      MonthIndexOrder(stepped, today);
      MonthIndexOrder(start, stepped);
      RangesTile(end, today);
      var rs := Ranges(start, today);
      var tail := Ranges(end, today);
      assert rs == [(start, end)] + tail;
      if |tail| > 0 {
        assert rs[1].0 == end;
      } else {
        assert end == today;
      }
      forall k | 0 < k < |rs| ensures DateLt(rs[k].0, rs[k].1) && !DateLt(today, rs[k].1) {
        assert rs[k] == tail[k - 1];
      }
    }
  }

  // ---------------------------------------------------------------------
  // Controller
  // ---------------------------------------------------------------------

  /** `SECONDS_PER_UPDATE`: progress is printed at most this often. */
  const SecondsPerUpdate: nat := 5

  /** A progress message a download process posts: its index, its entry
      count so far and whether it is still running. */
  datatype Message = Message(name: int, entryCount: int, active: bool)

  /** No message after position `j` is from process `name`. */
  predicate NoLaterMessage(msgs: seq<Message>, name: int, j: nat)
  {
    forall j' :: j < j' < |msgs| ==> msgs[j'].name != name
  }

  /** The last message posted under `name`, if any. */
  function LastMessage(msgs: seq<Message>, name: int): (r: Option<Message>)
    ensures r.Some? ==> r.value in msgs && r.value.name == name
    ensures r.Some? ==> exists j :: 0 <= j < |msgs| && msgs[j] == r.value && NoLaterMessage(msgs, name, j)
    ensures r.None? <==> forall j :: 0 <= j < |msgs| ==> msgs[j].name != name
  {
    if |msgs| == 0 then None
    else if msgs[|msgs| - 1].name == name then Some(msgs[|msgs| - 1])
    else LastMessage(msgs[..|msgs| - 1], name)
  }

  /** `any(xs)`. */
  function Any(xs: seq<bool>): bool
  {
    |xs| > 0 && (Any(xs[..|xs| - 1]) || xs[|xs| - 1])
  }

  lemma {:induction false} AnyMeans(xs: seq<bool>)
    ensures Any(xs) <==> exists i :: 0 <= i < |xs| && xs[i]
  {
    if |xs| > 0 {
      AnyMeans(xs[..|xs| - 1]);
      if Any(xs[..|xs| - 1]) {
        var i :| 0 <= i < |xs| - 1 && xs[..|xs| - 1][i];
        assert xs[i];
      }
      if exists i :: 0 <= i < |xs| && xs[i] {
        var i :| 0 <= i < |xs| && xs[i];
        if i < |xs| - 1 {
          assert xs[..|xs| - 1][i];
        }
      }
    }
  }

  /** The controller of the download processes, one slot per process. */
  class Controller {
    var activeProcesses: seq<bool>
    var processEntryCounts: seq<int>
    var totalEntries: int
    var timerCounter: nat
    /** The messages waiting in the shared queue. */
    var queue: seq<Message>

    /** Every message names a process slot. */
    predicate Valid()
      reads this
    {
      && |activeProcesses| == |processEntryCounts|
      && forall j :: 0 <= j < |queue| ==> 0 <= queue[j].name < |activeProcesses|
    }

    /** `Controller.__init__`: every process active with no entries, the
        timer at zero. */
    constructor(processCount: nat, totalEntries: int)
      ensures Valid()
      ensures |activeProcesses| == |processEntryCounts| == processCount
      ensures forall i :: 0 <= i < processCount ==> activeProcesses[i] && processEntryCounts[i] == 0
      ensures this.totalEntries == totalEntries && timerCounter == 0 && queue == []
    {
      activeProcesses := seq(processCount, _ => true);
      processEntryCounts := seq(processCount, _ => 0);
      this.totalEntries := totalEntries;
      timerCounter := 0;
      queue := [];
    }

    /** `update_entry_counts`: drains the queue, each message overwriting
        its process's count and active flag; reports whether any message
        was drained. */
    method UpdateEntryCounts() returns (change: bool)
      requires Valid()
      modifies this
      ensures Valid() && queue == []
      ensures change <==> |old(queue)| > 0
      ensures |activeProcesses| == |old(activeProcesses)|
      ensures forall i :: 0 <= i < |activeProcesses| ==>
        match LastMessage(old(queue), i)
        case None => activeProcesses[i] == old(activeProcesses[i]) && processEntryCounts[i] == old(processEntryCounts[i])
        case Some(m) => activeProcesses[i] == m.active && processEntryCounts[i] == m.entryCount
      ensures totalEntries == old(totalEntries) && timerCounter == old(timerCounter)
    {
      change := false;
      ghost var k := 0;
      while |queue| > 0
        invariant Valid()
        invariant k <= |old(queue)| && queue == old(queue)[k..]
        invariant change <==> k > 0
        invariant |activeProcesses| == |old(activeProcesses)|
        invariant forall i :: 0 <= i < |activeProcesses| ==>
          match LastMessage(old(queue)[..k], i)
          case None => activeProcesses[i] == old(activeProcesses[i]) && processEntryCounts[i] == old(processEntryCounts[i])
          case Some(m) => activeProcesses[i] == m.active && processEntryCounts[i] == m.entryCount
        invariant totalEntries == old(totalEntries) && timerCounter == old(timerCounter)
        decreases |queue|
      {
        change := true;
        var msg := queue[0];
        queue := queue[1..];
        processEntryCounts := processEntryCounts[msg.name := msg.entryCount];
        activeProcesses := activeProcesses[msg.name := msg.active];
        assert old(queue)[..k + 1] == old(queue)[..k] + [msg];
        k := k + 1;
      }
      assert old(queue)[..k] == old(queue);
    }

    /** `check_progress`: after draining the queue, prints a progress line
        and restarts the timer if at least `SecondsPerUpdate` ticks have
        passed and something changed; otherwise the timer ticks on. */
    method CheckProgress() returns (printed: bool)
      requires Valid()
      modifies this
      ensures Valid() && queue == []
      ensures printed <==> old(timerCounter) >= SecondsPerUpdate && |old(queue)| > 0
      ensures timerCounter == if printed then 0 else old(timerCounter) + 1
      ensures |activeProcesses| == |old(activeProcesses)|
      ensures forall i :: 0 <= i < |activeProcesses| ==>
        match LastMessage(old(queue), i)
        case None => activeProcesses[i] == old(activeProcesses[i]) && processEntryCounts[i] == old(processEntryCounts[i])
        case Some(m) => activeProcesses[i] == m.active && processEntryCounts[i] == m.entryCount
      ensures totalEntries == old(totalEntries)
    {
      var change := UpdateEntryCounts();
      if timerCounter >= SecondsPerUpdate && change {
        printed := true;
        timerCounter := 0;
      } else {
        printed := false;
        timerCounter := timerCounter + 1;
      }
    }

    /** `download_is_active`: some process has not reported that it
        stopped. */
    function DownloadIsActive(): (r: bool)
      reads this
      ensures r <==> exists i :: 0 <= i < |activeProcesses| && activeProcesses[i]
    {
      AnyMeans(activeProcesses);
      Any(activeProcesses)
    }
  }

  // ---------------------------------------------------------------------
  // format_to_shortest_time
  // ---------------------------------------------------------------------

  /** `int(x)`: truncation toward zero. */
  function Trunc(x: real): int
  {
    if x >= 0.0 then x.Floor else -((-x).Floor)
  }

  /** The decimal digits of `n`, as `str` writes it. */
  function NatStr(n: nat): (s: string)
    ensures |s| > 0
  {
    var d := ['0', '1', '2', '3', '4', '5', '6', '7', '8', '9'][n % 10];
    if n < 10 then [d] else NatStr(n / 10) + [d]
  }

  function IntStr(n: int): string
  {
    if n < 0 then "-" + NatStr(-n) else NatStr(n)
  }

  /** The hours, minutes and seconds `format_to_shortest_time` computes. */
  function TimeFields(t: real): (int, int, int)
  {
    var hours := Trunc(t / 3600.0);
    var minutes := Trunc(t / 60.0) - 60 * hours;
    var seconds := Trunc(t - (3600 * hours) as real - (minutes * 60) as real);
    (hours, minutes, seconds)
  }

  /** `format_to_shortest_time`: hours and minutes when there are hours,
      else minutes and seconds when there are minutes, else seconds. */
  function FormatToShortestTime(t: real): string
  {
    var (hours, minutes, seconds) := TimeFields(t);
    if hours != 0 then IntStr(hours) + "h " + IntStr(minutes) + "m"
    else if minutes != 0 then IntStr(minutes) + "m " + IntStr(seconds) + "s"
    else IntStr(seconds) + "s"
  }

  /** For a non-negative time the fields split its whole seconds: minutes
      and seconds lie in 0..59 and `3600 h + 60 m + s` is the floor of the
      time. */
  lemma TimeFieldsSplit(t: real)
    requires t >= 0.0
    ensures var (h, m, s) := TimeFields(t);
      && h >= 0 && 0 <= m < 60 && 0 <= s < 60
      && 3600 * h + 60 * m + s == t.Floor
  {
    var f := (t / 60.0).Floor;
    var frac := t / 60.0 - f as real;
    assert 0.0 <= frac < 1.0;
    var q := f / 60;
    var r := f % 60;
    assert f == 60 * q + r;
    assert t / 3600.0 == q as real + (r as real + frac) / 60.0;
    assert 0.0 <= (r as real + frac) / 60.0 < 1.0;
    assert (t / 3600.0).Floor == q;
    var rest := t - (3600 * q) as real - (r * 60) as real;
    assert rest == 60.0 * frac;
    assert 0.0 <= rest < 60.0;
    assert t == (60 * f) as real + rest;
    assert t.Floor == 60 * f + rest.Floor;
  }

  /** The display names the largest non-zero unit first: it carries an 'h'
      exactly when there are hours. */
  lemma FormatShape(t: real)
    requires t >= 0.0
    ensures var (h, m, s) := TimeFields(t);
      var out := FormatToShortestTime(t);
      && (h > 0 ==> out == NatStr(h) + "h " + NatStr(m) + "m")
      && (h == 0 && m > 0 ==> out == NatStr(m) + "m " + NatStr(s) + "s")
      && (h == 0 && m == 0 ==> out == NatStr(s) + "s" && s == t.Floor)
  {
    TimeFieldsSplit(t);
  }
}
