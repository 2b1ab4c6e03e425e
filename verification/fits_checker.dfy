/**
 * The VOTable conversion of the SOAR/Goodman checker: every table row
 * becomes an entry holding the wanted columns, masked cells turned into
 * nulls, and the entries are then split by OBSTYPE into observations,
 * arc-lamp calibrations and other calibrations.
 */
module FitsChecker {
  import opened Wrappers

  /** A cell value: text or a number. */
  datatype Value = Str(s: string) | Num(r: real)

  /** A table cell, possibly masked. */
  datatype Cell = Masked | Present(v: Value)

  /** The parsed table: its row count and its columns by name. */
  datatype Table = Table(nrows: nat, columns: map<string, seq<Cell>>)

  /** One converted row: a value or null per wanted column. */
  type Entry = map<string, Option<Value>>

  /** `desired_keys`. */
  const DesiredKeys: seq<string> := ["dtpropid", "date_obs", "dtpi", "ra", "dec", "filter", "exposure", "obstype", "obsmode"]

  /** The fields copied into each `info` record. */
  const InfoKeys: set<string> := {"date_obs", "dtpropid", "ra", "dec", "exposure"}

  /** The table holds every wanted column, each covering every row. */
  predicate HasColumns(t: Table)
  {
    forall k :: k in DesiredKeys ==> k in t.columns && |t.columns[k]| >= t.nrows
  }

  /** A masked cell becomes null; any other value is kept. */
  function Clean(c: Cell): (r: Option<Value>)
    ensures r.None? <==> c.Masked?
    ensures r.Some? ==> c == Present(r.value)
  {
    if c.Masked? then None else Some(c.v)
  }

  /** The entry the conversion loop builds for row `i`. */
  function EntryOf(t: Table, i: nat): Entry
    requires HasColumns(t) && i < t.nrows
  {
    map k | k in DesiredKeys :: Clean(t.columns[k][i])
  }

  /** The conversion loop: `total_output`, one entry per row in row order,
      holding exactly the wanted columns. */
  method ConvertRows(table: Table) returns (totalOutput: seq<Entry>)
    requires HasColumns(table)
    ensures |totalOutput| == table.nrows
    ensures forall i :: 0 <= i < |totalOutput| ==>
      && totalOutput[i].Keys == set k | k in DesiredKeys
      && forall k :: k in DesiredKeys ==>
        && k in totalOutput[i]
        && (totalOutput[i][k].None? <==> table.columns[k][i].Masked?)
        && (totalOutput[i][k].Some? ==> table.columns[k][i] == Present(totalOutput[i][k].value))
  {
    totalOutput := [];
    var i := 0;
    while i < table.nrows
      invariant i <= table.nrows
      invariant |totalOutput| == i
      invariant forall m :: 0 <= m < i ==> totalOutput[m] == EntryOf(table, m)
    {
      var entryDict := CleanRow(table, i);
      totalOutput := totalOutput + [entryDict];
      i := i + 1;
    }
  }

  /** The inner loop over `desired_keys` for one row. */
  method CleanRow(table: Table, i: nat) returns (entryDict: Entry)
    requires HasColumns(table) && i < table.nrows
    ensures entryDict == EntryOf(table, i)
  {
    entryDict := map[];
    var j := 0;
    while j < |DesiredKeys|
      invariant j <= |DesiredKeys|
      invariant entryDict == PartialEntry(table, i, j)
    {
      var votKey := DesiredKeys[j];
      var value := Clean(table.columns[votKey][i]);
      PartialEntryStep(table, i, j);
      entryDict := entryDict[votKey := value];
      j := j + 1;
    }
    assert DesiredKeys[..j] == DesiredKeys;
  }

  /** The entry after the first `j` wanted columns. */
  function PartialEntry(t: Table, i: nat, j: nat): Entry
    requires HasColumns(t) && i < t.nrows && j <= |DesiredKeys|
  {
    map k | k in DesiredKeys[..j] :: Clean(t.columns[k][i])
  }

  lemma PartialEntryStep(t: Table, i: nat, j: nat)
    requires HasColumns(t) && i < t.nrows && j < |DesiredKeys|
    ensures PartialEntry(t, i, j + 1) == PartialEntry(t, i, j)[DesiredKeys[j] := Clean(t.columns[DesiredKeys[j]][i])]
  {
    assert DesiredKeys[..j + 1] == DesiredKeys[..j] + [DesiredKeys[j]];
  }

  // ---------------------------------------------------------------------
  // The OBSTYPE split
  // ---------------------------------------------------------------------

  /** `str.lower()` on ASCII letters. */
  function Lower(s: string): (r: string)
    ensures |r| == |s|
    ensures forall i :: 0 <= i < |s| ==> r[i] == (if 'A' <= s[i] <= 'Z' then (s[i] - 'A' + 'a') as char else s[i])
  {
    if |s| == 0 then "" else
      var c := s[0];
      [if 'A' <= c <= 'Z' then (c - 'A' + 'a') as char else c] + Lower(s[1..])
  }

  /** The three lists an entry can go to. */
  datatype Category = Observation | ArcCalibration | Calibration

  /** Where an entry goes: `object` observations, `comp` arc-lamp frames,
      anything else a calibration. `None` when OBSTYPE is null or not text,
      where `.lower()` fails. */
  function CategoryOf(e: Entry): Option<Category>
  {
    if "obstype" !in e || e["obstype"].None? || !e["obstype"].value.Str? then None
    else
      var t := Lower(e["obstype"].value.s);
      Some(if t == "object" then Observation else if t == "comp" then ArcCalibration else Calibration)
  }

  /** The `info` record of an entry. */
  function InfoOf(e: Entry): Entry
  {
    map k | k in InfoKeys && k in e :: e[k]
  }

  /** The `info` records of the entries in category `c`, in entry order. */
  function Bucket(entries: seq<Entry>, c: Category): (b: seq<Entry>)
    ensures |b| <= |entries|
  {
    if |entries| == 0 then []
    else
      var last := entries[|entries| - 1];
      Bucket(entries[..|entries| - 1], c) + (if CategoryOf(last) == Some(c) then [InfoOf(last)] else [])
  }

  datatype Lists = Lists(observations: seq<Entry>, arcCalibrations: seq<Entry>, calibrations: seq<Entry>)

  /** The split loop. It fails at the first entry whose OBSTYPE cannot be
      lower-cased, naming that entry; otherwise every entry's `info` is
      appended to the list of its category. */
  method SplitByObstype(totalOutput: seq<Entry>) returns (r: Result<Lists, nat>)
    ensures r.Err? ==> (r.error < |totalOutput| && CategoryOf(totalOutput[r.error]).None?
      && forall i :: 0 <= i < r.error ==> CategoryOf(totalOutput[i]).Some?)
    ensures r.Ok? <==> forall i :: 0 <= i < |totalOutput| ==> CategoryOf(totalOutput[i]).Some?
    ensures r.Ok? ==> r.value == Lists(
      Bucket(totalOutput, Observation), Bucket(totalOutput, ArcCalibration), Bucket(totalOutput, Calibration))
  {
    var observations, arcCalibrations, calibrations := [], [], [];
    var i := 0;
    while i < |totalOutput|
      invariant i <= |totalOutput|
      invariant forall m :: 0 <= m < i ==> CategoryOf(totalOutput[m]).Some?
      invariant observations == Bucket(totalOutput[..i], Observation)
      invariant arcCalibrations == Bucket(totalOutput[..i], ArcCalibration)
      invariant calibrations == Bucket(totalOutput[..i], Calibration)
    {
      var entry := totalOutput[i];
      var info := InfoOf(entry);
      var category := CategoryOf(entry);
      if category.None? {
        return Err(i);
      }
      assert totalOutput[..i + 1][..i] == totalOutput[..i];
      if category.value == Observation {
        observations := observations + [info];
      } else if category.value == ArcCalibration {
        arcCalibrations := arcCalibrations + [info];
      } else {
        calibrations := calibrations + [info];
      }
      i := i + 1;
    }
    assert totalOutput[..i] == totalOutput;
    r := Ok(Lists(observations, arcCalibrations, calibrations));
  }

  /** Every entry lands in exactly one list: when no OBSTYPE fails, the
      three lists together are as long as the entries. */
  lemma {:induction false} BucketsPartition(entries: seq<Entry>)
    requires forall i :: 0 <= i < |entries| ==> CategoryOf(entries[i]).Some?
    ensures |Bucket(entries, Observation)| + |Bucket(entries, ArcCalibration)| + |Bucket(entries, Calibration)| == |entries|
  {
    if |entries| > 0 {
      BucketsPartition(entries[..|entries| - 1]);
    }
  }

  /** A list holds the `info` of an entry exactly when some entry of its
      category has that `info`. */
  lemma {:induction false} BucketMembers(entries: seq<Entry>, c: Category, info: Entry)
    ensures info in Bucket(entries, c) <==> exists e :: e in entries && CategoryOf(e) == Some(c) && InfoOf(e) == info
  {
    if |entries| > 0 {
      var init, last := entries[..|entries| - 1], entries[|entries| - 1];
      BucketMembers(init, c, info);
      assert entries == init + [last];
      assert Bucket(entries, c) == Bucket(init, c) + (if CategoryOf(last) == Some(c) then [InfoOf(last)] else []);
      if info in Bucket(entries, c) {
        if info !in Bucket(init, c) {
          assert last in entries && CategoryOf(last) == Some(c) && InfoOf(last) == info;
        }
      } else {
        forall e | e in entries && CategoryOf(e) == Some(c) ensures InfoOf(e) != info {
          if e != last {
            assert e in init;
          }
        }
      }
    }
  }

  /** Each `info` record holds exactly the five copied fields of a converted
      entry, unchanged. */
  lemma InfoFields(e: Entry)
    requires e.Keys == set k | k in DesiredKeys
    ensures InfoOf(e).Keys == InfoKeys
    ensures forall k :: k in InfoKeys ==> InfoOf(e)[k] == e[k]
  {
  }

  /** A converted row fails the split exactly when its OBSTYPE cell is
      masked or holds a number. */
  lemma ConvertedCategory(t: Table, i: nat)
    requires HasColumns(t) && i < t.nrows
    ensures CategoryOf(EntryOf(t, i)).None? <==> t.columns["obstype"][i].Masked? || t.columns["obstype"][i].v.Num?
  {
    assert "obstype" in DesiredKeys;
  }
}
