/**
 * The pandas operations the analysis scripts rely on, stated over sequences:
 * `groupby` (a stable partition by key, groups in ascending key order),
 * `Series.unique()` (distinct values in order of first appearance) and the
 * run labelling `(x != x.shift()).cumsum()` (maximal runs of equal values).
 */
module Grouping {

  /** A groupby key: an integer column, a string column, or the pair
      (integer, string) used by a two-column groupby. */
  datatype Key = I(i: int) | S(s: string) | P(first: int, second: string)

  /** Python's ordering on strings: lexicographic on character codes. */
  predicate StrLt(a: string, b: string)
    decreases |a|
  {
    if |a| == 0 then |b| > 0
    else if |b| == 0 then false
    else a[0] < b[0] || (a[0] == b[0] && StrLt(a[1..], b[1..]))
  }

  lemma {:induction false} StrLtIrreflexive(a: string)
    ensures !StrLt(a, a)
    decreases |a|
  {
    if |a| > 0 {
      StrLtIrreflexive(a[1..]);
    }
  }

  lemma {:induction false} StrLtTransitive(a: string, b: string, c: string)
    requires StrLt(a, b) && StrLt(b, c)
    ensures StrLt(a, c)
    decreases |a|
  {
    if |a| > 0 && a[0] == b[0] && b[0] == c[0] {
      StrLtTransitive(a[1..], b[1..], c[1..]);
    }
  }

  lemma {:induction false} StrLtTotal(a: string, b: string)
    requires a != b
    ensures StrLt(a, b) || StrLt(b, a)
    decreases |a|
  {
    if |a| > 0 && |b| > 0 && a[0] == b[0] {
      assert a == [a[0]] + a[1..] && b == [b[0]] + b[1..];
      StrLtTotal(a[1..], b[1..]);
    }
  }

  function Rank(k: Key): nat
  {
    match k
    case I(_) => 0
    case S(_) => 1
    case P(_, _) => 2
  }

  /** The order in which groupby lists its groups. */
  predicate KeyLt(a: Key, b: Key)
  {
    if Rank(a) != Rank(b) then Rank(a) < Rank(b)
    else match a
      case I(x) => x < b.i
      case S(x) => StrLt(x, b.s)
      case P(x, y) => x < b.first || (x == b.first && StrLt(y, b.second))
  }

  lemma KeyLtIrreflexive(a: Key)
    ensures !KeyLt(a, a)
  {
    match a
    case I(_) =>
    case S(x) => StrLtIrreflexive(x);
    case P(_, y) => StrLtIrreflexive(y);
  }

  lemma KeyLtTransitive(a: Key, b: Key, c: Key)
    requires KeyLt(a, b) && KeyLt(b, c)
    ensures KeyLt(a, c)
  {
    if Rank(a) == Rank(b) == Rank(c) {
      match a
      case I(_) =>
      case S(x) => StrLtTransitive(x, b.s, c.s);
      case P(x, y) =>
        if x == b.first == c.first {
          StrLtTransitive(y, b.second, c.second);
        }
    }
  }

  lemma KeyLtTotal(a: Key, b: Key)
    requires a != b
    ensures KeyLt(a, b) || KeyLt(b, a)
  {
    if Rank(a) == Rank(b) {
      match a
      case I(_) =>
      case S(x) => StrLtTotal(x, b.s);
      case P(x, y) =>
        if x == b.first {
          StrLtTotal(y, b.second);
        }
    }
  }

  predicate Distinct<T(==)>(s: seq<T>)
  {
    forall i, j :: 0 <= i < j < |s| ==> s[i] != s[j]
  }

  predicate Ascending(ks: seq<Key>)
  {
    forall i, j :: 0 <= i < j < |ks| ==> KeyLt(ks[i], ks[j])
  }

  lemma AscendingDistinct(ks: seq<Key>)
    requires Ascending(ks)
    ensures Distinct(ks)
  {
    forall i, j | 0 <= i < j < |ks|
      ensures ks[i] != ks[j]
    {
      KeyLtIrreflexive(ks[i]);
    }
  }

  /** Adds `k` to an ascending sequence of distinct keys. */
  function InsertKey(k: Key, ks: seq<Key>): (r: seq<Key>)
    requires Ascending(ks)
    ensures Ascending(r)
    ensures forall x :: x in r <==> x == k || x in ks
  {
    if |ks| == 0 then [k]
    else if k == ks[0] then ks
    else if KeyLt(k, ks[0]) then
      TransitiveFrom(k, ks);
      [k] + ks
    else
      KeyLtTotal(k, ks[0]);
      var tail := InsertKey(k, ks[1..]);
      assert forall x :: x in tail ==> KeyLt(ks[0], x) by {
        forall x | x in tail ensures KeyLt(ks[0], x) {
          if x != k {
            var j :| 0 <= j < |ks[1..]| && ks[1..][j] == x;
            assert ks[j + 1] == x;
          }
        }
      }
      [ks[0]] + tail
  }

  lemma TransitiveFrom(k: Key, ks: seq<Key>)
    requires Ascending(ks) && |ks| > 0 && KeyLt(k, ks[0])
    ensures Ascending([k] + ks)
  {
    forall j | 0 < j < |ks| ensures KeyLt(k, ks[j]) {
      KeyLtTransitive(k, ks[0], ks[j]);
    }
  }

  /** The distinct keys of a column, in ascending order. */
  function SortedKeys(ks: seq<Key>): (r: seq<Key>)
    ensures Ascending(r)
    ensures forall x :: x in r <==> x in ks
  {
    if |ks| == 0 then []
    else
      var r := InsertKey(ks[|ks| - 1], SortedKeys(ks[..|ks| - 1]));
      assert forall x :: x in ks <==> x in ks[..|ks| - 1] || x == ks[|ks| - 1] by {
        assert ks == ks[..|ks| - 1] + [ks[|ks| - 1]];
      }
      r
  }

  /** Two ascending key sequences with the same elements are equal: the
      order groupby imposes does not depend on the order of the rows. */
  lemma {:induction false} AscendingUnique(a: seq<Key>, b: seq<Key>)
    requires Ascending(a) && Ascending(b)
    requires forall x :: x in a <==> x in b
    ensures a == b
    decreases |a|
  {
    if |a| > 0 {
      assert a[0] in a;
    }
    if |b| > 0 {
      assert b[0] in b;
    }
    if |a| > 0 && |b| > 0 {
      if a[0] != b[0] {
        assert b[0] in b && a[0] in a;
        var i :| 0 <= i < |a| && a[i] == b[0];
        var j :| 0 <= j < |b| && b[j] == a[0];
        KeyLtTransitive(a[0], b[0], a[0]);
        KeyLtIrreflexive(a[0]);
        assert false;
      }
      AscendingDistinct(a);
      AscendingDistinct(b);
      forall x ensures x in a[1..] <==> x in b[1..] {
        if x in a[1..] {
          var i :| 1 <= i < |a| && a[i] == x;
          assert x != a[0];
          assert x in b;
          var j :| 0 <= j < |b| && b[j] == x;
          assert j != 0;
          assert x == b[1..][j - 1];
        }
        if x in b[1..] {
          var j :| 1 <= j < |b| && b[j] == x;
          assert x != b[0];
          assert x in a;
          var i :| 0 <= i < |a| && a[i] == x;
          assert i != 0;
          assert x == a[1..][i - 1];
        }
      }
      AscendingUnique(a[1..], b[1..]);
      assert a == [a[0]] + a[1..] && b == [b[0]] + b[1..];
    }
  }

  /** The key column of a frame. */
  function KeysOf<T>(rows: seq<T>, key: T -> Key): (ks: seq<Key>)
    ensures |ks| == |rows|
    ensures forall i :: 0 <= i < |rows| ==> ks[i] == key(rows[i])
  {
    seq(|rows|, i requires 0 <= i < |rows| => key(rows[i]))
  }

  /** The rows whose key is `k`, in their original order. */
  function Group<T>(rows: seq<T>, key: T -> Key, k: Key): seq<T>
  {
    if |rows| == 0 then []
    else
      var last := rows[|rows| - 1];
      Group(rows[..|rows| - 1], key, k) + (if key(last) == k then [last] else [])
  }

  lemma {:induction false} GroupMembers<T>(rows: seq<T>, key: T -> Key, k: Key)
    ensures forall x :: x in Group(rows, key, k) <==> x in rows && key(x) == k
  {
    if |rows| > 0 {
      GroupMembers(rows[..|rows| - 1], key, k);
      assert rows == rows[..|rows| - 1] + [rows[|rows| - 1]];
    }
  }

  lemma GroupAppend<T>(rows: seq<T>, r: T, key: T -> Key, k: Key)
    ensures Group(rows + [r], key, k) == Group(rows, key, k) + (if key(r) == k then [r] else [])
  {
    assert (rows + [r])[..|rows|] == rows;
  }

  datatype Grp<T> = Grp(key: Key, rows: seq<T>)

  function GroupsFor<T>(rows: seq<T>, key: T -> Key, ks: seq<Key>): (gs: seq<Grp<T>>)
    ensures |gs| == |ks|
    ensures forall i :: 0 <= i < |ks| ==> gs[i] == Grp(ks[i], Group(rows, key, ks[i]))
  {
    if |ks| == 0 then [] else [Grp(ks[0], Group(rows, key, ks[0]))] + GroupsFor(rows, key, ks[1..])
  }

  /** `df.groupby(key)`: one group per distinct key, in ascending key order. */
  function GroupBy<T>(rows: seq<T>, key: T -> Key): (gs: seq<Grp<T>>)
    ensures forall i :: 0 <= i < |gs| ==> |gs[i].rows| > 0 && gs[i].rows == Group(rows, key, gs[i].key)
  {
    var ks := SortedKeys(KeysOf(rows, key));
    GroupsNonEmpty(rows, key, ks);
    var gs := GroupsFor(rows, key, ks);
    assert forall i :: 0 <= i < |gs| ==> gs[i].key == ks[i] && gs[i].rows == Group(rows, key, ks[i]);
    gs
  }

  /** Every key that occurs has at least one row. */
  lemma GroupsNonEmpty<T>(rows: seq<T>, key: T -> Key, ks: seq<Key>)
    requires forall k :: k in ks ==> k in KeysOf(rows, key)
    ensures forall i :: 0 <= i < |ks| ==> |Group(rows, key, ks[i])| > 0
  {
    forall i | 0 <= i < |ks| ensures |Group(rows, key, ks[i])| > 0 {
      GroupMembers(rows, key, ks[i]);
      assert ks[i] in ks;
      var j :| 0 <= j < |rows| && KeysOf(rows, key)[j] == ks[i];
      assert rows[j] in Group(rows, key, ks[i]);
    }
  }

  function Flatten<T>(gs: seq<Grp<T>>): seq<T>
  {
    if |gs| == 0 then [] else gs[0].rows + Flatten(gs[1..])
  }

  lemma {:induction false} FlattenAppend<T>(rows: seq<T>, r: T, key: T -> Key, ks: seq<Key>)
    requires Distinct(ks)
    ensures multiset(Flatten(GroupsFor(rows + [r], key, ks)))
         == multiset(Flatten(GroupsFor(rows, key, ks))) + (if key(r) in ks then multiset{r} else multiset{})
  {
    if |ks| > 0 {
      GroupAppend(rows, r, key, ks[0]);
      FlattenAppend(rows, r, key, ks[1..]);
      assert key(r) in ks <==> key(r) == ks[0] || key(r) in ks[1..];
      assert key(r) == ks[0] ==> key(r) !in ks[1..];
      assert GroupsFor(rows + [r], key, ks)[1..] == GroupsFor(rows + [r], key, ks[1..]);
      assert GroupsFor(rows, key, ks)[1..] == GroupsFor(rows, key, ks[1..]);
    }
  }

  lemma {:induction false} FlattenIsPermutation<T>(rows: seq<T>, key: T -> Key, ks: seq<Key>)
    requires Distinct(ks)
    requires forall r :: r in rows ==> key(r) in ks
    ensures multiset(Flatten(GroupsFor(rows, key, ks))) == multiset(rows)
  {
    if |rows| == 0 {
      FlattenEmpty(key, ks);
    } else {
      var init := rows[..|rows| - 1];
      var last := rows[|rows| - 1];
      assert rows == init + [last];
      FlattenIsPermutation(init, key, ks);
      FlattenAppend(init, last, key, ks);
    }
  }

  lemma {:induction false} FlattenEmpty<T>(key: T -> Key, ks: seq<Key>)
    ensures Flatten(GroupsFor([], key, ks)) == []
  {
    if |ks| > 0 {
      FlattenEmpty(key, ks[1..]);
      assert GroupsFor([], key, ks)[1..] == GroupsFor([], key, ks[1..]);
    }
  }

  /** The groups come in strictly ascending key order. */
  lemma GroupByAscending<T>(rows: seq<T>, key: T -> Key)
    ensures var gs := GroupBy(rows, key);
      forall i, j :: 0 <= i < j < |gs| ==> KeyLt(gs[i].key, gs[j].key)
  {
  }

  /** A group holds exactly the rows carrying its key. */
  lemma GroupByMembers<T>(rows: seq<T>, key: T -> Key)
    ensures var gs := GroupBy(rows, key);
      forall i, x :: 0 <= i < |gs| ==> (x in gs[i].rows <==> x in rows && key(x) == gs[i].key)
  {
    var gs := GroupBy(rows, key);
    forall i | 0 <= i < |gs|
      ensures forall x :: x in gs[i].rows <==> x in rows && key(x) == gs[i].key
    {
      GroupMembers(rows, key, gs[i].key);
    }
  }

  /** Every row has a group. */
  lemma GroupByCovers<T>(rows: seq<T>, key: T -> Key)
    ensures var gs := GroupBy(rows, key);
      forall x :: x in rows ==> exists i :: 0 <= i < |gs| && gs[i].key == key(x)
  {
    var ks := SortedKeys(KeysOf(rows, key));
    var gs := GroupBy(rows, key);
    forall x | x in rows ensures exists i :: 0 <= i < |gs| && gs[i].key == key(x) {
      var j :| 0 <= j < |rows| && rows[j] == x;
      assert KeysOf(rows, key)[j] == key(x);
      assert key(x) in ks;
      var i :| 0 <= i < |ks| && ks[i] == key(x);
      assert gs[i].key == key(x);
    }
  }

  /** Concatenating the groups gives back the rows, up to order. */
  lemma GroupByPermutation<T>(rows: seq<T>, key: T -> Key)
    ensures multiset(Flatten(GroupBy(rows, key))) == multiset(rows)
  {
    var ks := SortedKeys(KeysOf(rows, key));
    AscendingDistinct(ks);
    forall x | x in rows ensures key(x) in ks {
      var j :| 0 <= j < |rows| && rows[j] == x;
      assert KeysOf(rows, key)[j] == key(x);
    }
    FlattenIsPermutation(rows, key, ks);
  }

  /** groupby is a partition: groups come in strictly ascending key order,
      every group is non-empty and holds exactly the rows with its key, in
      their original order, and the groups together are a permutation of
      the rows. */
  lemma GroupByPartition<T>(rows: seq<T>, key: T -> Key)
    ensures var gs := GroupBy(rows, key);
      && (forall i, j :: 0 <= i < j < |gs| ==> KeyLt(gs[i].key, gs[j].key))
      && (forall i :: 0 <= i < |gs| ==> |gs[i].rows| > 0 && gs[i].rows == Group(rows, key, gs[i].key))
      && (forall i, x :: 0 <= i < |gs| ==> (x in gs[i].rows <==> x in rows && key(x) == gs[i].key))
      && (forall x :: x in rows ==> exists i :: 0 <= i < |gs| && gs[i].key == key(x))
      && multiset(Flatten(gs)) == multiset(rows)
  {
    GroupByAscending(rows, key);
    GroupByMembers(rows, key);
    GroupByCovers(rows, key);
    GroupByPermutation(rows, key);
  }

  /** No row carries the key: the group is empty. */
  lemma {:induction false} GroupAbsent<T>(rows: seq<T>, key: T -> Key, k: Key)
    requires forall i :: 0 <= i < |rows| ==> key(rows[i]) != k
    ensures Group(rows, key, k) == []
  {
    if |rows| > 0 {
      GroupAbsent(rows[..|rows| - 1], key, k);
    }
  }

  /** `Series.unique()`: the distinct values in order of first appearance. */
  function Unique<T(==,!new)>(s: seq<T>): (u: seq<T>)
    ensures Distinct(u)
    ensures forall x :: x in u <==> x in s
    ensures |u| <= |s|
  {
    if |s| == 0 then []
    else
      var u := Unique(s[..|s| - 1]);
      var last := s[|s| - 1];
      assert s == s[..|s| - 1] + [last];
      if last in u then u else u + [last]
  }

  /** The position of the first occurrence of `x` in `s`. */
  function FirstIndex<T(==)>(s: seq<T>, x: T): (i: nat)
    requires x in s
    ensures i < |s| && s[i] == x && forall j :: 0 <= j < i ==> s[j] != x
  {
    if s[0] == x then 0 else 1 + FirstIndex(s[1..], x)
  }

  /** A value first occurring within a prefix first occurs at the same place
      in the whole sequence. */
  lemma FirstIndexPrefix<T>(s: seq<T>, m: nat, x: T)
    requires m <= |s| && x in s[..m]
    ensures FirstIndex(s, x) == FirstIndex(s[..m], x)
  {
    var i, k := FirstIndex(s, x), FirstIndex(s[..m], x);
    assert s[..m][k] == s[k];
    assert i < m ==> s[..m][i] == s[i];
  }

  /** `unique()` lists the values in order of their first appearance. */
  lemma {:induction false} UniqueFirstAppearance<T(!new)>(s: seq<T>)
    ensures forall i, j :: 0 <= i < j < |Unique(s)| ==> FirstIndex(s, Unique(s)[i]) < FirstIndex(s, Unique(s)[j])
  {
    if |s| > 0 {
      var n := |s| - 1;
      var init, last := s[..n], s[n];
      UniqueFirstAppearance(init);
      var v := Unique(init);
      var u := Unique(s);
      assert u == if last in v then v else v + [last];
      forall i, j | 0 <= i < j < |u| ensures FirstIndex(s, u[i]) < FirstIndex(s, u[j]) {
        assert u[i] == v[i];
        FirstIndexPrefix(s, n, v[i]);
        if j < |v| {
          assert u[j] == v[j];
          FirstIndexPrefix(s, n, v[j]);
        } else {
          assert u[j] == last && last !in init;
        }
      }
    }
  }

  /** `len(x.unique()) > 1` holds exactly when some value differs from the first. */
  lemma UniqueMoreThanOne<T(!new)>(s: seq<T>)
    ensures |Unique(s)| > 1 <==> exists i :: 0 <= i < |s| && s[i] != s[0]
  {
    var u := Unique(s);
    if exists i :: 0 <= i < |s| && s[i] != s[0] {
      var i :| 0 <= i < |s| && s[i] != s[0];
      assert s[i] in u && s[0] in u;
      var p :| 0 <= p < |u| && u[p] == s[i];
      var q :| 0 <= q < |u| && u[q] == s[0];
      assert p != q;
    } else {
      forall k | 0 <= k < |u| ensures u[k] == s[0] {
        assert u[k] in s;
      }
    }
  }

  /** The ValueError `pd.concat` raises when it is given no objects. */
  datatype ConcatError = NoObjectsToConcatenate

  /** `groupby` yields no group exactly when the table is empty. */
  lemma GroupByEmpty<T>(rows: seq<T>, key: T -> Key)
    ensures |GroupBy(rows, key)| == 0 <==> |rows| == 0
  {
    if |rows| > 0 {
      GroupByCovers(rows, key);
      assert rows[0] in rows;
    }
  }

  function Concat<T>(rs: seq<seq<T>>): seq<T>
  {
    if |rs| == 0 then [] else rs[0] + Concat(rs[1..])
  }

  lemma {:induction false} ConcatAppend<T>(a: seq<seq<T>>, b: seq<seq<T>>)
    ensures Concat(a + b) == Concat(a) + Concat(b)
  {
    if |a| == 0 {
      assert a + b == b;
    } else {
      ConcatAppend(a[1..], b);
      assert (a + b)[1..] == a[1..] + b;
      assert Concat(a + b) == a[0] + Concat(a[1..] + b);
    }
  }

  /** `f` applied to every element, in order. */
  function MapSeq<A, B>(xs: seq<A>, f: A --> B): (ys: seq<B>)
    requires forall i :: 0 <= i < |xs| ==> f.requires(xs[i])
    ensures |ys| == |xs|
  {
    if |xs| == 0 then [] else MapSeq(xs[..|xs| - 1], f) + [f(xs[|xs| - 1])]
  }

  lemma {:induction false} MapSeqAppend<A, B>(xs: seq<A>, ys: seq<A>, f: A --> B)
    requires forall i :: 0 <= i < |xs| ==> f.requires(xs[i])
    requires forall i :: 0 <= i < |ys| ==> f.requires(ys[i])
    ensures forall i :: 0 <= i < |xs + ys| ==> f.requires((xs + ys)[i])
    ensures MapSeq(xs + ys, f) == MapSeq(xs, f) + MapSeq(ys, f)
  {
    assert forall i :: 0 <= i < |xs + ys| ==> f.requires((xs + ys)[i]) by {
      forall i | 0 <= i < |xs + ys| ensures f.requires((xs + ys)[i]) {
        if i >= |xs| {
          assert (xs + ys)[i] == ys[i - |xs|];
        }
      }
    }
    if |ys| == 0 {
      assert xs + ys == xs;
    } else {
      var init := ys[..|ys| - 1];
      MapSeqAppend(xs, init, f);
      assert (xs + ys)[..|xs + ys| - 1] == xs + init;
    }
  }

  lemma MapSeqStep<A, B>(xs: seq<A>, f: A --> B, j: nat)
    requires forall i :: 0 <= i < |xs| ==> f.requires(xs[i])
    requires j < |xs|
    ensures MapSeq(xs[..j + 1], f) == MapSeq(xs[..j], f) + [f(xs[j])]
  {
    assert xs[..j + 1][..j] == xs[..j];
  }

  lemma {:induction false} MapSeqAt<A, B>(xs: seq<A>, f: A --> B, k: nat)
    requires forall i :: 0 <= i < |xs| ==> f.requires(xs[i])
    requires k < |xs|
    ensures MapSeq(xs, f)[k] == f(xs[k])
  {
    if k < |xs| - 1 {
      MapSeqAt(xs[..|xs| - 1], f, k);
    }
  }

  /** Every element of a piece is an element of the concatenation. */
  lemma {:induction false} InConcat<T>(rs: seq<seq<T>>, k: nat, j: nat)
    requires k < |rs| && j < |rs[k]|
    ensures rs[k][j] in Concat(rs)
  {
    if k > 0 {
      InConcat(rs[1..], k - 1, j);
    }
  }

  /** The groups of `df.groupby((x != x.shift()).cumsum())`: maximal runs of
      consecutive rows that `same` relates, in order. A new run starts at a
      row exactly when the comparison with the previous row says "differs". */
  function Runs<T>(s: seq<T>, same: (T, T) -> bool): seq<seq<T>>
  {
    if |s| == 0 then []
    else
      var rest := Runs(s[1..], same);
      if |rest| > 0 && same(s[0], s[1]) then [[s[0]] + rest[0]] + rest[1..]
      else [[s[0]]] + rest
  }

  /** The runs concatenate back to the rows. */
  lemma {:induction false} RunsConcat<T>(s: seq<T>, same: (T, T) -> bool)
    ensures Concat(Runs(s, same)) == s
  {
    if |s| > 0 {
      var rest := Runs(s[1..], same);
      RunsConcat(s[1..], same);
      RunsNonEmpty(s[1..], same);
      if |rest| > 0 && same(s[0], s[1]) {
        assert Concat(rest) == rest[0] + Concat(rest[1..]);
        var r := Runs(s, same);
        assert r == [[s[0]] + rest[0]] + rest[1..];
        assert Concat(r) == ([s[0]] + rest[0]) + Concat(rest[1..]);
      } else {
        assert Concat(Runs(s, same)) == [s[0]] + Concat(rest);
      }
    }
  }

  /** The first row of the first run is the first row. */
  lemma RunsHead<T>(s: seq<T>, same: (T, T) -> bool)
    requires |s| > 0
    ensures |Runs(s, same)| > 0 && |Runs(s, same)[0]| > 0 && Runs(s, same)[0][0] == s[0]
  {
  }

  /** Inside a run every row is related to its predecessor. */
  lemma {:induction false} RunsLinked<T>(s: seq<T>, same: (T, T) -> bool)
    ensures var rs := Runs(s, same);
      forall i, j :: 0 <= i < |rs| && 0 < j < |rs[i]| ==> same(rs[i][j - 1], rs[i][j])
  {
    if |s| > 0 {
      var rest := Runs(s[1..], same);
      RunsLinked(s[1..], same);
      var r := Runs(s, same);
      if |rest| > 0 && same(s[0], s[1]) {
        RunsHead(s[1..], same);
        assert r == [[s[0]] + rest[0]] + rest[1..];
        forall i, j | 0 <= i < |r| && 0 < j < |r[i]|
          ensures same(r[i][j - 1], r[i][j])
        {
          if i == 0 {
            if j > 1 {
              assert r[0][j - 1] == rest[0][j - 2] && r[0][j] == rest[0][j - 1];
            }
          } else {
            assert r[i] == rest[i];
          }
        }
      } else {
        assert forall i :: 1 <= i < |r| ==> r[i] == rest[i - 1];
      }
    }
  }

  /** Run `i` starts with a row that is not related to the last row of run `i - 1`. */
  predicate CutAt<T>(rs: seq<seq<T>>, same: (T, T) -> bool, i: int)
    requires 0 < i < |rs|
  {
    |rs[i - 1]| > 0 && |rs[i]| > 0 && !same(rs[i - 1][|rs[i - 1]| - 1], rs[i][0])
  }

  /** Adjacent runs are not related at the cut. */
  lemma {:induction false} RunsCut<T>(s: seq<T>, same: (T, T) -> bool)
    ensures var rs := Runs(s, same);
      forall i :: 0 < i < |rs| ==> CutAt(rs, same, i)
  {
    if |s| > 0 {
      var rest := Runs(s[1..], same);
      RunsCut(s[1..], same);
      RunsNonEmpty(s[1..], same);
      var r := Runs(s, same);
      if |rest| > 0 {
        RunsHead(s[1..], same);
      }
      if |rest| > 0 && same(s[0], s[1]) {
        assert r == [[s[0]] + rest[0]] + rest[1..];
        forall i | 0 < i < |r| ensures CutAt(r, same, i) {
          assert CutAt(rest, same, i);
          assert r[i] == rest[i];
          if i > 1 {
            assert r[i - 1] == rest[i - 1];
          } else {
            assert r[0][|r[0]| - 1] == rest[0][|rest[0]| - 1];
          }
        }
      } else {
        assert r == [[s[0]]] + rest;
        forall i | 0 < i < |r| ensures CutAt(r, same, i) {
          assert r[i] == rest[i - 1];
          if i > 1 {
            assert CutAt(rest, same, i - 1);
            assert r[i - 1] == rest[i - 2];
          }
        }
      }
    }
  }

  /** The runs cut the rows into non-empty consecutive pieces: their
      concatenation gives the rows back, rows inside a run are related to
      their predecessor, and adjacent runs are not related at the cut. */
  lemma {:induction false} RunsPartition<T>(s: seq<T>, same: (T, T) -> bool)
    ensures var rs := Runs(s, same);
      && Concat(rs) == s
      && (forall i :: 0 <= i < |rs| ==> |rs[i]| > 0)
      && (forall i, j :: 0 <= i < |rs| && 0 < j < |rs[i]| ==> same(rs[i][j - 1], rs[i][j]))
      && (forall i :: 0 < i < |rs| ==> !same(rs[i - 1][|rs[i - 1]| - 1], rs[i][0]))
  {
    var rs := Runs(s, same);
    RunsConcat(s, same);
    RunsNonEmpty(s, same);
    RunsLinked(s, same);
    RunsCut(s, same);
    forall i | 0 < i < |rs| ensures !same(rs[i - 1][|rs[i - 1]| - 1], rs[i][0]) {
      assert CutAt(rs, same, i);
    }
  }

  lemma {:induction false} RunsNonEmpty<T>(s: seq<T>, same: (T, T) -> bool)
    ensures forall i :: 0 <= i < |Runs(s, same)| ==> |Runs(s, same)[i]| > 0
  {
    if |s| > 0 {
      RunsNonEmpty(s[1..], same);
    }
  }

  /** The `same` relation of a run labelling on one column: equal values. */
  function SameBy<T, U(==)>(f: T -> U): (T, T) -> bool
  {
    (a: T, b: T) => f(a) == f(b)
  }

  /** When runs are cut on equality of a column, every row of a run has the
      value of the run's first row. */
  lemma RunUniform<T, U>(s: seq<T>, f: T -> U, i: nat, j: nat)
    requires i < |Runs(s, SameBy(f))|
    requires j < |Runs(s, SameBy(f))[i]|
    ensures var r := Runs(s, SameBy(f))[i]; f(r[j]) == f(r[0])
  {
    RunsPartition(s, SameBy(f));
    var r := Runs(s, SameBy(f))[i];
    var k := 0;
    while k < j
      invariant k <= j
      invariant f(r[k]) == f(r[0])
    {
      assert SameBy(f)(r[k], r[k + 1]);
      k := k + 1;
    }
  }
}
