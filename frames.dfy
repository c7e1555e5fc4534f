/** Data frames as the tournament app uses them: an ordered sequence of rows,
    each carrying an integer row label.  Filtering keeps the surviving rows and
    their labels; `df.loc[l] = row` overwrites the row labelled `l` when there
    is one and appends a new labelled row otherwise.  The app's upsert filters
    out the rows with the new row's key and then writes at label `len(df)`,
    which is `Upsert` below. */
module Frames {

  datatype Labeled<R> = Labeled(index: nat, row: R)

  type Frame<R> = seq<Labeled<R>>

  /** The rows of a frame, in frame order, without their labels. */
  function Rows<R>(f: Frame<R>): (rows: seq<R>)
    ensures |rows| == |f|
    ensures forall i :: 0 <= i < |f| ==> rows[i] == f[i].row
  {
    seq(|f|, i requires 0 <= i < |f| => f[i].row)
  }

  /** No label is used twice (pandas keeps this for every frame the app builds). */
  predicate DistinctLabels<R>(f: Frame<R>) {
    forall i, j :: 0 <= i < j < |f| ==> f[i].index != f[j].index
  }

  /** The labels are 0, 1, ..., n-1 in order: a frame as freshly read from CSV. */
  predicate Dense<R>(f: Frame<R>) {
    forall i :: 0 <= i < |f| ==> f[i].index == i
  }

  predicate HasLabel<R>(f: Frame<R>, l: nat) {
    exists i :: 0 <= i < |f| && f[i].index == l
  }

  /** At most one row per key. */
  predicate KeyUnique<K(==), R>(f: Frame<R>, key: R -> K) {
    forall i, j :: 0 <= i < j < |f| ==> key(f[i].row) != key(f[j].row)
  }

  /** A frame loaded from a table of rows: labels 0..n-1. */
  function Load<R>(rows: seq<R>): (f: Frame<R>)
    ensures Rows(f) == rows
    ensures Dense(f) && DistinctLabels(f)
  {
    seq(|rows|, i requires 0 <= i < |rows| => Labeled(i, rows[i]))
  }

  /** `df[df.key != k]`: the rows whose key is not `k`, in order, labels kept. */
  function Keep<K(==), R>(f: Frame<R>, key: R -> K, k: K): (g: Frame<R>)
    ensures |g| <= |f|
    ensures forall i :: 0 <= i < |g| ==> g[i] in f && key(g[i].row) != k
    ensures forall i :: 0 <= i < |f| && key(f[i].row) != k ==> f[i] in g
  {
    if f == [] then []
    else if key(f[0].row) == k then Keep(f[1..], key, k)
    else [f[0]] + Keep(f[1..], key, k)
  }

  lemma {:induction false} KeepDistinct<K, R>(f: Frame<R>, key: R -> K, k: K)
    requires DistinctLabels(f)
    ensures DistinctLabels(Keep(f, key, k))
  {
    if f != [] {
      KeepDistinct(f[1..], key, k);
      var rest := Keep(f[1..], key, k);
      if key(f[0].row) != k {
        forall j | 0 <= j < |rest|
          ensures f[0].index != rest[j].index
        {
          assert rest[j] in f[1..];
        }
      }
    }
  }

  lemma {:induction false} KeepKeyUnique<K, R>(f: Frame<R>, key: R -> K, k: K)
    requires KeyUnique(f, key)
    ensures KeyUnique(Keep(f, key, k), key)
  {
    if f != [] {
      KeepKeyUnique(f[1..], key, k);
      var rest := Keep(f[1..], key, k);
      if key(f[0].row) != k {
        forall j | 0 <= j < |rest|
          ensures key(f[0].row) != key(rest[j].row)
        {
          assert rest[j] in f[1..];
        }
      }
    }
  }

  /** Filtering on a key no row has changes nothing. */
  lemma {:induction false} KeepNoMatch<K, R>(f: Frame<R>, key: R -> K, k: K)
    requires forall i :: 0 <= i < |f| ==> key(f[i].row) != k
    ensures Keep(f, key, k) == f
  {
    if f != [] {
      KeepNoMatch(f[1..], key, k);
      assert [f[0]] + f[1..] == f;
    }
  }

  /** `df.loc[l] = row`: overwrite the row labelled `l`, or append one. */
  function Put<R>(f: Frame<R>, l: nat, row: R): Frame<R> {
    if HasLabel(f, l) then
      seq(|f|, i requires 0 <= i < |f| => if f[i].index == l then Labeled(l, row) else f[i])
    else
      f + [Labeled(l, row)]
  }

  lemma PutContents<R>(f: Frame<R>, l: nat, row: R)
    requires DistinctLabels(f)
    ensures DistinctLabels(Put(f, l, row))
    ensures |Put(f, l, row)| == if HasLabel(f, l) then |f| else |f| + 1
    ensures forall e :: e in Put(f, l, row) <==> (e in f && e.index != l) || e == Labeled(l, row)
  {
    var g := Put(f, l, row);
    if HasLabel(f, l) {
      var k :| 0 <= k < |f| && f[k].index == l;
      forall e
        ensures e in g <==> (e in f && e.index != l) || e == Labeled(l, row)
      {
        if e in f && e.index != l {
          var i :| 0 <= i < |f| && f[i] == e;
          assert g[i] == e;
        }
        if e == Labeled(l, row) {
          assert g[k] == e;
        }
      }
    }
  }

  /** The app's upsert: drop the rows with `row`'s key, then write `row` at
      label `len(df)` of what is left. */
  function Upsert<K(==), R>(f: Frame<R>, key: R -> K, row: R): Frame<R> {
    var g := Keep(f, key, key(row));
    Put(g, |g|, row)
  }

  /** The label an upsert writes to. */
  function UpsertLabel<K(==), R>(f: Frame<R>, key: R -> K, row: R): nat {
    |Keep(f, key, key(row))|
  }

  /** What an upsert leaves: the new row at label `len(df)`, and every old row
      of another key except the one (if any) that held that label. */
  lemma UpsertContents<K, R>(f: Frame<R>, key: R -> K, row: R)
    requires DistinctLabels(f)
    ensures DistinctLabels(Upsert(f, key, row))
    ensures forall e :: e in Upsert(f, key, row) <==>
      (e in f && key(e.row) != key(row) && e.index != UpsertLabel(f, key, row))
      || e == Labeled(UpsertLabel(f, key, row), row)
  {
    var g := Keep(f, key, key(row));
    KeepDistinct(f, key, key(row));
    PutContents(g, |g|, row);
  }

  /** After an upsert exactly one row has the new row's key, and it is the new row. */
  lemma UpsertLeavesOneRow<K, R>(f: Frame<R>, key: R -> K, row: R)
    requires DistinctLabels(f)
    ensures var r := Upsert(f, key, row);
      && (exists i :: 0 <= i < |r| && r[i].row == row)
      && (forall i :: 0 <= i < |r| && key(r[i].row) == key(row) ==> r[i].row == row)
      && (forall i, j :: 0 <= i < |r| && 0 <= j < |r| && key(r[i].row) == key(row) && key(r[j].row) == key(row) ==> i == j)
  {
    var r := Upsert(f, key, row);
    var l := UpsertLabel(f, key, row);
    UpsertContents(f, key, row);
    assert Labeled(l, row) in r;
    forall i | 0 <= i < |r| && key(r[i].row) == key(row)
      ensures r[i] == Labeled(l, row)
    {
      assert r[i] in r;
    }
  }

  /** An upsert keeps "at most one row per key". */
  lemma UpsertKeyUnique<K, R>(f: Frame<R>, key: R -> K, row: R)
    requires DistinctLabels(f) && KeyUnique(f, key)
    ensures KeyUnique(Upsert(f, key, row), key)
  {
    var r := Upsert(f, key, row);
    var g := Keep(f, key, key(row));
    KeepKeyUnique(f, key, key(row));
    UpsertContents(f, key, row);
    UpsertLeavesOneRow(f, key, row);
    forall i, j | 0 <= i < j < |r|
      ensures key(r[i].row) != key(r[j].row)
    {
      if key(r[i].row) != key(row) && key(r[j].row) != key(row) {
        assert r[i] in r && r[j] in r;
        assert r[i] in g && r[j] in g;
        var a :| 0 <= a < |g| && g[a] == r[i];
        var b :| 0 <= b < |g| && g[b] == r[j];
        assert r[i].index != r[j].index;
        assert a != b;
      }
    }
  }

  /** When the label `len(df)` is free, the upsert is a pure append: every
      other row stays, in place and in order. */
  lemma UpsertAppendsWhenLabelFree<K, R>(f: Frame<R>, key: R -> K, row: R)
    requires !HasLabel(Keep(f, key, key(row)), UpsertLabel(f, key, row))
    ensures Upsert(f, key, row) == Keep(f, key, key(row)) + [Labeled(UpsertLabel(f, key, row), row)]
  {
  }

  /** On a freshly loaded frame with no row of the new key, nothing else changes. */
  lemma UpsertOnDenseAppends<K, R>(f: Frame<R>, key: R -> K, row: R)
    requires Dense(f)
    requires forall i :: 0 <= i < |f| ==> key(f[i].row) != key(row)
    ensures Upsert(f, key, row) == f + [Labeled(|f|, row)]
  {
    KeepNoMatch(f, key, key(row));
  }

  /** When the label `len(df)` is still held by a surviving row, the upsert
      overwrites that row: a row of a different key is lost. */
  lemma UpsertLosesRowAtReusedLabel<K, R>(f: Frame<R>, key: R -> K, row: R)
    requires DistinctLabels(f)
    requires HasLabel(Keep(f, key, key(row)), UpsertLabel(f, key, row))
    ensures exists e :: e in f && key(e.row) != key(row) && e !in Upsert(f, key, row)
  {
    var g := Keep(f, key, key(row));
    var k :| 0 <= k < |g| && g[k].index == |g|;
    assert g[k] in g;
    UpsertContents(f, key, row);
    assert g[k] !in Upsert(f, key, row);
  }

  /** An upsert on a table as read from its file, written back and read
      again: exactly one row has the new key and it is the new row; a new key
      is appended with nothing else changed; rows stay unique per key. */
  lemma ReloadedUpsert<K, R>(f: Frame<R>, key: R -> K, row: R)
    requires Dense(f)
    ensures var t := Load(Rows(Upsert(f, key, row)));
      && Dense(t) && DistinctLabels(t)
      && (exists i :: 0 <= i < |t| && t[i].row == row)
      && (forall i :: 0 <= i < |t| && key(t[i].row) == key(row) ==> t[i].row == row)
      && (forall i, j :: 0 <= i < |t| && 0 <= j < |t| && key(t[i].row) == key(row) && key(t[j].row) == key(row) ==> i == j)
      && ((forall i :: 0 <= i < |f| ==> key(f[i].row) != key(row)) ==> Rows(t) == Rows(f) + [row])
      && (KeyUnique(f, key) ==> KeyUnique(t, key))
      && (forall i :: 0 <= i < |t| ==> t[i].row == row || exists k :: 0 <= k < |f| && f[k].row == t[i].row)
  {
    var u := Upsert(f, key, row);
    var t := Load(Rows(u));
    assert forall i :: 0 <= i < |t| ==> t[i].row == u[i].row;
    UpsertContents(f, key, row);
    UpsertLeavesOneRow(f, key, row);
    if KeyUnique(f, key) {
      UpsertKeyUnique(f, key, row);
    }
    if forall i :: 0 <= i < |f| ==> key(f[i].row) != key(row) {
      UpsertOnDenseAppends(f, key, row);
      assert Rows(u) == Rows(f) + [row];
    }
    forall i | 0 <= i < |t| && t[i].row != row
      ensures exists k :: 0 <= k < |f| && f[k].row == t[i].row
    {
      assert u[i] in u;
      var k :| 0 <= k < |f| && f[k] == u[i];
    }
  }

  // ---------------------------------------------------------------------------
  // The corrected upsert: append at a label no surviving row uses.

  /** One more than the largest label (0 for an empty frame). */
  function NextLabel<R>(f: Frame<R>): (l: nat)
    ensures forall i :: 0 <= i < |f| ==> f[i].index < l
  {
    if f == [] then 0
    else
      var rest := NextLabel(f[1..]);
      assert forall i :: 1 <= i < |f| ==> f[i] == f[1..][i - 1];
      if f[0].index + 1 > rest then f[0].index + 1 else rest
  }

  function UpsertFresh<K(==), R>(f: Frame<R>, key: R -> K, row: R): Frame<R> {
    var g := Keep(f, key, key(row));
    g + [Labeled(NextLabel(g), row)]
  }

  /** The corrected upsert replaces the rows of the new key by the new row
      and keeps every other row, in order, with its label. */
  lemma UpsertFreshContents<K, R>(f: Frame<R>, key: R -> K, row: R)
    requires DistinctLabels(f)
    ensures DistinctLabels(UpsertFresh(f, key, row))
    ensures forall e :: e in UpsertFresh(f, key, row) <==>
      (e in f && key(e.row) != key(row)) || e == Labeled(NextLabel(Keep(f, key, key(row))), row)
    ensures KeyUnique(f, key) ==> KeyUnique(UpsertFresh(f, key, row), key)
  {
    var g := Keep(f, key, key(row));
    KeepDistinct(f, key, key(row));
    if KeyUnique(f, key) {
      KeepKeyUnique(f, key, key(row));
      var r := UpsertFresh(f, key, row);
      forall i, j | 0 <= i < j < |r|
        ensures key(r[i].row) != key(r[j].row)
      {
        if j == |g| {
          assert r[i] == g[i] && g[i] in g;
        }
      }
    }
  }
}
