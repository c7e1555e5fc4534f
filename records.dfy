/** The four tables of the tournament and the record-keeping rules applied to
    them when strokes are uploaded: the player list grows by append-if-absent,
    and each uploaded row replaces the stroke row of its (round, player). */
module Records {
  import opened Frames

  datatype StrokeRow = StrokeRow(roundId: string, player: string, totalStrokes: int)

  datatype RoundRow = RoundRow(
    roundId: string, day: string, roundNumber: int, course: string,
    challenger: string, hunter: string)

  datatype SkinRow = SkinRow(roundId: string, hole: int, winner: string)

  /** One row of an uploaded scoring export: its `Player` and `int(Total)`. */
  datatype UploadRow = UploadRow(player: string, total: int)

  function StrokeKey(s: StrokeRow): (string, string) { (s.roundId, s.player) }

  function RoundKey(r: RoundRow): string { r.roundId }

  function SkinKey(s: SkinRow): (string, int) { (s.roundId, s.hole) }

  predicate NoDup(names: seq<string>) {
    forall i, j :: 0 <= i < j < |names| ==> names[i] != names[j]
  }

  // ---------------------------------------------------------------------------
  // Player list

  /** The player list after the names of an upload are appended when absent,
      one name at a time. */
  function AddNew(list: seq<string>, names: seq<string>): (r: seq<string>)
    ensures |list| <= |r| && r[..|list|] == list
    ensures forall n :: n in names ==> n in r
    ensures forall x :: x in r ==> x in list || x in names
    decreases |names|
  {
    if names == [] then list
    else
      var before := AddNew(list, names[..|names| - 1]);
      var name := names[|names| - 1];
      if name in before then before else before + [name]
  }

  /** No name is appended twice, and no name already listed is appended. */
  lemma {:induction false} AddNewAppendsOnce(list: seq<string>, names: seq<string>)
    ensures var r := AddNew(list, names);
      NoDup(r[|list|..]) && forall x :: x in r[|list|..] ==> x !in list && x in names
    decreases |names|
  {
    if names != [] {
      var prefix := names[..|names| - 1];
      AddNewAppendsOnce(list, prefix);
      var before := AddNew(list, prefix);
      var name := names[|names| - 1];
      if name !in before {
        var r := before + [name];
        assert r[|list|..] == before[|list|..] + [name];
        forall x | x in before[|list|..]
          ensures x in names
        {
          assert x in prefix;
        }
      } else {
        forall x | x in before[|list|..]
          ensures x in names
        {
          assert x in prefix;
        }
      }
    }
  }

  /** A list without duplicates stays without duplicates. */
  lemma AddNewKeepsNoDup(list: seq<string>, names: seq<string>)
    requires NoDup(list)
    ensures NoDup(AddNew(list, names))
  {
    var r := AddNew(list, names);
    AddNewAppendsOnce(list, names);
    forall i, j | 0 <= i < j < |r|
      ensures r[i] != r[j]
    {
      if j >= |list| {
        assert r[j] == r[|list|..][j - |list|];
        if i >= |list| {
          assert r[i] == r[|list|..][i - |list|];
        } else {
          assert r[i] == list[i];
        }
      } else {
        assert r[i] == list[i] && r[j] == list[j];
      }
    }
  }

  /** Position of the first occurrence of `x`. */
  function FirstIndex(names: seq<string>, x: string): (k: nat)
    requires x in names
    ensures k < |names| && names[k] == x
    ensures forall j :: 0 <= j < k ==> names[j] != x
  {
    if names[0] == x then 0 else 1 + FirstIndex(names[1..], x)
  }

  /** Extending a sequence leaves the first occurrence of an earlier name unchanged. */
  lemma FirstIndexPrefix(names: seq<string>, y: string)
    requires names != [] && y in names[..|names| - 1]
    ensures FirstIndex(names, y) == FirstIndex(names[..|names| - 1], y)
  {
    var prefix := names[..|names| - 1];
    var a := FirstIndex(prefix, y);
    var b := FirstIndex(names, y);
    assert names[a] == y;
  }

  /** New names are appended in the order of their first appearance in the upload. */
  lemma {:induction false} AddNewFirstAppearanceOrder(list: seq<string>, names: seq<string>)
    ensures var r := AddNew(list, names);
      forall i, j :: |list| <= i < j < |r| ==>
        r[i] in names && r[j] in names && FirstIndex(names, r[i]) < FirstIndex(names, r[j])
    decreases |names|
  {
    var r := AddNew(list, names);
    AddNewAppendsOnce(list, names);
    assert forall i :: |list| <= i < |r| ==> r[i] in r[|list|..];
    if names != [] {
      var n := |names|;
      var prefix := names[..n - 1];
      var before := AddNew(list, prefix);
      var name := names[n - 1];
      AddNewFirstAppearanceOrder(list, prefix);
      AddNewAppendsOnce(list, prefix);
      forall i, j | |list| <= i < j < |r|
        ensures FirstIndex(names, r[i]) < FirstIndex(names, r[j])
      {
        assert before[i] in before[|list|..];
        assert r[i] == before[i] && before[i] in prefix;
        FirstIndexPrefix(names, before[i]);
        if j < |before| {
          assert r[j] == before[j];
          assert before[j] in before[|list|..];
          FirstIndexPrefix(names, before[j]);
        } else {
          assert r[j] == name && name !in prefix;
          assert FirstIndex(names, name) == n - 1;
        }
      }
    }
  }

  // ---------------------------------------------------------------------------
  // Stroke upload, as the code does it

  /** The `Player` column of an upload. */
  function PlayerColumn(upload: seq<UploadRow>): (names: seq<string>)
    ensures |names| == |upload|
    ensures forall i :: 0 <= i < |upload| ==> names[i] == upload[i].player
  {
    seq(|upload|, i requires 0 <= i < |upload| => upload[i].player)
  }

  predicate Uploaded(upload: seq<UploadRow>, p: string) {
    exists i :: 0 <= i < |upload| && upload[i].player == p
  }

  function StrokeOf(roundId: string, u: UploadRow): StrokeRow {
    StrokeRow(roundId, u.player, u.total)
  }

  /** The stroke table after each row of an upload has been upserted in turn. */
  function UpsertUpload(f: Frame<StrokeRow>, roundId: string, upload: seq<UploadRow>): Frame<StrokeRow>
    decreases |upload|
  {
    if upload == [] then f
    else
      var last := upload[|upload| - 1];
      Upsert(UpsertUpload(f, roundId, upload[..|upload| - 1]), StrokeKey, StrokeOf(roundId, last))
  }

  /** The total of the last upload row of player `p`. */
  function LastTotal(upload: seq<UploadRow>, p: string): (t: int)
    requires Uploaded(upload, p)
    ensures exists i :: 0 <= i < |upload| && upload[i].player == p && upload[i].total == t
              && forall j :: i < j < |upload| ==> upload[j].player != p
    decreases |upload|
  {
    var last := upload[|upload| - 1];
    if last.player == p then last.total
    else
      var prefix := upload[..|upload| - 1];
      assert Uploaded(prefix, p) by {
        var i :| 0 <= i < |upload| && upload[i].player == p;
        assert prefix[i] == upload[i];
      }
      var t := LastTotal(prefix, p);
      assert forall i :: 0 <= i < |prefix| ==> prefix[i] == upload[i];
      t
  }

  lemma UploadedStep(upload: seq<UploadRow>, p: string)
    requires upload != []
    ensures Uploaded(upload, p) <==>
      Uploaded(upload[..|upload| - 1], p) || upload[|upload| - 1].player == p
  {
    var prefix := upload[..|upload| - 1];
    if Uploaded(upload, p) && upload[|upload| - 1].player != p {
      var i :| 0 <= i < |upload| && upload[i].player == p;
      assert prefix[i] == upload[i];
    }
    if Uploaded(prefix, p) {
      var i :| 0 <= i < |prefix| && prefix[i].player == p;
      assert upload[i] == prefix[i];
    }
  }

  /** After an upload, a stroke row of this round for an uploaded player holds
      that player's last uploaded total, and every other row was there before,
      at the same label.  Labels stay distinct and rows stay unique per key. */
  lemma {:induction false} UploadRowsHoldLastTotal(f: Frame<StrokeRow>, roundId: string, upload: seq<UploadRow>)
    requires DistinctLabels(f)
    ensures var r := UpsertUpload(f, roundId, upload);
      && DistinctLabels(r)
      && (KeyUnique(f, StrokeKey) ==> KeyUnique(r, StrokeKey))
      && forall i :: 0 <= i < |r| ==>
           if r[i].row.roundId == roundId && Uploaded(upload, r[i].row.player)
           then r[i].row.totalStrokes == LastTotal(upload, r[i].row.player)
           else r[i] in f
    decreases |upload|
  {
    if upload != [] {
      var prefix := upload[..|upload| - 1];
      var last := upload[|upload| - 1];
      var before := UpsertUpload(f, roundId, prefix);
      var s := StrokeOf(roundId, last);
      var r := UpsertUpload(f, roundId, upload);
      UploadRowsHoldLastTotal(f, roundId, prefix);
      UpsertContents(before, StrokeKey, s);
      if KeyUnique(f, StrokeKey) {
        UpsertKeyUnique(before, StrokeKey, s);
      }
      forall i | 0 <= i < |r|
        ensures if r[i].row.roundId == roundId && Uploaded(upload, r[i].row.player)
                then r[i].row.totalStrokes == LastTotal(upload, r[i].row.player)
                else r[i] in f
      {
        var e := r[i];
        assert e in r;
        UploadedStep(upload, e.row.player);
        if e.row != s {
          var k :| 0 <= k < |before| && before[k] == e;
        }
      }
    }
  }

  /** Processing an upload row leaves exactly one row for its (round, player),
      holding its total. */
  lemma UploadRowLeavesOneRow(f: Frame<StrokeRow>, roundId: string, upload: seq<UploadRow>)
    requires DistinctLabels(f) && upload != []
    ensures var r := UpsertUpload(f, roundId, upload);
      var p := upload[|upload| - 1].player;
      && (exists i :: 0 <= i < |r| && r[i].row == StrokeRow(roundId, p, upload[|upload| - 1].total))
      && (forall i, j ::
            (0 <= i < |r| && 0 <= j < |r| && StrokeKey(r[i].row) == (roundId, p) && StrokeKey(r[j].row) == (roundId, p))
            ==> i == j)
  {
    var last := upload[|upload| - 1];
    var before := UpsertUpload(f, roundId, upload[..|upload| - 1]);
    UploadRowsHoldLastTotal(f, roundId, upload[..|upload| - 1]);
    UpsertLeavesOneRow(before, StrokeKey, StrokeOf(roundId, last));
    assert UpsertUpload(f, roundId, upload) == Upsert(before, StrokeKey, StrokeOf(roundId, last));
    assert StrokeOf(roundId, last) == StrokeRow(roundId, last.player, last.total);
  }

  /** Re-uploading the same three-player export into a freshly loaded stroke
      table drops the first player's strokes: the row written at label
      `len(df)` overwrites another player's row. */
  lemma ReuploadDropsPlayer()
    ensures var r := UpsertUpload(
              Load([StrokeRow("D1R1", "ann", 54), StrokeRow("D1R1", "bo", 60), StrokeRow("D1R1", "cy", 58)]),
              "D1R1", [UploadRow("ann", 54), UploadRow("bo", 60), UploadRow("cy", 58)]);
      && r == [Labeled(2, StrokeRow("D1R1", "cy", 58)), Labeled(1, StrokeRow("D1R1", "bo", 60))]
      && forall i :: 0 <= i < |r| ==> r[i].row.player != "ann"
  {
    var f := Load([StrokeRow("D1R1", "ann", 54), StrokeRow("D1R1", "bo", 60), StrokeRow("D1R1", "cy", 58)]);
    var up := [UploadRow("ann", 54), UploadRow("bo", 60), UploadRow("cy", 58)];
    assert up[..0] == [] && up[..1][..0] == [];
    assert up[..2][..1] == up[..1] && up[..3] == up && up[..2] == up[..3][..2];
    var r1 := UpsertUpload(f, "D1R1", up[..1]);
    assert |up[..1]| == 1 && up[..1][0] == up[0];
    assert UpsertUpload(f, "D1R1", up[..1][..0]) == f;
    assert r1 == Upsert(f, StrokeKey, StrokeOf("D1R1", up[0]));
    var g1 := Keep(f, StrokeKey, ("D1R1", "ann"));
    assert g1 == [f[1], f[2]];
    assert HasLabel(g1, 2) by { assert g1[1].index == 2; }
    assert r1 == [Labeled(1, StrokeRow("D1R1", "bo", 60)), Labeled(2, StrokeRow("D1R1", "ann", 54))];
    var r2 := UpsertUpload(f, "D1R1", up[..2]);
    assert r2 == Upsert(r1, StrokeKey, StrokeOf("D1R1", up[1]));
    assert Keep(r1, StrokeKey, ("D1R1", "bo")) == [r1[1]];
    assert r2 == [Labeled(2, StrokeRow("D1R1", "ann", 54)), Labeled(1, StrokeRow("D1R1", "bo", 60))];
    assert Keep(r2, StrokeKey, ("D1R1", "cy")) == r2;
  }

  /** Re-recording the winner of hole 1 in a freshly loaded skins table drops
      the result recorded for hole 2. */
  lemma RerecordHoleDropsOtherHole()
    ensures Upsert(Load([SkinRow("D1R1", 1, "hunter"), SkinRow("D1R1", 2, "challenger")]),
                   SkinKey, SkinRow("D1R1", 1, "lag a"))
            == [Labeled(1, SkinRow("D1R1", 1, "lag a"))]
  {
    var f := Load([SkinRow("D1R1", 1, "hunter"), SkinRow("D1R1", 2, "challenger")]);
    assert Keep(f, SkinKey, ("D1R1", 1)) == [f[1]];
  }

  // ---------------------------------------------------------------------------
  // Stroke upload with the corrected upsert (a fresh label for the new row)

  function UpsertUploadFresh(f: Frame<StrokeRow>, roundId: string, upload: seq<UploadRow>): Frame<StrokeRow>
    decreases |upload|
  {
    if upload == [] then f
    else
      var last := upload[|upload| - 1];
      UpsertFresh(UpsertUploadFresh(f, roundId, upload[..|upload| - 1]), StrokeKey, StrokeOf(roundId, last))
  }

  lemma RowsMember<R>(f: Frame<R>, x: R)
    ensures x in Rows(f) <==> exists i :: 0 <= i < |f| && f[i].row == x
  {
    if x in Rows(f) {
      var i :| 0 <= i < |f| && Rows(f)[i] == x;
    }
  }

  /** With the corrected upsert, the stroke rows after an upload are exactly
      the old rows of keys the upload does not touch, plus one row per uploaded
      player holding that player's last total. */
  lemma {:induction false} UploadFreshContents(f: Frame<StrokeRow>, roundId: string, upload: seq<UploadRow>)
    requires DistinctLabels(f)
    ensures var r := UpsertUploadFresh(f, roundId, upload);
      && DistinctLabels(r)
      && (KeyUnique(f, StrokeKey) ==> KeyUnique(r, StrokeKey))
      && forall s :: s in Rows(r) <==>
           if s.roundId == roundId && Uploaded(upload, s.player)
           then s.totalStrokes == LastTotal(upload, s.player)
           else s in Rows(f)
    decreases |upload|
  {
    if upload != [] {
      var prefix := upload[..|upload| - 1];
      var last := upload[|upload| - 1];
      var before := UpsertUploadFresh(f, roundId, prefix);
      var s0 := StrokeOf(roundId, last);
      var r := UpsertUploadFresh(f, roundId, upload);
      UploadFreshContents(f, roundId, prefix);
      UpsertFreshContents(before, StrokeKey, s0);
      var g := Keep(before, StrokeKey, StrokeKey(s0));
      assert r == g + [Labeled(NextLabel(g), s0)];
      forall s
        ensures s in Rows(r) <==>
          if s.roundId == roundId && Uploaded(upload, s.player)
          then s.totalStrokes == LastTotal(upload, s.player)
          else s in Rows(f)
      {
        UploadedStep(upload, s.player);
        RowsMember(r, s);
        RowsMember(before, s);
        if s in Rows(r) && s != s0 {
          var i :| 0 <= i < |r| && r[i].row == s;
          assert r[i] in g;
        }
        if s in Rows(before) && StrokeKey(s) != StrokeKey(s0) {
          var i :| 0 <= i < |before| && before[i].row == s;
          assert before[i] in r;
        }
        if s == s0 {
          assert r[|r| - 1].row == s;
        }
      }
    }
  }

  /** With the corrected upsert, uploading the same export twice leaves the
      same stroke rows as uploading it once. */
  lemma UploadFreshIdempotent(f: Frame<StrokeRow>, roundId: string, upload: seq<UploadRow>)
    requires DistinctLabels(f)
    ensures var once := UpsertUploadFresh(f, roundId, upload);
      var twice := UpsertUploadFresh(once, roundId, upload);
      forall s :: s in Rows(twice) <==> s in Rows(once)
  {
    var once := UpsertUploadFresh(f, roundId, upload);
    UploadFreshContents(f, roundId, upload);
    UploadFreshContents(once, roundId, upload);
  }

  /** With the corrected upsert, every uploaded player ends with exactly one
      row for the round, holding the player's last total. */
  lemma UploadFreshOneRowPerPlayer(f: Frame<StrokeRow>, roundId: string, upload: seq<UploadRow>, p: string)
    requires DistinctLabels(f) && KeyUnique(f, StrokeKey)
    requires Uploaded(upload, p)
    ensures var r := UpsertUploadFresh(f, roundId, upload);
      && (exists i :: 0 <= i < |r| && r[i].row == StrokeRow(roundId, p, LastTotal(upload, p)))
      && (forall i, j ::
            (0 <= i < |r| && 0 <= j < |r| && StrokeKey(r[i].row) == (roundId, p) && StrokeKey(r[j].row) == (roundId, p))
            ==> i == j)
  {
    var r := UpsertUploadFresh(f, roundId, upload);
    UploadFreshContents(f, roundId, upload);
    RowsMember(r, StrokeRow(roundId, p, LastTotal(upload, p)));
  }
}
