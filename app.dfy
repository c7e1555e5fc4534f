/** The tournament app's state and its four screens.  The player list and
    the stroke, round and skins tables are held in a `Store`.  Every action
    works on the tables as read from their files (rows labelled 0, 1, ...,
    since the files are written without their index): uploading strokes,
    saving a round and recording a hole change a table in memory, write it
    back, and the next run of the app reads it again, relabelled 0, 1, ...
    That write and re-read is `Load(Rows(t))` below.  The dashboard reads the
    tables to build the bonus table and the leaderboard.  The widgets and the
    charts are not modelled: the widget values are parameters. */
module RoundApp {
  import opened Frames
  import opened Records
  import opened Bonus
  import opened Leaderboard

  datatype Option<T> = None | Some(value: T)

  /** Every recorded hole is one the hole widget offers. */
  predicate HolesInRange(skins: Frame<SkinRow>) {
    forall i :: 0 <= i < |skins| ==> 1 <= skins[i].row.hole <= 18
  }

  class Store {
    var players: seq<string>
    var strokes: Frame<StrokeRow>
    var rounds: Frame<RoundRow>
    var skins: Frame<SkinRow>

    /** Between actions each table is as read from its file: labelled 0, 1, ... */
    ghost predicate Valid()
      reads this
    {
      && Dense(strokes) && Dense(rounds) && Dense(skins)
      && DistinctLabels(strokes) && DistinctLabels(rounds) && DistinctLabels(skins)
    }

    /** The tables as read from their files. */
    constructor (players0: seq<string>, strokes0: seq<StrokeRow>, rounds0: seq<RoundRow>, skins0: seq<SkinRow>)
      ensures Valid()
      ensures players == players0
      ensures strokes == Load(strokes0) && rounds == Load(rounds0) && skins == Load(skins0)
    {
      players := players0;
      strokes := Load(strokes0);
      rounds := Load(rounds0);
      skins := Load(skins0);
    }

    /** Append each name of the upload that is not listed yet, in upload order. */
    method AddPlayers(names: seq<string>)
      modifies this
      ensures players == AddNew(old(players), names)
      ensures strokes == old(strokes) && rounds == old(rounds) && skins == old(skins)
    {
      var i := 0;
      while i < |names|
        invariant 0 <= i <= |names|
        invariant players == AddNew(old(players), names[..i])
        invariant strokes == old(strokes) && rounds == old(rounds) && skins == old(skins)
      {
        assert names[..i + 1][..i] == names[..i];
        if names[i] !in players {
          players := players + [names[i]];
        }
        i := i + 1;
      }
      assert names[..i] == names;
    }

    /** For each upload row in turn: drop the stroke rows of its (round,
        player), then write its row at label `len(strokes)`.  This works on
        the in-memory table, so labels need not stay 0, 1, ... in between. */
    method UpsertStrokes(roundId: string, upload: seq<UploadRow>)
      requires DistinctLabels(strokes)
      modifies this
      ensures DistinctLabels(strokes)
      ensures strokes == UpsertUpload(old(strokes), roundId, upload)
      ensures players == old(players) && rounds == old(rounds) && skins == old(skins)
    {
      var i := 0;
      while i < |upload|
        invariant 0 <= i <= |upload|
        invariant strokes == UpsertUpload(old(strokes), roundId, upload[..i])
        invariant DistinctLabels(strokes)
        invariant players == old(players) && rounds == old(rounds) && skins == old(skins)
      {
        assert upload[..i + 1][..i] == upload[..i];
        var row := StrokeOf(roundId, upload[i]);
        UpsertContents(strokes, StrokeKey, row);
        strokes := Keep(strokes, StrokeKey, StrokeKey(row));
        strokes := Put(strokes, |strokes|, row);
        i := i + 1;
      }
      assert upload[..i] == upload;
    }

    /** The "upload strokes" screen once a round id is entered: the players
        of the upload join the list, their totals are upserted, and the
        stroke table is written back and read again.  Without a round id
        nothing changes.  Afterwards a stroke row of this round for an
        uploaded player holds that player's last uploaded total, and every
        other stroke row was there before. */
    method UploadStrokes(roundId: string, upload: seq<UploadRow>)
      requires Valid()
      modifies this
      ensures Valid()
      ensures roundId == "" ==> players == old(players) && strokes == old(strokes)
      ensures roundId != "" ==>
        players == AddNew(old(players), PlayerColumn(upload))
        && strokes == Load(Rows(UpsertUpload(old(strokes), roundId, upload)))
      ensures rounds == old(rounds) && skins == old(skins)
      ensures forall i :: 0 <= i < |strokes| ==>
        if roundId != "" && strokes[i].row.roundId == roundId && Uploaded(upload, strokes[i].row.player)
        then strokes[i].row.totalStrokes == LastTotal(upload, strokes[i].row.player)
        else strokes[i].row in Rows(old(strokes))
    {
      if roundId != "" {
        AddPlayers(PlayerColumn(upload));
        UpsertStrokes(roundId, upload);
        UploadRowsHoldLastTotal(old(strokes), roundId, upload);
        var written := strokes;
        strokes := Load(Rows(written));
        forall i | 0 <= i < |strokes|
          ensures if strokes[i].row.roundId == roundId && Uploaded(upload, strokes[i].row.player)
                  then strokes[i].row.totalStrokes == LastTotal(upload, strokes[i].row.player)
                  else strokes[i].row in Rows(old(strokes))
        {
          assert strokes[i].row == written[i].row;
          if !(written[i].row.roundId == roundId && Uploaded(upload, written[i].row.player)) {
            var k :| 0 <= k < |old(strokes)| && old(strokes)[k] == written[i];
            assert Rows(old(strokes))[k] == written[i].row;
          }
        }
      }
    }

    /** The "save round" button: with a round id, the round's rows are
        replaced by one row holding the entered values, and the round table
        is written back and read again.  Saving a new round id appends it
        and changes nothing else. */
    method SaveRound(roundId: string, day: string, roundNumber: int, course: string,
                     challenger: string, hunter: string)
      requires Valid()
      modifies this
      ensures Valid()
      ensures var row := RoundRow(roundId, day, roundNumber, course, challenger, hunter);
        rounds == if roundId == "" then old(rounds) else Load(Rows(Upsert(old(rounds), RoundKey, row)))
      ensures roundId != "" ==>
        (exists i :: 0 <= i < |rounds| && rounds[i].row == RoundRow(roundId, day, roundNumber, course, challenger, hunter))
        && (forall i :: 0 <= i < |rounds| && rounds[i].row.roundId == roundId ==>
              rounds[i].row == RoundRow(roundId, day, roundNumber, course, challenger, hunter))
        && (forall i, j ::
              (0 <= i < |rounds| && 0 <= j < |rounds| && rounds[i].row.roundId == roundId && rounds[j].row.roundId == roundId)
              ==> i == j)
      ensures roundId != "" && (forall i :: 0 <= i < |old(rounds)| ==> old(rounds)[i].row.roundId != roundId) ==>
        Rows(rounds) == Rows(old(rounds)) + [RoundRow(roundId, day, roundNumber, course, challenger, hunter)]
      ensures KeyUnique(old(rounds), RoundKey) ==> KeyUnique(rounds, RoundKey)
      ensures players == old(players) && strokes == old(strokes) && skins == old(skins)
    {
      if roundId != "" {
        var row := RoundRow(roundId, day, roundNumber, course, challenger, hunter);
        ReloadedUpsert(rounds, RoundKey, row);
        rounds := Keep(rounds, RoundKey, roundId);
        rounds := Put(rounds, |rounds|, row);
        rounds := Load(Rows(rounds));
      }
    }

    /** The "record hole result" button: with a round and a winner chosen,
        the result of that hole of that round is replaced by the new one,
        and the skins table is written back and read again.  Recording a
        hole not yet recorded appends it and changes nothing else.  The hole
        widget offers holes 1 to 18 only, so holes stay in range. */
    method RecordSkin(roundId: string, hole: int, winner: string)
      requires Valid()
      requires 1 <= hole <= 18
      modifies this
      ensures Valid()
      ensures var row := SkinRow(roundId, hole, winner);
        skins == if roundId != "" && winner != "" then Load(Rows(Upsert(old(skins), SkinKey, row))) else old(skins)
      ensures roundId != "" && winner != "" ==>
        (exists i :: 0 <= i < |skins| && skins[i].row == SkinRow(roundId, hole, winner))
        && (forall i :: 0 <= i < |skins| && SkinKey(skins[i].row) == (roundId, hole) ==>
              skins[i].row.winner == winner)
        && (forall i, j ::
              (0 <= i < |skins| && 0 <= j < |skins| && SkinKey(skins[i].row) == (roundId, hole)
               && SkinKey(skins[j].row) == (roundId, hole))
              ==> i == j)
      ensures roundId != "" && winner != "" && (forall i :: 0 <= i < |old(skins)| ==> SkinKey(old(skins)[i].row) != (roundId, hole)) ==>
        Rows(skins) == Rows(old(skins)) + [SkinRow(roundId, hole, winner)]
      ensures KeyUnique(old(skins), SkinKey) ==> KeyUnique(skins, SkinKey)
      ensures HolesInRange(old(skins)) ==> HolesInRange(skins)
      ensures players == old(players) && strokes == old(strokes) && rounds == old(rounds)
    {
      if roundId != "" && winner != "" {
        var row := SkinRow(roundId, hole, winner);
        ReloadedUpsert(skins, SkinKey, row);
        skins := Keep(skins, SkinKey, (roundId, hole));
        skins := Put(skins, |skins|, row);
        skins := Load(Rows(skins));
      }
    }

    /** The dashboard's bonus loop: one row per entry of the player list, in
        list order, crediting the challenger wins to a player who was ever
        challenger and 1.5 per hunter win to a player who was ever hunter. */
    method ComputeBonus() returns (table: seq<BonusRow>)
      ensures table == BonusTable(players, rounds, skins)
    {
      var challengerWins := WinCount(skins, ChallengerWin);
      var hunterWins := WinCount(skins, HunterWin);
      table := [];
      var i := 0;
      while i < |players|
        invariant 0 <= i <= |players|
        invariant |table| == i
        invariant forall k :: 0 <= k < i ==> table[k] == BonusRow(players[k], PlayerBonus(players[k], rounds, skins))
      {
        var p := players[i];
        var bonus := 0.0;
        if WasChallenger(rounds, p) {
          bonus := bonus + challengerWins as real;
        }
        if WasHunter(rounds, p) {
          bonus := bonus + HunterWeight * hunterWins as real;
        }
        table := table + [BonusRow(p, bonus)];
        i := i + 1;
      }
    }

    /** The dashboard: nothing while both the stroke and the skins table are
        empty; otherwise a leaderboard of exactly the players with stroke
        rows, one row each, ordered by adjusted score.  When the player list
        has no repeated name, each row totals the player's strokes, credits
        the player's bonus once per stroke row, and ranks by the difference. */
    method Dashboard() returns (board: Option<seq<LeaderRow>>)
      ensures board.None? <==> strokes == [] && skins == []
      ensures board.Some? ==> IsLeaderboard(board.value, strokes, BonusTable(players, rounds, skins))
      ensures board.Some? ==>
        (DistinctPlayers(board.value) && forall p :: Ranks(board.value, p) <==> HasStrokes(Rows(strokes), p))
      ensures board.Some? && NoDup(players) ==>
        forall i :: 0 <= i < |board.value| ==>
          var r := board.value[i];
          && r.totalStrokes == StrokeSum(Rows(strokes), r.player)
          && r.bonus == Repeat(StrokeCount(Rows(strokes), r.player), Credit(players, rounds, skins, r.player))
          && r.adjustedScore == r.totalStrokes as real - r.bonus
    {
      if strokes == [] && skins == [] {
        return None;
      }
      var bonus := ComputeBonus();
      var lb := Board(strokes, bonus);
      forall p
        ensures Ranks(lb, p) <==> HasStrokes(Rows(strokes), p)
      {
        LeaderboardPlayers(lb, strokes, bonus, p);
      }
      LeaderboardPlayers(lb, strokes, bonus, "");
      if NoDup(players) {
        LeaderboardTotals(lb, strokes, players, rounds, skins);
      }
      board := Some(lb);
    }
  }
}
