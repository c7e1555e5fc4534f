/** The dashboard's leaderboard: stroke rows are left-joined with the bonus
    table on the player (a stroke row with no bonus row gets bonus 0), each
    joined row gets `adjusted = total_strokes - bonus`, the joined rows are
    summed per player, and the per-player rows are sorted by adjusted score.
    Since the bonus is joined onto every stroke row of a player, the summed
    bonus is the player's bonus times the player's number of stroke rows. */
module Leaderboard {
  import opened Frames
  import opened Records
  import opened Bonus

  datatype MergedRow = MergedRow(player: string, totalStrokes: int, bonus: real)

  datatype LeaderRow = LeaderRow(player: string, totalStrokes: int, bonus: real, adjustedScore: real)

  /** The bonus values of the bonus rows of player `p`, in table order. */
  function Matches(bonus: seq<BonusRow>, p: string): seq<real> {
    if bonus == [] then []
    else (if bonus[0].player == p then [bonus[0].bonus] else []) + Matches(bonus[1..], p)
  }

  /** `strokes.merge(bonus, on="player", how="left").fillna(0)`: every stroke
      row once per matching bonus row, or once with bonus 0 if none matches. */
  function MergeLeft(strokes: seq<StrokeRow>, bonus: seq<BonusRow>): seq<MergedRow> {
    if strokes == [] then []
    else
      var s := strokes[0];
      var ms := Matches(bonus, s.player);
      (if ms == [] then [MergedRow(s.player, s.totalStrokes, 0.0)]
       else seq(|ms|, k requires 0 <= k < |ms| => MergedRow(s.player, s.totalStrokes, ms[k])))
      + MergeLeft(strokes[1..], bonus)
  }

  function SumStrokes(m: seq<MergedRow>, p: string): int {
    if m == [] then 0 else (if m[0].player == p then m[0].totalStrokes else 0) + SumStrokes(m[1..], p)
  }

  function SumBonus(m: seq<MergedRow>, p: string): real {
    if m == [] then 0.0 else (if m[0].player == p then m[0].bonus else 0.0) + SumBonus(m[1..], p)
  }

  /** The sum of the per-row `adjusted_score` column for player `p`. */
  function SumAdjusted(m: seq<MergedRow>, p: string): real {
    if m == [] then 0.0
    else (if m[0].player == p then m[0].totalStrokes as real - m[0].bonus else 0.0) + SumAdjusted(m[1..], p)
  }

  function PlayersOf(m: seq<MergedRow>): seq<string> {
    seq(|m|, i requires 0 <= i < |m| => m[i].player)
  }

  /** `groupby("player").agg(sum)`: one row per player of the joined table. */
  function GroupByPlayer(m: seq<MergedRow>): seq<LeaderRow> {
    var ps := AddNew([], PlayersOf(m));
    seq(|ps|, i requires 0 <= i < |ps| =>
      LeaderRow(ps[i], SumStrokes(m, ps[i]), SumBonus(m, ps[i]), SumAdjusted(m, ps[i])))
  }

  predicate Sorted(s: seq<LeaderRow>) {
    forall i, j :: 0 <= i < j < |s| ==> s[i].adjustedScore <= s[j].adjustedScore
  }

  function Insert(x: LeaderRow, s: seq<LeaderRow>): (r: seq<LeaderRow>)
    ensures multiset(r) == multiset(s) + multiset{x}
  {
    if s == [] || x.adjustedScore <= s[0].adjustedScore then [x] + s
    else
      assert s == [s[0]] + s[1..];
      [s[0]] + Insert(x, s[1..])
  }

  lemma {:induction false} InsertSorted(x: LeaderRow, s: seq<LeaderRow>)
    requires Sorted(s)
    ensures Sorted(Insert(x, s))
  {
    if s != [] && x.adjustedScore > s[0].adjustedScore {
      var t := Insert(x, s[1..]);
      InsertSorted(x, s[1..]);
      var r := [s[0]] + t;
      forall j | 0 < j < |r|
        ensures s[0].adjustedScore <= r[j].adjustedScore
      {
        assert r[j] == t[j - 1] && t[j - 1] in multiset(t);
        if r[j] != x {
          assert r[j] in multiset(s[1..]);
          var k :| 0 <= k < |s[1..]| && s[1..][k] == r[j];
          assert s[k + 1] == r[j];
        }
      }
    }
  }

  /** `sort_values("adjusted_score")`, as one of the orders it may produce. */
  function SortByAdjusted(s: seq<LeaderRow>): (r: seq<LeaderRow>)
    ensures Sorted(r) && multiset(r) == multiset(s)
  {
    if s == [] then []
    else
      assert s == [s[0]] + s[1..];
      var t := SortByAdjusted(s[1..]);
      InsertSorted(s[0], t);
      Insert(s[0], t)
  }

  /** The per-player rows before sorting. */
  function Grouped(strokes: Frame<StrokeRow>, bonus: seq<BonusRow>): seq<LeaderRow> {
    GroupByPlayer(MergeLeft(Rows(strokes), bonus))
  }

  /** A leaderboard the dashboard may show: the per-player rows in an order
      non-decreasing in adjusted score (ties in any order). */
  predicate IsLeaderboard(lb: seq<LeaderRow>, strokes: Frame<StrokeRow>, bonus: seq<BonusRow>) {
    Sorted(lb) && multiset(lb) == multiset(Grouped(strokes, bonus))
  }

  /** The leaderboard the model computes. */
  function Board(strokes: Frame<StrokeRow>, bonus: seq<BonusRow>): (lb: seq<LeaderRow>)
    ensures IsLeaderboard(lb, strokes, bonus)
  {
    SortByAdjusted(Grouped(strokes, bonus))
  }

  // ---------------------------------------------------------------------------
  // Reference quantities over the stroke table

  predicate HasStrokes(rows: seq<StrokeRow>, p: string) {
    exists i :: 0 <= i < |rows| && rows[i].player == p
  }

  function StrokeSum(rows: seq<StrokeRow>, p: string): int {
    if rows == [] then 0 else (if rows[0].player == p then rows[0].totalStrokes else 0) + StrokeSum(rows[1..], p)
  }

  function StrokeCount(rows: seq<StrokeRow>, p: string): nat {
    if rows == [] then 0 else (if rows[0].player == p then 1 else 0) + StrokeCount(rows[1..], p)
  }

  /** The bonus `fillna(0)` leaves for `p`: the first matching bonus row's, or 0. */
  function BonusFor(bonus: seq<BonusRow>, p: string): real {
    var ms := Matches(bonus, p);
    if ms == [] then 0.0 else ms[0]
  }

  /** The bonus the bonus table holds for `p`: the computed bonus of a listed
      player, nothing for anyone else. */
  function Credit(players: seq<string>, rounds: Frame<RoundRow>, skins: Frame<SkinRow>, p: string): real {
    if p in players then PlayerBonus(p, rounds, skins) else 0.0
  }

  /** Some leaderboard row is player `p`'s. */
  predicate Ranks(s: seq<LeaderRow>, p: string) {
    exists i :: 0 <= i < |s| && s[i].player == p
  }

  /** Some joined row is player `p`'s. */
  predicate Joins(m: seq<MergedRow>, p: string) {
    exists i :: 0 <= i < |m| && m[i].player == p
  }

  predicate DistinctPlayers(s: seq<LeaderRow>) {
    forall i, j :: 0 <= i < j < |s| ==> s[i].player != s[j].player
  }

  // ---------------------------------------------------------------------------
  // The join

  /** No player has two rows in the bonus table. */
  predicate UniqueBonusPlayers(bonus: seq<BonusRow>) {
    forall i, j :: 0 <= i < j < |bonus| ==> bonus[i].player != bonus[j].player
  }

  /** When every row of the bonus table for a player carries the same value
      `v`, so does every match, and there is a match exactly when such a row
      exists. */
  lemma {:induction false} MatchesOf(bonus: seq<BonusRow>, p: string, v: real)
    requires forall i :: 0 <= i < |bonus| && bonus[i].player == p ==> bonus[i].bonus == v
    ensures forall k :: 0 <= k < |Matches(bonus, p)| ==> Matches(bonus, p)[k] == v
    ensures Matches(bonus, p) == [] <==> forall i :: 0 <= i < |bonus| ==> bonus[i].player != p
  {
    if bonus != [] {
      assert forall i :: 1 <= i < |bonus| ==> bonus[i] == bonus[1..][i - 1];
      MatchesOf(bonus[1..], p, v);
    }
  }

  /** A bonus table without repeated players matches a player at most once. */
  lemma {:induction false} MatchesAtMostOnce(bonus: seq<BonusRow>, p: string)
    requires UniqueBonusPlayers(bonus)
    ensures |Matches(bonus, p)| <= 1
  {
    if bonus != [] {
      assert forall i :: 1 <= i < |bonus| ==> bonus[i] == bonus[1..][i - 1];
      MatchesAtMostOnce(bonus[1..], p);
      if bonus[0].player == p {
        MatchesOf(bonus[1..], p, 0.0);
      }
    }
  }

  /** The bonus the join gives a player is the player's computed bonus when
      the player is listed, and 0 otherwise. */
  lemma BonusForTable(players: seq<string>, rounds: Frame<RoundRow>, skins: Frame<SkinRow>, p: string)
    ensures BonusFor(BonusTable(players, rounds, skins), p) ==
      Credit(players, rounds, skins, p)
  {
    MatchesOf(BonusTable(players, rounds, skins), p, PlayerBonus(p, rounds, skins));
  }

  /** The join neither loses nor invents players. */
  lemma {:induction false} MergeKeepsPlayers(rows: seq<StrokeRow>, bonus: seq<BonusRow>, p: string)
    ensures Joins(MergeLeft(rows, bonus), p) <==> HasStrokes(rows, p)
  {
    if rows != [] {
      MergeKeepsPlayers(rows[1..], bonus, p);
      var m := MergeLeft(rows, bonus);
      var ms := Matches(bonus, rows[0].player);
      var head := if ms == [] then [MergedRow(rows[0].player, rows[0].totalStrokes, 0.0)]
                  else seq(|ms|, k requires 0 <= k < |ms| => MergedRow(rows[0].player, rows[0].totalStrokes, ms[k]));
      var tail := MergeLeft(rows[1..], bonus);
      assert m == head + tail;
      assert |head| > 0;
      assert forall k :: 0 <= k < |head| ==> head[k].player == rows[0].player;
      if rows[0].player == p {
        assert m[0] == head[0];
      } else {
        if HasStrokes(rows, p) {
          var i :| 0 <= i < |rows| && rows[i].player == p;
          assert rows[1..][i - 1] == rows[i];
          assert Joins(tail, p);
          var j :| 0 <= j < |tail| && tail[j].player == p;
          assert m[|head| + j] == tail[j];
        }
        if Joins(m, p) {
          var i :| 0 <= i < |m| && m[i].player == p;
          assert i >= |head|;
          assert tail[i - |head|] == m[i];
          assert HasStrokes(rows[1..], p);
          var j :| 0 <= j < |rows[1..]| && rows[1..][j].player == p;
          assert rows[j + 1] == rows[1..][j];
        }
      }
    }
  }

  /** Summing the adjusted column equals summed strokes minus summed bonus. */
  lemma {:induction false} AdjustedIsStrokesMinusBonus(m: seq<MergedRow>, p: string)
    ensures SumAdjusted(m, p) == SumStrokes(m, p) as real - SumBonus(m, p)
  {
    if m != [] {
      AdjustedIsStrokesMinusBonus(m[1..], p);
    }
  }

  /** With at most one bonus row per player, the join turns each stroke row
      into exactly one joined row carrying the player's bonus. */
  lemma MergeHead(rows: seq<StrokeRow>, bonus: seq<BonusRow>)
    requires UniqueBonusPlayers(bonus) && rows != []
    ensures MergeLeft(rows, bonus) ==
      [MergedRow(rows[0].player, rows[0].totalStrokes, BonusFor(bonus, rows[0].player))] + MergeLeft(rows[1..], bonus)
  {
    var s := rows[0];
    var ms := Matches(bonus, s.player);
    MatchesAtMostOnce(bonus, s.player);
    if ms != [] {
      assert seq(|ms|, k requires 0 <= k < |ms| => MergedRow(s.player, s.totalStrokes, ms[k]))
             == [MergedRow(s.player, s.totalStrokes, BonusFor(bonus, s.player))];
    }
  }

  /** With at most one bonus row per player, the summed strokes of the join
      are the player's stroke total. */
  lemma {:induction false} MergeStrokeSum(rows: seq<StrokeRow>, bonus: seq<BonusRow>, p: string)
    requires UniqueBonusPlayers(bonus)
    ensures SumStrokes(MergeLeft(rows, bonus), p) == StrokeSum(rows, p)
  {
    if rows != [] {
      MergeStrokeSum(rows[1..], bonus, p);
      MergeHead(rows, bonus);
      var x := MergedRow(rows[0].player, rows[0].totalStrokes, BonusFor(bonus, rows[0].player));
      assert ([x] + MergeLeft(rows[1..], bonus))[1..] == MergeLeft(rows[1..], bonus);
    }
  }

  /** `b` added once per stroke row of player `p`. */
  ghost function PerRow(rows: seq<StrokeRow>, p: string, b: real): real {
    if rows == [] then 0.0 else (if rows[0].player == p then b else 0.0) + PerRow(rows[1..], p, b)
  }

  /** `n` copies of `b` summed: the bonus of a player with `n` stroke rows. */
  function Repeat(n: nat, b: real): real {
    if n == 0 then 0.0 else b + Repeat(n - 1, b)
  }

  lemma {:induction false} RepeatIsProduct(n: nat, b: real)
    ensures Repeat(n, b) == n as real * b
  {
    if n > 0 {
      RepeatIsProduct(n - 1, b);
    }
  }

  lemma {:induction false} PerRowIsRepeat(rows: seq<StrokeRow>, p: string, b: real)
    ensures PerRow(rows, p, b) == Repeat(StrokeCount(rows, p), b)
  {
    if rows != [] {
      PerRowIsRepeat(rows[1..], p, b);
    }
  }

  /** With at most one bonus row per player, the join's summed bonus adds the
      player's bonus once per stroke row. */
  lemma {:induction false} MergeBonusPerRow(rows: seq<StrokeRow>, bonus: seq<BonusRow>, p: string)
    requires UniqueBonusPlayers(bonus)
    ensures SumBonus(MergeLeft(rows, bonus), p) == PerRow(rows, p, BonusFor(bonus, p))
  {
    if rows != [] {
      MergeBonusPerRow(rows[1..], bonus, p);
      MergeHead(rows, bonus);
      var x := MergedRow(rows[0].player, rows[0].totalStrokes, BonusFor(bonus, rows[0].player));
      assert ([x] + MergeLeft(rows[1..], bonus))[1..] == MergeLeft(rows[1..], bonus);
    }
  }

  /** With at most one bonus row per player, the summed bonus of the join is
      the player's bonus once per stroke row. */
  lemma MergeBonusSum(rows: seq<StrokeRow>, bonus: seq<BonusRow>, p: string)
    requires UniqueBonusPlayers(bonus)
    ensures SumBonus(MergeLeft(rows, bonus), p) == Repeat(StrokeCount(rows, p), BonusFor(bonus, p))
  {
    MergeBonusPerRow(rows, bonus, p);
    PerRowIsRepeat(rows, p, BonusFor(bonus, p));
  }

  // ---------------------------------------------------------------------------
  // Grouping and sorting

  /** Grouping gives each player of the joined table exactly one row. */
  lemma GroupedPlayers(m: seq<MergedRow>, p: string)
    ensures DistinctPlayers(GroupByPlayer(m))
    ensures Ranks(GroupByPlayer(m), p) <==> Joins(m, p)
  {
    var ps := AddNew([], PlayersOf(m));
    var g := GroupByPlayer(m);
    AddNewKeepsNoDup([], PlayersOf(m));
    assert forall k :: 0 <= k < |g| ==> g[k].player == ps[k];
    if Joins(m, p) {
      var i :| 0 <= i < |m| && m[i].player == p;
      assert PlayersOf(m)[i] == p;
      assert p in ps;
      var k :| 0 <= k < |ps| && ps[k] == p;
      assert g[k].player == p;
    }
    if Ranks(g, p) {
      var k :| 0 <= k < |g| && g[k].player == p;
      assert ps[k] in PlayersOf(m);
      var i :| 0 <= i < |m| && PlayersOf(m)[i] == p;
      assert m[i].player == p;
    }
  }

  lemma MultiplicityOfRepeat(s: seq<LeaderRow>, i: nat, j: nat)
    requires i < j < |s|
    ensures s[i] == s[j] ==> multiset(s)[s[i]] >= 2
  {
    assert s == s[..j] + s[j..];
    assert s[i] == s[..j][i];
    assert s[j..] == [s[j]] + s[j + 1..];
  }

  lemma {:induction false} MultiplicityOfDistinct(s: seq<LeaderRow>, x: LeaderRow)
    requires DistinctPlayers(s)
    ensures multiset(s)[x] <= 1
  {
    if s != [] {
      assert s == [s[0]] + s[1..];
      MultiplicityOfDistinct(s[1..], x);
      if s[0] == x {
        forall k | 0 <= k < |s[1..]|
          ensures s[1..][k] != x
        {
          assert s[1..][k] == s[k + 1];
        }
      }
    }
  }

  /** Reordering the rows keeps the players, and keeps them distinct. */
  lemma PermutationKeepsPlayers(a: seq<LeaderRow>, b: seq<LeaderRow>)
    requires multiset(a) == multiset(b) && DistinctPlayers(b)
    ensures DistinctPlayers(a)
    ensures forall i :: 0 <= i < |a| ==> a[i] in b
    ensures forall p :: Ranks(a, p) <==> Ranks(b, p)
  {
    forall i | 0 <= i < |a|
      ensures a[i] in b
    {
      assert a[i] in multiset(a);
    }
    forall i, j | 0 <= i < j < |a|
      ensures a[i].player != a[j].player
    {
      MultiplicityOfDistinct(b, a[i]);
      MultiplicityOfRepeat(a, i, j);
      var k :| 0 <= k < |b| && b[k] == a[i];
      var l :| 0 <= l < |b| && b[l] == a[j];
      assert a[i] != a[j];
      assert k != l;
    }
    forall p | Ranks(b, p)
      ensures Ranks(a, p)
    {
      var k :| 0 <= k < |b| && b[k].player == p;
      assert b[k] in multiset(a);
      var i :| 0 <= i < |a| && a[i] == b[k];
    }
    forall p | Ranks(a, p)
      ensures Ranks(b, p)
    {
      var i :| 0 <= i < |a| && a[i].player == p;
      var k :| 0 <= k < |b| && b[k] == a[i];
    }
  }

  // ---------------------------------------------------------------------------
  // What every leaderboard states

  /** Exactly the players with stroke rows appear, each once: listed players
      without strokes are absent, unlisted players with strokes present. */
  lemma LeaderboardPlayers(lb: seq<LeaderRow>, strokes: Frame<StrokeRow>, bonus: seq<BonusRow>, p: string)
    requires IsLeaderboard(lb, strokes, bonus)
    ensures DistinctPlayers(lb)
    ensures Ranks(lb, p) <==> HasStrokes(Rows(strokes), p)
  {
    var m := MergeLeft(Rows(strokes), bonus);
    GroupedPlayers(m, p);
    MergeKeepsPlayers(Rows(strokes), bonus, p);
    PermutationKeepsPlayers(lb, Grouped(strokes, bonus));
  }

  /** Joined against the bonus table, a player's summed bonus is the player's
      credit once per stroke row. */
  lemma JoinedBonus(rows: seq<StrokeRow>, players: seq<string>, rounds: Frame<RoundRow>,
                    skins: Frame<SkinRow>, p: string)
    requires NoDup(players)
    ensures SumBonus(MergeLeft(rows, BonusTable(players, rounds, skins)), p)
            == Repeat(StrokeCount(rows, p), Credit(players, rounds, skins, p))
  {
    var bonus := BonusTable(players, rounds, skins);
    assert UniqueBonusPlayers(bonus);
    BonusForTable(players, rounds, skins, p);
    MergeBonusSum(rows, bonus, p);
  }

  /** The totals of one per-player row before sorting. */
  lemma GroupedRowTotals(strokes: Frame<StrokeRow>, players: seq<string>, rounds: Frame<RoundRow>,
                         skins: Frame<SkinRow>, k: nat)
    requires NoDup(players)
    requires k < |Grouped(strokes, BonusTable(players, rounds, skins))|
    ensures var r := Grouped(strokes, BonusTable(players, rounds, skins))[k];
      && r.totalStrokes == StrokeSum(Rows(strokes), r.player)
      && r.bonus == Repeat(StrokeCount(Rows(strokes), r.player), Credit(players, rounds, skins, r.player))
      && r.adjustedScore == r.totalStrokes as real - r.bonus
  {
    var bonus := BonusTable(players, rounds, skins);
    var m := MergeLeft(Rows(strokes), bonus);
    var ps := AddNew([], PlayersOf(m));
    var p := ps[k];
    var r := Grouped(strokes, bonus)[k];
    assert r == LeaderRow(p, SumStrokes(m, p), SumBonus(m, p), SumAdjusted(m, p));
    assert UniqueBonusPlayers(bonus);
    MergeStrokeSum(Rows(strokes), bonus, p);
    JoinedBonus(Rows(strokes), players, rounds, skins, p);
    AdjustedIsStrokesMinusBonus(m, p);
  }

  /** Each row's totals: the player's summed strokes; the player's bonus (0 if
      not on the player list) once per stroke row; and their difference. */
  lemma LeaderboardTotals(lb: seq<LeaderRow>, strokes: Frame<StrokeRow>,
                          players: seq<string>, rounds: Frame<RoundRow>, skins: Frame<SkinRow>)
    requires NoDup(players)
    requires IsLeaderboard(lb, strokes, BonusTable(players, rounds, skins))
    ensures forall i :: 0 <= i < |lb| ==>
      && lb[i].totalStrokes == StrokeSum(Rows(strokes), lb[i].player)
      && lb[i].bonus == Repeat(StrokeCount(Rows(strokes), lb[i].player), Credit(players, rounds, skins, lb[i].player))
      && lb[i].adjustedScore == lb[i].totalStrokes as real - lb[i].bonus
  {
    var g := Grouped(strokes, BonusTable(players, rounds, skins));
    forall i | 0 <= i < |lb|
      ensures && lb[i].totalStrokes == StrokeSum(Rows(strokes), lb[i].player)
        && lb[i].bonus == Repeat(StrokeCount(Rows(strokes), lb[i].player), Credit(players, rounds, skins, lb[i].player))
        && lb[i].adjustedScore == lb[i].totalStrokes as real - lb[i].bonus
    {
      assert lb[i] in multiset(g);
      var k :| 0 <= k < |g| && g[k] == lb[i];
      GroupedRowTotals(strokes, players, rounds, skins, k);
    }
  }

  /** A player without bonus credit is ranked by raw strokes. */
  lemma NoCreditMeansRawStrokes(lb: seq<LeaderRow>, strokes: Frame<StrokeRow>,
                                players: seq<string>, rounds: Frame<RoundRow>, skins: Frame<SkinRow>, i: nat)
    requires NoDup(players)
    requires IsLeaderboard(lb, strokes, BonusTable(players, rounds, skins))
    requires i < |lb|
    requires !WasChallenger(rounds, lb[i].player) && !WasHunter(rounds, lb[i].player)
    ensures lb[i].adjustedScore == lb[i].totalStrokes as real
  {
    LeaderboardTotals(lb, strokes, players, rounds, skins);
    RepeatIsProduct(StrokeCount(Rows(strokes), lb[i].player), 0.0);
  }
}
