/** A two-player round worked through the whole dashboard: Alice is the
    round's challenger and Bob its hunter, hole 1 goes to the challenger and
    hole 2 to the hunter.  Alice is credited 1 and Bob 1.5, so Bob (66.5)
    ranks ahead of Alice (69). */
module Scenario {
  import opened Frames
  import opened Records
  import opened Bonus
  import opened Leaderboard

  function AliceBobStrokes(): Frame<StrokeRow> {
    Load([StrokeRow("R1", "Alice", 70), StrokeRow("R1", "Bob", 68)])
  }

  function AliceBobRounds(): Frame<RoundRow> {
    Load([RoundRow("R1", "Day 1", 1, "Eyland", "Alice", "Bob")])
  }

  function AliceBobSkins(): Frame<SkinRow> {
    Load([SkinRow("R1", 1, "challenger"), SkinRow("R1", 2, "hunter")])
  }

  /** One challenger win and one hunter win: Alice 1.0, Bob 1.5. */
  lemma AliceBobBonus()
    ensures BonusTable(["Alice", "Bob"], AliceBobRounds(), AliceBobSkins())
            == [BonusRow("Alice", 1.0), BonusRow("Bob", 1.5)]
  {
    var rounds := AliceBobRounds();
    var skins := AliceBobSkins();
    assert rounds[0].row.challenger == "Alice" && rounds[0].row.hunter == "Bob";
    assert WasChallenger(rounds, "Alice") && !WasHunter(rounds, "Alice");
    assert !WasChallenger(rounds, "Bob") && WasHunter(rounds, "Bob");
    assert WinCount(skins, ChallengerWin) == 1;
    assert WinCount(skins, HunterWin) == 1;
  }

  /** One stroke row each, so each player's bonus is subtracted once. */
  lemma AliceBobGrouped()
    ensures Grouped(AliceBobStrokes(), [BonusRow("Alice", 1.0), BonusRow("Bob", 1.5)])
            == [LeaderRow("Alice", 70, 1.0, 69.0), LeaderRow("Bob", 68, 1.5, 66.5)]
  {
    var bonus := [BonusRow("Alice", 1.0), BonusRow("Bob", 1.5)];
    var rows := Rows(AliceBobStrokes());
    assert rows == [StrokeRow("R1", "Alice", 70), StrokeRow("R1", "Bob", 68)];
    var m := MergeLeft(rows, bonus);
    assert m == [MergedRow("Alice", 70, 1.0), MergedRow("Bob", 68, 1.5)];
    assert PlayersOf(m) == ["Alice", "Bob"];
    assert AddNew([], ["Alice", "Bob"]) == ["Alice", "Bob"];
  }

  /** With no tie, the leaderboard order is determined: Bob, then Alice. */
  lemma TwoPlayerRound(lb: seq<LeaderRow>)
    requires IsLeaderboard(lb, AliceBobStrokes(), BonusTable(["Alice", "Bob"], AliceBobRounds(), AliceBobSkins()))
    ensures lb == [LeaderRow("Bob", 68, 1.5, 66.5), LeaderRow("Alice", 70, 1.0, 69.0)]
  {
    AliceBobBonus();
    AliceBobGrouped();
    var g := [LeaderRow("Alice", 70, 1.0, 69.0), LeaderRow("Bob", 68, 1.5, 66.5)];
    assert multiset(lb) == multiset(g);
    assert |lb| == 2 by {
      assert |multiset(lb)| == |multiset(g)|;
    }
    assert lb[0] in multiset(g) && lb[1] in multiset(g);
    assert lb[0] != lb[1] by {
      PermutationKeepsPlayers(lb, g);
    }
  }
}
