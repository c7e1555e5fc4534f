/** Bonus credit as the dashboard computes it: the skins table is reduced to
    tournament-wide counts of "challenger" and "hunter" wins; a listed player
    who was challenger of any round is credited every challenger win, and one
    who was hunter of any round is credited 1.5 per hunter win.  Wins of
    "lag a" and "lag b" credit nobody. */
module Bonus {
  import opened Frames
  import opened Records

  /** One row of the bonus table built by the dashboard. */
  datatype BonusRow = BonusRow(player: string, bonus: real)

  const ChallengerWin: string := "challenger"
  const HunterWin: string := "hunter"
  const HunterWeight: real := 1.5

  /** `skins_df["winner"].value_counts().get(w, 0)`. */
  function WinCount(skins: Frame<SkinRow>, w: string): (n: nat)
    ensures n <= |skins|
    ensures n == 0 <==> forall i :: 0 <= i < |skins| ==> skins[i].row.winner != w
  {
    if skins == [] then 0
    else
      assert forall i :: 1 <= i < |skins| ==> skins[i] == skins[1..][i - 1];
      (if skins[0].row.winner == w then 1 else 0) + WinCount(skins[1..], w)
  }

  /** `rounds_df["challenger"].eq(p).any()`. */
  predicate WasChallenger(rounds: Frame<RoundRow>, p: string) {
    exists i :: 0 <= i < |rounds| && rounds[i].row.challenger == p
  }

  /** `rounds_df["hunter"].eq(p).any()`. */
  predicate WasHunter(rounds: Frame<RoundRow>, p: string) {
    exists i :: 0 <= i < |rounds| && rounds[i].row.hunter == p
  }

  /** The bonus the dashboard computes for listed player `p`. */
  function PlayerBonus(p: string, rounds: Frame<RoundRow>, skins: Frame<SkinRow>): (b: real)
    ensures b >= 0.0
    ensures b > 0.0 ==> WasChallenger(rounds, p) || WasHunter(rounds, p)
  {
    (if WasChallenger(rounds, p) then WinCount(skins, ChallengerWin) as real else 0.0)
    + (if WasHunter(rounds, p) then HunterWeight * WinCount(skins, HunterWin) as real else 0.0)
  }

  /** The bonus table: one row per entry of the player list, in list order. */
  function BonusTable(players: seq<string>, rounds: Frame<RoundRow>, skins: Frame<SkinRow>): (t: seq<BonusRow>)
    ensures |t| == |players|
    ensures forall i :: 0 <= i < |players| ==> t[i].player == players[i] && t[i].bonus >= 0.0
  {
    seq(|players|, i requires 0 <= i < |players| => BonusRow(players[i], PlayerBonus(players[i], rounds, skins)))
  }

  /** Counting is additive: one more skins row adds one to its winner's count only. */
  lemma {:induction false} WinCountAppend(skins: Frame<SkinRow>, e: Labeled<SkinRow>, w: string)
    ensures WinCount(skins + [e], w) == WinCount(skins, w) + (if e.row.winner == w then 1 else 0)
  {
    if skins != [] {
      assert (skins + [e])[1..] == skins[1..] + [e];
      WinCountAppend(skins[1..], e, w);
    }
  }

  /** One more recorded win changes every listed player's bonus by the weight
      of that win if the player ever held the winning role: +1 for a
      challenger win to everyone who was ever challenger, +1.5 for a hunter
      win to everyone who was ever hunter, and nothing for any other winner
      label ("lag a", "lag b"). */
  lemma BonusAfterWin(p: string, rounds: Frame<RoundRow>, skins: Frame<SkinRow>, e: Labeled<SkinRow>)
    ensures PlayerBonus(p, rounds, skins + [e]) ==
      PlayerBonus(p, rounds, skins)
      + (if e.row.winner == ChallengerWin && WasChallenger(rounds, p) then 1.0 else 0.0)
      + (if e.row.winner == HunterWin && WasHunter(rounds, p) then HunterWeight else 0.0)
  {
    WinCountAppend(skins, e, ChallengerWin);
    WinCountAppend(skins, e, HunterWin);
  }
}
