# Eyland Masters disc golf: record keeping and scoring

This project models the record keeping and scoring of the tournament app
`disc_golf_round_app.py`, and proves properties of that model. The app keeps four tables:

- the player list;
- the strokes of each player in each round, uploaded from a scoring export;
- the rounds, each with its challenger and hunter;
- the skins results, which record who won each hole of a round.

The dashboard turns these tables into a bonus per listed player and a leaderboard
ranked by adjusted score (strokes minus bonus).

The model is split into modules:

- **`Frames`** models a pandas data frame as a sequence of labelled rows. It
  gives the three frame operations the app uses:
  - filtering, which keeps each row's label;
  - `df.loc[l] = row`, which overwrites the row labelled `l` or appends one;
  - the app's upsert, which filters and then writes at label `len(df)`.

  It also holds the corrected upsert, which writes at a fresh label.
- **`Records`** holds:
  - the four row types;
  - the append-if-absent update of the player list;
  - the stroke upload, one upsert per uploaded row;
  - the counterexamples that show the upsert losing rows;
  - the upload built on the corrected upsert.
- **`Bonus`** holds the win counts over the whole skins table, one player's
  bonus, and the bonus table.
- **`Leaderboard`** is the pure pipeline: left join on the player, `fillna(0)`,
  the adjusted column, `groupby("player").sum()` and `sort_values`. Its
  specification `IsLeaderboard` says the result is a permutation of the
  per-player rows and is ordered by adjusted score. Ties may come in any order.
- **`RoundApp.Store`** is a class that holds the four tables. The app reruns
  from the top on every interaction and reads each table from its file, which
  was written without its index, so every action starts from rows labelled
  0, 1, ... Each action changes its table in memory, writes it back and reads
  it again; the model writes that as `Load(Rows(t))`, and `Valid()` says every
  table is labelled 0, 1, ... between actions. The loops over upload rows and
  over the player list are written as loops with invariants.
- **`Scenario`** works a two-player round through the whole dashboard.

This model follows the code; in particular:

- A "challenger" or "hunter" win is not resolved to that round's role holder.
  The wins are counted over the whole tournament. Every listed player who was
  challenger of any round gets the full challenger count. Every listed player
  who was hunter of any round gets 1.5 times the hunter count.
- Team wins ("lag a", "lag b") credit nobody.
- The weights 1 and 1.5 are fixed in the code, not configured.
- Winner labels are lower-case.
- The bonus is joined onto every stroke row of a player before summing. So a
  player's bonus column is the bonus times the player's number of stroke rows.
- There are no warning or error kinds. An empty round id or an empty winner
  makes the action do nothing.

## Model

| member | source | states |
|---|---|---|
| Frames.Load | disc_golf_round_app.py:12-24 | a table read from its file holds the given rows in order, labelled 0, 1, ..., n-1, so labels are distinct |
| Frames.Keep | disc_golf_round_app.py:48 | a filter keeps exactly the rows of other keys, each with its label, and adds none |
| Frames.KeepDistinct | disc_golf_round_app.py:48 | filtering keeps labels distinct |
| Frames.KeepKeyUnique | disc_golf_round_app.py:64 | filtering keeps "at most one row per key" |
| Frames.Put | disc_golf_round_app.py:49 | `df.loc[l] = row`: overwrite the row labelled `l` or append one; what it leaves is stated by `Frames.PutContents` |
| Frames.KeepNoMatch | disc_golf_round_app.py:48 | filtering on a key no row has leaves the frame unchanged |
| Frames.PutContents | disc_golf_round_app.py:49 | `df.loc[l] = row` keeps labels distinct. Afterwards the rows are the old rows not labelled `l`, plus the new row at `l`. The frame grows only when `l` was free |
| Frames.Upsert | disc_golf_round_app.py:48-49 | the app's filter-then-write at `len(filtered)`, used at lines 48-49, 64-65 and 76-77; what it leaves is stated by `Frames.UpsertContents`, `Frames.UpsertLeavesOneRow` and `Frames.UpsertLosesRowAtReusedLabel` |
| Frames.UpsertContents | disc_golf_round_app.py:48-49 | after an upsert the rows are the new row at label `len(filtered)`, plus every old row of another key except the one that held that label |
| Frames.UpsertLeavesOneRow | disc_golf_round_app.py:64-65 | after an upsert exactly one row has the new row's key, and it is the new row |
| Frames.UpsertKeyUnique | disc_golf_round_app.py:76-77 | an upsert keeps "at most one row per key" |
| Frames.UpsertAppendsWhenLabelFree | disc_golf_round_app.py:48-49 | when label `len(filtered)` is free, the upsert appends and every other row stays in place (this is when a sequence model and the labelled frame agree) |
| Frames.UpsertOnDenseAppends | disc_golf_round_app.py:48-49 | on a freshly loaded table with no row of the new key, the upsert appends at label `len(df)` and changes nothing else |
| Frames.UpsertLosesRowAtReusedLabel | disc_golf_round_app.py:48-49 | when a surviving row holds label `len(filtered)`, the upsert loses a row of another key |
| Frames.ReloadedUpsert | disc_golf_round_app.py:62-66 | an upsert on a table as read from its file, written back and read again, has exactly one row of the new key, holding the new row; a new key is appended with nothing else changed; keys stay unique; every other row was there before |
| Frames.NextLabel | disc_golf_round_app.py:49 | the corrected write label is larger than every label in use |
| Frames.UpsertFresh | disc_golf_round_app.py:48-49 | the corrected upsert: filter, then append at `NextLabel`; what it leaves is stated by `Frames.UpsertFreshContents` |
| Frames.UpsertFreshContents | disc_golf_round_app.py:48-49 | the corrected upsert keeps labels distinct and keeps every row of another key. It replaces the rows of the new key by the new row and keeps at most one row per key |
| Records.AddNew | disc_golf_round_app.py:41-43 | the old list is a prefix of the new one, every uploaded name is listed, and no name is invented |
| Records.AddNewAppendsOnce | disc_golf_round_app.py:41-43 | the appended names are distinct, were not listed before, and come from the upload |
| Records.AddNewKeepsNoDup | disc_golf_round_app.py:41-43 | a list without repeats stays without repeats |
| Records.AddNewFirstAppearanceOrder | disc_golf_round_app.py:41-43 | appended names come in order of their first appearance in the upload |
| Records.PlayerColumn | disc_golf_round_app.py:41 | the names iterated are the uploaded rows' players, in order |
| Records.UpsertUpload | disc_golf_round_app.py:47-49 | one upsert per upload row, in upload order; what it leaves is stated by `Records.UploadRowsHoldLastTotal` and `Records.UploadRowLeavesOneRow` |
| Records.LastTotal | disc_golf_round_app.py:47-49 | the total taken for a player is that of the player's last row in the upload |
| Records.UploadRowsHoldLastTotal | disc_golf_round_app.py:47-49 | after an upload, labels stay distinct and keys stay unique. A row of this round for an uploaded player holds that player's last total, and every other row was already there |
| Records.UploadRowLeavesOneRow | disc_golf_round_app.py:47-49 | after an upload row is processed, exactly one row has its (round, player), holding its total |
| Records.ReuploadDropsPlayer | disc_golf_round_app.py:47-49 | re-uploading a three-player export into its own loaded table leaves only two players' rows |
| Records.RerecordHoleDropsOtherHole | disc_golf_round_app.py:76-77 | re-recording hole 1 in a loaded two-hole table loses hole 2's result |
| Records.UpsertUploadFresh | disc_golf_round_app.py:47-49 | the upload with the corrected upsert; what it leaves is stated by `Records.UploadFreshContents` |
| Records.UploadFreshContents | disc_golf_round_app.py:47-49 | with the corrected upsert, the rows after an upload are exactly the untouched old rows, plus one row per uploaded player with the player's last total |
| Records.UploadFreshIdempotent | disc_golf_round_app.py:47-49 | with the corrected upsert, uploading the same export twice leaves the same rows as uploading it once |
| Records.UploadFreshOneRowPerPlayer | disc_golf_round_app.py:47-49 | with the corrected upsert, each uploaded player has exactly one row for the round, holding the player's last total |
| Bonus.WinCount | disc_golf_round_app.py:88 | a count is at most the number of skins rows, and it is zero exactly when no row names that winner |
| Bonus.WasChallenger | disc_golf_round_app.py:92 | `rounds_df["challenger"].eq(p).any()`: some round has `p` as challenger; used by `Bonus.PlayerBonus` and `Bonus.BonusAfterWin` |
| Bonus.WasHunter | disc_golf_round_app.py:93 | `rounds_df["hunter"].eq(p).any()`: some round has `p` as hunter; used by `Bonus.PlayerBonus` and `Bonus.BonusAfterWin` |
| Bonus.PlayerBonus | disc_golf_round_app.py:90-94 | a bonus is never negative, and it is positive only for a player who was challenger or hunter of some round |
| Bonus.BonusTable | disc_golf_round_app.py:89-95 | one row per player-list entry, in list order, with a non-negative bonus |
| Bonus.WinCountAppend | disc_golf_round_app.py:88 | one more skins row adds one to its own winner's count and nothing to any other count |
| Bonus.BonusAfterWin | disc_golf_round_app.py:88-94 | one more win adds 1 to every ever-challenger for a challenger win and 1.5 to every ever-hunter for a hunter win. Any other winner label adds nothing |
| Leaderboard.Insert | disc_golf_round_app.py:103 | inserting a row adds exactly that row to the multiset |
| Leaderboard.InsertSorted | disc_golf_round_app.py:103 | inserting into a sorted sequence keeps it sorted |
| Leaderboard.SortByAdjusted | disc_golf_round_app.py:103 | the sort returns a permutation ordered by adjusted score |
| Leaderboard.Board | disc_golf_round_app.py:97-103 | the model's pipeline produces a leaderboard in the sense of `IsLeaderboard` |
| Leaderboard.MergeLeft | disc_golf_round_app.py:97 | the left join with `fillna(0)`; its players are stated by `Leaderboard.MergeKeepsPlayers` and its sums by `Leaderboard.MergeStrokeSum` and `Leaderboard.MergeBonusSum` |
| Leaderboard.SumAdjusted | disc_golf_round_app.py:98-102 | the summed per-row `adjusted_score`; stated by `Leaderboard.AdjustedIsStrokesMinusBonus` |
| Leaderboard.GroupByPlayer | disc_golf_round_app.py:99-102 | one summed row per player; its players are stated by `Leaderboard.GroupedPlayers` and its totals by `Leaderboard.GroupedRowTotals` |
| Leaderboard.MatchesOf | disc_golf_round_app.py:97 | when every bonus row of a player has the same value, every match has it, and a match exists exactly when such a row does |
| Leaderboard.MatchesAtMostOnce | disc_golf_round_app.py:97 | a bonus table without repeated players matches each stroke row at most once |
| Leaderboard.BonusForTable | disc_golf_round_app.py:95-97 | the joined bonus of a player is the player's computed bonus if listed, and 0 (`fillna`) otherwise |
| Leaderboard.MergeKeepsPlayers | disc_golf_round_app.py:97 | the join has a row of a player exactly when the stroke table does |
| Leaderboard.MergeHead | disc_golf_round_app.py:97 | with at most one bonus row per player, each stroke row becomes exactly one joined row carrying the player's bonus |
| Leaderboard.MergeStrokeSum | disc_golf_round_app.py:97-100 | the join's summed strokes of a player are the player's stroke total |
| Leaderboard.MergeBonusPerRow | disc_golf_round_app.py:97-101 | the join's summed bonus of a player adds the player's bonus once per stroke row |
| Leaderboard.PerRowIsRepeat | disc_golf_round_app.py:97-101 | adding a value once per row of a player is adding it as many times as the player has rows |
| Leaderboard.RepeatIsProduct | disc_golf_round_app.py:97-101 | adding a bonus n times equals n times the bonus |
| Leaderboard.MergeBonusSum | disc_golf_round_app.py:97-101 | the join's summed bonus of a player is the player's bonus added once per stroke row |
| Leaderboard.AdjustedIsStrokesMinusBonus | disc_golf_round_app.py:98-102 | the summed adjusted column equals summed strokes minus summed bonus |
| Leaderboard.GroupedPlayers | disc_golf_round_app.py:99 | grouping gives one row per player of the joined table, and no others |
| Leaderboard.PermutationKeepsPlayers | disc_golf_round_app.py:103 | sorting keeps the set of players and keeps them distinct |
| Leaderboard.LeaderboardPlayers | disc_golf_round_app.py:97-103 | a leaderboard has exactly one row per player with stroke rows. Listed players without strokes are absent; unlisted players with strokes are present |
| Leaderboard.JoinedBonus | disc_golf_round_app.py:88-101 | joined against the bonus table, a player's summed bonus is the player's credit added once per stroke row |
| Leaderboard.GroupedRowTotals | disc_golf_round_app.py:97-102 | each per-player row has the player's stroke sum, the credit added once per stroke row, and their difference |
| Leaderboard.LeaderboardTotals | disc_golf_round_app.py:97-103 | every leaderboard row has the player's stroke total. Its bonus is the player's bonus (0 if unlisted) once per stroke row, and its adjusted score is the difference |
| Leaderboard.NoCreditMeansRawStrokes | disc_golf_round_app.py:92-103 | a player who was never challenger nor hunter is ranked by raw strokes |
| RoundApp.Store.constructor | disc_golf_round_app.py:20-24 | the tables start as read from their files, labelled 0..n-1 |
| RoundApp.Store.AddPlayers | disc_golf_round_app.py:41-43 | the loop appends absent names one at a time, leaving the list `AddNew(old list, names)`. The other tables are unchanged |
| RoundApp.Store.UpsertStrokes | disc_golf_round_app.py:47-49 | the loop filters and then writes at `len(strokes)` for each upload row, leaving the stroke table `UpsertUpload(old, round, upload)`. Labels stay distinct |
| RoundApp.Store.UploadStrokes | disc_golf_round_app.py:39-50 | without a round id nothing changes. With one, the players join the list, the strokes are upserted, and the stroke table is written back and read again, labelled 0, 1, ... Afterwards each row of the round for an uploaded player holds the player's last total, and every other row was there before |
| RoundApp.Store.SaveRound | disc_golf_round_app.py:62-66 | without a round id nothing changes. With one, the table is upserted, written back and read again: exactly one row has that id and it holds the entered values; a new round id is appended with every other row unchanged; unique round ids stay unique |
| RoundApp.Store.RecordSkin | disc_golf_round_app.py:72-78 | without a round or a winner nothing changes. Otherwise the table is upserted, written back and read again: exactly one row has that (round, hole) and it holds the new winner; a hole not yet recorded is appended with every other row unchanged; (round, hole) keys stay unique and holes stay within 1..18 |
| RoundApp.Store.ComputeBonus | disc_golf_round_app.py:88-95 | the loop builds the bonus table: one row per player-list entry with the player's bonus |
| RoundApp.Store.Dashboard | disc_golf_round_app.py:84-103 | nothing exactly when both strokes and skins are empty. Otherwise the result is a leaderboard with exactly the players who have strokes, once each. With a repeat-free player list it also has the totals of `LeaderboardTotals` |
| Scenario.AliceBobBonus | disc_golf_round_app.py:88-95 | with one challenger win and one hunter win, the challenger gets 1.0 and the hunter gets 1.5 |
| Scenario.AliceBobGrouped | disc_golf_round_app.py:97-102 | Alice has 70 strokes, bonus 1.0 and adjusted 69.0; Bob has 68 strokes, bonus 1.5 and adjusted 66.5 |
| Scenario.TwoPlayerRound | disc_golf_round_app.py:97-103 | every leaderboard for that round is Bob, then Alice |

## Left out

- The widgets, menu, messages, table display and bar chart are left out. Widget
  values are parameters, and `RecordSkin` requires the hole to be in 1..18,
  which is the range of the hole widget.
- The files themselves are left out: a table is written and read back as its
  rows in order, relabelled 0, 1, ... (`Load(Rows(t))`); CSV text, column
  types and a file missing on first start are not modelled. The player list
  is kept as a plain list, since its labels are always 0, 1, ... and its
  write never overwrites.
- Reading the uploaded export is left out. So are the check that it has
  `Player` and `Total` columns and `int()` parsing of the total. Each upload row
  already carries a player and an integer total.
- `fillna(0)` on columns other than the bonus is not modelled. NaN cells in
  the stroke table and floating-point rounding are also out: bonuses are exact
  `real`s.
- Leaderboard.GroupByPlayer: lists players in order of first appearance,
  not sorted by name as `groupby` does. Every stated property is about the
  multiset of per-player rows, so this order never matters.
- Leaderboard.SortByAdjusted: is an insertion sort, not pandas' sort. The
  specification `IsLeaderboard` admits every order of ties, so the stated
  properties hold for any sort that returns a sorted permutation.
- Leaderboard.LeaderboardTotals: requires a player list without repeats.
  With a repeated name, the bonus table has two rows for that player, and the
  join doubles that player's stroke rows. The model computes that case
  (`MergeLeft` handles several matches), but no totals are stated for it.
- RoundApp.Store.UploadStrokes: does not promise one row per uploaded player,
  because the code as written can lose rows (see Findings). That promise is
  proved for the corrected upload in `Records.UploadFreshOneRowPerPlayer`.
- RoundApp.Store.SaveRound: does not promise that other rounds' rows survive
  when an existing round id is saved again, for the same reason.
  `Frames.UpsertContents` states exactly which rows can be lost.
- RoundApp.Store.RecordSkin: does not promise that other holes' results
  survive when a hole is recorded again, for the same reason.

## Findings

| source | as written | input that shows it | evidently intended | confidence | as-written member | corrected member |
|---|---|---|---|---|---|---|
| disc_golf_round_app.py:48-49 | after the filter, `df.loc[len(df)] = row` writes at label `len(df)`. That label can still belong to a surviving row, which is then overwritten. The same pattern appears at lines 64-65 and 76-77 | a stroke table loaded with ann 54, bo 60 and cy 58 for D1R1, then the same export uploaded again: ann's row disappears. In a loaded skins table with holes 1 and 2 of D1R1, re-recording hole 1 removes hole 2 | replace the rows of the new key and keep every other row, for example by appending at a fresh label | not executed | Records.ReuploadDropsPlayer | Records.UploadFreshContents |
