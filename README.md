# Swiss-system tournament: pairing and match reporting

A model of the two pieces of logic in `tournament.py`, the Swiss-system
tournament library of the project, that do more than hand a statement to
PostgreSQL:

- **Swiss pairing** (`swissPairings`): the standings of a tournament, ranked by
  points, are walked in order and grouped two at a time by position — first
  with second, third with fourth, and so on. Each pairing is
  `(id1, name1, id2, name2)`. With an odd number of players the last one is
  left out and no bye is recorded.
- **Match reporting** (`reportMatch`): a report carrying both a winner and a
  loser records a decisive match; failing that, a report carrying both tying
  players records a tie; any other report is ignored.

Modules:

- `Standings` (Standings.dfy): the standings row `(id, name, wins, ties, matches)`,
  the points table (`Points`: win 3, tie 1, loss 0) and the two conditions the
  pairing properties assume — ranked by points (`SortedByPoints`) and one row per
  player (`DistinctIds`).
- `Pairing` (Pairing.dfy): the pairing record, a recursive reference definition
  `Pairs`, the pairing loop `SwissPairings` proved equal to it, and the lemmas
  about what `Pairs` produces.
- `Matches` (Matches.dfy): the match record (`Decisive` or `Tie`), the match
  table as the class `MatchStore` whose `ReportMatch` appends at most one record,
  and reference definitions of the per-player counts of a standings row (wins,
  ties, matches played, as the `playerStandings` documentation describes them)
  with lemmas on how one report changes them.

The standings passed to the pairing step are a parameter: in the source they
are read from the database. Player ids and tournament ids are unbounded
integers, names are strings; an absent argument (`None` in the source) is
`Option.None`.

## Model

| member | source | states |
|---|---|---|
| Pairing.Pairs | vagrant/tournament/tournament.py:238-252 | a standings list of n rows yields exactly n/2 pairings, rounded down |
| Pairing.SwissPairings | vagrant/tournament/tournament.py:237-252 | the counter-and-carried-entry loop returns exactly the reference pairings `Pairs(standings)`, hence n/2 of them |
| Pairing.PairsAt | vagrant/tournament/tournament.py:241-249 | pairing k is (id, name) of row 2k followed by (id, name) of row 2k+1, so pairings follow standings order |
| Pairing.PairsAppend | vagrant/tournament/tournament.py:245-249 | two rows read after an even number of rows add exactly one pairing, at the end of the list |
| Pairing.TrailingRowDropped | vagrant/tournament/tournament.py:245-250 | a row read after an even number of rows adds no pairing and changes none |
| Pairing.EachPlayerPairedOnce | vagrant/tournament/tournament.py:221-222 | with distinct ids, every row but the trailing one of an odd count is in pairing j/2, in no other pairing, and not paired with itself |
| Pairing.EvenCountCoverage | vagrant/tournament/tournament.py:221-222 | with an even number of distinct players, each player appears in exactly one pairing |
| Pairing.TrailingPlayerUnpaired | vagrant/tournament/tournament.py:245-252 | with an odd number of distinct players, the pairings are exactly those of the list without its last player, and the last player is in none of them |
| Pairing.PairsRankOrdered | vagrant/tournament/tournament.py:223-224 | for standings ranked by 3 x wins + ties, the first player of each pairing has at least the second's points, and the second at least the points of everyone ranked below |
| Matches.MatchStore.constructor | vagrant/tournament/tournament.py:33-39 | a fresh match table holds no records |
| Matches.MatchStore.ReportMatch | vagrant/tournament/tournament.py:197-214 | winner and loser present: exactly one `Decisive(tournament, winner, loser)` is appended, whatever the tie arguments; otherwise tie1 and tie2 present: exactly one `Tie(tournament, tie1, tie2)` is appended; otherwise the table is unchanged |
| Matches.OutcomesWithinPlayed | vagrant/tournament/tournament.py:168-173 | a player's wins plus ties never exceed the matches played, so the implied losses are never negative |
| Matches.CountsAppend | vagrant/tournament/tournament.py:168-173 | one appended match adds only its own contribution to a player's wins, ties and matches played |
| Matches.DecisiveCounts | vagrant/tournament/tournament.py:197-201 | a recorded decisive match gives the winner one more win, both players one more match played, no ties, and changes no other player or tournament |
| Matches.TieCounts | vagrant/tournament/tournament.py:202-206 | a recorded tie gives both players one more tie and one more match played, no wins, and changes no other player or tournament |
| Matches.ReportedPoints | vagrant/tournament/tournament.py:152-158 | with two different players, a decisive match earns the winner 3 points and the loser 0; a tie earns each 1 point |

## Left out

- Database access (`connect`, cursors, `commit`, `close`): the match table is
  the `matches` field of `MatchStore`, and the standings are a parameter of
  `SwissPairings`.
- `bleach.clean` sanitisation of every argument: a foreign library whose code
  is not part of this model; ids and names are taken as already clean.
- `createTournament`, `deleteTournaments`, `deleteMatches`, `deletePlayers`,
  `countPlayers`, `registerPlayerInTournament`, `registerPlayer`: each is one SQL
  statement with no logic of its own. `MatchStore`'s constructor stands for an
  emptied match table.
- `playerStandings`: it only returns the rows of the database's `standings`
  view. That view (the aggregation of wins, ties and matches and the sort by
  points) is not part of this model; ranking by points is a precondition
  (`SortedByPoints`) of the lemma that needs it, and `Wins`, `Ties` and `Played`
  are reference definitions of what the documented columns mean, not a model of
  the view's SQL.
- Distinct players: the source does not check that a winner differs from the
  loser or that the two tying players differ; `ReportMatch` records such
  reports as given, and only `ReportedPoints` assumes two different players.
- The Python `last` variable is unbound until the first row is read; the loop
  starts it at a placeholder `(0, "")` that is always overwritten before use.
