/** Match reporting: a report with both a winner and a loser records a
    decisive match, otherwise one with both tying players records a tie,
    otherwise nothing is written. The per-player counts of the standings
    (wins, ties, matches played) are given here as reference definitions over
    the recorded matches. */
module Matches {
  import opened Standings

  datatype Option<T> = None | Some(value: T)

  /** A recorded match of one tournament: decisive (winner, loser) or a tie. */
  datatype Match =
    | Decisive(tournament: int, winner: int, loser: int)
    | Tie(tournament: int, tie1: int, tie2: int)

  /** True when the player takes part in the match. */
  predicate Plays(m: Match, p: int)
  {
    match m
    case Decisive(_, w, l) => p == w || p == l
    case Tie(_, a, b) => p == a || p == b
  }

  /** Number of matches of tournament t that player p has won. */
  function Wins(ms: seq<Match>, t: int, p: int): nat
  {
    if ms == [] then 0
    else (if ms[0].Decisive? && ms[0].tournament == t && ms[0].winner == p then 1 else 0)
         + Wins(ms[1..], t, p)
  }

  /** Number of matches of tournament t that player p has tied. */
  function Ties(ms: seq<Match>, t: int, p: int): nat
  {
    if ms == [] then 0
    else (if ms[0].Tie? && ms[0].tournament == t && Plays(ms[0], p) then 1 else 0)
         + Ties(ms[1..], t, p)
  }

  /** Number of matches of tournament t that player p has played. */
  function Played(ms: seq<Match>, t: int, p: int): nat
  {
    if ms == [] then 0
    else (if ms[0].tournament == t && Plays(ms[0], p) then 1 else 0)
         + Played(ms[1..], t, p)
  }

  /** The standings row of player (id, name) in tournament t. */
  function StandingOf(ms: seq<Match>, t: int, id: int, name: string): Row
  {
    Row(id, name, Wins(ms, t, id), Ties(ms, t, id), Played(ms, t, id))
  }

  /** Every win and every tie is a match played, so losses, the rest of the
      matches played, are never negative. */
  lemma {:induction false} OutcomesWithinPlayed(ms: seq<Match>, t: int, p: int)
    ensures Wins(ms, t, p) + Ties(ms, t, p) <= Played(ms, t, p)
    decreases |ms|
  {
    if ms != [] {
      OutcomesWithinPlayed(ms[1..], t, p);
    }
  }

  /** Appending one match adds that match's own contribution to each count
      and leaves the earlier matches' contribution as it was. */
  lemma {:induction false} CountsAppend(ms: seq<Match>, m: Match, t: int, p: int)
    ensures Wins(ms + [m], t, p) ==
      Wins(ms, t, p) + (if m.Decisive? && m.tournament == t && m.winner == p then 1 else 0)
    ensures Ties(ms + [m], t, p) ==
      Ties(ms, t, p) + (if m.Tie? && m.tournament == t && Plays(m, p) then 1 else 0)
    ensures Played(ms + [m], t, p) ==
      Played(ms, t, p) + (if m.tournament == t && Plays(m, p) then 1 else 0)
    decreases |ms|
  {
    if ms == [] {
      assert [] + [m] == [m];
    } else {
      assert (ms + [m])[1..] == ms[1..] + [m];
      CountsAppend(ms[1..], m, t, p);
    }
  }

  /** Recording "w beat l" in tournament t gives w one more win, gives w and l
      one more match played, and changes nothing else in any tournament. */
  lemma DecisiveCounts(ms: seq<Match>, t: int, w: int, l: int, u: int, p: int)
    ensures Wins(ms + [Decisive(t, w, l)], u, p) ==
      Wins(ms, u, p) + (if u == t && p == w then 1 else 0)
    ensures Ties(ms + [Decisive(t, w, l)], u, p) == Ties(ms, u, p)
    ensures Played(ms + [Decisive(t, w, l)], u, p) ==
      Played(ms, u, p) + (if u == t && (p == w || p == l) then 1 else 0)
  {
    CountsAppend(ms, Decisive(t, w, l), u, p);
  }

  /** Recording a tie between a and b in tournament t gives each one more tie
      and one more match played, no wins, and changes nothing else. */
  lemma TieCounts(ms: seq<Match>, t: int, a: int, b: int, u: int, p: int)
    ensures Wins(ms + [Tie(t, a, b)], u, p) == Wins(ms, u, p)
    ensures Ties(ms + [Tie(t, a, b)], u, p) ==
      Ties(ms, u, p) + (if u == t && (p == a || p == b) then 1 else 0)
    ensures Played(ms + [Tie(t, a, b)], u, p) ==
      Played(ms, u, p) + (if u == t && (p == a || p == b) then 1 else 0)
  {
    CountsAppend(ms, Tie(t, a, b), u, p);
  }

  /** The scoring table as seen from a report: a win earns the winner 3 points
      and the loser none; a tie earns each of two different players 1 point. */
  lemma ReportedPoints(ms: seq<Match>, t: int, x: int, y: int, nx: string, ny: string)
    requires x != y
    ensures Points(StandingOf(ms + [Decisive(t, x, y)], t, x, nx)) == Points(StandingOf(ms, t, x, nx)) + 3
    ensures Points(StandingOf(ms + [Decisive(t, x, y)], t, y, ny)) == Points(StandingOf(ms, t, y, ny))
    ensures Points(StandingOf(ms + [Tie(t, x, y)], t, x, nx)) == Points(StandingOf(ms, t, x, nx)) + 1
    ensures Points(StandingOf(ms + [Tie(t, x, y)], t, y, ny)) == Points(StandingOf(ms, t, y, ny)) + 1
  {
    DecisiveCounts(ms, t, x, y, t, x);
    DecisiveCounts(ms, t, x, y, t, y);
    TieCounts(ms, t, x, y, t, x);
    TieCounts(ms, t, x, y, t, y);
  }

  /** The match table of the tournament store. */
  class MatchStore {
    var matches: seq<Match>

    constructor ()
      ensures matches == []
    {
      matches := [];
    }

    /** Records the outcome of one match. The decisive pattern is checked
        first, so a report with winner and loser is decisive whatever the
        tie arguments say; a report that completes neither pattern is
        ignored. At most one record is appended and earlier records are kept. */
    method ReportMatch(tournament: int, winner: Option<int>, loser: Option<int>,
                       tie1: Option<int>, tie2: Option<int>)
      modifies this
      ensures winner.Some? && loser.Some? ==>
        matches == old(matches) + [Decisive(tournament, winner.value, loser.value)]
      ensures !(winner.Some? && loser.Some?) && tie1.Some? && tie2.Some? ==>
        matches == old(matches) + [Tie(tournament, tie1.value, tie2.value)]
      ensures !(winner.Some? && loser.Some?) && !(tie1.Some? && tie2.Some?) ==>
        matches == old(matches)
    {
      var record: Match;
      if winner.Some? && loser.Some? {
        record := Decisive(tournament, winner.value, loser.value);
      } else if tie1.Some? && tie2.Some? {
        record := Tie(tournament, tie1.value, tie2.value);
      } else {
        return;
      }
      matches := matches + [record];
    }
  }
}
