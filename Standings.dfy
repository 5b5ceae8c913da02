/** Standings rows as the tournament store hands them to the pairing step,
    and the points table that ranks them. */
module Standings {

  /** One standings row: (id, name, wins, ties, matches). */
  datatype Row = Row(id: int, name: string, wins: nat, ties: nat, matches: nat)

  /** Points from the scoring table: a win is worth 3, a tie 1, a loss 0. */
  function Points(r: Row): nat
  {
    3 * r.wins + r.ties
  }

  /** Standings list the player in first place first: points never increase
      down the list. */
  predicate SortedByPoints(s: seq<Row>)
  {
    forall i, j :: 0 <= i < j < |s| ==> Points(s[i]) >= Points(s[j])
  }

  /** Each player occurs in the standings at most once. */
  predicate DistinctIds(s: seq<Row>)
  {
    forall i, j :: 0 <= i < j < |s| ==> s[i].id != s[j].id
  }
}
