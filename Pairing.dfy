/** Swiss pairing: the standings are walked in order and grouped two at a
    time by position (1st with 2nd, 3rd with 4th, ...). A trailing player of
    an odd count is left out and no bye is recorded. */
module Pairing {
  import opened Standings

  /** One pairing: (id1, name1, id2, name2). */
  datatype Pair = Pair(id1: int, name1: string, id2: int, name2: string)

  /** The pairing of row a (first) with row b (second). */
  function PairOf(a: Row, b: Row): Pair
  {
    Pair(a.id, a.name, b.id, b.name)
  }

  /** True when the player with this id takes part in pairing p. */
  predicate InPair(id: int, p: Pair)
  {
    id == p.id1 || id == p.id2
  }

  /** Reference definition of the pairings of a standings list: the first two
      rows form a pair, and the rest is paired the same way. */
  function Pairs(s: seq<Row>): (r: seq<Pair>)
    ensures |r| == |s| / 2
    decreases |s|
  {
    if |s| < 2 then [] else [PairOf(s[0], s[1])] + Pairs(s[2..])
  }

  /** Pair k is standings row 2k followed by standings row 2k+1. */
  lemma {:induction false} PairsAt(s: seq<Row>, k: nat)
    requires k < |s| / 2
    ensures Pairs(s)[k] == PairOf(s[2 * k], s[2 * k + 1])
    decreases k
  {
    if k > 0 {
      PairsAt(s[2..], k - 1);
    }
  }

  /** Two more rows after an even-length prefix add exactly one pair, at the end. */
  lemma {:induction false} PairsAppend(t: seq<Row>, a: Row, b: Row)
    requires |t| % 2 == 0
    ensures Pairs(t + [a, b]) == Pairs(t) + [PairOf(a, b)]
    decreases |t|
  {
    if |t| == 0 {
      assert t + [a, b] == [a, b];
    } else {
      assert (t + [a, b])[2..] == t[2..] + [a, b];
      PairsAppend(t[2..], a, b);
    }
  }

  /** A trailing row after an even-length prefix is dropped: it produces no pair
      and changes no other pair. */
  lemma {:induction false} TrailingRowDropped(t: seq<Row>, a: Row)
    requires |t| % 2 == 0
    ensures Pairs(t + [a]) == Pairs(t)
    decreases |t|
  {
    if |t| == 0 {
      assert t + [a] == [a];
    } else {
      assert (t + [a])[2..] == t[2..] + [a];
      TrailingRowDropped(t[2..], a);
    }
  }

  /** The pairing loop: walks the standings with a counter and a carried
      (id, name) of the previous even-indexed row, and appends a pair at every
      odd index. */
  method SwissPairings(standings: seq<Row>) returns (pairings: seq<Pair>)
    ensures pairings == Pairs(standings)
    ensures |pairings| == |standings| / 2
  {
    var i := 0;
    pairings := [];
    var last: (int, string) := (0, "");
    while i < |standings|
      invariant 0 <= i <= |standings|
      invariant pairings == Pairs(standings[..i])
      invariant i % 2 == 1 ==> last == (standings[i - 1].id, standings[i - 1].name)
    {
      var row := standings[i];
      assert standings[..i + 1] == standings[..i] + [row];
      if i % 2 == 0 {
        TrailingRowDropped(standings[..i], row);
        last := (row.id, row.name);
      } else {
        var prev := standings[..i - 1];
        assert standings[..i] == prev + [standings[i - 1]];
        assert standings[..i + 1] == prev + [standings[i - 1], row];
        TrailingRowDropped(prev, standings[i - 1]);
        PairsAppend(prev, standings[i - 1], row);
        pairings := pairings + [Pair(last.0, last.1, row.id, row.name)];
      }
      i := i + 1;
    }
    assert standings[..i] == standings;
  }

  /** With distinct ids, every player of the standings except the trailing one
      of an odd count takes part in exactly one pairing, that is pairing j/2,
      and is not paired with itself. */
  lemma EachPlayerPairedOnce(s: seq<Row>, j: nat)
    requires DistinctIds(s)
    requires j < |s| - |s| % 2
    ensures j / 2 < |Pairs(s)| && InPair(s[j].id, Pairs(s)[j / 2])
    ensures Pairs(s)[j / 2].id1 != Pairs(s)[j / 2].id2
    ensures forall k :: 0 <= k < |Pairs(s)| && InPair(s[j].id, Pairs(s)[k]) ==> k == j / 2
  {
    PairsAt(s, j / 2);
    forall k | 0 <= k < |Pairs(s)| && InPair(s[j].id, Pairs(s)[k])
      ensures k == j / 2
    {
      PairsAt(s, k);
    }
  }

  /** With an even number of distinct players, every player takes part in
      exactly one pairing: player j in pairing j/2, and in no other. */
  lemma EvenCountCoverage(s: seq<Row>)
    requires DistinctIds(s) && |s| % 2 == 0
    ensures forall j :: 0 <= j < |s| ==>
      j / 2 < |Pairs(s)| && InPair(s[j].id, Pairs(s)[j / 2])
    ensures forall j, k ::
      0 <= j < |s| && 0 <= k < |Pairs(s)| && InPair(s[j].id, Pairs(s)[k])
      ==> k == j / 2
  {
    forall j | 0 <= j < |s|
      ensures j / 2 < |Pairs(s)| && InPair(s[j].id, Pairs(s)[j / 2])
      ensures forall k :: 0 <= k < |Pairs(s)| && InPair(s[j].id, Pairs(s)[k]) ==> k == j / 2
    {
      EachPlayerPairedOnce(s, j);
    }
  }

  /** With an odd number of distinct players, the last one takes part in no
      pairing: the pairings are those of the others alone. */
  lemma TrailingPlayerUnpaired(s: seq<Row>)
    requires DistinctIds(s) && |s| % 2 == 1
    ensures Pairs(s) == Pairs(s[..|s| - 1])
    ensures forall k :: 0 <= k < |Pairs(s)| ==> !InPair(s[|s| - 1].id, Pairs(s)[k])
  {
    assert s == s[..|s| - 1] + [s[|s| - 1]];
    TrailingRowDropped(s[..|s| - 1], s[|s| - 1]);
    forall k | 0 <= k < |Pairs(s)|
      ensures !InPair(s[|s| - 1].id, Pairs(s)[k])
    {
      PairsAt(s, k);
    }
  }

  /** When the standings are ranked by points, pairing k sets row 2k against
      row 2k+1: the first player has at least the points of the second, and
      the second has at least the points of every player ranked below. */
  lemma PairsRankOrdered(s: seq<Row>, k: int)
    requires SortedByPoints(s)
    requires 0 <= k < |s| / 2
    ensures Pairs(s)[k] == PairOf(s[2 * k], s[2 * k + 1])
    ensures Points(s[2 * k]) >= Points(s[2 * k + 1])
    ensures forall j :: 2 * k + 1 < j && j < |s| ==> Points(s[2 * k + 1]) >= Points(s[j])
  {
    PairsAt(s, k);
  }
}
