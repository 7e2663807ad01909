/**
  The greedy replay policy of findBestAction, stated as a relation between
  the table, the visited states, the position, the candidate actions, the
  injected random draw and the chosen action.
*/
module Greedy {
  import opened Grid
  import opened ValueTables

  /** The "no key found" marker maxKey starts with. */
  const NoKey: int := 5
  /** float.MinValue, the starting maxValue. */
  const FloatMinValue: real := -340282346638528859811704183484516925440.0

  /**
    Random.Range(0, n) with the draw injected as `roll`: an index below n,
    or 0 when n is 0 (Unity returns the lower bound of an empty range).
  */
  function RandomRange(n: nat, roll: nat): (r: nat)
    ensures n > 0 ==> r < n
    ensures n == 0 ==> r == 0
  {
    if n == 0 then 0 else roll % n
  }

  /** Every index of a non-empty range is some draw's result. */
  lemma RandomRangeReachesAll(n: nat, k: nat)
    requires k < n
    ensures RandomRange(n, k) == k
  {
  }

  /** The loop's test on a dictionary entry, apart from the comparison with the running maximum. */
  predicate Eligible(e: (int, real), actions: seq<int>, visited: seq<State>, pos: Position) {
    e.1 > FloatMinValue && e.0 in actions && GetState(NewPos(pos, e.0)) !in visited
  }

  /** Entry i is the first eligible entry of greatest value. */
  predicate IsBest(row: Row, i: int, actions: seq<int>, visited: seq<State>, pos: Position) {
    && 0 <= i < |row|
    && Eligible(row[i], actions, visited, pos)
    && (forall j :: 0 <= j < i && Eligible(row[j], actions, visited, pos) ==> row[j].1 < row[i].1)
    && (forall j :: i < j < |row| && Eligible(row[j], actions, visited, pos) ==> row[j].1 <= row[i].1)
  }

  /** The state is in the table and its best entry's key differs from the marker. */
  predicate HasBest(Q: ValueTable, visited: seq<State>, pos: Position, actions: seq<int>) {
    var s := GetState(pos);
    s in Q && exists i :: 0 <= i < |Q[s]| && IsBest(Q[s], i, actions, visited, pos) && Q[s][i].0 != NoKey
  }

  /**
    findBestAction's outcome: the key of the best entry when there is one,
    otherwise the random INDEX into the candidate list.
  */
  predicate GreedyChoice(Q: ValueTable, visited: seq<State>, pos: Position, actions: seq<int>,
                         roll: nat, r: int) {
    var s := GetState(pos);
    if HasBest(Q, visited, pos, actions) then
      exists i :: 0 <= i < |Q[s]| && IsBest(Q[s], i, actions, visited, pos) && r == Q[s][i].0
    else
      r == RandomRange(|actions|, roll)
  }

  /** At most one entry is the first maximum. */
  lemma BestUnique(row: Row, i: int, j: int, actions: seq<int>, visited: seq<State>, pos: Position)
    requires IsBest(row, i, actions, visited, pos) && IsBest(row, j, actions, visited, pos)
    ensures i == j
  {
  }

  /** When some entry is eligible, a first maximum exists. */
  lemma {:induction false} BestExists(row: Row, k: int, actions: seq<int>, visited: seq<State>, pos: Position)
    requires 0 <= k < |row| && Eligible(row[k], actions, visited, pos)
    ensures exists i :: IsBest(row, i, actions, visited, pos)
  {
    var n := |row| - 1;
    if exists k' :: 0 <= k' < n && Eligible(row[k'], actions, visited, pos) {
      var k' :| 0 <= k' < n && Eligible(row[k'], actions, visited, pos);
      var front := row[..n];
      assert front[k'] == row[k'];
      BestExists(front, k', actions, visited, pos);
      var i :| IsBest(front, i, actions, visited, pos);
      BestExtends(row, i, actions, visited, pos);
    } else {
      assert k == n;
      assert IsBest(row, n, actions, visited, pos);
    }
  }

  /** Appending one entry to a row keeps its first maximum, unless the new entry is eligible and strictly greater. */
  lemma BestExtends(row: Row, i: int, actions: seq<int>, visited: seq<State>, pos: Position)
    requires |row| > 0 && IsBest(row[..|row| - 1], i, actions, visited, pos)
    ensures IsBest(row, i, actions, visited, pos) || IsBest(row, |row| - 1, actions, visited, pos)
  {
    var n := |row| - 1;
    var front := row[..n];
    assert forall j :: 0 <= j < n ==> front[j] == row[j];
    if Eligible(row[n], actions, visited, pos) && row[n].1 > row[i].1 {
      assert IsBest(row, n, actions, visited, pos);
    } else {
      assert IsBest(row, i, actions, visited, pos);
    }
  }

  /** Replay is deterministic: the table, the visited states, the position and the draw fix the action. */
  lemma GreedyChoiceDeterministic(Q: ValueTable, visited: seq<State>, pos: Position, actions: seq<int>,
                                  roll: nat, r1: int, r2: int)
    requires GreedyChoice(Q, visited, pos, actions, roll, r1)
    requires GreedyChoice(Q, visited, pos, actions, roll, r2)
    ensures r1 == r2
  {
    if HasBest(Q, visited, pos, actions) {
      var s := GetState(pos);
      var i1 :| IsBest(Q[s], i1, actions, visited, pos) && r1 == Q[s][i1].0;
      var i2 :| IsBest(Q[s], i2, actions, visited, pos) && r2 == Q[s][i2].0;
      BestUnique(Q[s], i1, i2, actions, visited, pos);
    }
  }

  /**
    What the chosen action is: a found key is a candidate whose step leads to
    an unvisited state, is not the marker, and holds the first strict maximum;
    otherwise the result is an index into the candidates, and when no
    candidate is the marker that happens only if no entry of the state is
    eligible (or the state is unknown).
  */
  lemma GreedyChoiceMeaning(Q: ValueTable, visited: seq<State>, pos: Position, actions: seq<int>,
                            roll: nat, r: int)
    requires GreedyChoice(Q, visited, pos, actions, roll, r)
    ensures HasBest(Q, visited, pos, actions) ==>
              r in actions && r != NoKey && GetState(NewPos(pos, r)) !in visited
    ensures !HasBest(Q, visited, pos, actions) ==> 0 <= r && (|actions| > 0 ==> r < |actions|)
    ensures !HasBest(Q, visited, pos, actions) && NoKey !in actions ==>
              var s := GetState(pos);
              s !in Q || forall k :: 0 <= k < |Q[s]| ==> !Eligible(Q[s][k], actions, visited, pos)
  {
    var s := GetState(pos);
    if HasBest(Q, visited, pos, actions) {
      var i :| IsBest(Q[s], i, actions, visited, pos) && Q[s][i].0 != NoKey;
      var i' :| IsBest(Q[s], i', actions, visited, pos) && r == Q[s][i'].0;
      BestUnique(Q[s], i, i', actions, visited, pos);
    } else if NoKey !in actions && s in Q {
      forall k | 0 <= k < |Q[s]|
        ensures !Eligible(Q[s][k], actions, visited, pos)
      {
        if Eligible(Q[s][k], actions, visited, pos) {
          BestExists(Q[s], k, actions, visited, pos);
          assert false;
        }
      }
    }
  }
}
