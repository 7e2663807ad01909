/**
  The two learning tables and the backward first-visit pass over them.

  returnValues (ReturnTable): state -> action -> the returns recorded so far.
  stateActionValues (ValueTable): state -> action -> the mean of those returns.
  The inner dictionary of stateActionValues is kept as a list of (action, value)
  pairs in insertion order, because the greedy policy walks it in that order.
*/
module ValueTables {
  import opened Wrappers
  import opened Grid
  import opened Episode

  type ReturnTable = map<State, map<int, seq<real>>>
  /** A Dictionary<int, float> in its iteration (insertion) order. */
  type Row = seq<(int, real)>
  type ValueTable = map<State, Row>

  // ---------------------------------------------------------------------------
  // returnValues
  // ---------------------------------------------------------------------------

  /** The returns recorded for (s, a); empty when either key is missing. */
  function Lookup(R: ReturnTable, s: State, a: int): seq<real> {
    if s in R && a in R[s] then R[s][a] else []
  }

  /** addToReturnValues as a value: append v to the list of (s, a), creating the entries it needs. */
  function Record(R: ReturnTable, s: State, a: int, v: real): ReturnTable {
    var inner := if s in R then R[s] else map[];
    R[s := inner[a := Lookup(R, s, a) + [v]]]
  }

  /**
    What recording does: the pair's list gains v at its end, the state and
    action entries exist afterwards, and every other list is untouched.
  */
  lemma RecordSpec(R: ReturnTable, s: State, a: int, v: real)
    ensures var R' := Record(R, s, a, v);
            && s in R' && a in R'[s]
            && Lookup(R', s, a) == Lookup(R, s, a) + [v]
            && (forall s', a' :: (s', a') != (s, a) ==> Lookup(R', s', a') == Lookup(R, s', a'))
            && R'.Keys == R.Keys + {s}
            && (s in R ==> R'[s].Keys == R[s].Keys + {a})
            && (forall s' :: s' in R && s' != s ==> R'[s'] == R[s'])
  {
  }

  /** Sum of a list, added from the first element on. */
  function Sum(xs: seq<real>): real {
    if xs == [] then 0.0 else Sum(xs[..|xs| - 1]) + xs[|xs| - 1]
  }

  /** List<float>.Average(). */
  function Mean(xs: seq<real>): real
    requires |xs| > 0
  {
    Sum(xs) / |xs| as real
  }

  /** The mean after one more value. */
  lemma MeanAppend(xs: seq<real>, v: real)
    ensures Sum(xs + [v]) == Sum(xs) + v
    ensures Mean(xs + [v]) == (Sum(xs) + v) / (|xs| + 1) as real
  {
    var ys := xs + [v];
    assert ys[..|ys| - 1] == xs;
    assert ys[|ys| - 1] == v;
    assert Sum(ys) == Sum(xs) + v;
  }

  /** Recording v1 and then v2 for a fresh pair makes its mean (v1 + v2) / 2. */
  lemma MeanOfTwoRecords(R: ReturnTable, s: State, a: int, v1: real, v2: real)
    requires Lookup(R, s, a) == []
    ensures Mean(Lookup(Record(Record(R, s, a, v1), s, a, v2), s, a)) == (v1 + v2) / 2.0
  {
    RecordSpec(R, s, a, v1);
    RecordSpec(Record(R, s, a, v1), s, a, v2);
    assert Lookup(Record(Record(R, s, a, v1), s, a, v2), s, a) == [v1] + [v2];
    MeanAppend([v1], v2);
    MeanAppend([], v1);
    assert [] + [v1] == [v1];
  }

  // ---------------------------------------------------------------------------
  // stateActionValues
  // ---------------------------------------------------------------------------

  /** The value stored for action a in a row (the first pair with that key). */
  function RowGet(row: Row, a: int): Option<real> {
    if row == [] then None
    else if row[0].0 == a then Some(row[0].1)
    else RowGet(row[1..], a)
  }

  /** No key occurs twice in the row, as in a dictionary. */
  predicate DistinctKeys(row: Row) {
    forall i, j :: 0 <= i < j < |row| ==> row[i].0 != row[j].0
  }

  /** A key that RowGet does not find is at no index. */
  lemma {:induction false} RowGetNone(row: Row, a: int)
    requires RowGet(row, a) == None
    ensures forall i :: 0 <= i < |row| ==> row[i].0 != a
  {
    if row != [] {
      RowGetNone(row[1..], a);
      forall i | 0 < i < |row| ensures row[i].0 != a {
        assert row[i] == row[1..][i - 1];
      }
    }
  }

  /**
    dictionary[a] = v on a row: an existing key is overwritten where it
    stands, a new key is added at the end; no other key's value changes.
  */
  function RowSet(row: Row, a: int, v: real): (r: Row)
    ensures RowGet(r, a) == Some(v)
    ensures forall b :: b != a ==> RowGet(r, b) == RowGet(row, b)
    ensures RowGet(row, a) != None ==> |r| == |row| && forall i :: 0 <= i < |row| ==> r[i].0 == row[i].0
    ensures RowGet(row, a) == None ==> r == row + [(a, v)]
  {
    if row == [] then [(a, v)]
    else if row[0].0 == a then [(a, v)] + row[1..]
    else
      var rest := RowSet(row[1..], a, v);
      assert forall i :: 0 < i < |row| ==> row[i] == row[1..][i - 1];
      [row[0]] + rest
  }

  lemma RowSetKeepsKeysDistinct(row: Row, a: int, v: real)
    requires DistinctKeys(row)
    ensures DistinctKeys(RowSet(row, a, v))
  {
    var r := RowSet(row, a, v);
    if RowGet(row, a) == None {
      RowGetNone(row, a);
      forall i, j | 0 <= i < j < |r|
        ensures r[i].0 != r[j].0
      {
        assert r[i] == row[i];
        if j < |row| {
          assert r[j] == row[j];
        }
      }
    } else {
      forall i, j | 0 <= i < j < |r|
        ensures r[i].0 != r[j].0
      {
        assert r[i].0 == row[i].0 && r[j].0 == row[j].0;
      }
    }
  }

  /** The value table's entry for (s, a), if any. */
  function Value(Q: ValueTable, s: State, a: int): Option<real> {
    if s in Q then RowGet(Q[s], a) else None
  }

  /**
    addToStateActionValues as a value: when (s, a) has recorded returns, its
    entry becomes their mean (a new state gets a one-entry row); nothing else changes.
  */
  function SetMean(Q: ValueTable, R: ReturnTable, s: State, a: int): (Q': ValueTable)
    requires s in R && a in R[s] ==> |R[s][a]| > 0
    ensures s in R && a in R[s] ==> Value(Q', s, a) == Some(Mean(R[s][a]))
    ensures !(s in R && a in R[s]) ==> Q' == Q
  {
    if s in R && a in R[s] then
      var mean := Mean(R[s][a]);
      if s in Q then Q[s := RowSet(Q[s], a, mean)]
      else Q[s := [(a, mean)]]
    else Q
  }

  /** Refreshing one mean changes no other entry of the value table. */
  lemma SetMeanFrame(Q: ValueTable, R: ReturnTable, s: State, a: int)
    requires s in R && a in R[s] ==> |R[s][a]| > 0
    ensures forall s', a' :: (s', a') != (s, a) ==> Value(SetMean(Q, R, s, a), s', a') == Value(Q, s', a')
  {
    if s in R && a in R[s] && s !in Q {
      var row := [(a, Mean(R[s][a]))];
      assert forall b :: b != a ==> RowGet(row, b) == RowGet(row[1..], b) == None;
    }
  }

  predicate RowsDistinct(Q: ValueTable) {
    forall s :: s in Q ==> DistinctKeys(Q[s])
  }

  lemma SetMeanKeepsRowsDistinct(Q: ValueTable, R: ReturnTable, s: State, a: int)
    requires s in R && a in R[s] ==> |R[s][a]| > 0
    requires RowsDistinct(Q)
    ensures RowsDistinct(SetMean(Q, R, s, a))
  {
    if s in R && a in R[s] && s in Q {
      RowSetKeepsKeysDistinct(Q[s], a, Mean(R[s][a]));
    }
  }

  /**
    The tables agree: every recorded list is non-empty and the value table
    holds its mean. (Entries of the value table without recorded returns,
    such as the seeded goal row or a loaded table, are unconstrained.)
  */
  ghost predicate Consistent(R: ReturnTable, Q: ValueTable) {
    forall s, a :: s in R && a in R[s] ==> |R[s][a]| > 0 && Value(Q, s, a) == Some(Mean(R[s][a]))
  }

  /** Recording a return and then refreshing the mean keeps the tables consistent. */
  lemma RecordThenSetMeanConsistent(R: ReturnTable, Q: ValueTable, s: State, a: int, v: real)
    requires Consistent(R, Q)
    ensures Consistent(Record(R, s, a, v), SetMean(Q, Record(R, s, a, v), s, a))
  {
    var R' := Record(R, s, a, v);
    RecordSpec(R, s, a, v);
    var Q' := SetMean(Q, R', s, a);
    SetMeanFrame(Q, R', s, a);
    forall s', a' | s' in R' && a' in R'[s']
      ensures |R'[s'][a']| > 0 && Value(Q', s', a') == Some(Mean(R'[s'][a']))
    {
      if (s', a') != (s, a) {
        assert s' in R && a' in R[s'];
        assert Lookup(R', s', a') == Lookup(R, s', a');
      }
    }
  }

  // ---------------------------------------------------------------------------
  // The backward first-visit pass
  // ---------------------------------------------------------------------------

  datatype Tables = Tables(returnValues: ReturnTable, stateActionValues: ValueTable)

  /** Crediting one step: record its return g, then refresh the mean of its pair. */
  function Credit(T: Tables, step: Trajectory, g: real): Tables {
    var R := Record(T.returnValues, step.state, step.action, g);
    RecordSpec(T.returnValues, step.state, step.action, g);
    Tables(R, SetMean(T.stateActionValues, R, step.state, step.action))
  }

  /**
    The tables once the reverse pass over t has handled the indices |t|-1
    down to i: every credited step records its return and refreshes its mean.
  */
  function Backup(T: Tables, t: seq<Trajectory>, i: nat): Tables
    requires i <= |t|
    decreases |t| - i
  {
    if i == |t| then T
    else if FirstVisit(t, i) then Credit(Backup(T, t, i + 1), t[i], Return(t, i))
    else Backup(T, t, i + 1)
  }

  /** The returns one reverse pass credits to (s, a) from the steps i.. of t, in the order they are appended. */
  function Credited(t: seq<Trajectory>, s: State, a: int, i: nat): seq<real>
    requires i <= |t|
    decreases |t| - i
  {
    if i == |t| then []
    else Credited(t, s, a, i + 1) + CreditedAt(t, s, a, i)
  }

  /** The pass appends to each list exactly the returns of the credited steps with that pair. */
  lemma {:induction false} BackupAppendsCredited(T: Tables, t: seq<Trajectory>, s: State, a: int, i: nat)
    requires i <= |t|
    ensures Lookup(Backup(T, t, i).returnValues, s, a) == Lookup(T.returnValues, s, a) + Credited(t, s, a, i)
    decreases |t| - i
  {
    if i < |t| {
      BackupAppendsCredited(T, t, s, a, i + 1);
      BackupStepLookup(T, t, s, a, i);
      var start := Lookup(T.returnValues, s, a);
      var earlier := Credited(t, s, a, i + 1);
      var extra := CreditedAt(t, s, a, i);
      assert (start + earlier) + extra == start + (earlier + extra);
    }
  }

  /** What step i of the pass appends to the list of (s, a). */
  function CreditedAt(t: seq<Trajectory>, s: State, a: int, i: nat): seq<real>
    requires i < |t|
  {
    if FirstVisit(t, i) && t[i].state == s && t[i].action == a then [Return(t, i)] else []
  }

  /** One step of the pass appends to the list of (s, a) exactly what that step credits to it. */
  lemma BackupStepLookup(T: Tables, t: seq<Trajectory>, s: State, a: int, i: nat)
    requires i < |t|
    ensures Lookup(Backup(T, t, i).returnValues, s, a) ==
            Lookup(Backup(T, t, i + 1).returnValues, s, a) + CreditedAt(t, s, a, i)
  {
    if FirstVisit(t, i) {
      CreditLookup(Backup(T, t, i + 1), t[i], Return(t, i), s, a);
    }
  }

  /** Crediting a step appends its return to its own pair's list and to no other. */
  lemma CreditLookup(T: Tables, step: Trajectory, g: real, s: State, a: int)
    ensures Lookup(Credit(T, step, g).returnValues, s, a) ==
            Lookup(T.returnValues, s, a) + (if step.state == s && step.action == a then [g] else [])
  {
    RecordSpec(T.returnValues, step.state, step.action, g);
  }

  /** The pass keeps the tables consistent: afterwards every credited pair holds the mean of its returns. */
  lemma {:induction false} BackupConsistent(T: Tables, t: seq<Trajectory>, i: nat)
    requires i <= |t|
    requires Consistent(T.returnValues, T.stateActionValues)
    ensures Consistent(Backup(T, t, i).returnValues, Backup(T, t, i).stateActionValues)
    decreases |t| - i
  {
    if i < |t| {
      BackupConsistent(T, t, i + 1);
      var prev := Backup(T, t, i + 1);
      if FirstVisit(t, i) {
        RecordThenSetMeanConsistent(prev.returnValues, prev.stateActionValues, t[i].state, t[i].action, Return(t, i));
      }
    }
  }

  lemma {:induction false} BackupRowsDistinct(T: Tables, t: seq<Trajectory>, i: nat)
    requires i <= |t|
    requires RowsDistinct(T.stateActionValues)
    ensures RowsDistinct(Backup(T, t, i).stateActionValues)
    decreases |t| - i
  {
    if i < |t| {
      BackupRowsDistinct(T, t, i + 1);
      var prev := Backup(T, t, i + 1);
      if FirstVisit(t, i) {
        var R := Record(prev.returnValues, t[i].state, t[i].action, Return(t, i));
        SetMeanKeepsRowsDistinct(prev.stateActionValues, R, t[i].state, t[i].action);
      }
    }
  }

  /** A pair that no step from i on uses keeps both its returns and its value. */
  lemma {:induction false} BackupLeavesOthers(T: Tables, t: seq<Trajectory>, s: State, a: int, i: nat)
    requires i <= |t|
    requires forall k :: i <= k < |t| ==> !(t[k].state == s && t[k].action == a)
    ensures Lookup(Backup(T, t, i).returnValues, s, a) == Lookup(T.returnValues, s, a)
    ensures Value(Backup(T, t, i).stateActionValues, s, a) == Value(T.stateActionValues, s, a)
    decreases |t| - i
  {
    if i < |t| {
      BackupLeavesOthers(T, t, s, a, i + 1);
      var prev := Backup(T, t, i + 1);
      if FirstVisit(t, i) {
        var R := Record(prev.returnValues, t[i].state, t[i].action, Return(t, i));
        RecordSpec(prev.returnValues, t[i].state, t[i].action, Return(t, i));
        SetMeanFrame(prev.stateActionValues, R, t[i].state, t[i].action);
      }
    }
  }

  /** Nothing is credited to a pair that does not occur from step i on. */
  lemma {:induction false} CreditedAbsent(t: seq<Trajectory>, s: State, a: int, i: nat)
    requires i <= |t|
    requires forall k :: i <= k < |t| ==> !(t[k].state == s && t[k].action == a)
    ensures Credited(t, s, a, i) == []
    decreases |t| - i
  {
    if i < |t| {
      CreditedAbsent(t, s, a, i + 1);
    }
  }

  /** A pair taken at steps 2 and 5 only: just the return of step 2 is credited. */
  lemma CreditedFirstOfTwoVisits(t: seq<Trajectory>, s: State, a: int)
    requires |t| > 5
    requires forall k :: 0 <= k < |t| ==> (t[k].state == s && t[k].action == a <==> k == 2 || k == 5)
    ensures Credited(t, s, a, 0) == [Return(t, 2)]
  {
    CreditedAbsent(t, s, a, 6);
    assert !FirstVisit(t, 5) by {
      assert SamePair(t[2], t[5]);
    }
    assert FirstVisit(t, 2) by {
      assert !SamePair(t[0], t[2]);
    }
    assert Credited(t, s, a, 5) == [];
    assert Credited(t, s, a, 4) == [];
    assert Credited(t, s, a, 3) == [];
    assert Credited(t, s, a, 2) == [Return(t, 2)];
  }
}
