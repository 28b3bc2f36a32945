/**
 * Cluster one-hot encoding of the textual literals: given a cluster id per entity, the
 * embedding features are replaced by an entities x k matrix with a single 1 per row.
 */
module Clustering {

  function Sum(row: seq<real>): real
    decreases |row|
  {
    if |row| == 0 then 0.0 else row[0] + Sum(row[1..])
  }

  /** Row `c` of the k x k identity: 1 at column c, 0 elsewhere. */
  predicate IsOneHot(row: seq<real>, c: nat) {
    c < |row| && forall j :: 0 <= j < |row| ==> row[j] == if j == c then 1.0 else 0.0
  }

  lemma {:induction false} ZerosSumToZero(row: seq<real>)
    requires forall j :: 0 <= j < |row| ==> row[j] == 0.0
    ensures Sum(row) == 0.0
    decreases |row|
  {
    if |row| > 0 {
      ZerosSumToZero(row[1..]);
    }
  }

  /** A one-hot row sums to 1. */
  lemma {:induction false} OneHotRowSumsToOne(row: seq<real>, c: nat)
    requires IsOneHot(row, c)
    ensures Sum(row) == 1.0
    decreases |row|
  {
    if c == 0 {
      ZerosSumToZero(row[1..]);
    } else {
      OneHotRowSumsToOne(row[1..], c - 1);
    }
  }

  /** The column of a one-hot row is the only column holding a nonzero entry, so the encoding can be decoded. */
  lemma OneHotDecodes(row: seq<real>, c: nat, c': nat)
    requires IsOneHot(row, c) && IsOneHot(row, c')
    ensures c == c'
  {
    assert row[c] == 1.0;
  }

  /**
   * `numEntities` x `k` zeros with, for each entity i that has a label, a 1 at column
   * `assignment[i]`. Labels must be cluster ids below `k` and there can be at most one per
   * entity, or the writes fall outside the matrix.
   */
  method OneHot(assignment: seq<nat>, numEntities: nat, k: nat) returns (m: seq<seq<real>>)
    requires |assignment| <= numEntities
    requires forall i :: 0 <= i < |assignment| ==> assignment[i] < k
    ensures |m| == numEntities
    ensures forall i :: 0 <= i < numEntities ==> |m[i]| == k
    ensures forall i :: 0 <= i < |assignment| ==> IsOneHot(m[i], assignment[i]) && Sum(m[i]) == 1.0
    ensures forall i, j :: |assignment| <= i < numEntities && 0 <= j < k ==> m[i][j] == 0.0
  {
    m := seq(numEntities, _ => seq(k, _ => 0.0));
    var i := 0;
    while i < |assignment|
      invariant 0 <= i <= |assignment|
      invariant |m| == numEntities
      invariant forall r :: 0 <= r < numEntities ==> |m[r]| == k
      invariant forall r, j :: 0 <= r < numEntities && 0 <= j < k ==>
        m[r][j] == if r < i && j == assignment[r] then 1.0 else 0.0
    {
      m := m[i := m[i][assignment[i] := 1.0]];
      i := i + 1;
    }
    forall r | 0 <= r < |assignment|
      ensures IsOneHot(m[r], assignment[r]) && Sum(m[r]) == 1.0
    {
      OneHotRowSumsToOne(m[r], assignment[r]);
    }
  }
}
