/** Vocabularies: duplicate-free enumerations of names, their dense id maps, and column lookups through them. */
module Vocabulary {
  import opened Optional

  /** No element occurs twice. */
  predicate NoDup<T(==)>(s: seq<T>) {
    forall i, j :: 0 <= i < j < |s| ==> s[i] != s[j]
  }

  /** `vocab` enumerates exactly the elements of `names`, each once, in some order. */
  ghost predicate IsVocabularyOf<T>(vocab: seq<T>, names: set<T>) {
    && NoDup(vocab)
    && (forall x :: x in vocab ==> x in names)
    && (forall x :: x in names ==> x in vocab)
  }

  /** The distinct elements of `s` in order of first appearance (`pandas.Series.unique`). */
  function Unique<T(==)>(s: seq<T>): (r: seq<T>)
    ensures NoDup(r)
    ensures forall i :: 0 <= i < |r| ==> r[i] in s
    ensures forall i :: 0 <= i < |s| ==> s[i] in r
    decreases |s|
  {
    if |s| == 0 then []
    else
      var prefix := Unique(s[..|s| - 1]);
      assert s == s[..|s| - 1] + [s[|s| - 1]];
      if s[|s| - 1] in prefix then prefix else prefix + [s[|s| - 1]]
  }

  /** The position of the first occurrence of `x` in `s`. */
  function FirstIndex<T(==)>(s: seq<T>, x: T): (i: nat)
    requires x in s
    ensures i < |s| && s[i] == x
    ensures forall j :: 0 <= j < i ==> s[j] != x
  {
    if s[0] == x then 0 else 1 + FirstIndex(s[1..], x)
  }

  /** Extending a sequence does not move the first occurrence of an element already present. */
  lemma FirstIndexOfPrefix<T>(s: seq<T>, n: nat, x: T)
    requires n <= |s| && x in s[..n]
    ensures FirstIndex(s, x) == FirstIndex(s[..n], x)
  {
    var i := FirstIndex(s[..n], x);
    assert s[..n][i] == s[i];
    assert forall j :: 0 <= j < i ==> s[j] == s[..n][j];
  }

  /** Every element of `r` occurs in `s`, and `r` lists them by increasing first occurrence in `s`. */
  predicate InFirstAppearanceOrder<T(==)>(r: seq<T>, s: seq<T>) {
    && (forall i :: 0 <= i < |r| ==> r[i] in s)
    && (forall i, j :: 0 <= i < j < |r| ==> FirstIndex(s, r[i]) < FirstIndex(s, r[j]))
  }

  /** Appending to `s` moves no first occurrence of the elements already listed. */
  lemma OrderSurvivesAppend<T>(r: seq<T>, p: seq<T>, s: seq<T>)
    requires |p| < |s| && p == s[..|p|]
    requires InFirstAppearanceOrder(r, p)
    ensures InFirstAppearanceOrder(r, s)
    ensures forall i :: 0 <= i < |r| ==> FirstIndex(s, r[i]) < |p|
  {
    forall i | 0 <= i < |r|
      ensures FirstIndex(s, r[i]) == FirstIndex(p, r[i])
    {
      FirstIndexOfPrefix(s, |p|, r[i]);
    }
  }

  /** `Unique` lists the distinct elements in the order in which they first occur. */
  lemma {:induction false} UniqueInFirstAppearanceOrder<T>(s: seq<T>)
    ensures InFirstAppearanceOrder(Unique(s), s)
    decreases |s|
  {
    if |s| > 0 {
      var p := s[..|s| - 1];
      var last := s[|s| - 1];
      var u := Unique(p);
      UniqueInFirstAppearanceOrder(p);
      OrderSurvivesAppend(u, p, s);
      if last !in u {
        assert Unique(s) == u + [last];
        forall j | 0 <= j < |p|
          ensures s[j] != last
        {
          assert s[j] == p[j] && p[j] in u;
        }
        OrderSurvivesNewLast(u, s);
      }
    }
  }

  /** An element whose first occurrence is the last position can follow elements that occur earlier. */
  lemma OrderSurvivesNewLast<T>(u: seq<T>, s: seq<T>)
    requires |s| > 0
    requires forall j :: 0 <= j < |s| - 1 ==> s[j] != s[|s| - 1]
    requires InFirstAppearanceOrder(u, s)
    requires forall i :: 0 <= i < |u| ==> FirstIndex(s, u[i]) < |s| - 1
    ensures InFirstAppearanceOrder(u + [s[|s| - 1]], s)
  {
    var last := s[|s| - 1];
    var r := u + [last];
    assert FirstIndex(s, last) == |s| - 1;
    assert forall i :: 0 <= i < |r| ==> r[i] in s;
    forall i, j | 0 <= i < j < |r|
      ensures FirstIndex(s, r[i]) < FirstIndex(s, r[j])
    {
      assert r[i] == u[i];
      if j < |u| {
        assert r[j] == u[j];
      } else {
        assert r[j] == last;
        assert FirstIndex(s, u[i]) < |s| - 1;
      }
    }
  }

  /**
   * The id map `{vocab[i]: i for i in range(len(vocab))}`. On a repeated name the later
   * position wins, as in a dict comprehension.
   */
  function IdMap<T(==)>(vocab: seq<T>): (ids: map<T, nat>)
    ensures forall i :: 0 <= i < |vocab| ==> vocab[i] in ids
    ensures forall x :: x in ids ==> ids[x] < |vocab| && vocab[ids[x]] == x
    ensures NoDup(vocab) ==> forall i :: 0 <= i < |vocab| ==> ids[vocab[i]] == i
    decreases |vocab|
  {
    if |vocab| == 0 then map[]
    else
      var prefix := vocab[..|vocab| - 1];
      assert vocab == prefix + [vocab[|vocab| - 1]];
      IdMap(prefix)[vocab[|vocab| - 1] := |vocab| - 1]
  }

  /**
   * `Series.map(ids)` over a column whose result must be an id for every row: each key is
   * replaced by its id, and the lookup fails when some key has none.
   */
  function MapColumn<K(==)>(col: seq<K>, ids: map<K, nat>): (r: Option<seq<nat>>)
    ensures r.Some? <==> forall i :: 0 <= i < |col| ==> col[i] in ids
    ensures r.Some? ==> |r.value| == |col|
    ensures r.Some? ==> forall i :: 0 <= i < |col| ==> r.value[i] == ids[col[i]]
  {
    if |col| == 0 then Some([])
    else if col[0] !in ids then None
    else
      var rest :- MapColumn(col[1..], ids);
      Some([ids[col[0]]] + rest)
  }
}
