/**
 * Frequency filtering of literal attributes: an attribute column is kept only when the raw
 * literal table has strictly more than `threshold` records for it. Surviving columns keep
 * their contents; the order in which they survive is not specified.
 */
module FrequencyFilter {
  import opened Optional
  import opened Vocabulary
  import opened Literals

  /** The candidates whose count in `column` exceeds `threshold`, in candidate order. */
  function Frequent(candidates: seq<nat>, column: seq<nat>, threshold: int): (kept: seq<nat>)
    ensures forall a :: a in kept <==> a in candidates && multiset(column)[a] > threshold
    ensures NoDup(candidates) ==> NoDup(kept)
  {
    if |candidates| == 0 then []
    else
      var rest := Frequent(candidates[1..], column, threshold);
      assert forall a :: a in candidates <==> a == candidates[0] || a in candidates[1..];
      if multiset(column)[candidates[0]] > threshold then [candidates[0]] + rest else rest
  }

  /**
   * The attribute ids whose record count in the id column exceeds `threshold`, each once:
   * the index of `value_counts()` restricted to counts above the threshold.
   */
  function KeptAttributes(column: seq<nat>, threshold: int): (kept: seq<nat>)
    ensures NoDup(kept)
    ensures forall a :: a in kept <==> a in column && multiset(column)[a] > threshold
    ensures (forall a :: multiset(column)[a] <= threshold) ==> kept == []
    ensures threshold < 1 ==> forall a :: a in kept <==> a in column
  {
    var candidates := Unique(column);
    assert forall a :: a in candidates <==> a in column;
    var kept := Frequent(candidates, column, threshold);
    assert |kept| > 0 ==> kept[0] in kept && multiset(column)[kept[0]] > threshold;
    kept
  }

  /** The entries of `row` at the positions `cols`, in that order. */
  function Pick<V>(row: seq<V>, cols: seq<nat>): (r: seq<V>)
    requires forall j :: 0 <= j < |cols| ==> cols[j] < |row|
    ensures |r| == |cols|
    ensures forall j :: 0 <= j < |cols| ==> r[j] == row[cols[j]]
  {
    if |cols| == 0 then [] else [row[cols[0]]] + Pick(row, cols[1..])
  }

  /** `grid[:, cols]`: every row restricted to the columns `cols`. */
  function SelectColumns<V>(grid: seq<seq<V>>, cols: seq<nat>): (r: seq<seq<V>>)
    requires forall e, j :: 0 <= e < |grid| && 0 <= j < |cols| ==> cols[j] < |grid[e]|
    ensures |r| == |grid|
    ensures forall e :: 0 <= e < |grid| ==> |r[e]| == |cols|
    ensures forall e, j :: 0 <= e < |grid| && 0 <= j < |cols| ==> r[e][j] == grid[e][cols[j]]
  {
    seq(|grid|, e requires 0 <= e < |grid| => Pick(grid[e], cols))
  }

  /** `grid[rows]`: the rows at the positions `rows`. */
  function SelectRows<V>(grid: seq<V>, rows: seq<nat>): (r: seq<V>)
    requires forall j :: 0 <= j < |rows| ==> rows[j] < |grid|
    ensures |r| == |rows|
    ensures forall j :: 0 <= j < |rows| ==> r[j] == grid[rows[j]]
  {
    Pick(grid, rows)
  }

  /**
   * Filters the features of one literal table by attribute frequency. Values, presence and
   * the attribute vocabulary are restricted to the same kept ids together, so column j of
   * the result is the unchanged column `kept[j]` of the input and is named `attrs[kept[j]]`;
   * the table's id column is left as it was.
   */
  function FilterByFrequency<V>(f: Features<V>, n: nat, threshold: int): (r: Features<V>)
    requires Shaped(f, n)
    requires forall k :: 0 <= k < |f.attrIds| ==> f.attrIds[k] < |f.attrs|
    ensures Shaped(r, n)
    ensures r.attrIds == f.attrIds
    ensures NoDup(f.attrs) ==> NoDup(r.attrs)
    ensures var kept := KeptAttributes(f.attrIds, threshold);
      && |r.attrs| == |kept|
      && (forall j :: 0 <= j < |kept| ==> kept[j] < |f.attrs| && r.attrs[j] == f.attrs[kept[j]])
      && (forall e, j :: 0 <= e < n && 0 <= j < |kept| ==>
            r.values[e][j] == f.values[e][kept[j]] && r.presence[e][j] == f.presence[e][kept[j]])
  {
    var kept := KeptAttributes(f.attrIds, threshold);
    assert forall j :: 0 <= j < |kept| ==> kept[j] < |f.attrs| by {
      forall j | 0 <= j < |kept| ensures kept[j] < |f.attrs| {
        assert kept[j] in f.attrIds;
      }
    }
    var r := Features(Pick(f.attrs, kept), f.attrIds, SelectColumns(f.values, kept), SelectColumns(f.presence, kept));
    assert NoDup(f.attrs) ==> NoDup(r.attrs) by {
      if NoDup(f.attrs) {
        forall i, j | 0 <= i < j < |r.attrs| ensures r.attrs[i] != r.attrs[j] {
          assert kept[i] != kept[j];
        }
      }
    }
    r
  }

  /**
   * The same step as the source writes it: the value columns are selected, but the second
   * assignment indexes the presence grid, which is what the attribute-relation field holds,
   * by attribute id along its ENTITY axis. That indexing fails (an `IndexError`) as soon as
   * a kept attribute id is not an entity id, which is `None` here.
   */
  function FilterAsWritten<V>(f: Features<V>, n: nat, threshold: int): (r: Option<(seq<seq<V>>, seq<seq<real>>)>)
    requires Shaped(f, n)
    requires forall k :: 0 <= k < |f.attrIds| ==> f.attrIds[k] < |f.attrs|
    ensures var kept := KeptAttributes(f.attrIds, threshold);
      r.Some? <==> forall j :: 0 <= j < |kept| ==> kept[j] < n
    ensures var kept := KeptAttributes(f.attrIds, threshold);
      r.Some? ==>
        && |r.value.0| == n
        && (forall e, j :: 0 <= e < n && 0 <= j < |kept| ==> kept[j] < |f.attrs| && |r.value.0[e]| == |kept| && r.value.0[e][j] == f.values[e][kept[j]])
        && |r.value.1| == |kept|
        && (forall j :: 0 <= j < |kept| ==> r.value.1[j] == f.presence[kept[j]])
  {
    var kept := KeptAttributes(f.attrIds, threshold);
    assert forall j :: 0 <= j < |kept| ==> kept[j] < |f.attrs| by {
      forall j | 0 <= j < |kept| ensures kept[j] < |f.attrs| {
        assert kept[j] in f.attrIds;
      }
    }
    if forall j :: 0 <= j < |kept| ==> kept[j] < n then
      Some((SelectColumns(f.values, kept), SelectRows(f.presence, kept)))
    else
      None
  }

  /**
   * Two entities that both carry one attribute, threshold 1: the attribute is kept, the
   * filtered values still have one row per entity, but the filtered presence has one row
   * in all, and that row is entity 0's presence row rather than attribute 0's column.
   */
  lemma FilterAsWrittenMisalignsPresence()
    ensures var f := Features(["a"], [0, 0], [[5.0], [7.0]], [[1.0], [1.0]]);
      && KeptAttributes(f.attrIds, 1) == [0]
      && FilterAsWritten(f, 2, 1).Some?
      && |FilterAsWritten(f, 2, 1).value.0| == 2
      && FilterAsWritten(f, 2, 1).value.1 == [[1.0]]
      && |FilterByFrequency(f, 2, 1).presence| == 2
      && FilterByFrequency(f, 2, 1).presence == [[1.0], [1.0]]
  {
    var f := Features(["a"], [0, 0], [[5.0], [7.0]], [[1.0], [1.0]]);
    assert multiset(f.attrIds)[0] == 2;
    var kept := KeptAttributes(f.attrIds, 1);
    assert 0 in kept;
    assert forall a :: a in kept ==> a == 0;
    assert kept == [0];
    var g := FilterByFrequency(f, 2, 1);
    assert g.presence[0] == [1.0] && g.presence[1] == [1.0];
  }

  /**
   * One entity with attributes `a` (once) and `b` (twice), threshold 1: only `b`, id 1, is
   * kept, and the as-written step indexes entity 1 of a one-entity grid and fails, while the
   * corrected filter keeps column `b`.
   */
  lemma FilterAsWrittenFailsOnFewEntities()
    ensures var f := Features(["a", "b"], [0, 1, 1], [[0.0, 6.0]], [[1.0, 1.0]]);
      && KeptAttributes(f.attrIds, 1) == [1]
      && FilterAsWritten(f, 1, 1).None?
      && FilterByFrequency(f, 1, 1).attrs == ["b"]
      && FilterByFrequency(f, 1, 1).values == [[6.0]]
  {
    var f := Features(["a", "b"], [0, 1, 1], [[0.0, 6.0]], [[1.0, 1.0]]);
    OnlyTwiceCountedKept();
    var g := FilterByFrequency(f, 1, 1);
    assert g.attrs[0] == "b";
    assert g.values[0] == [6.0];
  }

  /** In the id column [0, 1, 1], only id 1 occurs more than once. */
  lemma OnlyTwiceCountedKept()
    ensures KeptAttributes([0, 1, 1], 1) == [1]
  {
    var column: seq<nat> := [0, 1, 1];
    assert multiset(column)[0] == 1;
    assert multiset(column)[1] == 2;
    var kept := KeptAttributes(column, 1);
    assert 1 in kept && 0 !in kept;
    assert forall a :: a in kept ==> a == 1;
  }
}
