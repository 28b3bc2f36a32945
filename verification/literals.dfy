/**
 * Sparse-to-dense scatter of a literal table. Each record (entity, attribute, value) is
 * resolved to ids and written into an entity x attribute value grid, and a 1 into the
 * presence grid. Rows are built one entity at a time by scanning the table in order, so
 * on a repeated (entity, attribute) pair the last record wins.
 */
module Literals {
  import opened Optional
  import opened Vocabulary
  import opened Tables

  /** A literal record whose entity and attribute are resolved to ids. */
  datatype Cell<V> = Cell(entity: nat, attr: nat, value: V)

  /**
   * The dense features of one literal table: its attribute vocabulary, the table's
   * attribute column rewritten as ids, and the value and presence grids.
   */
  datatype Features<V> = Features(attrs: seq<string>, attrIds: seq<nat>, values: seq<seq<V>>, presence: seq<seq<real>>)

  /** Both grids are `n` x `|attrs|`. */
  predicate Shaped<V>(f: Features<V>, n: nat) {
    && |f.values| == n
    && |f.presence| == n
    && forall e :: 0 <= e < n ==> |f.values[e]| == |f.attrs| && |f.presence[e]| == |f.attrs|
  }

  /**
   * The attribute vocabulary of a literal table: its distinct attribute names, each once,
   * in order of first appearance; the id of a name is its position.
   */
  function AttributeVocabulary<V>(table: seq<Literal<V>>): (attrs: seq<string>)
    ensures NoDup(attrs)
    ensures forall k :: 0 <= k < |table| ==> table[k].attr in attrs
    ensures forall i :: 0 <= i < |attrs| ==> attrs[i] in Attrs(table)
    ensures forall i, j :: 0 <= i < j < |attrs| ==>
      FirstIndex(Attrs(table), attrs[i]) < FirstIndex(Attrs(table), attrs[j])
  {
    UniqueInFirstAppearanceOrder(Attrs(table));
    assert forall k :: 0 <= k < |table| ==> Attrs(table)[k] == table[k].attr;
    Unique(Attrs(table))
  }

  /** Cell `c` is record `l` with its names replaced by their positions in the vocabularies. */
  predicate Resolves<V(==)>(c: Cell<V>, l: Literal<V>, entities: seq<string>, attrs: seq<string>) {
    && c.entity < |entities| && entities[c.entity] == l.entity
    && c.attr < |attrs| && attrs[c.attr] == l.attr
    && c.value == l.value
  }

  /**
   * Maps the entity and attribute columns to ids. It fails exactly when some record names
   * an entity or attribute without an id.
   */
  function Resolve<V(==)>(table: seq<Literal<V>>, entities: seq<string>, attrs: seq<string>): (r: Option<seq<Cell<V>>>)
    ensures r.Some? <==> forall k :: 0 <= k < |table| ==> table[k].entity in entities && table[k].attr in attrs
    ensures r.Some? ==> |r.value| == |table|
    ensures r.Some? ==> forall k :: 0 <= k < |table| ==> Resolves(r.value[k], table[k], entities, attrs)
  {
    var entity2id := IdMap(entities);
    var attr2id := IdMap(attrs);
    assert forall x :: x in entity2id <==> x in entities;
    assert forall x :: x in attr2id <==> x in attrs;
    assert forall k :: 0 <= k < |table| ==> Subjects(table)[k] == table[k].entity && Attrs(table)[k] == table[k].attr;
    var eIds :- MapColumn(Subjects(table), entity2id);
    var aIds :- MapColumn(Attrs(table), attr2id);
    Some(seq(|table|, k requires 0 <= k < |table| => Cell(eIds[k], aIds[k], table[k].value)))
  }

  /** Cell `c` writes grid position (e, a). */
  predicate Writes<V>(c: Cell<V>, e: nat, a: nat) {
    c.entity == e && c.attr == a
  }

  /** Some cell writes (e, a). */
  ghost predicate Written<V>(cells: seq<Cell<V>>, e: nat, a: nat) {
    exists k :: 0 <= k < |cells| && Writes(cells[k], e, a)
  }

  /** Cell k writes (e, a) and no later cell does. */
  ghost predicate LastWriter<V>(cells: seq<Cell<V>>, e: nat, a: nat, k: int) {
    && 0 <= k < |cells|
    && Writes(cells[k], e, a)
    && forall j :: k < j < |cells| ==> !Writes(cells[j], e, a)
  }

  /**
   * Row `e` of the value and presence grids: start from `zero` and 0, then apply the cells
   * of entity `e` in table order.
   */
  function ScatterRow<V>(cells: seq<Cell<V>>, e: nat, m: nat, zero: V): (row: (seq<V>, seq<real>))
    requires forall k :: 0 <= k < |cells| && cells[k].entity == e ==> cells[k].attr < m
    ensures |row.0| == m && |row.1| == m
    decreases |cells|
  {
    if |cells| == 0 then (seq(m, _ => zero), seq(m, _ => 0.0))
    else
      var prev := ScatterRow(cells[..|cells| - 1], e, m, zero);
      var c := cells[|cells| - 1];
      if c.entity == e then (prev.0[c.attr := c.value], prev.1[c.attr := 1.0])
      else prev
  }

  /** Each position of a row holds the last value written to it, or `zero`; presence is 1 exactly where something was written. */
  lemma {:induction false} ScatterRowLastWriterWins<V>(cells: seq<Cell<V>>, e: nat, m: nat, zero: V)
    requires forall k :: 0 <= k < |cells| && cells[k].entity == e ==> cells[k].attr < m
    ensures forall a, k :: 0 <= a < m && LastWriter(cells, e, a, k) ==> ScatterRow(cells, e, m, zero).0[a] == cells[k].value
    ensures forall a :: 0 <= a < m && !Written(cells, e, a) ==> ScatterRow(cells, e, m, zero).0[a] == zero
    ensures forall a :: 0 <= a < m ==> ScatterRow(cells, e, m, zero).1[a] == if Written(cells, e, a) then 1.0 else 0.0
    decreases |cells|
  {
    if |cells| > 0 {
      var p := cells[..|cells| - 1];
      var c := cells[|cells| - 1];
      var row := ScatterRow(cells, e, m, zero);
      var prev := ScatterRow(p, e, m, zero);
      ScatterRowLastWriterWins(p, e, m, zero);
      forall a | 0 <= a < m
        ensures forall k :: LastWriter(cells, e, a, k) ==> row.0[a] == cells[k].value
        ensures !Written(cells, e, a) ==> row.0[a] == zero
        ensures row.1[a] == if Written(cells, e, a) then 1.0 else 0.0
      {
        if Writes(c, e, a) {
          assert Written(cells, e, a);
          forall k | LastWriter(cells, e, a, k)
            ensures k == |cells| - 1
          {
          }
        } else {
          assert row.0[a] == prev.0[a] && row.1[a] == prev.1[a];
          forall k | LastWriter(cells, e, a, k)
            ensures LastWriter(p, e, a, k)
          {
            assert k != |cells| - 1;
            assert cells[k] == p[k];
          }
          assert Written(cells, e, a) <==> Written(p, e, a) by {
            if Written(cells, e, a) {
              var k :| 0 <= k < |cells| && Writes(cells[k], e, a);
              assert p[k] == cells[k];
            }
            if Written(p, e, a) {
              var k :| 0 <= k < |p| && Writes(p[k], e, a);
              assert cells[k] == p[k];
            }
          }
        }
      }
    }
  }

  /** The value and presence grids, `n` x `m`: row e is entity e's `ScatterRow`. */
  function Scatter<V>(cells: seq<Cell<V>>, n: nat, m: nat, zero: V): (grid: (seq<seq<V>>, seq<seq<real>>))
    requires forall k :: 0 <= k < |cells| && cells[k].entity < n ==> cells[k].attr < m
    ensures |grid.0| == n && |grid.1| == n
    ensures forall e :: 0 <= e < n ==> |grid.0[e]| == m && |grid.1[e]| == m
  {
    (seq(n, e requires 0 <= e < n => ScatterRow(cells, e, m, zero).0),
     seq(n, e requires 0 <= e < n => ScatterRow(cells, e, m, zero).1))
  }

  /** The attribute column of resolved cells. */
  function AttrIdsOf<V>(cells: seq<Cell<V>>): seq<nat> {
    seq(|cells|, k requires 0 <= k < |cells| => cells[k].attr)
  }

  /** Every subject of the table has an entity id. */
  predicate SubjectsKnown<V>(table: seq<Literal<V>>, entities: seq<string>) {
    forall k :: 0 <= k < |table| ==> table[k].entity in entities
  }

  /**
   * The dense features of a literal table. They exist exactly when every subject of the
   * table is a known entity; the grids are `|entities|` x `|attrs|`, and the id column
   * decodes to the table's attribute column.
   */
  function LoadLiterals<V(==)>(table: seq<Literal<V>>, entities: seq<string>, zero: V): (r: Option<Features<V>>)
    ensures r.Some? <==> SubjectsKnown(table, entities)
    ensures r.Some? ==> r.value.attrs == AttributeVocabulary(table)
    ensures r.Some? ==> Shaped(r.value, |entities|)
    ensures r.Some? ==> |r.value.attrIds| == |table|
    ensures r.Some? ==> forall k :: 0 <= k < |table| ==>
      r.value.attrIds[k] < |r.value.attrs| && r.value.attrs[r.value.attrIds[k]] == table[k].attr
  {
    var attrs := AttributeVocabulary(table);
    var cells :- Resolve(table, entities, attrs);
    var grid := Scatter(cells, |entities|, |attrs|, zero);
    Some(Features(attrs, AttrIdsOf(cells), grid.0, grid.1))
  }

  /** Record k names entity x and attribute a. */
  predicate Names<V>(l: Literal<V>, x: string, a: string) {
    l.entity == x && l.attr == a
  }

  ghost predicate RawWritten<V>(table: seq<Literal<V>>, x: string, a: string) {
    exists k :: 0 <= k < |table| && Names(table[k], x, a)
  }

  /** Record k is the last record of the table naming (x, a). */
  ghost predicate RawLastWriter<V>(table: seq<Literal<V>>, x: string, a: string, k: int) {
    && 0 <= k < |table|
    && Names(table[k], x, a)
    && forall j :: k < j < |table| ==> !Names(table[j], x, a)
  }

  /** Resolution preserves which records hit a position: cell k writes (i, j) exactly when record k names (entities[i], attrs[j]). */
  lemma ResolvedCellsAgree<V>(table: seq<Literal<V>>, cells: seq<Cell<V>>, entities: seq<string>, attrs: seq<string>, i: nat, j: nat)
    requires NoDup(entities) && NoDup(attrs)
    requires i < |entities| && j < |attrs|
    requires |cells| == |table|
    requires forall k :: 0 <= k < |table| ==> Resolves(cells[k], table[k], entities, attrs)
    ensures forall k :: 0 <= k < |cells| ==> (Writes(cells[k], i, j) <==> Names(table[k], entities[i], attrs[j]))
    ensures forall k :: LastWriter(cells, i, j, k) <==> RawLastWriter(table, entities[i], attrs[j], k)
    ensures Written(cells, i, j) <==> RawWritten(table, entities[i], attrs[j])
  {
    forall k | 0 <= k < |cells|
      ensures Writes(cells[k], i, j) <==> Names(table[k], entities[i], attrs[j])
    {
      assert Resolves(cells[k], table[k], entities, attrs);
    }
  }

  /**
   * The dense grids in terms of the raw records: cell (i, j) holds the value of the last
   * record for entity `entities[i]` and attribute `attrs[j]`, or `zero` when there is none,
   * and the presence grid is 1 exactly where such a record exists.
   */
  lemma LoadLiteralsLastWriterWins<V>(table: seq<Literal<V>>, entities: seq<string>, zero: V)
    requires NoDup(entities)
    requires SubjectsKnown(table, entities)
    ensures var f := LoadLiterals(table, entities, zero).value;
      forall i, j, k :: 0 <= i < |entities| && 0 <= j < |f.attrs| && RawLastWriter(table, entities[i], f.attrs[j], k) ==>
        f.values[i][j] == table[k].value
    ensures var f := LoadLiterals(table, entities, zero).value;
      forall i, j :: 0 <= i < |entities| && 0 <= j < |f.attrs| && !RawWritten(table, entities[i], f.attrs[j]) ==>
        f.values[i][j] == zero
    ensures var f := LoadLiterals(table, entities, zero).value;
      forall i, j :: 0 <= i < |entities| && 0 <= j < |f.attrs| ==>
        f.presence[i][j] == if RawWritten(table, entities[i], f.attrs[j]) then 1.0 else 0.0
  {
    var f := LoadLiterals(table, entities, zero).value;
    forall i, j | 0 <= i < |entities| && 0 <= j < |f.attrs|
      ensures forall k :: RawLastWriter(table, entities[i], f.attrs[j], k) ==> f.values[i][j] == table[k].value
      ensures !RawWritten(table, entities[i], f.attrs[j]) ==> f.values[i][j] == zero
      ensures f.presence[i][j] == if RawWritten(table, entities[i], f.attrs[j]) then 1.0 else 0.0
    {
      LoadLiteralsCell(table, entities, zero, i, j);
    }
  }

  /** `LoadLiteralsLastWriterWins` for the one grid cell (i, j). */
  lemma LoadLiteralsCell<V>(table: seq<Literal<V>>, entities: seq<string>, zero: V, i: nat, j: nat)
    requires NoDup(entities)
    requires SubjectsKnown(table, entities)
    requires i < |entities| && j < |AttributeVocabulary(table)|
    ensures var f := LoadLiterals(table, entities, zero).value;
      && (forall k :: RawLastWriter(table, entities[i], f.attrs[j], k) ==> f.values[i][j] == table[k].value)
      && (!RawWritten(table, entities[i], f.attrs[j]) ==> f.values[i][j] == zero)
      && f.presence[i][j] == if RawWritten(table, entities[i], f.attrs[j]) then 1.0 else 0.0
  {
    var f := LoadLiterals(table, entities, zero).value;
    var attrs := AttributeVocabulary(table);
    var cells := Resolve(table, entities, attrs).value;
    var m := |attrs|;
    assert f.attrs == attrs;
    ScatterRowLastWriterWins(cells, i, m, zero);
    ResolvedCellsAgree(table, cells, entities, attrs, i, j);
    assert f.values[i] == ScatterRow(cells, i, m, zero).0;
    assert f.presence[i] == ScatterRow(cells, i, m, zero).1;
    forall k | RawLastWriter(table, entities[i], attrs[j], k)
      ensures f.values[i][j] == table[k].value
    {
      assert LastWriter(cells, i, j, k);
      assert Resolves(cells[k], table[k], entities, attrs);
    }
  }

  /** When some record names (x, a), one of them is the last. */
  lemma {:induction false} RawLastWriterExists<V>(table: seq<Literal<V>>, x: string, a: string)
    requires RawWritten(table, x, a)
    ensures exists k :: RawLastWriter(table, x, a, k)
    decreases |table|
  {
    var last := |table| - 1;
    if Names(table[last], x, a) {
      assert RawLastWriter(table, x, a, last);
    } else {
      var p := table[..last];
      var w :| 0 <= w < |table| && Names(table[w], x, a);
      assert p[w] == table[w];
      RawLastWriterExists(p, x, a);
      var k :| RawLastWriter(p, x, a, k);
      assert RawLastWriter(table, x, a, k);
    }
  }
}
