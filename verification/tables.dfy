/**
 * The raw input tables of a literal-augmented link-prediction dataset: three triple splits
 * and two literal tables, already read into memory, and the entity and relation
 * vocabularies built from them.
 */
module Tables {
  import opened Vocabulary

  /** One row of a triple split: head entity, relation, tail entity. */
  datatype Triple = Triple(head: string, rel: string, tail: string)

  /** One row of a literal table: entity, attribute relation and literal value. */
  datatype Literal<V> = Literal(entity: string, attr: string, value: V)

  /** Numeric values are already parsed; textual values are strings. */
  datatype RawTables = RawTables(
    train: seq<Triple>,
    valid: seq<Triple>,
    test: seq<Triple>,
    numeric: seq<Literal<real>>,
    textual: seq<Literal<string>>)

  function Heads(split: seq<Triple>): seq<string> {
    seq(|split|, j requires 0 <= j < |split| => split[j].head)
  }

  function Rels(split: seq<Triple>): seq<string> {
    seq(|split|, j requires 0 <= j < |split| => split[j].rel)
  }

  function Tails(split: seq<Triple>): seq<string> {
    seq(|split|, j requires 0 <= j < |split| => split[j].tail)
  }

  function Subjects<V>(table: seq<Literal<V>>): seq<string> {
    seq(|table|, k requires 0 <= k < |table| => table[k].entity)
  }

  function Attrs<V>(table: seq<Literal<V>>): seq<string> {
    seq(|table|, k requires 0 <= k < |table| => table[k].attr)
  }

  /** Every head or tail of a triple in any split, and every subject of either literal table. */
  ghost function EntityNames(t: RawTables): set<string> {
    (set tr | tr in t.train + t.valid + t.test :: tr.head)
    + (set tr | tr in t.train + t.valid + t.test :: tr.tail)
    + (set l | l in t.numeric :: l.entity)
    + (set l | l in t.textual :: l.entity)
  }

  /** Every relation of a triple in any split; attribute relations of the literal tables are not relations. */
  ghost function RelationNames(t: RawTables): set<string> {
    set tr | tr in t.train + t.valid + t.test :: tr.rel
  }

  /** The entity columns concatenated in the order the vocabulary builder scans them. */
  function EntityColumn(t: RawTables): seq<string> {
    Heads(t.train) + Heads(t.test) + Heads(t.valid)
    + Tails(t.train) + Tails(t.test) + Tails(t.valid)
    + Subjects(t.numeric) + Subjects(t.textual)
  }

  function RelationColumn(t: RawTables): seq<string> {
    Rels(t.train) + Rels(t.test) + Rels(t.valid)
  }

  lemma EntityColumnHasEntityNames(t: RawTables)
    ensures forall x :: x in EntityColumn(t) <==> x in EntityNames(t)
  {
    var col := EntityColumn(t);
    var triples := t.train + t.valid + t.test;
    forall x | x in EntityNames(t)
      ensures x in col
    {
      if tr :| tr in triples && (tr.head == x || tr.tail == x) {
        if tr in t.train {
          var j :| 0 <= j < |t.train| && t.train[j] == tr;
          assert Heads(t.train)[j] == tr.head && Tails(t.train)[j] == tr.tail;
        } else if tr in t.valid {
          var j :| 0 <= j < |t.valid| && t.valid[j] == tr;
          assert Heads(t.valid)[j] == tr.head && Tails(t.valid)[j] == tr.tail;
        } else {
          var j :| 0 <= j < |t.test| && t.test[j] == tr;
          assert Heads(t.test)[j] == tr.head && Tails(t.test)[j] == tr.tail;
        }
      } else if l :| l in t.numeric && l.entity == x {
        var k :| 0 <= k < |t.numeric| && t.numeric[k] == l;
        assert Subjects(t.numeric)[k] == x;
      } else {
        var l :| l in t.textual && l.entity == x;
        var k :| 0 <= k < |t.textual| && t.textual[k] == l;
        assert Subjects(t.textual)[k] == x;
      }
    }
    forall x | x in col
      ensures x in EntityNames(t)
    {
      var i :| 0 <= i < |col| && col[i] == x;
      if x in Heads(t.train) || x in Heads(t.test) || x in Heads(t.valid) {
        assert exists tr :: tr in triples && tr.head == x;
      } else if x in Tails(t.train) || x in Tails(t.test) || x in Tails(t.valid) {
        assert exists tr :: tr in triples && tr.tail == x;
      } else if x in Subjects(t.numeric) {
        assert exists l :: l in t.numeric && l.entity == x;
      } else {
        assert x in Subjects(t.textual);
        assert exists l :: l in t.textual && l.entity == x;
      }
    }
  }

  lemma RelationColumnHasRelationNames(t: RawTables)
    ensures forall x :: x in RelationColumn(t) <==> x in RelationNames(t)
  {
    var col := RelationColumn(t);
    var triples := t.train + t.valid + t.test;
    forall x | x in RelationNames(t)
      ensures x in col
    {
      var tr :| tr in triples && tr.rel == x;
      if tr in t.train {
        var j :| 0 <= j < |t.train| && t.train[j] == tr;
        assert Rels(t.train)[j] == x;
      } else if tr in t.valid {
        var j :| 0 <= j < |t.valid| && t.valid[j] == tr;
        assert Rels(t.valid)[j] == x;
      } else {
        var j :| 0 <= j < |t.test| && t.test[j] == tr;
        assert Rels(t.test)[j] == x;
      }
    }
    forall x | x in col
      ensures x in RelationNames(t)
    {
      assert exists tr :: tr in triples && tr.rel == x;
    }
  }

  /**
   * The entity and relation vocabularies: each name of the tables exactly once. The source
   * takes the order of a hash set; this picks order of first appearance, and nothing
   * downstream depends on which order is chosen.
   */
  function LoadRelationalData(t: RawTables): (v: (seq<string>, seq<string>))
    ensures IsVocabularyOf(v.0, EntityNames(t))
    ensures IsVocabularyOf(v.1, RelationNames(t))
  {
    EntityColumnHasEntityNames(t);
    RelationColumnHasRelationNames(t);
    var entities := Unique(EntityColumn(t));
    var relations := Unique(RelationColumn(t));
    assert forall x :: x in entities <==> x in EntityColumn(t) by {
      forall x | x in entities ensures x in EntityColumn(t) {
        var i :| 0 <= i < |entities| && entities[i] == x;
      }
      forall x | x in EntityColumn(t) ensures x in entities {
        var i :| 0 <= i < |EntityColumn(t)| && EntityColumn(t)[i] == x;
      }
    }
    assert forall x :: x in relations <==> x in RelationColumn(t) by {
      forall x | x in relations ensures x in RelationColumn(t) {
        var i :| 0 <= i < |relations| && relations[i] == x;
      }
      forall x | x in RelationColumn(t) ensures x in relations {
        var i :| 0 <= i < |RelationColumn(t)| && RelationColumn(t)[i] == x;
      }
    }
    (entities, relations)
  }
}
