/**
 * Rewrites a triple split into integer form: an edge index of two rows (head ids, tail ids)
 * and a parallel row of relation ids.
 */
module EdgeIndexing {
  import opened Optional
  import opened Vocabulary
  import opened Tables

  /** The two rows of an edge index: row 0 holds head ids, row 1 tail ids. */
  datatype EdgeIndex = EdgeIndex(heads: seq<nat>, tails: seq<nat>)

  datatype Edges = Edges(index: EdgeIndex, types: seq<nat>)

  /** Every head and tail of the split has an id in `entities`. */
  predicate EntitiesKnown(split: seq<Triple>, entities: seq<string>) {
    forall j :: 0 <= j < |split| ==> split[j].head in entities && split[j].tail in entities
  }

  predicate RelationsKnown(split: seq<Triple>, relations: seq<string>) {
    forall j :: 0 <= j < |split| ==> split[j].rel in relations
  }

  /**
   * The edge index of a split: head and tail columns mapped through the entity id map.
   * It exists exactly when every entity of the split is known, and decoding each id
   * through `entities` gives back the triple's head and tail.
   */
  function EdgeIndexOf(split: seq<Triple>, entities: seq<string>): (r: Option<EdgeIndex>)
    ensures r.Some? <==> EntitiesKnown(split, entities)
    ensures r.Some? ==> |r.value.heads| == |split| && |r.value.tails| == |split|
    ensures r.Some? ==> forall j :: 0 <= j < |split| ==>
      && r.value.heads[j] < |entities| && entities[r.value.heads[j]] == split[j].head
      && r.value.tails[j] < |entities| && entities[r.value.tails[j]] == split[j].tail
  {
    var entity2id := IdMap(entities);
    assert forall x :: x in entity2id <==> x in entities;
    assert forall j :: 0 <= j < |split| ==> Heads(split)[j] == split[j].head && Tails(split)[j] == split[j].tail;
    var heads :- MapColumn(Heads(split), entity2id);
    var tails :- MapColumn(Tails(split), entity2id);
    Some(EdgeIndex(heads, tails))
  }

  /**
   * The edge types of a split: the relation column mapped through the relation id map,
   * one id per triple, each decoding back to the triple's relation.
   */
  function EdgeTypesOf(split: seq<Triple>, relations: seq<string>): (r: Option<seq<nat>>)
    ensures r.Some? <==> RelationsKnown(split, relations)
    ensures r.Some? ==> |r.value| == |split|
    ensures r.Some? ==> forall j :: 0 <= j < |split| ==>
      r.value[j] < |relations| && relations[r.value[j]] == split[j].rel
  {
    var relation2id := IdMap(relations);
    assert forall x :: x in relation2id <==> x in relations;
    assert forall j :: 0 <= j < |split| ==> Rels(split)[j] == split[j].rel;
    MapColumn(Rels(split), relation2id)
  }

  /** Both rows of the edge index and the edge types of one split. */
  function IndexSplit(split: seq<Triple>, entities: seq<string>, relations: seq<string>): (r: Option<Edges>)
    ensures r.Some? <==> EntitiesKnown(split, entities) && RelationsKnown(split, relations)
    ensures r.Some? ==> Decodes(r.value, split, entities, relations)
  {
    var index :- EdgeIndexOf(split, entities);
    var types :- EdgeTypesOf(split, relations);
    Some(Edges(index, types))
  }

  /**
   * Every id of `edges` is in range and row j decodes to triple j of `split`: this is
   * what makes the integer form a faithful copy of the split.
   */
  ghost predicate Decodes(edges: Edges, split: seq<Triple>, entities: seq<string>, relations: seq<string>) {
    && |edges.index.heads| == |split|
    && |edges.index.tails| == |split|
    && |edges.types| == |split|
    && forall j :: 0 <= j < |split| ==>
      && edges.index.heads[j] < |entities|
      && edges.index.tails[j] < |entities|
      && edges.types[j] < |relations|
      && Triple(entities[edges.index.heads[j]], relations[edges.types[j]], entities[edges.index.tails[j]]) == split[j]
  }

  /** With duplicate-free vocabularies the integer form is the only one that decodes to the split. */
  lemma {:induction false} DecodingDeterminesEdges(e1: Edges, e2: Edges, split: seq<Triple>, entities: seq<string>, relations: seq<string>)
    requires NoDup(entities) && NoDup(relations)
    requires Decodes(e1, split, entities, relations) && Decodes(e2, split, entities, relations)
    ensures e1 == e2
  {
    assert e1.index.heads == e2.index.heads by {
      forall j | 0 <= j < |split| ensures e1.index.heads[j] == e2.index.heads[j] {
        assert entities[e1.index.heads[j]] == split[j].head == entities[e2.index.heads[j]];
      }
    }
    assert e1.index.tails == e2.index.tails by {
      forall j | 0 <= j < |split| ensures e1.index.tails[j] == e2.index.tails[j] {
        assert entities[e1.index.tails[j]] == split[j].tail == entities[e2.index.tails[j]];
      }
    }
    assert e1.types == e2.types by {
      forall j | 0 <= j < |split| ensures e1.types[j] == e2.types[j] {
        assert relations[e1.types[j]] == split[j].rel == relations[e2.types[j]];
      }
    }
  }
}
