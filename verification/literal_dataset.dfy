/**
 * The literal link-prediction dataset as a whole: vocabularies, the integer edge lists of
 * the three splits, and the numeric and textual literal features, built from the raw tables
 * in one pass; plus the frequency-filter refinement of the built literal features.
 */
module LiteralDataset {
  import opened Optional
  import opened Vocabulary
  import opened Tables
  import opened EdgeIndexing
  import opened Literals
  import opened FrequencyFilter

  /** Length of every text embedding. */
  const EmbeddingDim: nat := 300

  datatype Dataset = Dataset(
    entities: seq<string>,
    relations: seq<string>,
    train: Edges,
    valid: Edges,
    test: Edges,
    numeric: Features<real>,
    textual: Features<seq<real>>)

  function Zeros(d: nat): seq<real> {
    seq(d, _ => 0.0)
  }

  /** The textual table with every text replaced by its embedding. */
  function EmbedValues(table: seq<Literal<string>>, embed: string -> seq<real>): (r: seq<Literal<seq<real>>>)
    ensures Subjects(r) == Subjects(table) && Attrs(r) == Attrs(table)
    ensures forall k :: 0 <= k < |table| ==> r[k].value == embed(table[k].value)
  {
    seq(|table|, k requires 0 <= k < |table| => Literal(table[k].entity, table[k].attr, embed(table[k].value)))
  }

  /** Every name that the splits and the literal tables use has an id in the given vocabularies. */
  predicate Resolvable(t: RawTables, entities: seq<string>, relations: seq<string>) {
    && EntitiesKnown(t.train, entities) && RelationsKnown(t.train, relations)
    && EntitiesKnown(t.valid, entities) && RelationsKnown(t.valid, relations)
    && EntitiesKnown(t.test, entities) && RelationsKnown(t.test, relations)
    && SubjectsKnown(t.numeric, entities)
    && SubjectsKnown(t.textual, entities)
  }

  /** Every literal-table id column indexes its attribute vocabulary. */
  predicate IdsInRange<V>(f: Features<V>) {
    forall k :: 0 <= k < |f.attrIds| ==> f.attrIds[k] < |f.attrs|
  }

  /** The built dataset is a faithful integer image of the raw tables `t`. */
  ghost predicate Consistent(ds: Dataset, t: RawTables) {
    && Decodes(ds.train, t.train, ds.entities, ds.relations)
    && Decodes(ds.valid, t.valid, ds.entities, ds.relations)
    && Decodes(ds.test, t.test, ds.entities, ds.relations)
    && Shaped(ds.numeric, |ds.entities|) && IdsInRange(ds.numeric)
    && Shaped(ds.textual, |ds.entities|) && IdsInRange(ds.textual)
  }

  /**
   * Builds the dataset from the raw tables, given an order for each of the entity and
   * relation vocabularies. It fails exactly when some table uses a name without an id;
   * otherwise every edge decodes to its triple and every feature grid is entities x attributes.
   */
  function Build(t: RawTables, entities: seq<string>, relations: seq<string>, embed: string -> seq<real>): (r: Option<Dataset>)
    ensures r.Some? <==> Resolvable(t, entities, relations)
    ensures r.Some? ==> r.value.entities == entities && r.value.relations == relations
    ensures r.Some? ==> Consistent(r.value, t)
    ensures r.Some? ==> r.value.numeric.attrs == AttributeVocabulary(t.numeric)
    ensures r.Some? ==> r.value.textual.attrs == AttributeVocabulary(t.textual)
  {
    var texts := EmbedValues(t.textual, embed);
    assert Attrs(texts) == Attrs(t.textual);
    assert SubjectsKnown(texts, entities) <==> SubjectsKnown(t.textual, entities) by {
      assert forall k :: 0 <= k < |texts| ==> texts[k].entity == t.textual[k].entity;
    }
    var train :- IndexSplit(t.train, entities, relations);
    var valid :- IndexSplit(t.valid, entities, relations);
    var test :- IndexSplit(t.test, entities, relations);
    var numeric :- LoadLiterals(t.numeric, entities, 0.0);
    var textual :- LoadLiterals(texts, entities, Zeros(EmbeddingDim));
    Some(Dataset(entities, relations, train, valid, test, numeric, textual))
  }

  /** The literal features of a successful build are those of its two tables. */
  lemma BuildUnfolds(t: RawTables, entities: seq<string>, relations: seq<string>, embed: string -> seq<real>)
    requires Resolvable(t, entities, relations)
    ensures LoadLiterals(t.numeric, entities, 0.0).Some?
    ensures LoadLiterals(EmbedValues(t.textual, embed), entities, Zeros(EmbeddingDim)).Some?
    ensures Build(t, entities, relations, embed).value.numeric == LoadLiterals(t.numeric, entities, 0.0).value
    ensures Build(t, entities, relations, embed).value.textual
      == LoadLiterals(EmbedValues(t.textual, embed), entities, Zeros(EmbeddingDim)).value
  {
  }

  lemma SplitKnown(split: seq<Triple>, all: seq<Triple>, t: RawTables, entities: seq<string>, relations: seq<string>)
    requires all == t.train + t.valid + t.test
    requires forall tr :: tr in split ==> tr in all
    requires IsVocabularyOf(entities, EntityNames(t)) && IsVocabularyOf(relations, RelationNames(t))
    ensures EntitiesKnown(split, entities) && RelationsKnown(split, relations)
  {
    forall j | 0 <= j < |split|
      ensures split[j].head in entities && split[j].tail in entities && split[j].rel in relations
    {
      var tr := split[j];
      assert tr in all;
      assert tr.head in EntityNames(t) && tr.tail in EntityNames(t);
      assert tr.rel in RelationNames(t);
    }
  }

  /**
   * Lookups never fail: with vocabularies that enumerate the names of the same tables, in
   * any order, the build succeeds.
   */
  lemma BuildSucceeds(t: RawTables, entities: seq<string>, relations: seq<string>, embed: string -> seq<real>)
    requires IsVocabularyOf(entities, EntityNames(t))
    requires IsVocabularyOf(relations, RelationNames(t))
    ensures Build(t, entities, relations, embed).Some?
  {
    var all := t.train + t.valid + t.test;
    SplitKnown(t.train, all, t, entities, relations);
    SplitKnown(t.valid, all, t, entities, relations);
    SplitKnown(t.test, all, t, entities, relations);
    forall k | 0 <= k < |t.numeric| ensures t.numeric[k].entity in entities {
      assert t.numeric[k] in t.numeric;
      assert t.numeric[k].entity in EntityNames(t);
    }
    forall k | 0 <= k < |t.textual| ensures t.textual[k].entity in entities {
      assert t.textual[k] in t.textual;
      assert t.textual[k].entity in EntityNames(t);
    }
  }

  /**
   * Numeric features before normalisation: cell (i, j) is the value of the last record for
   * entity i and numeric attribute j, 0 if there is none; presence is 1 exactly where a
   * record exists.
   */
  lemma NumericFeaturesFollowRecords(t: RawTables, entities: seq<string>, relations: seq<string>, embed: string -> seq<real>)
    requires NoDup(entities)
    requires Resolvable(t, entities, relations)
    ensures var ds := Build(t, entities, relations, embed).value;
      forall i, j, k :: 0 <= i < |entities| && 0 <= j < |ds.numeric.attrs| && RawLastWriter(t.numeric, entities[i], ds.numeric.attrs[j], k) ==>
      ds.numeric.values[i][j] == t.numeric[k].value
    ensures var ds := Build(t, entities, relations, embed).value;
      forall i, j :: 0 <= i < |entities| && 0 <= j < |ds.numeric.attrs| && !RawWritten(t.numeric, entities[i], ds.numeric.attrs[j]) ==>
      ds.numeric.values[i][j] == 0.0
    ensures var ds := Build(t, entities, relations, embed).value;
      forall i, j :: 0 <= i < |entities| && 0 <= j < |ds.numeric.attrs| ==>
      ds.numeric.presence[i][j] == if RawWritten(t.numeric, entities[i], ds.numeric.attrs[j]) then 1.0 else 0.0
  {
    BuildUnfolds(t, entities, relations, embed);
    LoadLiteralsLastWriterWins(t.numeric, entities, 0.0);
  }

  /**
   * Textual features: slot (i, j) is the embedding of the text of the last record for
   * entity i and textual attribute j, or D zeros if there is none; presence is 1 exactly
   * where a record exists.
   */
  lemma TextualFeaturesFollowRecords(t: RawTables, entities: seq<string>, relations: seq<string>, embed: string -> seq<real>)
    requires NoDup(entities)
    requires Resolvable(t, entities, relations)
    ensures var ds := Build(t, entities, relations, embed).value;
      forall i, j, k :: 0 <= i < |entities| && 0 <= j < |ds.textual.attrs| && RawLastWriter(t.textual, entities[i], ds.textual.attrs[j], k) ==>
      ds.textual.values[i][j] == embed(t.textual[k].value)
    ensures var ds := Build(t, entities, relations, embed).value;
      forall i, j :: 0 <= i < |entities| && 0 <= j < |ds.textual.attrs| && !RawWritten(t.textual, entities[i], ds.textual.attrs[j]) ==>
      ds.textual.values[i][j] == Zeros(EmbeddingDim)
    ensures var ds := Build(t, entities, relations, embed).value;
      forall i, j :: 0 <= i < |entities| && 0 <= j < |ds.textual.attrs| ==>
      ds.textual.presence[i][j] == if RawWritten(t.textual, entities[i], ds.textual.attrs[j]) then 1.0 else 0.0
  {
    BuildUnfolds(t, entities, relations, embed);
    EmbeddedLastWriterWins(t.textual, entities, embed);
  }

  /** When `embed` always yields D numbers, every textual slot, filled or not, has length D. */
  lemma TextualSlotsHaveEmbeddingLength(t: RawTables, entities: seq<string>, relations: seq<string>, embed: string -> seq<real>)
    requires NoDup(entities)
    requires forall s :: |embed(s)| == EmbeddingDim
    requires Resolvable(t, entities, relations)
    ensures var ds := Build(t, entities, relations, embed).value;
      forall i, j :: 0 <= i < |entities| && 0 <= j < |ds.textual.attrs| ==> |ds.textual.values[i][j]| == EmbeddingDim
  {
    BuildUnfolds(t, entities, relations, embed);
    EmbeddedSlotLength(t.textual, entities, embed);
  }

  /** Embedding the texts keeps every record's entity and attribute, so the same records are last writers. */
  lemma EmbedKeepsKeys(table: seq<Literal<string>>, embed: string -> seq<real>)
    ensures forall x, a :: RawWritten(EmbedValues(table, embed), x, a) <==> RawWritten(table, x, a)
    ensures forall x, a, k :: RawLastWriter(EmbedValues(table, embed), x, a, k) <==> RawLastWriter(table, x, a, k)
  {
    var texts := EmbedValues(table, embed);
    assert forall k :: 0 <= k < |texts| ==> (forall x, a :: Names(texts[k], x, a) <==> Names(table[k], x, a));
    forall x, a | RawWritten(table, x, a) ensures RawWritten(texts, x, a) {
      var k :| 0 <= k < |table| && Names(table[k], x, a);
      assert Names(texts[k], x, a);
    }
  }

  lemma EmbeddedLastWriterWins(table: seq<Literal<string>>, entities: seq<string>, embed: string -> seq<real>)
    requires NoDup(entities)
    requires SubjectsKnown(table, entities)
    ensures var f := LoadLiterals(EmbedValues(table, embed), entities, Zeros(EmbeddingDim)).value;
      forall i, j, k :: 0 <= i < |entities| && 0 <= j < |f.attrs| && RawLastWriter(table, entities[i], f.attrs[j], k) ==>
        f.values[i][j] == embed(table[k].value)
    ensures var f := LoadLiterals(EmbedValues(table, embed), entities, Zeros(EmbeddingDim)).value;
      forall i, j :: 0 <= i < |entities| && 0 <= j < |f.attrs| && !RawWritten(table, entities[i], f.attrs[j]) ==>
        f.values[i][j] == Zeros(EmbeddingDim)
    ensures var f := LoadLiterals(EmbedValues(table, embed), entities, Zeros(EmbeddingDim)).value;
      forall i, j :: 0 <= i < |entities| && 0 <= j < |f.attrs| ==>
        f.presence[i][j] == if RawWritten(table, entities[i], f.attrs[j]) then 1.0 else 0.0
  {
    var texts := EmbedValues(table, embed);
    assert SubjectsKnown(texts, entities) by {
      assert forall k :: 0 <= k < |texts| ==> texts[k].entity == table[k].entity;
    }
    var f := LoadLiterals(texts, entities, Zeros(EmbeddingDim)).value;
    LoadLiteralsLastWriterWins(texts, entities, Zeros(EmbeddingDim));
    EmbedKeepsKeys(table, embed);
    forall i, j, k | 0 <= i < |entities| && 0 <= j < |f.attrs| && RawLastWriter(table, entities[i], f.attrs[j], k)
      ensures f.values[i][j] == embed(table[k].value)
    {
      assert RawLastWriter(texts, entities[i], f.attrs[j], k);
      assert texts[k].value == embed(table[k].value);
    }
  }

  lemma EmbeddedSlotLength(table: seq<Literal<string>>, entities: seq<string>, embed: string -> seq<real>)
    requires NoDup(entities)
    requires forall s :: |embed(s)| == EmbeddingDim
    requires SubjectsKnown(table, entities)
    ensures var f := LoadLiterals(EmbedValues(table, embed), entities, Zeros(EmbeddingDim)).value;
      forall i, j :: 0 <= i < |entities| && 0 <= j < |f.attrs| ==> |f.values[i][j]| == EmbeddingDim
  {
    var texts := EmbedValues(table, embed);
    assert SubjectsKnown(texts, entities) by {
      assert forall k :: 0 <= k < |texts| ==> texts[k].entity == table[k].entity;
    }
    var f := LoadLiterals(texts, entities, Zeros(EmbeddingDim)).value;
    EmbeddedLastWriterWins(table, entities, embed);
    forall i, j | 0 <= i < |entities| && 0 <= j < |f.attrs|
      ensures |f.values[i][j]| == EmbeddingDim
    {
      if RawWritten(table, entities[i], f.attrs[j]) {
        RawLastWriterExists(table, entities[i], f.attrs[j]);
        var k :| RawLastWriter(table, entities[i], f.attrs[j], k);
        assert f.values[i][j] == embed(table[k].value);
      }
    }
  }

  /** Attribute name `x` of `f` occurs in its table, more than `threshold` times. */
  ghost predicate FrequentName<V>(f: Features<V>, x: string, threshold: int) {
    exists a :: 0 <= a < |f.attrs| && f.attrs[a] == x && a in f.attrIds && multiset(f.attrIds)[a] > threshold
  }

  /**
   * Filters both literal feature sets by attribute frequency; vocabularies and edges are
   * untouched. A kept attribute name is exactly one whose table has more than `threshold`
   * records for it, and it is kept once.
   */
  function FilterLiterals(ds: Dataset, threshold: int): (r: Dataset)
    requires Shaped(ds.numeric, |ds.entities|) && IdsInRange(ds.numeric) && NoDup(ds.numeric.attrs)
    requires Shaped(ds.textual, |ds.entities|) && IdsInRange(ds.textual) && NoDup(ds.textual.attrs)
    ensures r.entities == ds.entities && r.relations == ds.relations
    ensures r.train == ds.train && r.valid == ds.valid && r.test == ds.test
    ensures Shaped(r.numeric, |ds.entities|) && Shaped(r.textual, |ds.entities|)
    ensures NoDup(r.numeric.attrs) && NoDup(r.textual.attrs)
    ensures forall x :: x in r.numeric.attrs <==> FrequentName(ds.numeric, x, threshold)
    ensures forall x :: x in r.textual.attrs <==> FrequentName(ds.textual, x, threshold)
    ensures r.numeric == FilterByFrequency(ds.numeric, |ds.entities|, threshold)
    ensures r.textual == FilterByFrequency(ds.textual, |ds.entities|, threshold)
  {
    var numeric := FilterByFrequency(ds.numeric, |ds.entities|, threshold);
    var textual := FilterByFrequency(ds.textual, |ds.entities|, threshold);
    KeptNamesAreFrequent(ds.numeric, numeric, |ds.entities|, threshold);
    KeptNamesAreFrequent(ds.textual, textual, |ds.entities|, threshold);
    ds.(numeric := numeric, textual := textual)
  }

  lemma KeptNamesAreFrequent<V>(f: Features<V>, r: Features<V>, n: nat, threshold: int)
    requires Shaped(f, n) && IdsInRange(f)
    requires r == FilterByFrequency(f, n, threshold)
    ensures forall x :: x in r.attrs <==> FrequentName(f, x, threshold)
  {
    var kept := KeptAttributes(f.attrIds, threshold);
    assert |r.attrs| == |kept|;
    assert forall j :: 0 <= j < |kept| ==> kept[j] < |f.attrs| && r.attrs[j] == f.attrs[kept[j]];
    forall x | x in r.attrs ensures FrequentName(f, x, threshold) {
      var j :| 0 <= j < |r.attrs| && r.attrs[j] == x;
      var a := kept[j];
      assert a in kept;
      assert multiset(f.attrIds)[a] > threshold;
      assert 0 <= a < |f.attrs| && f.attrs[a] == x;
    }
    forall x | FrequentName(f, x, threshold) ensures x in r.attrs {
      var a :| 0 <= a < |f.attrs| && f.attrs[a] == x && a in f.attrIds && multiset(f.attrIds)[a] > threshold;
      assert a in kept;
      var j :| 0 <= j < |kept| && kept[j] == a;
      assert r.attrs[j] == x;
    }
  }
}
