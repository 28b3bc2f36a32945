# Literal feature pipeline of a link-prediction dataset

This project models the discrete part of `LiteralLinkPredDataset` in `dataset.py`. That
class prepares a knowledge graph for link prediction. The graph is augmented with
*literals*: numeric and textual values attached to entities. The model covers five steps.

- **Vocabularies.** Entities are taken from the heads and tails of the train, valid and test
  triples, and from the subjects of both literal tables. Relations are taken from the
  predicates of the three triple splits only. Each name gets a dense id through
  `{vocab[i]: i}`.
- **Edge indexing.** Each triple split becomes an edge index with two rows (head ids and tail
  ids) and a parallel row of relation ids.
- **Literal scatter.** A literal table `(entity, attribute, value)` becomes an
  entity × attribute value grid and a 0/1 presence grid. Attribute ids follow the order in
  which attribute names first appear. When one (entity, attribute) pair has several records,
  the last one in table order wins. The numeric table is scattered directly. The textual
  table is scattered after each text is mapped through an embedding function, which is a
  parameter of the model.
- **Frequency filter.** An attribute column is kept only if the raw table has strictly more
  than `threshold` records for it.
- **Cluster one-hot.** A cluster label per entity becomes an entities × k one-hot matrix.

The modules are `Vocabulary`, `Tables`, `EdgeIndexing`, `Literals`, `FrequencyFilter`,
`Clustering` and `LiteralDataset`; `Optional` supplies the Option type.

Three things the original gets from outside its own code become inputs here:
- the order of the entity and relation vocabularies, which the original takes from a hash set;
- the embedding function;
- the cluster labels.

`LiteralDataset.Build` takes a vocabulary order as an argument. `LiteralDataset.BuildSucceeds`
shows that every lookup succeeds for any duplicate-free enumeration of the right names.

The model differs from the code where a name has no id. `Series.map(dict)` turns a missing
name into NaN. For edges the source keeps the NaN as a float tensor. For literals, `astype(int)`
raises an error. The model returns `None` in both cases. `LiteralDataset.BuildSucceeds` shows
that neither case can arise when the vocabularies come from the same tables, which is the
only way the source builds them.

## Model

| member | source | states |
|---|---|---|
| Vocabulary.Unique | dataset.py:91 | the result has no duplicates and holds exactly the elements of the input column |
| Vocabulary.UniqueInFirstAppearanceOrder | dataset.py:91-95 | distinct names are listed in increasing order of their first occurrence in the column, so ids number attributes by first appearance |
| Vocabulary.IdMap | dataset.py:34-35 | every vocabulary name has an id below the vocabulary size that decodes back to the name; for a duplicate-free vocabulary `ids[vocab[i]] == i`, so the map is a bijection onto `[0, n)` |
| Vocabulary.MapColumn | dataset.py:72-73 | mapping a column through an id map succeeds exactly when every key has an id; the result has one id per row, and that id is the key's id |
| Tables.LoadRelationalData | dataset.py:54-69 | the entity vocabulary is duplicate-free and holds exactly the heads and tails of all three splits plus the subjects of both literal tables; the relation vocabulary is duplicate-free and holds exactly the predicates of the three splits |
| EdgeIndexing.EdgeIndexOf | dataset.py:71-79 | the edge index exists exactly when every head and tail has an id; both rows have one entry per triple, every id is below `num_entities`, and `entities[heads[j]]` / `entities[tails[j]]` are the head and tail of triple j |
| EdgeIndexing.EdgeTypesOf | dataset.py:81-86 | the edge types exist exactly when every relation has an id; there is one entry per triple, below `num_relations`, decoding to the triple's relation |
| EdgeIndexing.IndexSplit | dataset.py:71-86 | a split is indexed exactly when all its names are known, and then every edge decodes to its triple |
| EdgeIndexing.DecodingDeterminesEdges | dataset.py:71-86 | with duplicate-free vocabularies, only one integer form decodes to a given split |
| Literals.AttributeVocabulary | dataset.py:91-95 | the attribute vocabulary is duplicate-free, contains every attribute of the table and nothing else, and lists names in order of first appearance |
| Literals.Resolve | dataset.py:97-100 | resolution succeeds exactly when every record's entity and attribute have ids; resolved cell k decodes to record k's entity and attribute and keeps its value |
| Literals.ScatterRow | dataset.py:110-117 | one entity's value and presence rows have one slot per attribute |
| Literals.ScatterRowLastWriterWins | dataset.py:107-120 | each slot of an entity's row holds the value of the last cell in table order that writes it, or the zero filler if none does; presence is 1 exactly where some cell writes the slot |
| Literals.Scatter | dataset.py:107-122 | the per-entity loop stacks one value row and one presence row per entity id, so both grids are `n × m`; the contents are stated by `Literals.LoadLiteralsLastWriterWins` |
| Literals.LoadLiterals | dataset.py:88-122 | features exist exactly when every subject is a known entity; both grids are `num_entities × num_attrs`; the rewritten attribute column decodes to the raw one |
| Literals.LoadLiteralsLastWriterWins | dataset.py:105-122 | in raw-record terms, grid cell (i, j) is the value of the last record naming `entities[i]` and `attrs[j]`, or zero if there is none; presence is 1 exactly when such a record exists |
| Literals.RawLastWriterExists | dataset.py:112-114 | whenever some record names an (entity, attribute) pair, one of them is the last |
| LiteralDataset.Build | dataset.py:17-42 | the build succeeds exactly when every name in every table has an id; the result keeps the given vocabularies, every split's edges decode to its triples, and both feature sets have the right shapes and attribute vocabularies |
| LiteralDataset.BuildSucceeds | dataset.py:54-86 | with vocabularies enumerating the tables' own names, in any order, no lookup fails |
| LiteralDataset.NumericFeaturesFollowRecords | dataset.py:105-122 | before normalisation, numeric cell (i, j) is the last matching record's value, or 0.0 when there is none; presence is 1 exactly when a matching record exists |
| LiteralDataset.TextualFeaturesFollowRecords | dataset.py:148-169 | textual slot (i, j) is `embed` of the last matching record's text, or D zeros when there is none; presence is 1 exactly when a matching record exists |
| LiteralDataset.TextualSlotsHaveEmbeddingLength | dataset.py:153-160 | when `embed` always yields D = 300 numbers, every textual slot has length D |
| LiteralDataset.EmbedValues | dataset.py:155-158 | replacing each text by its embedding keeps the table's subject and attribute columns unchanged, record for record, and record k's value becomes `embed` of record k's text |
| LiteralDataset.EmbeddedLastWriterWins | dataset.py:150-166 | embedding each text and then scattering gives the embedding of the last matching text in each slot |
| FrequencyFilter.Frequent | dataset.py:180-181 | keeps exactly the candidates whose count exceeds the threshold, without duplicates when the candidates have none |
| FrequencyFilter.KeptAttributes | dataset.py:176-181 | the kept ids are duplicate-free and are exactly the ids that occur in the raw column with a count strictly greater than `threshold`; a threshold at or above every count keeps nothing; a threshold below 1 keeps every id that occurs |
| FrequencyFilter.Pick | dataset.py:187-188 | picking columns yields one entry per requested column, equal to that column's entry |
| FrequencyFilter.SelectColumns | dataset.py:187-188 | `grid[:, cols]` keeps one row per input row, each with one entry per selected column, and entry (e, j) is the input's entry (e, `cols[j]`) |
| FrequencyFilter.SelectRows | dataset.py:191-192 | `grid[rows]` has one entry per requested position, and entry j is input row `rows[j]` |
| FrequencyFilter.FilterByFrequency | dataset.py:186-192 | the filtered features still have one row per entity; column j is the unchanged column `kept[j]` of the values and of the presence grid, under attribute name `attrs[kept[j]]`; names stay duplicate-free |
| FrequencyFilter.FilterAsWritten | dataset.py:186-192 | as the source writes it, the step fails (an `IndexError`) exactly when some kept attribute id is not an entity id; otherwise the filtered values keep one row per entity with column j equal to value column `kept[j]`, but the filtered presence has one row per KEPT ATTRIBUTE, namely presence row `kept[j]` |
| FrequencyFilter.FilterAsWrittenMisalignsPresence | dataset.py:191-192 | with two entities sharing one frequent attribute, the as-written presence has 1 row against 2 value rows, while the corrected filter keeps 2 |
| FrequencyFilter.FilterAsWrittenFailsOnFewEntities | dataset.py:191-192 | with one entity and attribute `b` (id 1) recorded twice, threshold 1, the as-written step indexes entity 1 of a one-entity grid and fails, while the corrected filter keeps column `b` |
| LiteralDataset.FilterLiterals | dataset.py:173-192 | filtering leaves the vocabularies and edges unchanged and keeps both feature sets entity-aligned; a kept attribute name is exactly one that occurs in its table more than `threshold` times, and it is kept once; each feature set is the corrected filter of the built one, so kept columns keep their contents |
| Clustering.OneHot | dataset.py:201-203 | the matrix is `num_entities × k`; row i has a 1 at column `assignment[i]` and 0 everywhere else, so it sums to 1; rows without a label are all zero |
| Clustering.OneHotRowSumsToOne | dataset.py:201-203 | a one-hot row sums to exactly 1 |
| Clustering.OneHotDecodes | dataset.py:201-203 | a one-hot row determines its cluster |

## Findings

| source | as written | input that shows it | evidently intended | confidence | as-written member | corrected member |
|---|---|---|---|---|---|---|
| dataset.py:191-192 | `attr_relations_num`/`_txt` hold the presence grids (dataset.py:41-42), so indexing them with the kept attribute ids selects presence ROWS, which are entities; when a kept id is not an entity id at all, the indexing raises `IndexError` | 2 entities that both carry attribute `a`, threshold 1: `a` is kept; the values keep 2 rows, but the presence is cut to 1 row, which is entity 0's row. 1 entity with records `(x, a)`, `(x, b)`, `(x, b)`, threshold 1: only `b`, id 1, is kept, and row 1 of a 1-row presence grid does not exist | restrict the presence columns and the attribute vocabulary to the kept ids, as the value grid is | high; not executed | FrequencyFilter.FilterAsWritten | FrequencyFilter.FilterByFrequency |

`FrequencyFilter.FilterAsWrittenMisalignsPresence` and
`FrequencyFilter.FilterAsWrittenFailsOnFewEntities` show the two counterexamples for the
as-written member. `LiteralDataset.FilterLiterals` uses the corrected member.

## Left out

- CSV loading, `torch.save` and `torch.load` (dataset.py:44-52, 206-234) are file I/O. The tables are in-memory sequences of records.
- Numeric parsing (`astype(float)`, dataset.py:102) is ingestion. Numeric values are already `real`, and float32 rounding is not modelled.
- Min-max normalisation (dataset.py:124-126) is floating-point arithmetic with an epsilon. The model stops at the pre-normalisation grid.
- The spaCy model (dataset.py:144, 158) is a foreign library. It is the `embed` parameter, and its length D = 300 is a hypothesis of `LiteralDataset.TextualSlotsHaveEmbeddingLength`.
- KMeans (dataset.py:196-198) is a numeric library. Its labels are the `assignment` input of `Clustering.OneHot`, one per entity and each below k.
- `.squeeze()` (dataset.py:171) drops the attribute axis of the textual tensor when there is exactly one attribute, or the entity axis when there is one entity. The model always keeps the entity × attribute × D shape.
- Line 142 casts the numeric table's value column to `str`, not the textual one. Nothing the model reads depends on the numeric column afterwards, so that half has no effect. The other half is that the textual value column is never cast: a cell that pandas reads as a number or as NaN reaches `nlp` (dataset.py:158) and fails there. The model's textual records hold `string` values, so it assumes every textual value is a string.
- The default arguments `threshold=100` (dataset.py:173) and `n_clusters=100` (dataset.py:194) are not modelled as defaults. The model takes the threshold and the cluster count `k` as explicit parameters.
- Calling the filter a second time is not modelled. The source would index already-filtered matrices with ids from the unfiltered column. `FrequencyFilter.FilterByFrequency` requires that every id in the column indexes the attribute vocabulary, so it models one call.
- `print`, `tqdm`, `transform`/`target_transform` and the `__getitem__` placeholder have no behaviour to model.
- Tables.LoadRelationalData: the source orders the vocabularies by a hash set. This function lists names by first appearance. The contract, and every result about `LiteralDataset.Build`, fixes no order.
- FrequencyFilter.KeptAttributes: the source lists surviving ids by decreasing count (`value_counts`). The contract states only which ids survive and that each survives once. The function itself lists them by first appearance.
- LiteralDataset.Build: the source turns an edge name without an id into NaN and keeps going. The model returns `None` instead. `LiteralDataset.BuildSucceeds` shows this cannot happen for vocabularies built from the same tables.
- The failures `EmptyVocabularyError`, `LiteralParseError` and `EmbeddingFailureError` do not appear in the code. Empty tables fail inside the CSV reader, and embedding failures inside spaCy, so none of them is modelled.
