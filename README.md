# SNOMED CT explorer over SQLite — a Dafny model

The explorer is a single-page tool over a local SNOMED CT release (Argentine
edition). It does four things:

- It loads the active Spanish descriptions and the active relationships from
  the release's tab-separated files into a SQLite store file, with four
  indexes. The files are read once, and the store can be deleted and rebuilt.
- It searches Fully Specified Names (FSNs) with `LIKE '%text%'`, at most 50
  rows.
- It shows one concept's neighbourhood: its Is-A parents, its attributes
  ordered by relationship group, and its Is-A children.
- It looks up the labels of every id on the page in one bulk query, and
  labels an id without an FSN "Desconocido".

The model has these files and modules:

- `text.dfy` (`Text`): SQLite's `LIKE` with its ASCII-only case folding,
  Python's `str.split`, and the code-point ordering of text. SQLite's
  `ORDER BY` and pandas' `groupby` both use that ordering.
- `tables.dfy` (`Tables`): a table as a sequence of rows, with row filters
  (a `WHERE` clause or a pandas mask) and projections, and the lemmas about
  them.
- `terminology.dfy` (`Terminology`): the description and relationship rows,
  the SNOMED CT constants, and the load-time filters.
- `store.dfy` (`GraphStore`): the store file as a class. Its fields are the
  two tables, whether the file exists, and the set of indexes. It has the
  loader, the existence check and the delete.
- `queries.dfy` (`Queries`): the search, the neighbourhood query and the bulk
  FSN lookup, as functions of the stored tables.
- `display.dfy` (`Display`): what the page builds from the query results:
  - the set of ids to resolve;
  - the labelled rows;
  - the attribute text, one `{ … }` block per relationship group;
  - the selector options `"term | conceptId"` and their parse.

  `Display.Explore` composes all of these for one selected option.

Rows come back from SQL in table order wherever the query leaves the order
open. Every column is text, as the loader reads every column with
`dtype=str`.

## Model

| member | source | states |
|---|---|---|
| Text.PercentMatchesAll | Buscador_SNOMED-CT_Sqlite3.py:253 | a lone `%` pattern matches every term |
| Text.LiteralThenPercent | Buscador_SNOMED-CT_Sqlite3.py:253 | for wildcard-free t, `t%` matches x exactly when t is a prefix of x up to ASCII case |
| Text.LeadingPercent | Buscador_SNOMED-CT_Sqlite3.py:253 | a leading `%` matches exactly when the rest of the pattern matches some suffix |
| Text.LikeIsFoldedSubstring | Buscador_SNOMED-CT_Sqlite3.py:253-258 | for wildcard-free search text, `%text%` matches a term exactly when the term contains the text up to ASCII case (both directions) |
| Text.IndexFrom | Buscador_SNOMED-CT_Sqlite3.py:345-346 | returns the first occurrence of the separator at or after a position, or nothing when there is none |
| Text.LastIndexUpTo | Buscador_SNOMED-CT_Sqlite3.py:345-346 | returns the last occurrence of the separator at or before a position, or nothing when there is none |
| Text.Split | Buscador_SNOMED-CT_Sqlite3.py:345-346 | `str.split` always yields at least one piece. `Text.SplitCutsAtFirstOccurrence` and `Text.SplitManyPiecesIffContains` characterise each cut, and `Text.SplitJoin` and `Text.SplitPiecesHaveNoSeparator` characterise the pieces |
| Text.SplitCutsAtFirstOccurrence | Buscador_SNOMED-CT_Sqlite3.py:345-346 | the first piece ends at the first occurrence of the separator, with none before it, and the remaining pieces are the split of what follows it |
| Text.SplitManyPiecesIffContains | Buscador_SNOMED-CT_Sqlite3.py:345-346 | a split has more than one piece exactly when the separator occurs |
| Text.SplitJoin | Buscador_SNOMED-CT_Sqlite3.py:345-346 | joining the pieces of a split with the separator gives back the string |
| Text.Join | Buscador_SNOMED-CT_Sqlite3.py:399 | no contract; `str.join`, characterised as the inverse of `str.split` by `Text.SplitJoin` and used by `Display.Block` |
| Text.SplitPiecesHaveNoSeparator | Buscador_SNOMED-CT_Sqlite3.py:345-346 | no piece of a split contains the separator |
| Text.IndexFromIsFirst | Buscador_SNOMED-CT_Sqlite3.py:345-346 | the first occurrence is the one with no occurrence before it |
| Text.NoOccurrenceSplitsToItself | Buscador_SNOMED-CT_Sqlite3.py:345-346 | a string without the separator splits to itself |
| Text.Like | Buscador_SNOMED-CT_Sqlite3.py:253 | no contract; characterised by `Text.PercentMatchesAll`, `Text.LiteralThenPercent`, `Text.LeadingPercent` and `Text.LikeIsFoldedSubstring` |
| Text.StrLeReflexive | Buscador_SNOMED-CT_Sqlite3.py:275 | the text order is reflexive |
| Text.StrLeAntisymmetric | Buscador_SNOMED-CT_Sqlite3.py:275 | the text order is antisymmetric |
| Text.StrLeTransitive | Buscador_SNOMED-CT_Sqlite3.py:275 | the text order is transitive |
| Text.StrLeTotal | Buscador_SNOMED-CT_Sqlite3.py:275 | any two group values are comparable |
| Text.GroupsOrderAsText | Buscador_SNOMED-CT_Sqlite3.py:275 | group "10" sorts before group "2", since groups are compared as text |
| Text.InsertDistinctSpec | Buscador_SNOMED-CT_Sqlite3.py:391 | inserting a key keeps the key list strictly ascending and adds exactly that key |
| Text.InsertDistinct | Buscador_SNOMED-CT_Sqlite3.py:391 | no contract; characterised by `Text.InsertDistinctSpec` |
| Text.SortedDistinct | Buscador_SNOMED-CT_Sqlite3.py:391 | no contract; characterised by `Text.SortedDistinctSpec` |
| Text.SortedDistinctSpec | Buscador_SNOMED-CT_Sqlite3.py:391 | the groupby keys are strictly ascending and are exactly the values present |
| Tables.Filter | Buscador_SNOMED-CT_Sqlite3.py:194-206 | a row filter keeps exactly the rows that pass the condition, and never more rows than it was given |
| Tables.Map | Buscador_SNOMED-CT_Sqlite3.py:266-281 | a projection keeps the length and maps each row in place |
| Tables.MapMembership | Buscador_SNOMED-CT_Sqlite3.py:266-281 | a value is in a projection exactly when some row projects to it |
| Tables.FilterAppend | Buscador_SNOMED-CT_Sqlite3.py:194-206 | filtering commutes with concatenation, so a filter keeps table order |
| Tables.FilterCount | Buscador_SNOMED-CT_Sqlite3.py:194-206 | a filter keeps each passing row as often as the input holds it and drops the rest |
| Tables.FilterAll | Buscador_SNOMED-CT_Sqlite3.py:391 | a filter that every row passes returns the table unchanged |
| Tables.FilterNone | Buscador_SNOMED-CT_Sqlite3.py:391 | a filter that no row passes returns nothing |
| Tables.FilterPartition | Buscador_SNOMED-CT_Sqlite3.py:266-276 | two disjoint conditions split the rows of their disjunction, with multiplicities |
| Terminology.KeepDescription | Buscador_SNOMED-CT_Sqlite3.py:194 | no contract; the mask, characterised by `Terminology.LoadedDescriptions` and `Terminology.LoadKeepsDuplicates` |
| Terminology.KeepRelationship | Buscador_SNOMED-CT_Sqlite3.py:206 | no contract; the mask, characterised by `Terminology.LoadedRelationships` and `Terminology.LoadKeepsDuplicates` |
| Terminology.LoadedDescriptions | Buscador_SNOMED-CT_Sqlite3.py:188-194 | a description row is stored exactly when it is in the file, active and Spanish |
| Terminology.LoadedRelationships | Buscador_SNOMED-CT_Sqlite3.py:200-206 | a relationship row is stored exactly when it is in the file and active |
| Terminology.LoadKeepsDuplicates | Buscador_SNOMED-CT_Sqlite3.py:194-206 | a kept row is stored as many times as the file holds it, and any other row is not stored |
| Terminology.LoadKeepsFileOrder | Buscador_SNOMED-CT_Sqlite3.py:194-206 | loading a file in two halves gives the halves' rows one after the other |
| GraphStore.WithIndex | Buscador_SNOMED-CT_Sqlite3.py:213-216 | `CREATE INDEX IF NOT EXISTS` adds the index when no index has that name, leaves the set exactly as it was when one does, and never removes one |
| GraphStore.WithIndexIdempotent | Buscador_SNOMED-CT_Sqlite3.py:213-216 | creating the same index twice is the same as creating it once |
| GraphStore.DropTableIndexes | Buscador_SNOMED-CT_Sqlite3.py:195-207 | replacing a table drops exactly that table's indexes |
| GraphStore.Store.constructor | Buscador_SNOMED-CT_Sqlite3.py:28 | a fresh configuration has no store file and nothing stored |
| GraphStore.Store.CheckExists | Buscador_SNOMED-CT_Sqlite3.py:170-171 | reports whether the store file exists |
| GraphStore.Store.Connect | Buscador_SNOMED-CT_Sqlite3.py:184 | connecting creates the store file |
| GraphStore.Store.ReplaceDescriptions | Buscador_SNOMED-CT_Sqlite3.py:195 | `to_sql(if_exists="replace")` stores the rows and drops the table's indexes |
| GraphStore.Store.ReplaceRelationships | Buscador_SNOMED-CT_Sqlite3.py:207 | the same for the relationships table |
| GraphStore.Store.CreateIndex | Buscador_SNOMED-CT_Sqlite3.py:213-216 | the index set becomes `WithIndex` of the old one |
| GraphStore.Store.Initialize | Buscador_SNOMED-CT_Sqlite3.py:173-222 | returns true exactly when both source files exist. A missing file leaves the store untouched. Otherwise the file exists, the tables hold the filtered rows in file order, and the index set is exactly the four indexes |
| GraphStore.Store.Remove | Buscador_SNOMED-CT_Sqlite3.py:299 | deleting the store file leaves no file, no rows and no indexes; the result is false only where the source would raise (see "## Left out") |
| GraphStore.RebuildRestoresLoad | Buscador_SNOMED-CT_Sqlite3.py:296-306 | load, delete and reload from the same files gives back the store of the first load, four indexes included |
| Queries.Search | Buscador_SNOMED-CT_Sqlite3.py:248-260 | at most 50 hits; the count is the smaller of 50 and the number of matching rows; each hit comes from a matching active FSN row |
| Queries.MatchesSearch | Buscador_SNOMED-CT_Sqlite3.py:253-255 | no contract; characterised by `Queries.SearchMatchIsFoldedSubstring` |
| Queries.SearchMatchIsFoldedSubstring | Buscador_SNOMED-CT_Sqlite3.py:253-255 | for wildcard-free text, a row matches exactly when it is an active FSN containing the text up to ASCII case |
| Queries.SearchSoundAndComplete | Buscador_SNOMED-CT_Sqlite3.py:248-260 | every hit is an active FSN containing the text; with at most 50 matches, every such row is a hit |
| Queries.SearchTakesFirstMatches | Buscador_SNOMED-CT_Sqlite3.py:256 | the hits are the first 50 matches in table order |
| Queries.ConsSortedByGroup | Buscador_SNOMED-CT_Sqlite3.py:275 | a row no greater than a sorted tail keeps it sorted |
| Queries.InsertByGroupPermutes | Buscador_SNOMED-CT_Sqlite3.py:275 | an insertion step is a permutation |
| Queries.InsertByGroupSorted | Buscador_SNOMED-CT_Sqlite3.py:275 | an insertion step keeps the rows ordered by group |
| Queries.InsertByGroupStable | Buscador_SNOMED-CT_Sqlite3.py:275 | an insertion step keeps the order of rows within each group |
| Queries.SortByGroupSpec | Buscador_SNOMED-CT_Sqlite3.py:275 | `ORDER BY relationshipGroup` gives rows sorted by group as text, a permutation of its input, each group in input order |
| Queries.Ancestors | Buscador_SNOMED-CT_Sqlite3.py:266 | no contract; characterised by `Queries.ProjectionMembership`, `Queries.NeighborhoodKeepsTableOrder` and `Queries.ConceptNeighborhood` |
| Queries.SortByGroup | Buscador_SNOMED-CT_Sqlite3.py:275 | no contract; characterised by `Queries.SortByGroupSpec` |
| Queries.Attributes | Buscador_SNOMED-CT_Sqlite3.py:270-276 | no contract; characterised by `Queries.ConceptNeighborhood` and `Queries.AttributeGroupsKeepTableOrder` |
| Queries.Descendants | Buscador_SNOMED-CT_Sqlite3.py:280 | no contract; characterised by `Queries.ProjectionMembership`, `Queries.NeighborhoodKeepsTableOrder` and `Queries.ConceptNeighborhood` |
| Queries.ConceptNeighborhood | Buscador_SNOMED-CT_Sqlite3.py:262-284 | parents are exactly the Is-A destinations of c and children exactly the Is-A sources into c, one per row; attributes are exactly the non-Is-A rows of c, sorted by group and a permutation of them |
| Queries.ProjectionMembership | Buscador_SNOMED-CT_Sqlite3.py:266-281 | membership in each of the three result columns, stated row by row |
| Queries.NeighborhoodKeepsTableOrder | Buscador_SNOMED-CT_Sqlite3.py:266-281 | parents and children come in table order with duplicates kept |
| Queries.IsAAndAttributesPartitionOutgoing | Buscador_SNOMED-CT_Sqlite3.py:266-276 | each outgoing row of a concept is either a parent row or an attribute row, never both |
| Queries.AttributeGroupsKeepTableOrder | Buscador_SNOMED-CT_Sqlite3.py:275 | within a relationship group, attributes keep table order |
| Queries.FirstFsn | Buscador_SNOMED-CT_Sqlite3.py:237-246 | there is a label exactly when the concept has an active FSN row, and the label is that row's term |
| Queries.FirstFsnIsEarliest | Buscador_SNOMED-CT_Sqlite3.py:246 | the label is the term of the earliest such row |
| Queries.NameLookup | Buscador_SNOMED-CT_Sqlite3.py:240-242 | no contract; the `WHERE` clause, characterised by `Queries.FirstTermPerConceptAt` and `Queries.ResolveNames` |
| Queries.FirstTermPerConcept | Buscador_SNOMED-CT_Sqlite3.py:246 | no contract; characterised by `Queries.FirstTermPerConceptAt` and `Queries.FirstTermPerConceptIsFirstFsn` |
| Queries.FirstTermPerConceptAt | Buscador_SNOMED-CT_Sqlite3.py:246 | `drop_duplicates` then `to_dict` maps c exactly when c was asked for and has an FSN, to its first FSN |
| Queries.FirstTermPerConceptIsFirstFsn | Buscador_SNOMED-CT_Sqlite3.py:237-246 | the same for every concept at once |
| Queries.ResolveNames | Buscador_SNOMED-CT_Sqlite3.py:230-246 | empty input gives an empty map; the keys are among the ids asked for; an id is a key exactly when it has an active FSN; its value is the first FSN's term |
| Queries.ResolveNamesSeesOnlyTheSet | Buscador_SNOMED-CT_Sqlite3.py:235 | the result depends only on the set of ids, not on order or repetition |
| Display.CollectIds | Buscador_SNOMED-CT_Sqlite3.py:352-359 | an id is resolved exactly when it is a parent, an attribute type, an attribute value or a child |
| Display.ListOf | Buscador_SNOMED-CT_Sqlite3.py:361 | `list(set)` holds each id of the set exactly once |
| Display.Label | Buscador_SNOMED-CT_Sqlite3.py:365-370 | no contract; characterised by `Display.LabelAll`, `Display.LabelAttributes` and `Display.LabelIsFirstFsn` |
| Display.LabelAll | Buscador_SNOMED-CT_Sqlite3.py:364-370 | each row keeps its id and takes the looked-up label, or "Desconocido" when there is none |
| Display.LabelAttributes | Buscador_SNOMED-CT_Sqlite3.py:366-368 | each attribute keeps its group, type and value, and its two labels fall back to "Desconocido" |
| Display.AttributeLine | Buscador_SNOMED-CT_Sqlite3.py:395 | no contract; characterised by `Display.RenderAttributes` and `Display.EveryRowHasItsBlock` |
| Display.Block | Buscador_SNOMED-CT_Sqlite3.py:399 | no contract; characterised by `Display.RenderAttributes` |
| Display.RowsInGroup | Buscador_SNOMED-CT_Sqlite3.py:391-393 | no contract; `df_grupo`, characterised by `Display.GroupKeysAreTheDistinctGroups`, `Display.EveryRowHasItsBlock` and `Display.AttributeBlocksPartitionRows` |
| Display.GroupKeys | Buscador_SNOMED-CT_Sqlite3.py:391 | no contract; the groups `groupby` visits, characterised by `Display.GroupKeysAreTheDistinctGroups` |
| Display.BlocksText | Buscador_SNOMED-CT_Sqlite3.py:389-399 | no contract; the blocks of the given groups, characterised by `Display.RenderAttributes` |
| Display.AttributeText | Buscador_SNOMED-CT_Sqlite3.py:389-399 | no contract; `texto_display`, characterised by `Display.RenderAttributes`, `Display.GroupKeysAreTheDistinctGroups` and `Display.AttributeBlocksPartitionRows` |
| Display.RenderAttributes | Buscador_SNOMED-CT_Sqlite3.py:389-399 | the groupby loop builds exactly one block per group, in group order, each block's lines in row order |
| Display.GroupKeysAreTheDistinctGroups | Buscador_SNOMED-CT_Sqlite3.py:391 | groups are visited in strictly ascending text order, each once; they are exactly the groups present, and none is empty |
| Display.GroupedRowsCount | Buscador_SNOMED-CT_Sqlite3.py:391-396 | the rows of distinct groups, taken together, are the rows whose group is among them |
| Display.AttributeBlocksPartitionRows | Buscador_SNOMED-CT_Sqlite3.py:391-399 | the groups the text renders, taken in order, hold every attribute row exactly as often as the rows do: each row lands in exactly one block |
| Display.EveryRowHasItsBlock | Buscador_SNOMED-CT_Sqlite3.py:391-399 | every attribute row's line is in the block of its group, and that group is one the text renders |
| Display.SeparatorAt | Buscador_SNOMED-CT_Sqlite3.py:345-346 | where the `" \| "` separator occurs, character by character |
| Display.FormatOption | Buscador_SNOMED-CT_Sqlite3.py:334 | no contract; characterised by `Display.ParseOptionRoundTrip` and `Display.ParseOptionLastRoundTrip` |
| Display.ParseOption | Buscador_SNOMED-CT_Sqlite3.py:345-346 | no contract; the parse as written, characterised by `Display.ParseOptionRoundTrip` and the two counterexample lemmas |
| Display.ParseOptionRoundTrip | Buscador_SNOMED-CT_Sqlite3.py:334-346 | the option of a hit parses back to the hit when the term neither contains `" \| "` nor ends in `" \|"` and the id has no separator |
| Display.ParseOptionMisreadsSeparatorInTerm | Buscador_SNOMED-CT_Sqlite3.py:334-346 | the term "a \| b" with id "123" parses to the id "b" |
| Display.ParseOptionMisreadsTrailingBar | Buscador_SNOMED-CT_Sqlite3.py:334-346 | the term "a \|" with id "123" parses to the id "\| 123" |
| Display.ParseOptionLast | Buscador_SNOMED-CT_Sqlite3.py:345-346 | no contract; the corrected parse, characterised by `Display.ParseOptionLastRoundTrip` |
| Display.ParseOptionLastRoundTrip | Buscador_SNOMED-CT_Sqlite3.py:334-346 | splitting at the last separator gives back every hit whose id has no `\|`, whatever the term holds |
| Display.LabelIsFirstFsn | Buscador_SNOMED-CT_Sqlite3.py:361-370 | the label of a looked-up id is its first FSN when it has one and "Desconocido" exactly when it has none |
| Display.Explore | Buscador_SNOMED-CT_Sqlite3.py:343-399 | the option is read with `split(" \| ")` as the source does, and the page shows the hit that parse yields. Its parents, attributes and children are the neighbourhood's rows in order, each labelled with its first FSN or "Desconocido". Its attribute text is the grouped rendering of those attributes |

## Left out

- The Streamlit interface is not modelled because the model has no UI. That covers widgets, CSS and the floating clear button, session state, messages, progress bars, the page reruns, and the plain `id |fsn|` text lines of parents and children.
- The Excel export of selected children is not modelled. It is file output through a library.
- CSV parsing is not modelled. `Store.Initialize` takes each file's parsed rows as a sequence and the file's presence as a boolean.
- The SQLite engine is reduced to its effect on the tables and the index set. Connections, commits, cursors, the query planner and what indexes do for speed are not modelled.
- The lookup query builds its `IN` list by quoting ids into the SQL text. The model uses the set of ids directly, so an id holding a quote, which would break the statement, is not modelled.
- A load that fails part way, for example on a read error after the connection is open, is not modelled. Such a load can leave a partial store file behind.
- Missing values (NaN/NULL) are not modelled. Every column is a string.
- Queries.SortByGroupSpec: SQLite leaves the order of rows with equal groups open. The model fixes it to table order (a stable sort), and its lemmas state only what holds for every order together with that choice.
- Queries.ResolveNames: the lookup query has no `ORDER BY`, so which duplicate FSN `drop_duplicates` keeps depends on SQLite's row order. The model takes table order.
- Display.Explore: in the source, an option without a separator raises an `IndexError`. The model returns no page instead. Options the page builds always hold a separator, so this case is not reached from the selector.
- GraphStore.Store.Remove: on a missing file `os.remove` raises `FileNotFoundError`. The model returns false instead and clears nothing that is not already empty. The call site only deletes after the existence check at line 296, so the source never reaches that case.
- Display.ListOf: the order of `list(set)` depends on Python's hashing. The model picks any order, and the lookup does not depend on it (`Queries.ResolveNamesSeesOnlyTheSet`).

## Findings

| source | as written | input that shows it | evidently intended | confidence | as-written member | corrected member |
|---|---|---|---|---|---|---|
| Buscador_SNOMED-CT_Sqlite3.py:345-346 | the selected option is cut with `split(" \| ")`, taking piece 0 as the term and piece 1 as the id | the term "a \| b" with id "123" gives the option "a \| b \| 123", whose id reads as "b"; a term ending in " \|" gives "a \| \| 123", whose id reads as "\| 123" | take the id after the last separator (`rsplit(" \| ", 1)`), which gives back every term | not executed | Display.ParseOption, Display.ParseOptionMisreadsSeparatorInTerm, Display.ParseOptionMisreadsTrailingBar | Display.ParseOptionLast, Display.ParseOptionLastRoundTrip |
