/** The SQLite store file and its one-shot loader. The store is either absent
    or holds the two tables and their indexes. */
module GraphStore {
  import opened Terminology

  /** A named index on one column of one table. */
  datatype Index = Index(name: string, table: string, column: string)

  const DESCRIPTIONS_TABLE := "descriptions"
  const RELATIONSHIPS_TABLE := "relationships"

  const TERM_INDEX := Index("idx_desc_term", DESCRIPTIONS_TABLE, "term")
  const CONCEPT_INDEX := Index("idx_desc_cid", DESCRIPTIONS_TABLE, "conceptId")
  const SOURCE_INDEX := Index("idx_rel_source", RELATIONSHIPS_TABLE, "sourceId")
  const DESTINATION_INDEX := Index("idx_rel_dest", RELATIONSHIPS_TABLE, "destinationId")

  /** The four indexes a finished load leaves in the store. */
  const STORE_INDEXES := {TERM_INDEX, CONCEPT_INDEX, SOURCE_INDEX, DESTINATION_INDEX}

  /** CREATE INDEX IF NOT EXISTS: adds idx unless an index of that name is
      already there. */
  function WithIndex(indexes: set<Index>, idx: Index): (r: set<Index>)
    ensures indexes <= r <= indexes + {idx}
    ensures exists i :: i in r && i.name == idx.name
    ensures (forall i :: i in indexes ==> i.name != idx.name) ==> idx in r
    ensures (exists i :: i in indexes && i.name == idx.name) ==> r == indexes
  {
    if exists i :: i in indexes && i.name == idx.name then indexes else indexes + {idx}
  }

  /** Re-creating an index is a no-op. */
  lemma WithIndexIdempotent(indexes: set<Index>, idx: Index)
    ensures WithIndex(WithIndex(indexes, idx), idx) == WithIndex(indexes, idx)
  {
  }

  /** DROP TABLE takes the table's indexes with it. */
  function DropTableIndexes(indexes: set<Index>, table: string): (r: set<Index>)
    ensures forall i :: i in r <==> i in indexes && i.table != table
  {
    set i | i in indexes && i.table != table
  }

  class Store {
    var descriptions: seq<Description>
    var relationships: seq<Relationship>
    /** Whether the store file is on disk. */
    var fileExists: bool
    var indexes: set<Index>

    /** The store holds only the loader's two tables; without a file it holds
        nothing. */
    ghost predicate Valid()
      reads this
    {
      && (forall i :: i in indexes ==> i.table == DESCRIPTIONS_TABLE || i.table == RELATIONSHIPS_TABLE)
      && (!fileExists ==> descriptions == [] && relationships == [] && indexes == {})
    }

    /** A configuration with no store file yet. */
    constructor ()
      ensures Valid() && !fileExists
      ensures descriptions == [] && relationships == [] && indexes == {}
    {
      descriptions, relationships, fileExists, indexes := [], [], false, {};
    }

    /** Whether the store file exists. */
    method CheckExists() returns (b: bool)
      ensures b == fileExists
    {
      b := fileExists;
    }

    /** Opening a connection creates the store file if it is missing. */
    method Connect()
      requires Valid()
      modifies this`fileExists
      ensures Valid() && fileExists
    {
      fileExists := true;
    }

    /** to_sql with if_exists="replace": drop the table, indexes included,
        and store the rows. */
    method ReplaceDescriptions(rows: seq<Description>)
      requires Valid() && fileExists
      modifies this`descriptions, this`indexes
      ensures Valid()
      ensures descriptions == rows
      ensures indexes == DropTableIndexes(old(indexes), DESCRIPTIONS_TABLE)
    {
      descriptions := rows;
      indexes := DropTableIndexes(indexes, DESCRIPTIONS_TABLE);
    }

    method ReplaceRelationships(rows: seq<Relationship>)
      requires Valid() && fileExists
      modifies this`relationships, this`indexes
      ensures Valid()
      ensures relationships == rows
      ensures indexes == DropTableIndexes(old(indexes), RELATIONSHIPS_TABLE)
    {
      relationships := rows;
      indexes := DropTableIndexes(indexes, RELATIONSHIPS_TABLE);
    }

    /** CREATE INDEX IF NOT EXISTS on one of the two tables. */
    method CreateIndex(idx: Index)
      requires Valid() && fileExists
      requires idx.table == DESCRIPTIONS_TABLE || idx.table == RELATIONSHIPS_TABLE
      modifies this`indexes
      ensures Valid()
      ensures indexes == WithIndex(old(indexes), idx)
    {
      indexes := WithIndex(indexes, idx);
    }

    /** The loader. The two file flags say whether the source files are on
        disk; the two sequences are their parsed rows. A missing file fails the
        load before the store is touched. */
    method Initialize(descFilePresent: bool, relFilePresent: bool,
                      descSource: seq<Description>, relSource: seq<Relationship>)
      returns (ok: bool)
      requires Valid()
      modifies this
      ensures Valid()
      ensures ok == (descFilePresent && relFilePresent)
      ensures !ok ==> unchanged(this)
      ensures ok ==> fileExists && indexes == STORE_INDEXES
      ensures ok ==> descriptions == LoadedDescriptions(descSource)
      ensures ok ==> relationships == LoadedRelationships(relSource)
    {
      if !descFilePresent || !relFilePresent {
        return false;
      }
      Connect();
      ReplaceDescriptions(LoadedDescriptions(descSource));
      ReplaceRelationships(LoadedRelationships(relSource));
      assert indexes == {};
      CreateIndex(TERM_INDEX);
      CreateIndex(CONCEPT_INDEX);
      CreateIndex(SOURCE_INDEX);
      CreateIndex(DESTINATION_INDEX);
      ok := true;
    }

    /** Deleting the store file removes the tables and indexes with it; there
        is nothing to delete when the file is absent. */
    method Remove() returns (ok: bool)
      requires Valid()
      modifies this
      ensures Valid() && !fileExists
      ensures ok == old(fileExists)
      ensures descriptions == [] && relationships == [] && indexes == {}
    {
      ok := fileExists;
      descriptions, relationships, fileExists, indexes := [], [], false, {};
    }
  }

  /** A rebuild followed by a fresh load from the same files restores the store
      a first load produced. */
  method RebuildRestoresLoad(store: Store, descSource: seq<Description>, relSource: seq<Relationship>)
    returns (firstDescriptions: seq<Description>, firstRelationships: seq<Relationship>, firstIndexes: set<Index>)
    requires store.Valid()
    modifies store
    ensures store.Valid() && store.fileExists
    ensures firstDescriptions == LoadedDescriptions(descSource)
    ensures firstRelationships == LoadedRelationships(relSource)
    ensures store.descriptions == firstDescriptions
    ensures store.relationships == firstRelationships
    ensures store.indexes == firstIndexes == STORE_INDEXES
  {
    var ok := store.Initialize(true, true, descSource, relSource);
    firstDescriptions, firstRelationships, firstIndexes := store.descriptions, store.relationships, store.indexes;
    var removed := store.Remove();
    assert removed && !store.fileExists;
    ok := store.Initialize(true, true, descSource, relSource);
  }
}
