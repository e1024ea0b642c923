/** The rows of a SNOMED CT release that the explorer keeps, and the filters
    that select them at load time. Every column is read as text. */
module Terminology {
  import opened Tables

  /** A row of the Description file (the columns the loader reads). */
  datatype Description = Description(
    active: string,
    conceptId: string,
    languageCode: string,
    typeId: string,
    term: string)

  /** A row of the Relationship file (the columns the loader reads). */
  datatype Relationship = Relationship(
    active: string,
    sourceId: string,
    destinationId: string,
    relationshipGroup: string,
    typeId: string)

  /** The relationship type of hierarchy edges ("Is a"). */
  const IS_A := "116680003"
  /** The description type of Fully Specified Names. */
  const FSN_TYPE := "900000000000003001"
  const ACTIVE := "1"
  const TARGET_LANGUAGE := "es"

  function KeepDescription(): Description -> bool
  {
    (d: Description) => d.active == ACTIVE && d.languageCode == TARGET_LANGUAGE
  }

  function KeepRelationship(): Relationship -> bool
  {
    (r: Relationship) => r.active == ACTIVE
  }

  /** The description rows the loader stores: the active Spanish ones, in
      file order. */
  function LoadedDescriptions(rows: seq<Description>): (r: seq<Description>)
    ensures forall d :: d in r <==> d in rows && d.active == ACTIVE && d.languageCode == TARGET_LANGUAGE
  {
    Filter(rows, KeepDescription())
  }

  /** The relationship rows the loader stores: the active ones, in file order. */
  function LoadedRelationships(rows: seq<Relationship>): (r: seq<Relationship>)
    ensures forall x :: x in r <==> x in rows && x.active == ACTIVE
  {
    Filter(rows, KeepRelationship())
  }

  /** A kept row is stored as many times as the file holds it; any other row
      not at all. */
  lemma LoadKeepsDuplicates(rows: seq<Description>, rels: seq<Relationship>, d: Description, x: Relationship)
    ensures multiset(LoadedDescriptions(rows))[d]
            == if d.active == ACTIVE && d.languageCode == TARGET_LANGUAGE then multiset(rows)[d] else 0
    ensures multiset(LoadedRelationships(rels))[x] == if x.active == ACTIVE then multiset(rels)[x] else 0
  {
    FilterCount(rows, KeepDescription(), d);
    FilterCount(rels, KeepRelationship(), x);
  }

  /** Loading a file in two halves gives the two halves' rows one after the
      other: the load keeps file order. */
  lemma LoadKeepsFileOrder(a: seq<Description>, b: seq<Description>, x: seq<Relationship>, y: seq<Relationship>)
    ensures LoadedDescriptions(a + b) == LoadedDescriptions(a) + LoadedDescriptions(b)
    ensures LoadedRelationships(x + y) == LoadedRelationships(x) + LoadedRelationships(y)
  {
    FilterAppend(a, b, KeepDescription());
    FilterAppend(x, y, KeepRelationship());
  }
}
