/** The three read-only queries over the loaded tables: concept search, a
    concept's one-hop neighbourhood, and bulk FSN lookup. Rows come back in
    table order wherever SQL leaves the order open. */
module Queries {
  import opened Text
  import opened Tables
  import opened Terminology

  // ---------------------------------------------------------------------------
  // Concept search
  // ---------------------------------------------------------------------------

  const SEARCH_LIMIT := 50

  /** One search result: the (conceptId, term) columns. */
  datatype Hit = Hit(conceptId: string, term: string)

  predicate IsActiveFsn(d: Description)
  {
    d.typeId == FSN_TYPE && d.active == ACTIVE
  }

  function ToHit(d: Description): Hit
  {
    Hit(d.conceptId, d.term)
  }

  /** WHERE term LIKE '%text%' AND typeId = FSN_TYPE AND active = '1'. */
  function MatchesSearch(text: string): Description -> bool
  {
    (d: Description) => Like(d.term, "%" + text + "%") && IsActiveFsn(d)
  }

  /** The search query with LIMIT 50. */
  function Search(descriptions: seq<Description>, text: string): (r: seq<Hit>)
    ensures |r| <= SEARCH_LIMIT
    ensures |r| == Min(SEARCH_LIMIT, |Filter(descriptions, MatchesSearch(text))|)
    ensures forall h :: h in r ==> exists d :: d in descriptions && MatchesSearch(text)(d) && h == ToHit(d)
  {
    var matches := Filter(descriptions, MatchesSearch(text));
    var first := matches[..Min(SEARCH_LIMIT, |matches|)];
    assert forall h :: h in Map(first, ToHit) ==> exists d :: d in first && h == ToHit(d) by {
      forall h | h in Map(first, ToHit) ensures exists d :: d in first && h == ToHit(d) {
        MapMembership(first, ToHit, h);
      }
    }
    Map(first, ToHit)
  }

  /** Without wildcards in the text, a row matches exactly when it is an
      active FSN whose term contains the text up to ASCII case. */
  lemma SearchMatchIsFoldedSubstring(text: string, d: Description)
    requires NoWildcards(text)
    ensures MatchesSearch(text)(d) <==> IsActiveFsn(d) && ContainsFolded(d.term, text)
  {
    LikeIsFoldedSubstring(d.term, text);
  }

  /** Every hit is an active FSN containing the text up to ASCII case; and
      when there are at most 50 such rows, every one of them is a hit. */
  lemma SearchSoundAndComplete(descriptions: seq<Description>, text: string)
    requires NoWildcards(text)
    ensures forall h :: h in Search(descriptions, text) ==>
      exists d :: d in descriptions && IsActiveFsn(d) && ContainsFolded(d.term, text) && h == ToHit(d)
    ensures |Filter(descriptions, MatchesSearch(text))| <= SEARCH_LIMIT ==>
      forall d :: d in descriptions && IsActiveFsn(d) && ContainsFolded(d.term, text) ==> ToHit(d) in Search(descriptions, text)
  {
    forall d | d in descriptions
      ensures MatchesSearch(text)(d) <==> IsActiveFsn(d) && ContainsFolded(d.term, text)
    {
      SearchMatchIsFoldedSubstring(text, d);
    }
    var matches := Filter(descriptions, MatchesSearch(text));
    if |matches| <= SEARCH_LIMIT {
      assert matches[..Min(SEARCH_LIMIT, |matches|)] == matches;
      forall d | d in descriptions && IsActiveFsn(d) && ContainsFolded(d.term, text)
        ensures ToHit(d) in Search(descriptions, text)
      {
        MapMembership(matches, ToHit, ToHit(d));
      }
    }
  }

  /** The hits are the first matches in table order: rows after the first 50
      matches never change the result. */
  lemma SearchTakesFirstMatches(a: seq<Description>, b: seq<Description>, text: string)
    ensures Search(a + b, text)
            == (Search(a, text) + Search(b, text))[..Min(SEARCH_LIMIT, |Search(a, text)| + |Search(b, text)|)]
  {
    var p := MatchesSearch(text);
    FilterAppend(a, b, p);
    var fa, fb := Filter(a, p), Filter(b, p);
    var lhs := Search(a + b, text);
    var rhs := (Search(a, text) + Search(b, text))[..Min(SEARCH_LIMIT, |Search(a, text)| + |Search(b, text)|)];
    assert |lhs| == |rhs|;
    forall i | 0 <= i < |lhs| ensures lhs[i] == rhs[i] {
      assert lhs[i] == ToHit((fa + fb)[i]);
      if i < |fa| {
        assert rhs[i] == Search(a, text)[i] == ToHit(fa[i]);
      } else {
        assert rhs[i] == Search(b, text)[i - |Search(a, text)|] == ToHit(fb[i - |fa|]);
      }
    }
  }

  // ---------------------------------------------------------------------------
  // Neighbourhood of a concept
  // ---------------------------------------------------------------------------

  /** One attribute row: the (relationshipGroup, typeId, destinationId)
      columns. */
  datatype Attribute = Attribute(group: string, typeId: string, destinationId: string)

  function ToAttribute(r: Relationship): Attribute
  {
    Attribute(r.relationshipGroup, r.typeId, r.destinationId)
  }

  function DestinationOf(r: Relationship): string { r.destinationId }
  function SourceOf(r: Relationship): string { r.sourceId }

  function OutgoingFrom(c: string): Relationship -> bool
  {
    (r: Relationship) => r.sourceId == c
  }

  function IsAFrom(c: string): Relationship -> bool
  {
    (r: Relationship) => r.sourceId == c && r.typeId == IS_A
  }

  function AttributeFrom(c: string): Relationship -> bool
  {
    (r: Relationship) => r.sourceId == c && r.typeId != IS_A
  }

  function IsATo(c: string): Relationship -> bool
  {
    (r: Relationship) => r.destinationId == c && r.typeId == IS_A
  }

  /** SELECT destinationId WHERE sourceId = c AND typeId = IS_A. */
  function Ancestors(relationships: seq<Relationship>, c: string): seq<string>
  {
    Map(Filter(relationships, IsAFrom(c)), DestinationOf)
  }

  /** SELECT sourceId WHERE destinationId = c AND typeId = IS_A. */
  function Descendants(relationships: seq<Relationship>, c: string): seq<string>
  {
    Map(Filter(relationships, IsATo(c)), SourceOf)
  }

  predicate SortedByGroup(s: seq<Attribute>)
  {
    forall i, j :: 0 <= i < j < |s| ==> StrLe(s[i].group, s[j].group)
  }

  function InGroup(g: string): Attribute -> bool
  {
    (a: Attribute) => a.group == g
  }

  /** Places a before the first row whose group is not smaller. */
  function InsertByGroup(a: Attribute, s: seq<Attribute>): seq<Attribute>
  {
    if |s| == 0 || StrLe(a.group, s[0].group) then [a] + s
    else [s[0]] + InsertByGroup(a, s[1..])
  }

  /** ORDER BY relationshipGroup, comparing the groups as text; rows of one
      group keep their table order. */
  function SortByGroup(s: seq<Attribute>): seq<Attribute>
  {
    if |s| == 0 then [] else InsertByGroup(s[0], SortByGroup(s[1..]))
  }

  lemma ConsSortedByGroup(x: Attribute, t: seq<Attribute>)
    requires SortedByGroup(t)
    requires forall y :: y in t ==> StrLe(x.group, y.group)
    ensures SortedByGroup([x] + t)
  {
    var r := [x] + t;
    forall i, j | 0 <= i < j < |r| ensures StrLe(r[i].group, r[j].group) {
      assert r[j] == t[j - 1];
      if i > 0 {
        assert r[i] == t[i - 1];
      }
    }
  }

  lemma {:induction false} InsertByGroupPermutes(a: Attribute, s: seq<Attribute>)
    ensures multiset(InsertByGroup(a, s)) == multiset([a] + s)
  {
    if |s| > 0 && !StrLe(a.group, s[0].group) {
      InsertByGroupPermutes(a, s[1..]);
      assert s == [s[0]] + s[1..];
    }
  }

  lemma {:induction false} InsertByGroupSorted(a: Attribute, s: seq<Attribute>)
    requires SortedByGroup(s)
    ensures SortedByGroup(InsertByGroup(a, s))
  {
    if |s| > 0 && !StrLe(a.group, s[0].group) {
      var tail := s[1..];
      assert SortedByGroup(tail) by {
        forall i, j | 0 <= i < j < |tail| ensures StrLe(tail[i].group, tail[j].group) {
          assert tail[i] == s[i + 1] && tail[j] == s[j + 1];
        }
      }
      InsertByGroupSorted(a, tail);
      InsertByGroupPermutes(a, tail);
      StrLeTotal(a.group, s[0].group);
      var rest := InsertByGroup(a, tail);
      forall y | y in rest ensures StrLe(s[0].group, y.group) {
        assert y in multiset([a] + tail);
        if y != a {
          assert y in tail;
          var k :| 0 <= k < |tail| && tail[k] == y;
          assert s[k + 1] == y;
        }
      }
      ConsSortedByGroup(s[0], rest);
    } else if |s| > 0 {
      forall y | y in s ensures StrLe(a.group, y.group) {
        var k :| 0 <= k < |s| && s[k] == y;
        if k > 0 {
          StrLeTransitive(a.group, s[0].group, y.group);
        }
      }
      ConsSortedByGroup(a, s);
    }
  }

  /** Inserting keeps the rows of every group in their order. */
  lemma {:induction false} InsertByGroupStable(a: Attribute, s: seq<Attribute>, g: string)
    ensures Filter(InsertByGroup(a, s), InGroup(g)) == Filter([a] + s, InGroup(g))
  {
    if |s| > 0 && !StrLe(a.group, s[0].group) {
      InsertByGroupStable(a, s[1..], g);
      StrLeReflexive(a.group);
      assert s[0].group != a.group;
      var r := [s[0]] + InsertByGroup(a, s[1..]);
      assert r[0] == s[0] && r[1..] == InsertByGroup(a, s[1..]);
      assert ([a] + s)[0] == a && ([a] + s)[1..] == s;
      assert ([a] + s[1..])[0] == a && ([a] + s[1..])[1..] == s[1..];
    }
  }

  /** The ORDER BY result is sorted by group as text, is a permutation of its
      input, and keeps each group's rows in table order. */
  lemma {:induction false} SortByGroupSpec(s: seq<Attribute>)
    ensures SortedByGroup(SortByGroup(s))
    ensures multiset(SortByGroup(s)) == multiset(s)
    ensures forall a :: a in SortByGroup(s) <==> a in s
    ensures forall g :: Filter(SortByGroup(s), InGroup(g)) == Filter(s, InGroup(g))
  {
    if |s| > 0 {
      SortByGroupSpec(s[1..]);
      InsertByGroupSorted(s[0], SortByGroup(s[1..]));
      InsertByGroupPermutes(s[0], SortByGroup(s[1..]));
      assert s == [s[0]] + s[1..];
      assert forall a :: a in SortByGroup(s) <==> a in multiset(SortByGroup(s));
      forall g ensures Filter(SortByGroup(s), InGroup(g)) == Filter(s, InGroup(g)) {
        InsertByGroupStable(s[0], SortByGroup(s[1..]), g);
        var t := [s[0]] + SortByGroup(s[1..]);
        assert t[0] == s[0] && t[1..] == SortByGroup(s[1..]);
      }
    }
  }

  /** SELECT relationshipGroup, typeId, destinationId WHERE sourceId = c AND
      typeId != IS_A ORDER BY relationshipGroup. */
  function Attributes(relationships: seq<Relationship>, c: string): seq<Attribute>
  {
    SortByGroup(Map(Filter(relationships, AttributeFrom(c)), ToAttribute))
  }

  /** The three result tables of one concept lookup. */
  datatype Neighborhood = Neighborhood(ancestors: seq<string>, attributes: seq<Attribute>, descendants: seq<string>)

  /** The concept lookup: Is-A parents, attributes, Is-A children. */
  function ConceptNeighborhood(relationships: seq<Relationship>, c: string): (n: Neighborhood)
    ensures forall x :: x in n.ancestors <==>
      exists r :: r in relationships && r.sourceId == c && r.typeId == IS_A && r.destinationId == x
    ensures |n.ancestors| == |Filter(relationships, IsAFrom(c))|
    ensures forall x :: x in n.descendants <==>
      exists r :: r in relationships && r.destinationId == c && r.typeId == IS_A && r.sourceId == x
    ensures |n.descendants| == |Filter(relationships, IsATo(c))|
    ensures forall a :: a in n.attributes <==>
      exists r :: r in relationships && r.sourceId == c && r.typeId != IS_A && a == ToAttribute(r)
    ensures SortedByGroup(n.attributes)
    ensures multiset(n.attributes) == multiset(Map(Filter(relationships, AttributeFrom(c)), ToAttribute))
  {
    ProjectionMembership(relationships, c);
    SortByGroupSpec(Map(Filter(relationships, AttributeFrom(c)), ToAttribute));
    Neighborhood(Ancestors(relationships, c), Attributes(relationships, c), Descendants(relationships, c))
  }

  lemma ProjectionMembership(relationships: seq<Relationship>, c: string)
    ensures forall x :: x in Ancestors(relationships, c) <==>
      exists r :: r in relationships && r.sourceId == c && r.typeId == IS_A && r.destinationId == x
    ensures forall x :: x in Descendants(relationships, c) <==>
      exists r :: r in relationships && r.destinationId == c && r.typeId == IS_A && r.sourceId == x
    ensures forall a :: a in Map(Filter(relationships, AttributeFrom(c)), ToAttribute) <==>
      exists r :: r in relationships && r.sourceId == c && r.typeId != IS_A && a == ToAttribute(r)
  {
    forall x ensures x in Ancestors(relationships, c) <==>
      exists r :: r in relationships && r.sourceId == c && r.typeId == IS_A && r.destinationId == x
    {
      MapMembership(Filter(relationships, IsAFrom(c)), DestinationOf, x);
    }
    forall x ensures x in Descendants(relationships, c) <==>
      exists r :: r in relationships && r.destinationId == c && r.typeId == IS_A && r.sourceId == x
    {
      MapMembership(Filter(relationships, IsATo(c)), SourceOf, x);
    }
    forall a ensures a in Map(Filter(relationships, AttributeFrom(c)), ToAttribute) <==>
      exists r :: r in relationships && r.sourceId == c && r.typeId != IS_A && a == ToAttribute(r)
    {
      MapMembership(Filter(relationships, AttributeFrom(c)), ToAttribute, a);
    }
  }

  /** Ancestors and descendants list matching rows in table order, duplicates
      kept. */
  lemma NeighborhoodKeepsTableOrder(a: seq<Relationship>, b: seq<Relationship>, c: string)
    ensures ConceptNeighborhood(a + b, c).ancestors == ConceptNeighborhood(a, c).ancestors + ConceptNeighborhood(b, c).ancestors
    ensures ConceptNeighborhood(a + b, c).descendants == ConceptNeighborhood(a, c).descendants + ConceptNeighborhood(b, c).descendants
  {
    FilterAppend(a, b, IsAFrom(c));
    FilterAppend(a, b, IsATo(c));
    MapAppend(Filter(a, IsAFrom(c)), Filter(b, IsAFrom(c)), DestinationOf);
    MapAppend(Filter(a, IsATo(c)), Filter(b, IsATo(c)), SourceOf);
  }

  /** The Is-A rows and the attribute rows split a concept's outgoing
      relationships: each outgoing row is in exactly one of the two. */
  lemma IsAAndAttributesPartitionOutgoing(relationships: seq<Relationship>, c: string)
    ensures multiset(Filter(relationships, OutgoingFrom(c)))
            == multiset(Filter(relationships, IsAFrom(c))) + multiset(Filter(relationships, AttributeFrom(c)))
  {
    FilterPartition(relationships, IsAFrom(c), AttributeFrom(c), OutgoingFrom(c));
  }

  /** Within one relationship group the attributes keep table order. */
  lemma AttributeGroupsKeepTableOrder(relationships: seq<Relationship>, c: string, g: string)
    ensures Filter(ConceptNeighborhood(relationships, c).attributes, InGroup(g))
            == Filter(Map(Filter(relationships, AttributeFrom(c)), ToAttribute), InGroup(g))
  {
    SortByGroupSpec(Map(Filter(relationships, AttributeFrom(c)), ToAttribute));
  }

  // ---------------------------------------------------------------------------
  // Bulk FSN lookup
  // ---------------------------------------------------------------------------

  /** The term of the first active FSN row of concept c, in table order. */
  function FirstFsn(descriptions: seq<Description>, c: string): (r: Option<string>)
    ensures r.Some? <==> exists d :: d in descriptions && IsActiveFsn(d) && d.conceptId == c
    ensures r.Some? ==> exists d :: d in descriptions && IsActiveFsn(d) && d.conceptId == c && d.term == r.value
  {
    if |descriptions| == 0 then None
    else if IsActiveFsn(descriptions[0]) && descriptions[0].conceptId == c then Some(descriptions[0].term)
    else FirstFsn(descriptions[1..], c)
  }

  /** FirstFsn picks the row with the smallest index. */
  lemma {:induction false} FirstFsnIsEarliest(descriptions: seq<Description>, c: string, i: nat)
    requires i < |descriptions| && IsActiveFsn(descriptions[i]) && descriptions[i].conceptId == c
    requires forall j :: 0 <= j < i ==> !(IsActiveFsn(descriptions[j]) && descriptions[j].conceptId == c)
    ensures FirstFsn(descriptions, c) == Some(descriptions[i].term)
  {
    if i > 0 {
      forall j | 0 <= j < i - 1
        ensures !(IsActiveFsn(descriptions[1..][j]) && descriptions[1..][j].conceptId == c)
      {
        assert descriptions[1..][j] == descriptions[j + 1];
      }
      FirstFsnIsEarliest(descriptions[1..], c, i - 1);
    }
  }

  /** WHERE conceptId IN ids AND typeId = FSN_TYPE AND active = '1'. */
  function NameLookup(ids: set<string>): Description -> bool
  {
    (d: Description) => d.conceptId in ids && d.typeId == FSN_TYPE && d.active == ACTIVE
  }

  /** drop_duplicates("conceptId") then to_dict: the first row of each concept
      wins. */
  function FirstTermPerConcept(rows: seq<Description>): map<string, string>
  {
    if |rows| == 0 then map[]
    else FirstTermPerConcept(rows[1..])[rows[0].conceptId := rows[0].term]
  }

  lemma {:induction false} FirstTermPerConceptAt(descriptions: seq<Description>, ids: set<string>, c: string)
    ensures c in FirstTermPerConcept(Filter(descriptions, NameLookup(ids))) <==> c in ids && FirstFsn(descriptions, c).Some?
    ensures c in FirstTermPerConcept(Filter(descriptions, NameLookup(ids))) ==>
      FirstTermPerConcept(Filter(descriptions, NameLookup(ids)))[c] == FirstFsn(descriptions, c).value
  {
    if |descriptions| > 0 {
      FirstTermPerConceptAt(descriptions[1..], ids, c);
      var d := descriptions[0];
      var rows := Filter(descriptions, NameLookup(ids));
      if NameLookup(ids)(d) {
        assert rows[0] == d && rows[1..] == Filter(descriptions[1..], NameLookup(ids));
      } else {
        assert rows == Filter(descriptions[1..], NameLookup(ids));
      }
    }
  }

  lemma FirstTermPerConceptIsFirstFsn(descriptions: seq<Description>, ids: set<string>)
    ensures forall c :: c in FirstTermPerConcept(Filter(descriptions, NameLookup(ids))) <==> c in ids && FirstFsn(descriptions, c).Some?
    ensures forall c :: c in FirstTermPerConcept(Filter(descriptions, NameLookup(ids))) ==>
      FirstTermPerConcept(Filter(descriptions, NameLookup(ids)))[c] == FirstFsn(descriptions, c).value
  {
    forall c
      ensures c in FirstTermPerConcept(Filter(descriptions, NameLookup(ids))) <==> c in ids && FirstFsn(descriptions, c).Some?
      ensures c in FirstTermPerConcept(Filter(descriptions, NameLookup(ids))) ==>
        FirstTermPerConcept(Filter(descriptions, NameLookup(ids)))[c] == FirstFsn(descriptions, c).value
    {
      FirstTermPerConceptAt(descriptions, ids, c);
    }
  }

  /** The bulk label lookup for a list of ids. */
  function ResolveNames(descriptions: seq<Description>, ids: seq<string>): (m: map<string, string>)
    ensures |ids| == 0 ==> m == map[]
    ensures m.Keys <= set x | x in ids
    ensures forall c :: c in m <==> c in ids && exists d :: d in descriptions && IsActiveFsn(d) && d.conceptId == c
    ensures forall c :: c in m ==> m[c] == FirstFsn(descriptions, c).value
  {
    if |ids| == 0 then map[]
    else
      var s := set x | x in ids;
      FirstTermPerConceptIsFirstFsn(descriptions, s);
      FirstTermPerConcept(Filter(descriptions, NameLookup(s)))
  }

  /** The lookup sees only the set of ids: order and repetition do not
      matter. */
  lemma ResolveNamesSeesOnlyTheSet(descriptions: seq<Description>, a: seq<string>, b: seq<string>)
    requires forall x :: x in a <==> x in b
    ensures ResolveNames(descriptions, a) == ResolveNames(descriptions, b)
  {
    if |a| > 0 {
      assert a[0] in b;
    }
    if |b| > 0 {
      assert b[0] in a;
    }
  }
}
