/** What the page builds from the query results before it renders anything:
    the ids to label, the labelled rows with their "Desconocido" fallback, the
    grouped attribute text, and the "term | conceptId" selector options. */
module Display {
  import opened Text
  import opened Tables
  import opened Terminology
  import opened Queries

  /** The label shown for an id that has no FSN. */
  const UNKNOWN := "Desconocido"

  // ---------------------------------------------------------------------------
  // Ids to resolve
  // ---------------------------------------------------------------------------

  /** Every id the page shows: parents, attribute types and values, children. */
  method CollectIds(ancestors: seq<string>, attributes: seq<Attribute>, descendants: seq<string>)
    returns (ids: set<string>)
    ensures forall x :: x in ids <==>
      || x in ancestors
      || (exists a :: a in attributes && (a.typeId == x || a.destinationId == x))
      || x in descendants
  {
    ids := {};
    if |ancestors| > 0 {
      ids := ids + (set x | x in ancestors);
    }
    if |attributes| > 0 {
      ids := ids + (set a | a in attributes :: a.typeId);
      ids := ids + (set a | a in attributes :: a.destinationId);
    }
    if |descendants| > 0 {
      ids := ids + (set x | x in descendants);
    }
  }

  /** list(ids): the ids in some order, each once. */
  method ListOf(ids: set<string>) returns (s: seq<string>)
    ensures forall x :: x in s <==> x in ids
    ensures |s| == |ids|
  {
    s := [];
    var rest := ids;
    while rest != {}
      invariant rest <= ids
      invariant forall x :: x in s <==> x in ids - rest
      invariant |s| == |ids - rest|
      decreases rest
    {
      var x :| x in rest;
      assert ids - (rest - {x}) == (ids - rest) + {x};
      s := s + [x];
      rest := rest - {x};
    }
    assert ids - rest == ids;
  }

  // ---------------------------------------------------------------------------
  // Labels
  // ---------------------------------------------------------------------------

  /** map(names).fillna("Desconocido") for one id. */
  function Label(names: map<string, string>, id: string): string
  {
    if id in names then names[id] else UNKNOWN
  }

  /** An id with its label (the ancestor and descendant rows). */
  datatype Labelled = Labelled(conceptId: string, fsn: string)

  /** An attribute row with the labels of its type and its value. */
  datatype LabelledAttribute = LabelledAttribute(
    group: string,
    typeId: string,
    fsnType: string,
    destinationId: string,
    fsnDest: string)

  function LabelAll(ids: seq<string>, names: map<string, string>): (r: seq<Labelled>)
    ensures |r| == |ids|
    ensures forall i :: 0 <= i < |ids| ==> r[i].conceptId == ids[i]
    ensures forall i :: 0 <= i < |ids| && ids[i] in names ==> r[i].fsn == names[ids[i]]
    ensures forall i :: 0 <= i < |ids| && ids[i] !in names ==> r[i].fsn == UNKNOWN
  {
    Map(ids, (id: string) => Labelled(id, Label(names, id)))
  }

  function LabelAttributes(attributes: seq<Attribute>, names: map<string, string>): (r: seq<LabelledAttribute>)
    ensures |r| == |attributes|
    ensures forall i :: 0 <= i < |r| ==>
      && r[i].group == attributes[i].group
      && r[i].typeId == attributes[i].typeId
      && r[i].destinationId == attributes[i].destinationId
    ensures forall i :: 0 <= i < |r| ==>
      (attributes[i].typeId in names ==> r[i].fsnType == names[attributes[i].typeId])
      && (attributes[i].typeId !in names ==> r[i].fsnType == UNKNOWN)
    ensures forall i :: 0 <= i < |r| ==>
      (attributes[i].destinationId in names ==> r[i].fsnDest == names[attributes[i].destinationId])
      && (attributes[i].destinationId !in names ==> r[i].fsnDest == UNKNOWN)
  {
    Map(attributes, (a: Attribute) =>
      LabelledAttribute(a.group, a.typeId, Label(names, a.typeId), a.destinationId, Label(names, a.destinationId)))
  }

  // ---------------------------------------------------------------------------
  // Attribute text, one block per relationship group
  // ---------------------------------------------------------------------------

  /** "typeId |fsn_type| = destinationId |fsn_dest|". */
  function AttributeLine(a: LabelledAttribute): string
  {
    a.typeId + " |" + a.fsnType + "| = " + a.destinationId + " |" + a.fsnDest + "|"
  }

  function Lines(rows: seq<LabelledAttribute>): seq<string>
  {
    Map(rows, AttributeLine)
  }

  /** One group's block: its lines inside braces, one per line. */
  function Block(lines: seq<string>): string
  {
    "{\n  " + Join(",\n  ", lines) + "\n}\n"
  }

  function GroupOf(a: LabelledAttribute): string { a.group }

  function InLabelledGroup(g: string): LabelledAttribute -> bool
  {
    (a: LabelledAttribute) => a.group == g
  }

  function InLabelledGroups(keys: seq<string>): LabelledAttribute -> bool
  {
    (a: LabelledAttribute) => a.group in keys
  }

  /** The rows of group g, in their order (a groupby group). */
  function RowsInGroup(rows: seq<LabelledAttribute>, g: string): seq<LabelledAttribute>
  {
    Filter(rows, InLabelledGroup(g))
  }

  /** The groups groupby visits: the distinct group values, ascending as text. */
  function GroupKeys(rows: seq<LabelledAttribute>): seq<string>
  {
    SortedDistinct(Map(rows, GroupOf))
  }

  /** The blocks of the given groups, one after the other. */
  function BlocksText(keys: seq<string>, rows: seq<LabelledAttribute>): string
  {
    if |keys| == 0 then ""
    else BlocksText(keys[..|keys| - 1], rows) + Block(Lines(RowsInGroup(rows, keys[|keys| - 1])))
  }

  /** The rows of the given groups, group after group: the same RowsInGroup
      sequences, in the same order, that BlocksText turns into blocks. */
  function GroupedRows(keys: seq<string>, rows: seq<LabelledAttribute>): seq<LabelledAttribute>
  {
    if |keys| == 0 then []
    else GroupedRows(keys[..|keys| - 1], rows) + RowsInGroup(rows, keys[|keys| - 1])
  }

  /** The attribute text of the page. */
  function AttributeText(rows: seq<LabelledAttribute>): string
  {
    BlocksText(GroupKeys(rows), rows)
  }

  /** The groupby loop: for each group, collect its lines and append its
      block. */
  method RenderAttributes(rows: seq<LabelledAttribute>) returns (text: string)
    ensures text == AttributeText(rows)
  {
    text := "";
    var keys := GroupKeys(rows);
    var i := 0;
    while i < |keys|
      invariant 0 <= i <= |keys|
      invariant text == BlocksText(keys[..i], rows)
    {
      var group := RowsInGroup(rows, keys[i]);
      var block: seq<string> := [];
      var j := 0;
      while j < |group|
        invariant 0 <= j <= |group|
        invariant block == Lines(group[..j])
      {
        block := block + [AttributeLine(group[j])];
        j := j + 1;
      }
      assert group[..j] == group;
      text := text + ("{\n  " + Join(",\n  ", block) + "\n}\n");
      assert keys[..i + 1][..i] == keys[..i];
      i := i + 1;
    }
    assert keys[..i] == keys;
  }

  /** The groups are visited once each, in ascending text order, exactly the
      groups present, and none of them is empty. */
  lemma GroupKeysAreTheDistinctGroups(rows: seq<LabelledAttribute>)
    ensures StrictlySorted(GroupKeys(rows))
    ensures forall g :: g in GroupKeys(rows) <==> exists a :: a in rows && a.group == g
    ensures forall g :: g in GroupKeys(rows) ==> |RowsInGroup(rows, g)| > 0
  {
    SortedDistinctSpec(Map(rows, GroupOf));
    forall g ensures g in Map(rows, GroupOf) <==> exists a :: a in rows && a.group == g {
      MapMembership(rows, GroupOf, g);
    }
    forall g | g in GroupKeys(rows) ensures |RowsInGroup(rows, g)| > 0 {
      var a :| a in rows && a.group == g;
      assert a in RowsInGroup(rows, g);
    }
  }

  /** Every attribute row's line is in the block of its group, and that group
      is one the text renders. */
  lemma EveryRowHasItsBlock(rows: seq<LabelledAttribute>)
    ensures forall a :: a in rows ==>
      a.group in GroupKeys(rows) && AttributeLine(a) in Lines(RowsInGroup(rows, a.group))
  {
    GroupKeysAreTheDistinctGroups(rows);
    forall a | a in rows
      ensures a.group in GroupKeys(rows) && AttributeLine(a) in Lines(RowsInGroup(rows, a.group))
    {
      var group := RowsInGroup(rows, a.group);
      assert a in group;
      var k :| 0 <= k < |group| && group[k] == a;
      assert Lines(group)[k] == AttributeLine(a);
    }
  }

  lemma {:induction false} GroupedRowsCount(keys: seq<string>, rows: seq<LabelledAttribute>)
    requires forall i, j :: 0 <= i < j < |keys| ==> keys[i] != keys[j]
    ensures multiset(GroupedRows(keys, rows)) == multiset(Filter(rows, InLabelledGroups(keys)))
  {
    if |keys| > 0 {
      var init, k := keys[..|keys| - 1], keys[|keys| - 1];
      GroupedRowsCount(init, rows);
      assert keys == init + [k];
      assert forall m :: 0 <= m < |init| ==> init[m] != k;
      FilterPartition(rows, InLabelledGroups(init), InLabelledGroup(k), InLabelledGroups(keys));
    } else {
      FilterNone(rows, InLabelledGroups(keys));
    }
  }

  /** Every attribute row lands in exactly one block: the groups, taken in
      order, hold the rows with their multiplicities. */
  lemma AttributeBlocksPartitionRows(rows: seq<LabelledAttribute>)
    ensures multiset(GroupedRows(GroupKeys(rows), rows)) == multiset(rows)
  {
    var keys := GroupKeys(rows);
    GroupKeysAreTheDistinctGroups(rows);
    GroupedRowsCount(keys, rows);
    FilterAll(rows, InLabelledGroups(keys));
  }

  // ---------------------------------------------------------------------------
  // Selector options
  // ---------------------------------------------------------------------------

  const OPTION_SEPARATOR := " | "

  /** f"{term} | {conceptId}". */
  function FormatOption(h: Hit): string
  {
    h.term + OPTION_SEPARATOR + h.conceptId
  }

  /** split(" | ")[0] as the term and split(" | ")[1] as the concept id; there
      is no second piece without a separator. */
  function ParseOption(option: string): Option<Hit>
  {
    var parts := Split(option, OPTION_SEPARATOR);
    if |parts| < 2 then None else Some(Hit(parts[1], parts[0]))
  }

  predicate EndsWithBar(t: string)
  {
    |t| >= 2 && t[|t| - 2] == ' ' && t[|t| - 1] == '|'
  }

  /** The separator, character by character. */
  lemma SeparatorAt(s: string, j: int)
    ensures OccursAt(s, OPTION_SEPARATOR, j) <==>
      0 <= j && j + 3 <= |s| && s[j] == ' ' && s[j + 1] == '|' && s[j + 2] == ' '
  {
    if 0 <= j && j + 3 <= |s| && s[j] == ' ' && s[j + 1] == '|' && s[j + 2] == ' ' {
      assert s[j..j + 3] == OPTION_SEPARATOR;
    }
    assert OccursAt(s, OPTION_SEPARATOR, j) ==>
      s[j..j + 3][0] == ' ' && s[j..j + 3][1] == '|' && s[j..j + 3][2] == ' ';
  }

  /** The option parses back to its hit when the term neither contains " | "
      nor ends in " |", and the id contains no " | ". */
  lemma ParseOptionRoundTrip(h: Hit)
    requires !Contains(h.term, OPTION_SEPARATOR) && !EndsWithBar(h.term)
    requires !Contains(h.conceptId, OPTION_SEPARATOR)
    ensures ParseOption(FormatOption(h)) == Some(h)
  {
    var s, t, sep := FormatOption(h), h.term, OPTION_SEPARATOR;
    var n := |t|;
    SeparatorAt(s, n);
    forall j | 0 <= j < n ensures !OccursAt(s, sep, j) {
      SeparatorAt(s, j);
      if j + 3 <= n {
        assert s[j..j + 3] == t[j..j + 3];
        assert !OccursAt(t, sep, j);
      } else if j == n - 1 {
        assert s[j + 1] == ' ';
      } else {
        assert s[j] == t[n - 2] && s[j + 1] == t[n - 1];
      }
    }
    IndexFromIsFirst(s, sep, n);
    assert s[..n] == t && s[n + 3..] == h.conceptId;
    NoOccurrenceSplitsToItself(h.conceptId, sep);
  }

  /** A term containing " | " is cut at its first separator, and the piece
      after it is read as the concept id. */
  lemma ParseOptionMisreadsSeparatorInTerm()
    ensures ParseOption(FormatOption(Hit("123", "a | b"))) == Some(Hit("b", "a"))
  {
    var s := FormatOption(Hit("123", "a | b"));
    assert s == "a | b | 123";
    SeparatorAt(s, 0);
    SeparatorAt(s, 1);
    IndexFromIsFirst(s, OPTION_SEPARATOR, 1);
    var rest := s[4..];
    assert s[..1] == "a" && rest == "b | 123";
    SeparatorAt(rest, 0);
    SeparatorAt(rest, 1);
    IndexFromIsFirst(rest, OPTION_SEPARATOR, 1);
    assert rest[0] == 'b' && rest[..1] == [rest[0]];
  }

  /** A term ending in " |" loses its last two characters to a false
      separator, and the id comes back with them. */
  lemma ParseOptionMisreadsTrailingBar()
    ensures ParseOption(FormatOption(Hit("123", "a |"))) == Some(Hit("| 123", "a"))
  {
    var s := FormatOption(Hit("123", "a |"));
    assert s == "a | | 123";
    SeparatorAt(s, 0);
    SeparatorAt(s, 1);
    IndexFromIsFirst(s, OPTION_SEPARATOR, 1);
    var rest := s[4..];
    assert s[..1] == "a" && rest == "| 123";
    forall j | 0 <= j <= |rest| ensures !OccursAt(rest, OPTION_SEPARATOR, j) {
      SeparatorAt(rest, j);
    }
    NoOccurrenceSplitsToItself(rest, OPTION_SEPARATOR);
  }

  /** rsplit(" | ", 1): the id is what follows the last separator and the term
      is everything before it. */
  function ParseOptionLast(option: string): Option<Hit>
  {
    match LastIndexUpTo(option, OPTION_SEPARATOR, |option| - |OPTION_SEPARATOR|)
    case None => None
    case Some(i) => Some(Hit(option[i + |OPTION_SEPARATOR|..], option[..i]))
  }

  /** Every term comes back, whatever it contains, as long as the concept id
      has no '|' (SNOMED CT ids are digit strings). */
  lemma ParseOptionLastRoundTrip(h: Hit)
    requires forall k :: 0 <= k < |h.conceptId| ==> h.conceptId[k] != '|'
    ensures ParseOptionLast(FormatOption(h)) == Some(h)
  {
    var s, sep := FormatOption(h), OPTION_SEPARATOR;
    var n := |h.term|;
    SeparatorAt(s, n);
    forall j | n < j ensures !OccursAt(s, sep, j) {
      SeparatorAt(s, j);
      if j + 3 <= |s| {
        if j == n + 1 {
          assert s[j + 1] == ' ';
        } else {
          assert s[j + 1] == h.conceptId[j + 1 - n - 3];
        }
      }
    }
    assert LastIndexUpTo(s, sep, |s| - |sep|) == Some(n);
    assert s[..n] == h.term && s[n + 3..] == h.conceptId;
  }

  // ---------------------------------------------------------------------------
  // The concept page
  // ---------------------------------------------------------------------------

  /** The label the page shows for id: its first active FSN, or
      "Desconocido". */
  function FsnOrUnknown(descriptions: seq<Description>, id: string): string
  {
    match FirstFsn(descriptions, id)
    case Some(t) => t
    case None => UNKNOWN
  }

  /** A looked-up id is labelled with its first FSN when it has one, and with
      "Desconocido" exactly when it has none. */
  lemma LabelIsFirstFsn(descriptions: seq<Description>, ids: seq<string>, id: string)
    requires id in ids
    ensures Label(ResolveNames(descriptions, ids), id) == FsnOrUnknown(descriptions, id)
  {
  }

  /** What the page shows for one selected concept: the selected concept, its
      labelled parents, attributes and children, and the attribute text. */
  datatype ConceptView = ConceptView(
    selected: Hit,
    ancestors: seq<Labelled>,
    attributes: seq<LabelledAttribute>,
    attributeText: string,
    descendants: seq<Labelled>)

  /** Read the selected option with split(" | "), look the concept up, collect
      and resolve every id on the page, label the rows and build the attribute
      text. An option without a separator selects nothing. For a term that
      holds " | " or ends in " |" this opens the wrong concept (see
      ParseOptionMisreadsSeparatorInTerm); ParseOptionLast is the parse that
      gives back every hit. */
  method Explore(descriptions: seq<Description>, relationships: seq<Relationship>, option: string)
    returns (view: Option<ConceptView>)
    ensures view.Some? <==> ParseOption(option).Some?
    ensures view.Some? ==> view.value.selected == ParseOption(option).value
    ensures view.Some? ==>
      var n := ConceptNeighborhood(relationships, view.value.selected.conceptId);
      && |view.value.ancestors| == |n.ancestors|
      && forall i :: 0 <= i < |n.ancestors| ==>
           view.value.ancestors[i] == Labelled(n.ancestors[i], FsnOrUnknown(descriptions, n.ancestors[i]))
    ensures view.Some? ==>
      var n := ConceptNeighborhood(relationships, view.value.selected.conceptId);
      && |view.value.descendants| == |n.descendants|
      && forall i :: 0 <= i < |n.descendants| ==>
           view.value.descendants[i] == Labelled(n.descendants[i], FsnOrUnknown(descriptions, n.descendants[i]))
    ensures view.Some? ==>
      var n := ConceptNeighborhood(relationships, view.value.selected.conceptId);
      && |view.value.attributes| == |n.attributes|
      && forall i :: 0 <= i < |n.attributes| ==>
           var a := n.attributes[i];
           view.value.attributes[i] == LabelledAttribute(
             a.group, a.typeId, FsnOrUnknown(descriptions, a.typeId),
             a.destinationId, FsnOrUnknown(descriptions, a.destinationId))
    ensures view.Some? ==> view.value.attributeText == AttributeText(view.value.attributes)
  {
    var parsed := ParseOption(option);
    if parsed.None? {
      return None;
    }
    var selected := parsed.value;
    var n := ConceptNeighborhood(relationships, selected.conceptId);
    var ids := CollectIds(n.ancestors, n.attributes, n.descendants);
    var idList := ListOf(ids);
    var names := ResolveNames(descriptions, idList);
    forall id | id in ids ensures Label(names, id) == FsnOrUnknown(descriptions, id) {
      LabelIsFirstFsn(descriptions, idList, id);
    }
    var ancestors := LabelAll(n.ancestors, names);
    var attributes := LabelAttributes(n.attributes, names);
    var descendants := LabelAll(n.descendants, names);
    assert forall i :: 0 <= i < |n.attributes| ==> n.attributes[i].typeId in ids && n.attributes[i].destinationId in ids;
    var text := RenderAttributes(attributes);
    view := Some(ConceptView(selected, ancestors, attributes, text, descendants));
  }
}
