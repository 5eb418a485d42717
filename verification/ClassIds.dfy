/** Naming the classes of a diagram: every expansion in the tree gets an id of its own. */
module ClassIds {
  import opened Sequences
  import opened Decimals
  import opened Text
  import opened ExpandParser

  datatype ExpansionNode = ExpansionNode(expansion: Expansion, id: string, children: seq<ExpansionNode>)

  predicate IsLetter(c: char) {
    'A' <= c <= 'Z' || 'a' <= c <= 'z' || c == '_'
  }

  predicate IsIdentifier(s: string) {
    s != "" && IsLetter(s[0]) && forall i :: 0 < i < |s| ==> IsLetter(s[i]) || '0' <= s[i] <= '9' || s[i] == '-'
  }

  function Normalized(candidate: string): (id: string)
    ensures IsIdentifier(id)
  {
    if IsIdentifier(candidate) then candidate else "EXPANSION"
  }

  function Numbered(base: string, index: nat): string {
    base + "_" + Decimal(index)
  }

  lemma NumberedDiffer(base: string, i: nat, j: nat)
    requires i != j
    ensures Numbered(base, i) != Numbered(base, j)
  {
    if Numbered(base, i) == Numbered(base, j) {
      assert Numbered(base, i)[|base| + 1..] == Decimal(i) && Numbered(base, j)[|base| + 1..] == Decimal(j);
      DecimalInjective(i, j);
    }
  }

  lemma NumberedIdentifier(base: string, index: nat)
    requires IsIdentifier(base)
    ensures IsIdentifier(Numbered(base, index))
  {
    DecimalDigits(index);
    var id := Numbered(base, index);
    assert id[0] == base[0];
    forall i | 0 < i < |id| ensures IsLetter(id[i]) || '0' <= id[i] <= '9' || id[i] == '-' {
      if i > |base| {
        assert id[i] == Decimal(index)[i - |base| - 1];
      }
    }
  }

  /** The numbered names below `index`. */
  ghost function Tried(base: string, index: nat): set<string>
    requires index >= 2
  {
    set i | 2 <= i < index :: Numbered(base, i)
  }

  lemma {:induction false} TriedCard(base: string, index: nat)
    requires index >= 2
    ensures |Tried(base, index)| == index - 2
  {
    if index > 2 {
      TriedCard(base, index - 1);
      forall i | 2 <= i < index - 1 ensures Numbered(base, i) != Numbered(base, index - 1) {
        NumberedDiffer(base, i, index - 1);
      }
      assert Tried(base, index) == Tried(base, index - 1) + {Numbered(base, index - 1)};
    } else {
      assert Tried(base, index) == {};
    }
  }

  /** The first free name: the candidate itself, or its first free number. There is one: finitely many are taken. */
  method UniqueClassId(candidate: string, usedIds: set<string>) returns (id: string)
    ensures id !in usedIds && IsIdentifier(id)
    ensures Normalized(candidate) !in usedIds ==> id == Normalized(candidate)
    ensures Normalized(candidate) in usedIds ==>
      exists index :: 2 <= index && id == Numbered(Normalized(candidate), index)
                      && Tried(Normalized(candidate), index) <= usedIds
  {
    var normalized := Normalized(candidate);
    if normalized !in usedIds {
      return normalized;
    }
    var index := 2;
    while Numbered(normalized, index) in usedIds
      invariant 2 <= index <= |usedIds| + 2
      invariant Tried(normalized, index) <= usedIds
      decreases |usedIds| + 2 - index
    {
      assert Tried(normalized, index + 1) <= usedIds;
      TriedCard(normalized, index + 1);
      SubsetCard(Tried(normalized, index + 1), usedIds);
      index := index + 1;
    }
    NumberedIdentifier(normalized, index);
    id := Numbered(normalized, index);
  }

  // ---- a whole tree

  /** The set of ids taken so far, shared by the whole traversal. */
  class UsedIds {
    var ids: set<string>

    constructor (ids: set<string>)
      ensures this.ids == ids
    {
      this.ids := ids;
    }
  }

  /** The ids of a node and everything below it. */
  function IdsOf(node: ExpansionNode): seq<string>
    decreases node
  {
    [node.id] + IdsOfAll(node.children)
  }

  function IdsOfAll(nodes: seq<ExpansionNode>): seq<string>
    decreases nodes
  {
    if nodes == [] then [] else IdsOfAll(nodes[..|nodes| - 1]) + IdsOf(nodes[|nodes| - 1])
  }

  /**
   What an expansion is called: `BPF` for a process, its own name if that is an identifier, else a
   placeholder; or numbered.
   */
  ghost predicate Fits(id: string, name: string) {
    var base := if StartsWith(name, "bpf_") then "BPF" else if IsIdentifier(name) then name else "EXPANSION";
    id == base || IsNumbered(base, id)
  }

  /** A node stands for its expansion, and its children for the expansions below, in order. */
  ghost predicate Represents(node: ExpansionNode, expansion: Expansion)
    decreases node
  {
    && node.expansion == expansion
    && IsIdentifier(node.id) && Fits(node.id, expansion.name)
    && |node.children| == |expansion.expansions|
    && forall i :: 0 <= i < |node.children| ==> Represents(node.children[i], expansion.expansions[i])
  }

  /** New ids: no two the same, none among those taken before. */
  ghost predicate Unused(before: set<string>, ids: seq<string>) {
    NoDup(ids) && forall id :: id in ids ==> id !in before
  }

  lemma UnusedJoin(before: set<string>, a: seq<string>, b: seq<string>)
    requires Unused(before, a) && Unused(before + Elems(a), b)
    ensures Unused(before, a + b) && Elems(a + b) == Elems(a) + Elems(b)
  {
    forall i, j | 0 <= i < j < |a + b| ensures (a + b)[i] != (a + b)[j] {
      if i < |a| && j >= |a| {
        assert a[i] in Elems(a) && b[j - |a|] in b;
      }
    }
  }

  function PreferredId(expansion: Expansion): string {
    if StartsWith(expansion.name, "bpf_") then "BPF" else expansion.name
  }

  /** The names a tree of expansions asks for, as identifiers. */
  function WantedBy(expansion: Expansion): seq<string>
    decreases expansion
  {
    [Normalized(PreferredId(expansion))] + Wanted(expansion.expansions)
  }

  function Wanted(expansions: seq<Expansion>): seq<string>
    decreases expansions
  {
    if expansions == [] then [] else Wanted(expansions[..|expansions| - 1]) + WantedBy(expansions[|expansions| - 1])
  }

  /** Each name asked for is taken, and each new id is a name asked for or a numbered one. */
  ghost predicate Named(before: set<string>, wanted: seq<string>, ids: seq<string>) {
    && (forall name :: name in wanted ==> name in before || name in ids)
    && (forall id :: id in ids ==> exists name :: name in wanted && (id == name || IsNumbered(name, id)))
  }

  ghost predicate IsNumbered(base: string, id: string) {
    exists index: nat :: 2 <= index && id == Numbered(base, index)
  }

  lemma NamedJoin(before: set<string>, wanted: seq<string>, ids: seq<string>, moreWanted: seq<string>,
                  moreIds: seq<string>)
    requires Named(before, wanted, ids) && Named(before + Elems(ids), moreWanted, moreIds)
    ensures Named(before, wanted + moreWanted, ids + moreIds)
  {
    hide IsNumbered;
    forall id | id in ids + moreIds
      ensures exists name :: name in wanted + moreWanted && (id == name || IsNumbered(name, id))
    {
      if id in ids {
        var name :| name in wanted && (id == name || IsNumbered(name, id));
        assert name in wanted + moreWanted;
      } else {
        var name :| name in moreWanted && (id == name || IsNumbered(name, id));
        assert name in wanted + moreWanted;
      }
    }
  }

  lemma OneNamed(before: set<string>, name: string, id: string)
    requires name !in before ==> id == name
    requires name in before ==> exists index: nat :: 2 <= index && id == Numbered(name, index)
                                                     && Tried(name, index) <= before
    ensures Named(before, [name], [id])
  {
    if name in before {
      assert IsNumbered(name, id);
    }
  }

  lemma IdFits(id: string, expansion: Expansion)
    requires id == Normalized(PreferredId(expansion)) || IsNumbered(Normalized(PreferredId(expansion)), id)
    ensures Fits(id, expansion.name)
  {
    assert "BPF"[0] == 'B' && "BPF"[1] == 'P' && "BPF"[2] == 'F';
    assert IsIdentifier("BPF");
  }

  method CreateExpansionNode(expansion: Expansion, usedIds: UsedIds) returns (node: ExpansionNode)
    modifies usedIds
    ensures Represents(node, expansion)
    ensures Unused(old(usedIds.ids), IdsOf(node))
    ensures Named(old(usedIds.ids), WantedBy(expansion), IdsOf(node))
    ensures usedIds.ids == old(usedIds.ids) + Elems(IdsOf(node))
    decreases expansion
  {
    var id := UniqueClassId(PreferredId(expansion), usedIds.ids);
    var wanted := [Normalized(PreferredId(expansion))];
    assert Named(usedIds.ids, wanted, [id]) by {
      OneNamed(usedIds.ids, wanted[0], id);
    }
    usedIds.ids := usedIds.ids + {id};
    var children := CreateEach(expansion.expansions, usedIds);
    node := ExpansionNode(expansion, id, children);
    assert Fits(id, expansion.name) by { IdFits(id, expansion); }
    assert Elems([id]) == {id};
    UnusedJoin(old(usedIds.ids), [id], IdsOfAll(children));
    NamedJoin(old(usedIds.ids), wanted, [id], Wanted(expansion.expansions), IdsOfAll(children));
  }

  lemma NothingNamed(before: set<string>)
    ensures IdsOfAll([]) == [] && Wanted([]) == [] && Elems<string>([]) == {}
    ensures Unused(before, []) && Named(before, [], [])
  {
  }

  lemma OneMoreNode(expansions: seq<Expansion>, nodes: seq<ExpansionNode>, node: ExpansionNode, i: nat)
    requires i == |nodes| < |expansions|
    ensures IdsOfAll(nodes + [node]) == IdsOfAll(nodes) + IdsOf(node)
    ensures Wanted(expansions[..i + 1]) == Wanted(expansions[..i]) + WantedBy(expansions[i])
  {
    assert (nodes + [node])[..i] == nodes;
    assert expansions[..i + 1][..i] == expansions[..i];
  }

  method CreateEach(expansions: seq<Expansion>, usedIds: UsedIds) returns (nodes: seq<ExpansionNode>)
    modifies usedIds
    ensures |nodes| == |expansions| && forall i :: 0 <= i < |nodes| ==> Represents(nodes[i], expansions[i])
    ensures Unused(old(usedIds.ids), IdsOfAll(nodes))
    ensures Named(old(usedIds.ids), Wanted(expansions), IdsOfAll(nodes))
    ensures usedIds.ids == old(usedIds.ids) + Elems(IdsOfAll(nodes))
    decreases expansions
  {
    hide Named, Unused, Represents, IdsOf, WantedBy, Wanted, IdsOfAll;
    nodes := [];
    NothingNamed(usedIds.ids);
    for i := 0 to |expansions|
      invariant |nodes| == i && forall j :: 0 <= j < i ==> Represents(nodes[j], expansions[j])
      invariant Unused(old(usedIds.ids), IdsOfAll(nodes))
      invariant Named(old(usedIds.ids), Wanted(expansions[..i]), IdsOfAll(nodes))
      invariant usedIds.ids == old(usedIds.ids) + Elems(IdsOfAll(nodes))
    {
      var node := CreateExpansionNode(expansions[i], usedIds);
      NamedJoin(old(usedIds.ids), Wanted(expansions[..i]), IdsOfAll(nodes), WantedBy(expansions[i]), IdsOf(node));
      UnusedJoin(old(usedIds.ids), IdsOfAll(nodes), IdsOf(node));
      OneMoreNode(expansions, nodes, node, i);
      nodes := nodes + [node];
    }
    assert expansions[..|expansions|] == expansions;
  }

  const RESERVED := {"REQUEST", "ALL", "EXPAND"}

  /** Distinct ids over the whole diagram tree, none of them a reserved class name. */
  method CreateExpansionNodes(expansions: seq<Expansion>) returns (nodes: seq<ExpansionNode>)
    ensures |nodes| == |expansions| && forall i :: 0 <= i < |nodes| ==> Represents(nodes[i], expansions[i])
    ensures Unused(RESERVED, IdsOfAll(nodes))
    ensures forall id :: id in IdsOfAll(nodes) ==> id != "REQUEST" && id != "ALL" && id != "EXPAND"
    ensures Named(RESERVED, Wanted(expansions), IdsOfAll(nodes))
  {
    var usedIds := new UsedIds(RESERVED);
    nodes := CreateEach(expansions, usedIds);
  }

  // ---- names that are not reserved

  /**
   A word that is not reserved, such as the entity's own name, becomes the id of an expansion whenever
   some expansion asks for it; otherwise only as a numbered form of one that is asked for.
   */
  lemma WordIsTaken(wanted: seq<string>, ids: seq<string>, word: string)
    requires Named(RESERVED, wanted, ids) && word !in RESERVED
    ensures word in wanted ==> word in ids
    ensures word in ids ==> word in wanted || exists name :: name in wanted && IsNumbered(name, word)
  {
  }

  /** A request that expands a relationship of the entity's own name: the expansion takes the entity's class. */
  lemma ExpansionTakesEntity(columns: seq<string>, ids: seq<string>)
    requires Named(RESERVED, Wanted([Expansion("account", columns, [])]), ids) && |ids| == 1
    ensures ids == ["account"]
  {
    var expansion := Expansion("account", columns, []);
    assert [expansion][..0] == [];
    assert "account"[..4][0] == 'a';
    assert PreferredId(expansion) == "account" && WantedBy(expansion) == ["account"];
    assert Wanted([]) == [] && Wanted([expansion]) == ["account"];
    assert "account" in ids;
  }
}
