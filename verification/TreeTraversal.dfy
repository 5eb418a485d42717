/** Reading the tree: the groups shown for a set of visible exchanges, their rows, and the exchanges under a group. */
module TreeTraversal {
  import opened Wrappers
  import opened Sequences
  import opened CaptureModel
  import opened StructurePath
  import opened TreeAggregates
  import opened TreeIndex

  /** An index together with the trails it was grown from. */
  ghost predicate Tree(index: Index, trails: Trails, entries: map<string, Summary>) {
    && trails.Keys == entries.Keys
    && Places(trails)
    && (forall k :: k in trails ==> trails[k] != [])
    && Shape(index.nodesById, index.rootIds, trails, entries)
    && ListedAt(index.nodesById, Leaves(trails))
  }

  lemma AgreeingIsTree(codec: UriCodec, index: Index, entries: map<string, Summary>)
    requires EscapeLaw(codec) && Agrees(codec, index, entries)
    ensures Tree(index, TrailsOf(codec, entries), entries)
  {
    hide PathOf, EscapeLaw, Shape, ListedAt, Leaves, Places;
    TrailsPlace(codec, entries);
  }

  // ---- why both recursions end

  /** The groups at or below a group. */
  ghost function Below(trails: Trails, id: string): set<string> {
    set k, j | k in trails && 0 <= j < |trails[k]| && id in Ids(trails[k])[..j + 1] :: trails[k][j].id
  }

  lemma InBelow(trails: Trails, id: string, k: string, i: nat, j: nat)
    requires k in trails && i <= j < |trails[k]| && trails[k][i].id == id
    ensures trails[k][j].id in Below(trails, id)
  {
    assert Ids(trails[k])[..j + 1][i] == id;
  }

  lemma BelowPlace(trails: Trails, id: string, g: string) returns (k: string, i: nat, j: nat)
    requires g in Below(trails, id)
    ensures k in trails && i <= j < |trails[k]| && trails[k][i].id == id && trails[k][j].id == g
  {
    var k', j' :| k' in trails && 0 <= j' < |trails[k']| && id in Ids(trails[k'])[..j' + 1] && trails[k'][j'].id == g;
    k, j := k', j';
    var i' :| 0 <= i' < |Ids(trails[k])[..j + 1]| && Ids(trails[k])[..j + 1][i'] == id;
    i := i';
  }

  /** A child's place on a trail is right after its parent's. */
  lemma ParentBefore(index: Index, trails: Trails, entries: map<string, Summary>, id: string, c: string, k: string,
                     i: nat)
    requires Tree(index, trails, entries) && id in index.nodesById && c in index.nodesById[id].childIds
    requires k in trails && i < |trails[k]| && trails[k][i].id == c
    ensures i > 0 && trails[k][i - 1].id == id
  {
    hide Places, Populated, Counted, ListedAt, NoDup, Placed;
    PlacedAt(index.nodesById, trails, k, i);
    assert c in index.nodesById && index.nodesById[c].parentId == Some(id);
  }

  lemma ChildAfter(index: Index, trails: Trails, entries: map<string, Summary>, id: string, k: string, i: nat)
    requires Tree(index, trails, entries) && k in trails && i + 1 < |trails[k]| && trails[k][i].id == id
    ensures id in index.nodesById && trails[k][i + 1].id in index.nodesById[id].childIds
  {
    hide Places, Populated, Counted, ListedAt, NoDup, Placed;
    PlacedAt(index.nodesById, trails, k, i);
    PlacedAt(index.nodesById, trails, k, i + 1);
    var c := trails[k][i + 1].id;
    assert c in index.nodesById && index.nodesById[c].parentId == Some(id);
  }

  lemma OnePlace(index: Index, trails: Trails, entries: map<string, Summary>, k: string, i: nat, l: string, j: nat)
    requires Tree(index, trails, entries) && k in trails && l in trails && i < |trails[k]| && j < |trails[l]|
    requires trails[k][i].id == trails[l][j].id
    ensures i == j && trails[k][..i + 1] == trails[l][..i + 1]
  {
    hide Shape, ListedAt;
    assert Branching(trails[k], trails[l]);
  }

  lemma SmallerSet(a: set<string>, b: set<string>, x: string)
    requires a <= b && x in b && x !in a
    ensures |a| < |b|
  {
    assert a <= b - {x};
    SubsetCard(a, b - {x});
  }

  lemma ChildBelow(index: Index, trails: Trails, entries: map<string, Summary>, id: string, c: string)
    requires Tree(index, trails, entries) && id in index.nodesById && c in index.nodesById[id].childIds
    ensures |Below(trails, c)| < |Below(trails, id)|
  {
    hide Tree, Below;
    forall g | g in Below(trails, c)
      ensures g in Below(trails, id) && g != id
    {
      var k, i, j := BelowPlace(trails, c, g);
      ParentBefore(index, trails, entries, id, c, k, i);
      InBelow(trails, id, k, i - 1, j);
      if g == id {
        OnePlace(index, trails, entries, k, i - 1, k, j);
      }
    }
    ChildStands(index, trails, entries, id, c);
    SmallerSet(Below(trails, c), Below(trails, id), id);
  }

  lemma ChildStands(index: Index, trails: Trails, entries: map<string, Summary>, id: string, c: string)
    requires Tree(index, trails, entries) && id in index.nodesById && c in index.nodesById[id].childIds
    ensures id in Below(trails, id) && c in index.nodesById
  {
    hide Below, Places, Counted, ListedAt, NoDup, Placed;
    var k, i := SomePlace(index.nodesById, trails, c);
    ParentBefore(index, trails, entries, id, c, k, i);
    InBelow(trails, id, k, i - 1, i - 1);
  }

  ghost function Everywhere(trails: Trails): set<string> {
    set k, j | k in trails && 0 <= j < |trails[k]| :: trails[k][j].id
  }

  lemma BelowEverywhere(trails: Trails, id: string)
    ensures |Below(trails, id)| <= |Everywhere(trails)|
  {
    SubsetCard(Below(trails, id), Everywhere(trails));
  }

  // ---- the exchanges under a group

  ghost function KeysUnder(trails: Trails, id: string): set<string> {
    set k | k in trails && id in Ids(trails[k])
  }

  ghost function UnderChildren(trails: Trails, ids: seq<string>): set<string> {
    set k | k in trails && exists c :: c in ids && c in Ids(trails[k])
  }

  /** An exchange is under a group when it ends there or is under one of its children. */
  lemma UnderIsOwnAndChildren(index: Index, trails: Trails, entries: map<string, Summary>, id: string)
    requires Tree(index, trails, entries) && id in index.nodesById
    ensures KeysUnder(trails, id) == Elems(index.nodesById[id].exchangeIds)
      + UnderChildren(trails, index.nodesById[id].childIds)
  {
    hide Tree;
    var node := index.nodesById[id];
    forall k ensures k in KeysUnder(trails, id) <==> k in node.exchangeIds || k in UnderChildren(trails, node.childIds)
    {
      OwnExchange(index, trails, entries, id, k);
      if k in KeysUnder(trails, id) && k !in node.exchangeIds {
        var i :| 0 <= i < |trails[k]| && trails[k][i].id == id;
        ChildAfter(index, trails, entries, id, k, i);
        assert Ids(trails[k])[i + 1] in node.childIds;
      }
      if k in UnderChildren(trails, node.childIds) {
        var c :| c in node.childIds && c in Ids(trails[k]);
        var i :| 0 <= i < |trails[k]| && trails[k][i].id == c;
        ParentBefore(index, trails, entries, id, c, k, i);
        assert Ids(trails[k])[i - 1] == id;
      }
    }
  }

  lemma OwnExchange(index: Index, trails: Trails, entries: map<string, Summary>, id: string, k: string)
    requires Tree(index, trails, entries) && id in index.nodesById
    ensures k in index.nodesById[id].exchangeIds <==>
      k in trails && trails[k] != [] && trails[k][|trails[k]| - 1].id == id
    ensures k in trails ==> trails[k] != []
    ensures NoDup(index.nodesById[id].exchangeIds) && NoDup(index.nodesById[id].childIds)
  {
    hide Places, Populated, Placed, Counted, NoDup;
    assert k in index.nodesById[id].exchangeIds <==> k in Leaves(trails) && Leaves(trails)[k] == id;
  }

  /** Adds to `result` every exchange whose path contains the group. */
  method Visit(index: Index, id: string, result: set<string>, ghost trails: Trails, ghost entries: map<string, Summary>)
    returns (visited: set<string>)
    requires Tree(index, trails, entries)
    ensures visited == result + KeysUnder(trails, id)
    decreases |Below(trails, id)|
  {
    hide Tree, Below, KeysUnder, UnderChildren;
    visited := result;
    if id !in index.nodesById {
      NoNodeNothingUnder(index, trails, entries, id);
      return;
    }
    UnderIsOwnAndChildren(index, trails, entries, id);
    var node := index.nodesById[id];
    visited := visited + set e | e in node.exchangeIds;
    ChildrenSoFar(trails, node.childIds, 0);
    for i := 0 to |node.childIds|
      invariant visited == result + Elems(node.exchangeIds) + UnderChildren(trails, node.childIds[..i])
    {
      assert node.childIds[i] in node.childIds;
      ChildBelow(index, trails, entries, id, node.childIds[i]);
      ChildrenSoFar(trails, node.childIds, i + 1);
      visited := Visit(index, node.childIds[i], visited, trails, entries);
    }
    assert node.childIds[..|node.childIds|] == node.childIds;
  }

  lemma ChildrenSoFar(trails: Trails, ids: seq<string>, i: nat)
    requires i <= |ids|
    ensures i == 0 ==> UnderChildren(trails, ids[..i]) == {}
    ensures i > 0 ==> UnderChildren(trails, ids[..i]) == UnderChildren(trails, ids[..i - 1])
                      + KeysUnder(trails, ids[i - 1])
  {
    if i > 0 {
      var longer, shorter := ids[..i], ids[..i - 1];
      assert longer == shorter + [ids[i - 1]];
      forall k | k in trails
        ensures (exists c :: c in longer && c in Ids(trails[k])) <==>
          (exists c :: c in shorter && c in Ids(trails[k])) || ids[i - 1] in Ids(trails[k])
      {
        assert forall c :: c in longer <==> c in shorter || c == ids[i - 1];
      }
    }
  }

  lemma NoNodeNothingUnder(index: Index, trails: Trails, entries: map<string, Summary>, id: string)
    requires Tree(index, trails, entries) && id !in index.nodesById
    ensures KeysUnder(trails, id) == {}
  {
    hide Places, Placed, Counted, ListedAt, Linked;
    assert !OnTrail(trails, id);
  }

  /** The exchanges under a group are exactly those whose recorded path contains it. */
  method ExchangeIdsUnderGroup(codec: UriCodec, index: Index, groupId: string, ghost entries: map<string, Summary>)
    returns (ids: set<string>)
    requires EscapeLaw(codec) && Agrees(codec, index, entries)
    ensures forall k :: k in ids <==> k in index.exchangeToPath && groupId in index.exchangeToPath[k]
  {
    hide EscapeLaw, Shape, ListedAt, PathOf;
    AgreeingIsTree(codec, index, entries);
    ids := Visit(index, groupId, {}, TrailsOf(codec, entries), entries);
  }

  /** The arrival order cut down to what the filter keeps and, when a group is focused, to the exchanges under it. */
  method SelectFilteredExchangeIds(codec: UriCodec, summaries: map<string, Summary>, arrivalOrder: seq<string>,
                                   matches: Summary -> bool,
                                   index: Index, focusedGroupId: Option<string>, ghost entries: map<string, Summary>)
    returns (ids: seq<string>)
    requires EscapeLaw(codec) && Agrees(codec, index, entries)
    ensures exists kept: set<string> :: ids == Only(arrivalOrder, kept)
    ensures forall k :: k in ids <==>
      && k in arrivalOrder && k in summaries && matches(summaries[k])
      && (focusedGroupId.UnwrapOr("") != "" ==>
          k in index.exchangeToPath && focusedGroupId.value in index.exchangeToPath[k])
  {
    hide EscapeLaw, Agrees;
    var focused := set k | k in summaries;
    if focusedGroupId.UnwrapOr("") != "" {
      focused := ExchangeIdsUnderGroup(codec, index, focusedGroupId.value, entries);
    }
    var kept := set k | k in arrivalOrder && k in summaries && k in focused && matches(summaries[k]);
    ids := Only(arrivalOrder, kept);
    forall k ensures k in ids <==> k in arrivalOrder && k in kept {
      OnlyMembers(arrivalOrder, kept, k);
    }
  }

  // ---- groups

  datatype Group = Group(node: Node, children: seq<Group>)

  predicate Visible(visible: Option<set<string>>, k: string) {
    visible.Some? ==> k in visible.value
  }

  function VisibleOnly(visible: Option<set<string>>, ids: seq<string>): seq<string> {
    if visible.Some? then Only(ids, visible.value) else ids
  }

  /** The group of a node with its visible exchanges and children; nothing when none is left. */
  function ToGroup(index: Index, id: string, visible: Option<set<string>>, ghost trails: Trails,
                   ghost entries: map<string, Summary>): (groups: seq<Group>)
    requires Tree(index, trails, entries)
    decreases |Below(trails, id)|, if id in index.nodesById then |index.nodesById[id].childIds| + 1 else 0
  {
    if id !in index.nodesById then []
    else
      var node := index.nodesById[id];
      var exchangeIds := VisibleOnly(visible, node.exchangeIds);
      assert forall c :: c in node.childIds ==> |Below(trails, c)| < |Below(trails, id)|
                                                by { ChildrenBelow(index, trails, entries, id); }
      var children := ToGroups(index, node.childIds, visible, trails, entries, |Below(trails, id)|);
      if exchangeIds == [] && children == [] then [] else [Group(node.(exchangeIds := exchangeIds), children)]
  }

  function ToGroups(index: Index, ids: seq<string>, visible: Option<set<string>>, ghost trails: Trails,
                    ghost entries: map<string, Summary>, ghost bound: nat): (groups: seq<Group>)
    requires Tree(index, trails, entries)
    requires forall c :: c in ids ==> |Below(trails, c)| < bound
    decreases bound, |ids|
  {
    if ids == [] then []
    else ToGroup(index, ids[0], visible, trails, entries) + ToGroups(index, ids[1..], visible, trails, entries, bound)
  }

  lemma ChildrenBelow(index: Index, trails: Trails, entries: map<string, Summary>, id: string)
    requires Tree(index, trails, entries) && id in index.nodesById
    ensures forall c :: c in index.nodesById[id].childIds ==> |Below(trails, c)| < |Below(trails, id)|
  {
    hide Tree, Below;
    forall c | c in index.nodesById[id].childIds ensures |Below(trails, c)| < |Below(trails, id)| {
      ChildBelow(index, trails, entries, id, c);
    }
  }

  function StructureGroups(index: Index, visible: Option<set<string>>, ghost trails: Trails,
                           ghost entries: map<string, Summary>): seq<Group>
    requires Tree(index, trails, entries)
  {
    assert forall r :: r in index.rootIds ==> |Below(trails, r)| < |Everywhere(trails)| + 1 by {
      forall r | r in index.rootIds ensures |Below(trails, r)| < |Everywhere(trails)| + 1 { BelowEverywhere(trails, r);
          }
    }
    ToGroups(index, index.rootIds, visible, trails, entries, |Everywhere(trails)| + 1)
  }

  // ---- rows

  datatype Row =
    | GroupRow(key: string, id: string, parentId: Option<string>, depth: nat, group: Group, hasChildren: bool,
               expanded: bool)
    | ExchangeRow(key: string, id: string, parentId: Option<string>, depth: nat)
    | DraftRow(key: string, id: string, sourceExchangeId: string, parentId: Option<string>, depth: nat)

  datatype Draft = Draft(id: string, sourceExchangeId: string)

  /** Which groups stand open, and the draft shown beside its source. */
  datatype View = View(expandedNodeIds: set<string>, forcedExpandedNodeIds: set<string>, draft: Option<Draft>)

  predicate Opened(view: View, id: string) {
    id in view.expandedNodeIds || id in view.forcedExpandedNodeIds
  }

  function ExchangeRows(view: View, parentId: string, depth: nat, ids: seq<string>): seq<Row> {
    if ids == [] then []
    else
      [ExchangeRow("exchange:" + ids[0], ids[0], Some(parentId), depth)] +
      DraftRows(view, parentId, depth, ids[0]) +
      ExchangeRows(view, parentId, depth, ids[1..])
  }

  function DraftRows(view: View, parentId: string, depth: nat, id: string): seq<Row> {
    if view.draft.Some? && view.draft.value.sourceExchangeId == id
    then [DraftRow("draft:" + view.draft.value.id, view.draft.value.id, id, Some(parentId), depth)] else []
  }

  predicate HasChildren(group: Group) {
    |group.children| > 0 || |group.node.exchangeIds| > 0
  }

  /** The rows of one group: itself, then, when it stands open, its children's rows and its exchanges. */
  function GroupRows(view: View, group: Group, depth: nat, parentId: Option<string>): seq<Row>
    decreases group
  {
    var expanded := HasChildren(group) && Opened(view, group.node.id);
    [GroupRow("group:" + group.node.id, group.node.id, parentId, depth, group, HasChildren(group), expanded)] +
    if !expanded then []
    else
      AllRows(view, group.children, depth + 1, Some(group.node.id)) +
      ExchangeRows(view, group.node.id, depth + 1, group.node.exchangeIds)
  }

  function AllRows(view: View, groups: seq<Group>, depth: nat, parentId: Option<string>): seq<Row>
    decreases groups
  {
    if groups == [] then []
    else AllRows(view, groups[..|groups| - 1], depth, parentId) + GroupRows(view, groups[|groups| - 1], depth, parentId)
  }

  /** The list of rows that the traversal pushes onto. */
  class RowBuffer {
    var rows: seq<Row>

    constructor ()
      ensures rows == []
    {
      rows := [];
    }

    method Push(row: Row)
      modifies this
      ensures rows == old(rows) + [row]
    {
      rows := rows + [row];
    }
  }

  method AppendExchanges(buffer: RowBuffer, view: View, parentId: string, depth: nat, ids: seq<string>)
    modifies buffer
    ensures buffer.rows == old(buffer.rows) + ExchangeRows(view, parentId, depth, ids)
  {
    ghost var pushed := buffer.rows;
    for i := 0 to |ids|
      invariant buffer.rows == pushed + ExchangeRows(view, parentId, depth, ids[..i])
    {
      NextExchangeRows(view, parentId, depth, ids, i);
      PushExchange(buffer, view, parentId, depth, ids[i]);
    }
    assert ids[..|ids|] == ids;
  }

  method PushExchange(buffer: RowBuffer, view: View, parentId: string, depth: nat, id: string)
    modifies buffer
    ensures buffer.rows == old(buffer.rows) + [ExchangeRow("exchange:" + id, id, Some(parentId), depth)]
      + DraftRows(view, parentId, depth, id)
  {
    buffer.Push(ExchangeRow("exchange:" + id, id, Some(parentId), depth));
    if view.draft.Some? && view.draft.value.sourceExchangeId == id {
      buffer.Push(DraftRow("draft:" + view.draft.value.id, view.draft.value.id, id, Some(parentId), depth));
    }
  }

  lemma {:induction false} NextExchangeRows(view: View, parentId: string, depth: nat, ids: seq<string>, i: nat)
    requires i < |ids|
    ensures ExchangeRows(view, parentId, depth, ids[..i + 1])
         == ExchangeRows(view, parentId, depth, ids[..i])
           + [ExchangeRow("exchange:" + ids[i], ids[i], Some(parentId), depth)]
             + DraftRows(view, parentId, depth, ids[i])
  {
    hide DraftRows;
    if i == 0 {
      assert ids[..1][1..] == [];
    } else {
      NextExchangeRows(view, parentId, depth, ids[1..], i - 1);
      assert ids[..i + 1][1..] == ids[1..][..i] && ids[..i][1..] == ids[1..][..i - 1];
    }
  }

  /** Pushes a group's rows, depth first, its children before its exchanges. */
  method AppendGroup(buffer: RowBuffer, view: View, group: Group, depth: nat, parentId: Option<string>)
    modifies buffer
    ensures buffer.rows == old(buffer.rows) + GroupRows(view, group, depth, parentId)
    decreases group
  {
    hide AllRows, ExchangeRows, HasChildren, Opened;
    var expanded := HasChildren(group) && Opened(view, group.node.id);
    NoGroupRows(view, depth + 1, Some(group.node.id));
    buffer.Push(GroupRow("group:" + group.node.id, group.node.id, parentId, depth, group, HasChildren(group),
                         expanded));
    if !expanded {
      return;
    }
    ghost var pushed := buffer.rows;
    for i := 0 to |group.children|
      invariant buffer.rows == pushed + AllRows(view, group.children[..i], depth + 1, Some(group.node.id))
    {
      NextGroupRows(view, group.children, i, depth + 1, Some(group.node.id));
      AppendGroup(buffer, view, group.children[i], depth + 1, Some(group.node.id));
    }
    assert group.children[..|group.children|] == group.children;
    AppendExchanges(buffer, view, group.node.id, depth + 1, group.node.exchangeIds);
  }

  lemma NoGroupRows(view: View, depth: nat, parentId: Option<string>)
    ensures AllRows(view, [], depth, parentId) == []
  {
  }

  lemma NextGroupRows(view: View, groups: seq<Group>, i: nat, depth: nat, parentId: Option<string>)
    requires i < |groups|
    ensures AllRows(view, groups[..i + 1], depth, parentId) == AllRows(view, groups[..i], depth, parentId)
      + GroupRows(view, groups[i], depth, parentId)
  {
    hide GroupRows;
    assert groups[..i + 1][..i] == groups[..i];
  }

  method FlattenStructureGroups(groups: seq<Group>, view: View) returns (rows: seq<Row>)
    ensures rows == AllRows(view, groups, 0, None)
  {
    var buffer := new RowBuffer();
    for i := 0 to |groups|
      invariant buffer.rows == AllRows(view, groups[..i], 0, None)
    {
      NextGroupRows(view, groups, i, 0, None);
      AppendGroup(buffer, view, groups[i], 0, None);
    }
    assert groups[..|groups|] == groups;
    rows := buffer.rows;
  }

  // ---- which exchanges have a row

  function ShownCount(rows: seq<Row>, k: string): nat {
    if rows == [] then 0
    else ShownCount(rows[..|rows| - 1], k) + if rows[|rows| - 1].ExchangeRow? && rows[|rows| - 1].id == k then 1 else 0
  }

  lemma {:induction false} ShownConcat(a: seq<Row>, b: seq<Row>, k: string)
    ensures ShownCount(a + b, k) == ShownCount(a, k) + ShownCount(b, k)
  {
    if b == [] {
      assert a + b == a;
    } else {
      assert (a + b)[..|a + b| - 1] == a + b[..|b| - 1];
      ShownConcat(a, b[..|b| - 1], k);
    }
  }

  lemma {:induction false} AllRowsConcat(view: View, a: seq<Group>, b: seq<Group>, depth: nat, parentId: Option<string>)
    ensures AllRows(view, a + b, depth, parentId) == AllRows(view, a, depth, parentId)
      + AllRows(view, b, depth, parentId)
  {
    hide GroupRows;
    if b == [] {
      assert a + b == a;
    } else {
      assert (a + b)[..|a + b| - 1] == a + b[..|b| - 1];
      AllRowsConcat(view, a, b[..|b| - 1], depth, parentId);
    }
  }

  lemma {:induction false} OwnRowsShown(view: View, parentId: string, depth: nat, ids: seq<string>, k: string)
    requires NoDup(ids)
    ensures ShownCount(ExchangeRows(view, parentId, depth, ids), k) == if k in ids then 1 else 0
  {
    if ids != [] {
      var rest := ExchangeRows(view, parentId, depth, ids[1..]);
      OwnRowsShown(view, parentId, depth, ids[1..], k);
      var row := ExchangeRow("exchange:" + ids[0], ids[0], Some(parentId), depth);
      var drafts := DraftRows(view, parentId, depth, ids[0]);
      OneShown(row, k);
      if drafts != [] {
        OneShown(drafts[0], k);
      }
      ShownConcat([row], drafts, k);
      ShownConcat([row] + drafts, rest, k);
      assert k in ids <==> k == ids[0] || k in ids[1..];
    }
  }

  lemma OneShown(row: Row, k: string)
    ensures ShownCount([row], k) == if row.ExchangeRow? && row.id == k then 1 else 0
  {
    assert [row][..0] == [];
  }

  /** From the group on, every group on the exchange's path stands open. */
  ghost predicate Reached(trails: Trails, view: View, visible: Option<set<string>>, id: string, k: string) {
    && k in trails && Visible(visible, k)
    && exists i :: 0 <= i < |trails[k]| && trails[k][i].id == id && OpenFrom(trails[k], view, i)
  }

  ghost predicate OpenFrom(path: Path, view: View, i: nat) {
    forall j :: i <= j < |path| ==> path[j].id in view.expandedNodeIds + view.forcedExpandedNodeIds
  }

  ghost predicate ReachedThrough(trails: Trails, view: View, visible: Option<set<string>>, ids: seq<string>, k: string)
  {
    exists c :: c in ids && Reached(trails, view, visible, c, k)
  }

  /**
   An exchange is reached through an open group when it ends there or is reached through one of its
   children, never both.
   */
  lemma ReachedSplit(index: Index, trails: Trails, entries: map<string, Summary>, view: View,
                     visible: Option<set<string>>, id: string, k: string)
    requires Tree(index, trails, entries) && id in index.nodesById
    ensures var own := k in index.nodesById[id].exchangeIds && Visible(visible, k);
      var below := ReachedThrough(trails, view, visible, index.nodesById[id].childIds, k);
      && !(own && below)
      && (Reached(trails, view, visible, id, k) <==> Opened(view, id) && (own || below))
  {
    hide Tree;
    var node := index.nodesById[id];
    OwnExchange(index, trails, entries, id, k);
    if ReachedThrough(trails, view, visible, node.childIds, k) {
      var c :| c in node.childIds && Reached(trails, view, visible, c, k);
      var i :| 0 <= i < |trails[k]| && trails[k][i].id == c && OpenFrom(trails[k], view, i);
      ParentBefore(index, trails, entries, id, c, k, i);
      if k in node.exchangeIds {
        OnePlace(index, trails, entries, k, i - 1, k, |trails[k]| - 1);
      }
      if Opened(view, id) {
        assert OpenFrom(trails[k], view, i - 1);
      }
    }
    if Reached(trails, view, visible, id, k) {
      var i :| 0 <= i < |trails[k]| && trails[k][i].id == id && OpenFrom(trails[k], view, i);
      if i + 1 < |trails[k]| {
        ChildAfter(index, trails, entries, id, k, i);
        assert OpenFrom(trails[k], view, i + 1);
        assert Reached(trails, view, visible, trails[k][i + 1].id, k);
      }
    }
    if k in node.exchangeIds && Visible(visible, k) && Opened(view, id) {
      assert OpenFrom(trails[k], view, |trails[k]| - 1);
    }
  }

  ghost predicate AtDepth(trails: Trails, id: string, depth: nat) {
    forall k, i {:trigger trails[k][i]} :: k in trails && 0 <= i < |trails[k]| && trails[k][i].id == id ==> i == depth
  }

  /** Siblings stand at one depth, so a path meets only one of them. */
  lemma OneSibling(trails: Trails, view: View, visible: Option<set<string>>, c: string, d: string, depth: nat,
                   k: string)
    requires AtDepth(trails, c, depth) && AtDepth(trails, d, depth)
    requires Reached(trails, view, visible, c, k) && Reached(trails, view, visible, d, k)
    ensures c == d
  {
    var i :| 0 <= i < |trails[k]| && trails[k][i].id == c && OpenFrom(trails[k], view, i);
    var j :| 0 <= j < |trails[k]| && trails[k][j].id == d && OpenFrom(trails[k], view, j);
  }

  lemma ChildDepth(index: Index, trails: Trails, entries: map<string, Summary>, id: string, depth: nat)
    requires Tree(index, trails, entries) && id in index.nodesById && AtDepth(trails, id, depth)
    ensures forall c :: c in index.nodesById[id].childIds ==> c in index.nodesById && AtDepth(trails, c, depth + 1)
  {
    hide Tree;
    forall c | c in index.nodesById[id].childIds ensures c in index.nodesById && AtDepth(trails, c, depth + 1) {
      ChildStands(index, trails, entries, id, c);
      forall k, i: nat | k in trails && i < |trails[k]| && trails[k][i].id == c ensures i == depth + 1 {
        ParentBefore(index, trails, entries, id, c, k, i);
      }
    }
  }

  lemma {:induction false} VisibleOnlyMembers(visible: Option<set<string>>, ids: seq<string>, k: string)
    requires NoDup(ids)
    ensures NoDup(VisibleOnly(visible, ids))
    ensures k in VisibleOnly(visible, ids) <==> k in ids && Visible(visible, k)
  {
    if visible.Some? {
      OnlyNoDup(ids, visible.value);
      OnlyMembers(ids, visible.value, k);
    }
  }

  lemma {:induction false} GroupShown(index: Index, trails: Trails, entries: map<string, Summary>, view: View,
                                      visible: Option<set<string>>,
                                     id: string, depth: nat, parentId: Option<string>, k: string)
    requires Tree(index, trails, entries) && id in index.nodesById && AtDepth(trails, id, depth)
    ensures ShownCount(AllRows(view, ToGroup(index, id, visible, trails, entries), depth, parentId), k)
         == if Reached(trails, view, visible, id, k) then 1 else 0
    decreases |Below(trails, id)|, |index.nodesById[id].childIds| + 1
  {
    hide Tree, Below, Reached, ReachedThrough, AtDepth, NoDup;
    var node := index.nodesById[id];
    ChildrenBelow(index, trails, entries, id);
    ChildDepth(index, trails, entries, id, depth);
    OwnExchange(index, trails, entries, id, k);
    VisibleOnlyMembers(visible, node.exchangeIds, k);
    ReachedSplit(index, trails, entries, view, visible, id, k);
    var bound := |Below(trails, id)|;
    ListShown(index, trails, entries, view, visible, node.childIds, bound, depth + 1, Some(node.id), k);
    var exchangeIds, children := VisibleOnly(visible, node.exchangeIds),
      ToGroups(index, node.childIds, visible, trails, entries, bound);
    NodeId(index, trails, entries, id);
    OneGroupShown(view, Group(node.(exchangeIds := exchangeIds), children), depth, parentId, k);
    NothingShown(view, depth, parentId, k);
  }

  lemma {:induction false} ListShown(index: Index, trails: Trails, entries: map<string, Summary>, view: View,
                                     visible: Option<set<string>>,
                                    ids: seq<string>, bound: nat, depth: nat, parentId: Option<string>, k: string)
    requires Tree(index, trails, entries) && NoDup(ids)
    requires forall c :: c in ids ==> |Below(trails, c)| < bound && c in index.nodesById && AtDepth(trails, c, depth)
    ensures ShownCount(AllRows(view, ToGroups(index, ids, visible, trails, entries, bound), depth, parentId), k)
         == if ReachedThrough(trails, view, visible, ids, k) then 1 else 0
    decreases bound, |ids|
  {
    hide Tree, Below, Reached, AtDepth, ShownCount, AllRows, ToGroup;
    if ids == [] {
      NothingShown(view, depth, parentId, k);
    } else {
      assert ids[0] in ids && forall c :: c in ids[1..] ==> c in ids;
      GroupShown(index, trails, entries, view, visible, ids[0], depth, parentId, k);
      ListShown(index, trails, entries, view, visible, ids[1..], bound, depth, parentId, k);
      var first, rest := ToGroup(index, ids[0], visible, trails, entries),
        ToGroups(index, ids[1..], visible, trails, entries, bound);
      AllRowsConcat(view, first, rest, depth, parentId);
      ShownConcat(AllRows(view, first, depth, parentId), AllRows(view, rest, depth, parentId), k);
      assert forall c :: c in ids <==> c == ids[0] || c in ids[1..];
      if Reached(trails, view, visible, ids[0], k) && ReachedThrough(trails, view, visible, ids[1..], k) {
        var c :| c in ids[1..] && Reached(trails, view, visible, c, k);
        OneSibling(trails, view, visible, ids[0], c, depth, k);
      }
    }
  }

  lemma NothingShown(view: View, depth: nat, parentId: Option<string>, k: string)
    ensures ShownCount(AllRows(view, [], depth, parentId), k) == 0
  {
  }

  lemma NodeId(index: Index, trails: Trails, entries: map<string, Summary>, id: string)
    requires Tree(index, trails, entries) && id in index.nodesById
    ensures index.nodesById[id].id == id
  {
    hide Places, Counted, Linked, ListedAt, Placed;
    var k, i := SomePlace(index.nodesById, trails, id);
    PlacedAt(index.nodesById, trails, k, i);
  }

  lemma OneGroupShown(view: View, group: Group, depth: nat, parentId: Option<string>, k: string)
    requires NoDup(group.node.exchangeIds)
    ensures ShownCount(AllRows(view, [group], depth, parentId), k)
         == if HasChildren(group) && Opened(view, group.node.id)
            then ShownCount(AllRows(view, group.children, depth + 1, Some(group.node.id)), k)
              + (if k in group.node.exchangeIds then 1 else 0)
            else 0
  {
    hide ExchangeRows, NoDup, HasChildren, Opened;
    assert [group][..0] == [];
    assert AllRows(view, [group], depth, parentId) == GroupRows(view, group, depth, parentId);
    var expanded := HasChildren(group) && Opened(view, group.node.id);
    var header := GroupRow("group:" + group.node.id, group.node.id, parentId, depth, group, HasChildren(group),
                           expanded);
    var below := AllRows(view, group.children, depth + 1, Some(group.node.id));
    var own := ExchangeRows(view, group.node.id, depth + 1, group.node.exchangeIds);
    OneShown(header, k);
    OwnRowsShown(view, group.node.id, depth + 1, group.node.exchangeIds, k);
    ShownConcat(below, own, k);
    ShownConcat([header], below + own, k);
    ShownConcat([header], [], k);
  }

  lemma RootsAtTop(index: Index, trails: Trails, entries: map<string, Summary>)
    requires Tree(index, trails, entries)
    ensures NoDup(index.rootIds)
    ensures forall r :: r in index.rootIds ==> r in index.nodesById && AtDepth(trails, r, 0)
    ensures forall k :: k in trails ==> trails[k] != [] && trails[k][0].id in index.rootIds
  {
    hide Places, Counted, ListedAt, NoDup, Placed, Populated;
    forall r | r in index.rootIds ensures AtDepth(trails, r, 0) {
      forall k, i: nat | k in trails && i < |trails[k]| && trails[k][i].id == r ensures i == 0 {
        PlacedAt(index.nodesById, trails, k, i);
      }
    }
    forall k | k in trails ensures trails[k][0].id in index.rootIds {
      PlacedAt(index.nodesById, trails, k, 0);
    }
  }

  /**
   The rows of the visible structure. An exchange has one row when it is retained, visible and every
   group on its path stands open, and no row otherwise; so fully opened each visible exchange has exactly one.
   */
  lemma EachReachedExchangeOnce(index: Index, trails: Trails, entries: map<string, Summary>, view: View,
                                visible: Option<set<string>>, k: string)
    requires Tree(index, trails, entries)
    ensures ShownCount(AllRows(view, StructureGroups(index, visible, trails, entries), 0, None), k)
         == if k in entries && Visible(visible, k) && OpenFrom(trails[k], view, 0) then 1 else 0
  {
    hide Tree, Below, ToGroups, AllRows, Opened;
    RootsAtTop(index, trails, entries);
    EntriesOnTrails(index, trails, entries);
    var bound := |Everywhere(trails)| + 1;
    forall r | r in index.rootIds ensures |Below(trails, r)| < bound {
      BelowEverywhere(trails, r);
    }
    ListShown(index, trails, entries, view, visible, index.rootIds, bound, 0, None, k);
    if ReachedThrough(trails, view, visible, index.rootIds, k) {
      var r :| r in index.rootIds && Reached(trails, view, visible, r, k);
      var i :| 0 <= i < |trails[k]| && trails[k][i].id == r && OpenFrom(trails[k], view, i);
      assert trails[k][i].id == r;
    }
    if k in entries && Visible(visible, k) && OpenFrom(trails[k], view, 0) {
      assert Reached(trails, view, visible, trails[k][0].id, k);
    }
  }

  lemma EntriesOnTrails(index: Index, trails: Trails, entries: map<string, Summary>)
    requires Tree(index, trails, entries)
    ensures forall k :: k in trails <==> k in entries
  {
    hide Places, Shape, ListedAt;
  }

  // ---- where the rows stand, and which groups have one

  /** A group's place: always this deep, always under this parent. */
  ghost predicate Located(trails: Trails, id: string, depth: nat, parentId: Option<string>) {
    forall k, i {:trigger trails[k][i]} :: k in trails && 0 <= i < |trails[k]| && trails[k][i].id == id ==>
      i == depth && ParentAt(trails[k], i) == parentId
  }

  /**
   A group row stands at its group's place, shows its node with the visible exchanges of it, open or not as
   the view says, and has at least one visible exchange below; an exchange row stands under its leaf, and so
   does the view's draft.
   */
  ghost predicate Fits(index: Index, trails: Trails, view: View, visible: Option<set<string>>, row: Row) {
    match row
    case GroupRow(key, id, parentId, depth, group, hasChildren, expanded) =>
      && key == "group:" + id && hasChildren && (expanded <==> id in view.expandedNodeIds + view.forcedExpandedNodeIds)
      && Located(trails, id, depth, parentId) && Populates(trails, visible, id) && ShowsNode(index, visible, id, group)
    case ExchangeRow(key, id, parentId, depth) =>
      && key == "exchange:" + id && id in trails && Visible(visible, id) && trails[id] != []
      && parentId == Some(trails[id][|trails[id]| - 1].id) && depth == |trails[id]|
    case DraftRow(key, id, source, parentId, depth) =>
      && key == "draft:" + id && view.draft == Some(Draft(id, source))
      && source in trails && Visible(visible, source) && trails[source] != []
      && parentId == Some(trails[source][|trails[source]| - 1].id) && depth == |trails[source]|
  }

  ghost predicate ShowsNode(index: Index, visible: Option<set<string>>, id: string, group: Group) {
    && id in index.nodesById
    && group.node == index.nodesById[id].(exchangeIds := group.node.exchangeIds)
    && forall k :: k in group.node.exchangeIds <==> k in index.nodesById[id].exchangeIds && Visible(visible, k)
  }

  ghost predicate Populates(trails: Trails, visible: Option<set<string>>, id: string) {
    exists k :: k in trails && Visible(visible, k) && id in Ids(trails[k])
  }

  ghost predicate AllFit(index: Index, trails: Trails, view: View, visible: Option<set<string>>, rows: seq<Row>) {
    forall i :: 0 <= i < |rows| ==> Fits(index, trails, view, visible, rows[i])
  }

  lemma ChildrenLocated(index: Index, trails: Trails, entries: map<string, Summary>, id: string, depth: nat,
                        parentId: Option<string>)
    requires Tree(index, trails, entries) && id in index.nodesById && Located(trails, id, depth, parentId)
    ensures forall c :: c in index.nodesById[id].childIds ==>
      c in index.nodesById && Located(trails, c, depth + 1, Some(id))
  {
    hide Tree;
    forall c | c in index.nodesById[id].childIds ensures c in index.nodesById && Located(trails, c, depth + 1, Some(id))
    {
      ChildStands(index, trails, entries, id, c);
      forall k, i: nat | k in trails && i < |trails[k]| && trails[k][i].id == c
        ensures i == depth + 1 && ParentAt(trails[k], i) == Some(id) {
        ParentBefore(index, trails, entries, id, c, k, i);
      }
    }
  }

  /** A node has a group exactly when a visible exchange is under it. */
  lemma {:induction false} GroupExactlyWhenPopulated(index: Index, trails: Trails, entries: map<string, Summary>,
                                                     visible: Option<set<string>>, id: string)
    requires Tree(index, trails, entries) && id in index.nodesById
    ensures ToGroup(index, id, visible, trails, entries) != [] <==> Populates(trails, visible, id)
    decreases |Below(trails, id)|, |index.nodesById[id].childIds| + 1
  {
    hide Tree, Below, KeysUnder, UnderChildren, NoDup;
    var node := index.nodesById[id];
    ChildrenBelow(index, trails, entries, id);
    UnderIsOwnAndChildren(index, trails, entries, id);
    OwnNoDup(index, trails, entries, id);
    forall c | c in node.childIds ensures c in index.nodesById { ChildStands(index, trails, entries, id, c); }
    SomePopulated(index, trails, entries, visible, node.childIds, |Below(trails, id)|);
    PopulatesSplit(trails, visible, id, node);
    VisibleOnlyEmpty(visible, node.exchangeIds);
  }

  lemma OwnNoDup(index: Index, trails: Trails, entries: map<string, Summary>, id: string)
    requires Tree(index, trails, entries) && id in index.nodesById
    ensures NoDup(index.nodesById[id].exchangeIds)
  {
    hide Places, Populated, Placed, Counted, NoDup, Linked;
  }

  lemma VisibleOnlyEmpty(visible: Option<set<string>>, ids: seq<string>)
    requires NoDup(ids)
    ensures VisibleOnly(visible, ids) == [] <==> forall k :: k in ids ==> !Visible(visible, k)
  {
    var shown := VisibleOnly(visible, ids);
    forall k | k in ids ensures k in shown <==> Visible(visible, k) { VisibleOnlyMembers(visible, ids, k); }
    if shown != [] {
      VisibleOnlyMembers(visible, ids, shown[0]);
    }
  }

  lemma PopulatesSplit(trails: Trails, visible: Option<set<string>>, id: string, node: Node)
    requires KeysUnder(trails, id) == Elems(node.exchangeIds) + UnderChildren(trails, node.childIds)
    ensures Populates(trails, visible, id)
       <==> (exists k :: k in node.exchangeIds && Visible(visible, k))
            || (exists c :: c in node.childIds && Populates(trails, visible, c))
  {
    if Populates(trails, visible, id) {
      var k :| k in trails && Visible(visible, k) && id in Ids(trails[k]);
      assert k in KeysUnder(trails, id);
      if k !in node.exchangeIds {
        assert k in UnderChildren(trails, node.childIds);
      }
    }
    if k: string :| k in node.exchangeIds && Visible(visible, k) {
      assert k in Elems(node.exchangeIds);
      assert k in KeysUnder(trails, id);
    }
    if c: string :| c in node.childIds && Populates(trails, visible, c) {
      var k :| k in trails && Visible(visible, k) && c in Ids(trails[k]);
      assert k in UnderChildren(trails, node.childIds);
      assert k in KeysUnder(trails, id);
    }
  }

  lemma {:induction false} SomePopulated(index: Index, trails: Trails, entries: map<string, Summary>,
                                         visible: Option<set<string>>, ids: seq<string>, bound: nat)
    requires Tree(index, trails, entries)
    requires forall c :: c in ids ==> |Below(trails, c)| < bound && c in index.nodesById
    ensures ToGroups(index, ids, visible, trails, entries, bound) != [] <==>
      exists c :: c in ids && Populates(trails, visible, c)
    decreases bound, |ids|
  {
    hide Tree, Below, Populates, ToGroup;
    if ids != [] {
      assert ids[0] in ids && forall c :: c in ids <==> c == ids[0] || c in ids[1..];
      GroupExactlyWhenPopulated(index, trails, entries, visible, ids[0]);
      SomePopulated(index, trails, entries, visible, ids[1..], bound);
    }
  }

  lemma FitConcat(index: Index, trails: Trails, view: View, visible: Option<set<string>>, a: seq<Row>, b: seq<Row>)
    requires AllFit(index, trails, view, visible, a) && AllFit(index, trails, view, visible, b)
    ensures AllFit(index, trails, view, visible, a + b)
  {
    hide Fits;
  }

  lemma {:induction false} OwnRowsFit(index: Index, trails: Trails, visible: Option<set<string>>, view: View,
                                      id: string, depth: nat,
                                      ids: seq<string>)
    requires forall k :: k in ids ==> k in trails && Visible(visible, k) && trails[k] != []
                                      && trails[k][|trails[k]| - 1].id == id && |trails[k]| == depth
    ensures AllFit(index, trails, view, visible, ExchangeRows(view, id, depth, ids))
  {
    if ids != [] {
      assert ids[0] in ids && forall k :: k in ids[1..] ==> k in ids;
      OwnRowsFit(index, trails, visible, view, id, depth, ids[1..]);
      var row := ExchangeRow("exchange:" + ids[0], ids[0], Some(id), depth);
      FitConcat(index, trails, view, visible, [row], DraftRows(view, id, depth, ids[0]));
      FitConcat(index, trails, view, visible, [row] + DraftRows(view, id, depth, ids[0]),
                ExchangeRows(view, id, depth, ids[1..]));
    }
  }

  lemma {:induction false} GroupFits(index: Index, trails: Trails, entries: map<string, Summary>, view: View,
                                     visible: Option<set<string>>,
                                    id: string, depth: nat, parentId: Option<string>)
    requires Tree(index, trails, entries) && id in index.nodesById && Located(trails, id, depth, parentId)
    ensures AllFit(index, trails, view, visible,
                   AllRows(view, ToGroup(index, id, visible, trails, entries), depth, parentId))
    decreases |Below(trails, id)|, |index.nodesById[id].childIds| + 1
  {
    hide Tree, Below, Located, NoDup, Populates, Opened, ExchangeRows;
    var node := index.nodesById[id];
    ChildrenBelow(index, trails, entries, id);
    ChildrenLocated(index, trails, entries, id, depth, parentId);
    NodeId(index, trails, entries, id);
    var bound := |Below(trails, id)|;
    ListFits(index, trails, entries, view, visible, node.childIds, bound, depth + 1, Some(id));
    GroupExactlyWhenPopulated(index, trails, entries, visible, id);
    var exchangeIds, children := VisibleOnly(visible, node.exchangeIds),
      ToGroups(index, node.childIds, visible, trails, entries, bound);
    if exchangeIds != [] || children != [] {
      forall k | k in exchangeIds
        ensures k in trails && Visible(visible, k) && trails[k] != [] && trails[k][|trails[k]| - 1].id == id
          && |trails[k]| == depth + 1
      {
        OwnExchange(index, trails, entries, id, k);
        VisibleOnlyMembers(visible, node.exchangeIds, k);
        LocatedAt(trails, id, depth, parentId, k, |trails[k]| - 1);
      }
      OwnRowsFit(index, trails, visible, view, id, depth + 1, exchangeIds);
      OwnNoDup(index, trails, entries, id);
      forall k ensures k in exchangeIds <==> k in node.exchangeIds && Visible(visible, k) {
        VisibleOnlyMembers(visible, node.exchangeIds, k);
      }
      OneGroupFits(index, trails, visible, view, Group(node.(exchangeIds := exchangeIds), children), depth, parentId);
    }
  }

  lemma LocatedAt(trails: Trails, id: string, depth: nat, parentId: Option<string>, k: string, i: nat)
    requires Located(trails, id, depth, parentId) && k in trails && i < |trails[k]| && trails[k][i].id == id
    ensures i == depth
  {
  }

  lemma OneGroupFits(index: Index, trails: Trails, visible: Option<set<string>>, view: View, group: Group, depth: nat,
                     parentId: Option<string>)
    requires HasChildren(group) && Located(trails, group.node.id, depth, parentId)
      && Populates(trails, visible, group.node.id) && ShowsNode(index, visible, group.node.id, group)
    requires AllFit(index, trails, view, visible, AllRows(view, group.children, depth + 1, Some(group.node.id)))
    requires AllFit(index, trails, view, visible, ExchangeRows(view, group.node.id, depth + 1, group.node.exchangeIds))
    ensures AllFit(index, trails, view, visible, AllRows(view, [group], depth, parentId))
  {
    hide Located, Populates, ExchangeRows, ShowsNode;
    assert [group][..0] == [];
    assert AllRows(view, [group], depth, parentId) == GroupRows(view, group, depth, parentId);
    FitConcat(index, trails, view, visible, AllRows(view, group.children, depth + 1, Some(group.node.id)),
              ExchangeRows(view, group.node.id, depth + 1, group.node.exchangeIds));
  }

  lemma {:induction false} ListFits(index: Index, trails: Trails, entries: map<string, Summary>, view: View,
                                    visible: Option<set<string>>,
                                   ids: seq<string>, bound: nat, depth: nat, parentId: Option<string>)
    requires Tree(index, trails, entries)
    requires forall c :: c in ids ==> |Below(trails, c)| < bound && c in index.nodesById
                                      && Located(trails, c, depth, parentId)
    ensures AllFit(index, trails, view, visible,
                   AllRows(view, ToGroups(index, ids, visible, trails, entries, bound), depth, parentId))
    decreases bound, |ids|
  {
    hide Tree, Below, Located, ToGroup, Fits;
    if ids != [] {
      assert ids[0] in ids && forall c :: c in ids[1..] ==> c in ids;
      GroupFits(index, trails, entries, view, visible, ids[0], depth, parentId);
      ListFits(index, trails, entries, view, visible, ids[1..], bound, depth, parentId);
      var first, rest := ToGroup(index, ids[0], visible, trails, entries),
        ToGroups(index, ids[1..], visible, trails, entries, bound);
      AllRowsConcat(view, first, rest, depth, parentId);
      FitConcat(index, trails, view, visible, AllRows(view, first, depth, parentId),
                AllRows(view, rest, depth, parentId));
    }
  }

  /** Every row stands at the place its path gives it, and no group is shown without a visible exchange below. */
  lemma EveryRowFits(index: Index, trails: Trails, entries: map<string, Summary>, view: View,
                     visible: Option<set<string>>)
    requires Tree(index, trails, entries)
    ensures AllFit(index, trails, view, visible,
                   AllRows(view, StructureGroups(index, visible, trails, entries), 0, None))
  {
    hide Tree, Below, ToGroups, AllRows, Opened, AllFit;
    RootsAtTop(index, trails, entries);
    var bound := |Everywhere(trails)| + 1;
    forall r | r in index.rootIds ensures |Below(trails, r)| < bound && Located(trails, r, 0, None) {
      BelowEverywhere(trails, r);
    }
    ListFits(index, trails, entries, view, visible, index.rootIds, bound, 0, None);
  }

  // ---- the order of the rows

  /** Row `j` is the open group that row `i` belongs to: one level up, with nothing of its level between. */
  ghost predicate Owns(rows: seq<Row>, j: nat, i: nat)
    requires j < i < |rows|
  {
    && rows[j].GroupRow? && rows[j].expanded && rows[i].parentId == Some(rows[j].id)
    && rows[i].depth == rows[j].depth + 1
    && forall m :: j < m < i ==> rows[m].depth > rows[j].depth
  }

  ghost predicate Owned(rows: seq<Row>, i: nat)
    requires i < |rows|
  {
    exists j: nat :: j < i && Owns(rows, j, i)
  }

  /** Rows in depth first order: those at `depth` belong to `parentId`, each deeper one to the group it follows. */
  ghost predicate Nests(rows: seq<Row>, depth: nat, parentId: Option<string>) {
    forall i: nat :: i < |rows| ==>
      && rows[i].depth >= depth
      && (rows[i].depth == depth ==> rows[i].parentId == parentId)
      && (rows[i].depth > depth ==> Owned(rows, i))
  }

  /** No group follows an exchange of its level: a group's children come before its own exchanges. */
  ghost predicate GroupsFirst(rows: seq<Row>) {
    forall i {:trigger rows[i]} :: 0 < i < |rows| && rows[i].GroupRow? && !rows[i - 1].GroupRow? ==>
      rows[i - 1].depth > rows[i].depth
  }

  /** The draft stands right behind its source, and behind nothing else. */
  ghost predicate DraftFollows(view: View, rows: seq<Row>) {
    && (forall i :: 0 <= i < |rows| && rows[i].DraftRow? ==>
          i > 0 && rows[i - 1].ExchangeRow? && rows[i - 1].id == rows[i].sourceExchangeId)
    && (forall i :: 0 <= i < |rows| && rows[i].ExchangeRow? && view.draft.Some?
                    && view.draft.value.sourceExchangeId == rows[i].id ==>
          i + 1 < |rows| && rows[i + 1].DraftRow?)
  }

  lemma NestsConcat(a: seq<Row>, b: seq<Row>, depth: nat, parentId: Option<string>)
    requires Nests(a, depth, parentId) && Nests(b, depth, parentId)
    ensures Nests(a + b, depth, parentId)
  {
    hide Owned;
    var rows := a + b;
    forall i: nat | i < |rows|
      ensures rows[i].depth >= depth && (rows[i].depth == depth ==> rows[i].parentId == parentId)
              && (rows[i].depth > depth ==> Owned(rows, i))
    {
      if i < |a| {
        assert rows[i] == a[i];
        if a[i].depth > depth {
          OwnedEarlier(a, b, i);
        }
      } else {
        assert rows[i] == b[i - |a|];
        if b[i - |a|].depth > depth {
          OwnedLater(a, b, i - |a|);
        }
      }
    }
  }

  lemma OwnedEarlier(a: seq<Row>, b: seq<Row>, i: nat)
    requires i < |a| && Owned(a, i)
    ensures Owned(a + b, i)
  {
    var j: nat :| j < i && Owns(a, j, i);
    forall m | j < m < i ensures (a + b)[m].depth > (a + b)[j].depth { assert (a + b)[m] == a[m]; }
    assert Owns(a + b, j, i);
  }

  lemma OwnedLater(a: seq<Row>, b: seq<Row>, i: nat)
    requires i < |b| && Owned(b, i)
    ensures Owned(a + b, |a| + i)
  {
    var j: nat :| j < i && Owns(b, j, i);
    forall m | |a| + j < m < |a| + i ensures (a + b)[m].depth > (a + b)[|a| + j].depth {
      assert (a + b)[m] == b[m - |a|];
    }
    assert Owns(a + b, |a| + j, |a| + i);
  }

  lemma OwnedByHeader(header: Row, inner: seq<Row>, depth: nat, i: nat)
    requires header.GroupRow? && header.expanded && header.depth == depth && i < |inner|
    requires Nests(inner, depth + 1, Some(header.id))
    ensures inner[i].depth > depth && Owned([header] + inner, i + 1)
  {
    hide Owned;
    var rows := [header] + inner;
    if inner[i].depth == depth + 1 {
      OwnedByFirst(header, inner, depth, i);
    } else {
      OwnedLater([header], inner, i);
    }
  }

  lemma OwnedByFirst(header: Row, inner: seq<Row>, depth: nat, i: nat)
    requires header.GroupRow? && header.expanded && header.depth == depth && i < |inner|
    requires Nests(inner, depth + 1, Some(header.id)) && inner[i].depth == depth + 1
    ensures Owned([header] + inner, i + 1)
  {
    hide Owns;
    var rows := [header] + inner;
    assert Owns(rows, 0, i + 1) by { FirstOwns(header, inner, depth, i); }
  }

  lemma FirstOwns(header: Row, inner: seq<Row>, depth: nat, i: nat)
    requires header.GroupRow? && header.expanded && header.depth == depth && i < |inner|
    requires Nests(inner, depth + 1, Some(header.id)) && inner[i].depth == depth + 1
    ensures Owns([header] + inner, 0, i + 1)
  {
    hide Owned;
    var rows := [header] + inner;
    assert rows[i + 1] == inner[i];
    forall m | 0 < m < i + 1 ensures rows[m].depth > depth { assert rows[m] == inner[m - 1]; }
  }

  lemma NestsUnder(header: Row, inner: seq<Row>, depth: nat, parentId: Option<string>)
    requires header.GroupRow? && header.depth == depth && header.parentId == parentId
    requires inner == [] || (header.expanded && Nests(inner, depth + 1, Some(header.id)))
    ensures Nests([header] + inner, depth, parentId)
    ensures forall i :: 0 <= i < |inner| ==> inner[i].depth > depth
  {
    hide Owned;
    var rows := [header] + inner;
    forall i | 0 <= i < |inner| ensures inner[i].depth > depth && rows[i + 1] == inner[i] && Owned(rows, i + 1) {
      OwnedByHeader(header, inner, depth, i);
    }
    forall i: nat | i < |rows|
      ensures rows[i].depth >= depth && (rows[i].depth == depth ==> rows[i].parentId == parentId)
              && (rows[i].depth > depth ==> Owned(rows, i))
    {
      if i > 0 {
        assert rows[i] == inner[i - 1];
      }
    }
  }

  lemma GroupsFirstConcat(a: seq<Row>, b: seq<Row>)
    requires GroupsFirst(a) && GroupsFirst(b)
    requires a == [] || b == [] || !b[0].GroupRow? || a[|a| - 1].GroupRow? || a[|a| - 1].depth > b[0].depth
    ensures GroupsFirst(a + b)
  {
  }

  lemma DraftFollowsConcat(view: View, a: seq<Row>, b: seq<Row>)
    requires DraftFollows(view, a) && DraftFollows(view, b)
    ensures DraftFollows(view, a + b)
  {
  }

  /** The ids of the exchange rows, and those of the group rows at `depth`, from top to bottom. */
  function ExchangesShown(rows: seq<Row>): seq<string> {
    if rows == [] then []
    else ExchangesShown(rows[..|rows| - 1]) + if rows[|rows| - 1].ExchangeRow? then [rows[|rows| - 1].id] else []
  }

  function GroupsShown(rows: seq<Row>, depth: nat): seq<string> {
    if rows == [] then []
    else
      var last := rows[|rows| - 1];
      GroupsShown(rows[..|rows| - 1], depth) + if last.GroupRow? && last.depth == depth then [last.id] else []
  }

  function IdsOf(groups: seq<Group>): seq<string> {
    seq(|groups|, i requires 0 <= i < |groups| => groups[i].node.id)
  }

  lemma {:induction false} ExchangesShownConcat(a: seq<Row>, b: seq<Row>)
    ensures ExchangesShown(a + b) == ExchangesShown(a) + ExchangesShown(b)
  {
    if b == [] {
      assert a + b == a;
    } else {
      ExchangesShownConcat(a, b[..|b| - 1]);
      assert (a + b)[..|a + b| - 1] == a + b[..|b| - 1];
    }
  }

  lemma {:induction false} GroupsShownConcat(a: seq<Row>, b: seq<Row>, depth: nat)
    ensures GroupsShown(a + b, depth) == GroupsShown(a, depth) + GroupsShown(b, depth)
  {
    if b == [] {
      assert a + b == a;
    } else {
      GroupsShownConcat(a, b[..|b| - 1], depth);
      assert (a + b)[..|a + b| - 1] == a + b[..|b| - 1];
    }
  }

  lemma {:induction false} DeeperShowsNone(rows: seq<Row>, depth: nat)
    requires forall i :: 0 <= i < |rows| ==> rows[i].depth > depth
    ensures GroupsShown(rows, depth) == []
  {
    if rows != [] {
      DeeperShowsNone(rows[..|rows| - 1], depth);
    }
  }

  /** A group's own exchanges have their rows in the order the node lists them, each with its draft. */
  lemma {:induction false} OwnRowsInOrder(view: View, parentId: string, depth: nat, ids: seq<string>)
    ensures var rows := ExchangeRows(view, parentId, depth, ids);
      && Nests(rows, depth, Some(parentId)) && (forall i :: 0 <= i < |rows| ==> !rows[i].GroupRow?)
      && DraftFollows(view, rows) && ExchangesShown(rows) == ids
  {
    hide Nests, DraftFollows, DraftRows, ExchangesShown;
    if ids != [] {
      var one, drafts := ExchangeRow("exchange:" + ids[0], ids[0], Some(parentId), depth),
        DraftRows(view, parentId, depth, ids[0]);
      var rest := ExchangeRows(view, parentId, depth, ids[1..]);
      OwnRowsInOrder(view, parentId, depth, ids[1..]);
      OneExchangeInOrder(view, parentId, depth, ids[0]);
      NestsConcat([one] + drafts, rest, depth, Some(parentId));
      DraftFollowsConcat(view, [one] + drafts, rest);
      ExchangesShownConcat([one] + drafts, rest);
    } else {
      NoRowsInOrder(view, depth, Some(parentId));
    }
  }

  lemma NoRowsInOrder(view: View, depth: nat, parentId: Option<string>)
    ensures Nests([], depth, parentId) && DraftFollows(view, []) && ExchangesShown([]) == []
  {
  }

  lemma OneExchangeInOrder(view: View, parentId: string, depth: nat, id: string)
    ensures var rows := [ExchangeRow("exchange:" + id, id, Some(parentId), depth)]
                        + DraftRows(view, parentId, depth, id);
      && Nests(rows, depth, Some(parentId)) && DraftFollows(view, rows) && ExchangesShown(rows) == [id]
      && (forall i :: 0 <= i < |rows| ==> !rows[i].GroupRow?)
  {
    var one, drafts := ExchangeRow("exchange:" + id, id, Some(parentId), depth), DraftRows(view, parentId, depth, id);
    ExchangesShownConcat([one], drafts);
    OneShows(one);
    if drafts != [] {
      OneShows(drafts[0]);
    }
  }

  lemma OneShows(row: Row)
    ensures ExchangesShown([row]) == if row.ExchangeRow? then [row.id] else []
  {
    assert [row][..0] == [];
  }

  /** All the order there is in the rows of `groups`. */
  ghost predicate InTreeOrder(view: View, rows: seq<Row>, depth: nat, parentId: Option<string>) {
    Nests(rows, depth, parentId) && GroupsFirst(rows) && DraftFollows(view, rows)
  }

  lemma {:induction false} GroupRowsInOrder(view: View, group: Group, depth: nat, parentId: Option<string>)
    ensures var rows := GroupRows(view, group, depth, parentId);
      && InTreeOrder(view, rows, depth, parentId) && rows != [] && rows[0].GroupRow? && rows[0].depth == depth
      && (!rows[|rows| - 1].GroupRow? ==> rows[|rows| - 1].depth > depth)
      && GroupsShown(rows, depth) == [group.node.id]
    decreases group
  {
    var rows := GroupRows(view, group, depth, parentId);
    var header, inner := rows[0], rows[1..];
    var id := group.node.id;
    var children, own := AllRows(view, group.children, depth + 1, Some(id)),
      ExchangeRows(view, id, depth + 1, group.node.exchangeIds);
    RowsInOrder(view, group.children, depth + 1, Some(id));
    OwnRowsInOrder(view, id, depth + 1, group.node.exchangeIds);
    assert inner == if header.expanded then children + own else [];
    assert rows == [header] + inner;
    hide GroupRows, AllRows, ExchangeRows;
    InnerInOrder(view, children, own, depth + 1, Some(id));
    HeaderInOrder(view, header, inner, depth, parentId);
  }

  lemma InnerInOrder(view: View, children: seq<Row>, own: seq<Row>, depth: nat, parentId: Option<string>)
    requires InTreeOrder(view, children, depth, parentId) && Nests(own, depth, parentId) && DraftFollows(view, own)
    requires forall i :: 0 <= i < |own| ==> !own[i].GroupRow?
    ensures InTreeOrder(view, children + own, depth, parentId)
  {
    hide Nests, DraftFollows;
    NestsConcat(children, own, depth, parentId);
    GroupsFirstConcat(children, own);
    DraftFollowsConcat(view, children, own);
  }

  lemma OnlyHeader(view: View, header: Row)
    requires header.GroupRow?
    ensures DraftFollows(view, [header]) && DraftFollows(view, [])
  {
  }

  lemma HeaderInOrder(view: View, header: Row, inner: seq<Row>, depth: nat, parentId: Option<string>)
    requires header.GroupRow? && header.depth == depth && header.parentId == parentId
    requires inner == [] || (header.expanded && InTreeOrder(view, inner, depth + 1, Some(header.id)))
    ensures var rows := [header] + inner;
      && InTreeOrder(view, rows, depth, parentId)
      && (!rows[|rows| - 1].GroupRow? ==> rows[|rows| - 1].depth > depth)
      && GroupsShown(rows, depth) == [header.id]
  {
    hide Nests, GroupsFirst, DraftFollows, GroupsShown;
    NestsUnder(header, inner, depth, parentId);
    OnlyHeader(view, header);
    HeaderFirst(header, inner);
    DraftFollowsConcat(view, [header], inner);
    HeaderShown(header, inner, depth);
  }

  lemma HeaderFirst(header: Row, inner: seq<Row>)
    requires header.GroupRow? && (inner == [] || GroupsFirst(inner))
    ensures GroupsFirst([header] + inner)
  {
  }

  lemma HeaderShown(header: Row, inner: seq<Row>, depth: nat)
    requires header.GroupRow? && header.depth == depth && forall i :: 0 <= i < |inner| ==> inner[i].depth > depth
    ensures GroupsShown([header] + inner, depth) == [header.id]
  {
    GroupsShownConcat([header], inner, depth);
    DeeperShowsNone(inner, depth);
    assert [header][..0] == [];
  }

  /**
   Rows come depth first. Each is followed by what it contains: a group's children in their order, then its
   own exchanges, a draft right behind its source.
   */
  lemma {:induction false} RowsInOrder(view: View, groups: seq<Group>, depth: nat, parentId: Option<string>)
    ensures var rows := AllRows(view, groups, depth, parentId);
      && InTreeOrder(view, rows, depth, parentId) && GroupsShown(rows, depth) == IdsOf(groups)
      && (rows != [] && !rows[|rows| - 1].GroupRow? ==> rows[|rows| - 1].depth > depth)
    decreases groups
  {
    hide GroupRows, InTreeOrder, GroupsShown;
    if groups == [] {
      NothingInOrder(view, depth, parentId);
    } else {
      var front, last := groups[..|groups| - 1], groups[|groups| - 1];
      RowsInOrder(view, front, depth, parentId);
      GroupRowsInOrder(view, last, depth, parentId);
      var a, b := AllRows(view, front, depth, parentId), GroupRows(view, last, depth, parentId);
      NextInOrder(view, a, b, depth, parentId);
      GroupsShownConcat(a, b, depth);
      assert IdsOf(groups) == IdsOf(front) + [last.node.id];
    }
  }

  lemma NextInOrder(view: View, a: seq<Row>, b: seq<Row>, depth: nat, parentId: Option<string>)
    requires InTreeOrder(view, a, depth, parentId) && InTreeOrder(view, b, depth, parentId)
    requires b != [] && b[0].depth == depth
    requires a != [] && !a[|a| - 1].GroupRow? ==> a[|a| - 1].depth > depth
    ensures InTreeOrder(view, a + b, depth, parentId)
  {
    hide Nests, GroupsFirst, DraftFollows;
    NestsConcat(a, b, depth, parentId);
    GroupsFirstConcat(a, b);
    DraftFollowsConcat(view, a, b);
  }

  lemma NothingInOrder(view: View, depth: nat, parentId: Option<string>)
    ensures InTreeOrder(view, [], depth, parentId) && GroupsShown([], depth) == [] && IdsOf([]) == []
  {
  }
}
