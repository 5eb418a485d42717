/**
 The incremental host and path tree: one node per group, each with its children, the exchanges that
 end there and running totals of everything below it.
 */
module TreeIndex {
  import opened Wrappers
  import opened Sequences
  import opened CaptureModel
  import opened StructurePath
  import opened TreeAggregates

  type Path = seq<Segment>

  datatype Node = Node(
    id: string,
    caption: string,
    parentId: Option<string>,
    childIds: seq<string>,
    exchangeIds: seq<string>,
    aggregate: Aggregate,
    activityRevision: nat)

  type Nodes = map<string, Node>

  datatype Index = Index(nodesById: Nodes, rootIds: seq<string>, exchangeToPath: map<string, seq<string>>)

  const EMPTY_INDEX := Index(map[], [], map[])

  function Ids(path: Path): (ids: seq<string>)
    ensures |ids| == |path|
    ensures forall i :: 0 <= i < |path| ==> ids[i] == path[i].id
  {
    seq(|path|, i requires 0 <= i < |path| => path[i].id)
  }

  function ParentAt(path: Path, i: nat): Option<string>
    requires i < |path|
  {
    if i == 0 then None else Some(path[i - 1].id)
  }

  // ---- the tree recomputed

  type Trails = map<string, Path>

  ghost predicate Places(trails: Trails) {
    forall k, l :: k in trails && l in trails ==> Branching(trails[k], trails[l])
  }

  /** The exchanges whose trail passes through a group. */
  ghost function Under(trails: Trails, entries: map<string, Summary>, id: string): map<string, Summary> {
    map k | k in trails && k in entries && id in Ids(trails[k]) :: entries[k]
  }

  ghost predicate OnTrail(trails: Trails, id: string) {
    exists k :: k in trails && id in Ids(trails[k])
  }

  /** A node for every group on a trail and no other. */
  ghost predicate Populated(nodes: Nodes, trails: Trails) {
    forall id {:trigger OnTrail(trails, id)} :: id in nodes <==> OnTrail(trails, id)
  }

  /** The node of a path position carries the id, caption and parent of its place. */
  ghost predicate StandsAt(nodes: Nodes, path: Path, i: nat)
    requires i < |path|
  {
    && path[i].id in nodes
    && var node := nodes[path[i].id];
       node.id == path[i].id && node.caption == path[i].caption && node.parentId == ParentAt(path, i)
  }

  ghost predicate Placed(nodes: Nodes, trails: Trails) {
    forall k, i: nat {:trigger StandsAt(nodes, trails[k], i)} :: k in trails && i < |trails[k]| ==>
      StandsAt(nodes, trails[k], i)
  }

  /** Children and roots list, once each, exactly the nodes that name them as parent, or no parent. */
  ghost predicate Linked(nodes: Nodes, roots: seq<string>) {
    && (forall id :: id in nodes ==> NoDup(nodes[id].childIds))
    && (forall id, c :: id in nodes ==> (c in nodes[id].childIds <==> c in nodes && nodes[c].parentId == Some(id)))
    && NoDup(roots)
    && (forall r :: r in roots <==> r in nodes && nodes[r].parentId == None)
  }

  /** Each aggregate is the sum over the exchanges under its node. */
  ghost predicate Counted(nodes: Nodes, trails: Trails, entries: map<string, Summary>) {
    forall id :: id in nodes ==> Sums(nodes[id].aggregate, Under(trails, entries, id))
  }

  /** Each exchange is listed once, at the node its leaf names. */
  ghost predicate ListedAt(nodes: Nodes, leaves: map<string, string>) {
    && (forall id :: id in nodes ==> NoDup(nodes[id].exchangeIds))
    && (forall id, e :: id in nodes ==> (e in nodes[id].exchangeIds <==> e in leaves && leaves[e] == id))
  }

  ghost predicate Shape(nodes: Nodes, roots: seq<string>, trails: Trails, entries: map<string, Summary>) {
    Populated(nodes, trails) && Placed(nodes, trails) && Linked(nodes, roots) && Counted(nodes, trails, entries)
  }

  ghost function TrailsOf(codec: UriCodec, entries: map<string, Summary>): Trails {
    map k | k in entries :: PathOf(codec, entries[k])
  }

  ghost function Leaves(trails: Trails): map<string, string> {
    map k | k in trails && trails[k] != [] :: trails[k][|trails[k]| - 1].id
  }

  /**
   The index is the one recomputed from the retained summaries, up to the order of siblings and the activity
   revisions.
   */
  ghost predicate Agrees(codec: UriCodec, index: Index, entries: map<string, Summary>) {
    var trails := TrailsOf(codec, entries);
    && Shape(index.nodesById, index.rootIds, trails, entries)
    && ListedAt(index.nodesById, Leaves(trails))
    && Mapped(codec, index.exchangeToPath, entries)
  }

  ghost predicate Mapped(codec: UriCodec, exchangeToPath: map<string, seq<string>>, entries: map<string, Summary>) {
    && exchangeToPath.Keys == entries.Keys
    && (forall k :: k in entries ==> exchangeToPath[k] == Ids(PathOf(codec, entries[k])))
  }

  // ---- one position of an upsert

  function CountIn(nodes: Nodes, segment: Segment, parentId: Option<string>, summary: Summary): Nodes {
    nodes[segment.id :=
      if segment.id in nodes then
        var existing := nodes[segment.id];
        existing.(aggregate := Change(existing.aggregate, summary, 1),
                  activityRevision := existing.activityRevision + 1)
      else Node(segment.id, segment.caption, parentId, [], [], Change(EMPTY, summary, 1), 1)]
  }

  function WithElement(list: seq<string>, x: string): seq<string> {
    if x in list then list else list + [x]
  }

  function LinkChild(nodes: Nodes, parentId: Option<string>, id: string): Nodes {
    if parentId.Some? && parentId.value in nodes then
      var parent := nodes[parentId.value];
      nodes[parentId.value := parent.(childIds := WithElement(parent.childIds, id))]
    else nodes
  }

  function LinkRoot(roots: seq<string>, parentId: Option<string>, id: string): seq<string> {
    if parentId.None? then WithElement(roots, id) else roots
  }

  /** The trails and the exchange whose own trail is under construction. */
  ghost predicate Building(trails: Trails, entries: map<string, Summary>, e: string, path: Path, n: nat) {
    && n < |path|
    && e in trails && e in entries
    && trails[e] == path[..n]
    && Places(trails) && Places(trails[e := path])
    && trails.Keys == entries.Keys
  }

  lemma PathIdsDiffer(path: Path)
    requires Branching(path, path)
    ensures forall i, j :: 0 <= i < |path| && 0 <= j < |path| && path[i].id == path[j].id ==> i == j
  {
  }

  lemma IdIsNew(trails: Trails, entries: map<string, Summary>, e: string, path: Path, n: nat)
    requires Building(trails, entries, e, path, n)
    ensures path[n].id !in Ids(path[..n])
  {
    assert Branching(path, path) by { assert trails[e := path][e] == path; }
    PathIdsDiffer(path);
  }

  lemma UnderGrows(trails: Trails, entries: map<string, Summary>, e: string, path: Path, n: nat, id: string)
    requires Building(trails, entries, e, path, n)
    ensures Under(trails[e := path[..n + 1]], entries, id)
         == if id == path[n].id then Under(trails, entries, id)[e := entries[e]] else Under(trails, entries, id)
    ensures e !in Under(trails, entries, path[n].id)
    ensures OnTrail(trails[e := path[..n + 1]], id) <==> OnTrail(trails, id) || id == path[n].id
  {
    hide Places;
    var grown := trails[e := path[..n + 1]];
    assert Ids(path[..n + 1]) == Ids(path[..n]) + [path[n].id];
    IdIsNew(trails, entries, e, path, n);
    assert id in Ids(grown[e]) <==> id in Ids(trails[e]) || id == path[n].id;
    assert e in grown;
    if OnTrail(trails, id) {
      var k :| k in trails && id in Ids(trails[k]);
      assert k in grown && id in Ids(grown[k]);
    }
  }

  lemma NothingUnder(trails: Trails, entries: map<string, Summary>, id: string)
    requires !OnTrail(trails, id)
    ensures Under(trails, entries, id) == map[]
  {
  }

  lemma GrowCounted(nodes: Nodes, trails: Trails, entries: map<string, Summary>, e: string, path: Path, n: nat)
    requires Building(trails, entries, e, path, n)
    requires Populated(nodes, trails) && Counted(nodes, trails, entries)
    ensures Counted(CountIn(nodes, path[n], ParentAt(path, n), entries[e]), trails[e := path[..n + 1]], entries)
    ensures Populated(CountIn(nodes, path[n], ParentAt(path, n), entries[e]), trails[e := path[..n + 1]])
  {
    hide Places, Change, Sums, OnTrail, Under;
    var id := path[n].id;
    var next := CountIn(nodes, path[n], ParentAt(path, n), entries[e]);
    var grown := trails[e := path[..n + 1]];
    forall other ensures other in next <==> OnTrail(grown, other) {
      UnderGrows(trails, entries, e, path, n, other);
    }
    forall other | other in next
      ensures Sums(next[other].aggregate, Under(grown, entries, other))
    {
      UnderGrows(trails, entries, e, path, n, other);
      if other == id {
        if id !in nodes {
          NothingUnder(trails, entries, id);
          EmptySums();
          AddSums(EMPTY, map[], e, entries[e]);
        } else {
          AddSums(nodes[id].aggregate, Under(trails, entries, id), e, entries[e]);
        }
      }
    }
  }

  /** A node already there stands where the path expects it. */
  lemma ExistingFits(nodes: Nodes, trails: Trails, entries: map<string, Summary>, e: string, path: Path, n: nat)
    requires Building(trails, entries, e, path, n)
    requires Populated(nodes, trails) && Placed(nodes, trails) && path[n].id in nodes
    ensures var node := nodes[path[n].id];
      node.id == path[n].id && node.caption == path[n].caption && node.parentId == ParentAt(path, n)
  {
    hide Places;
    var k, i := SomePlace(nodes, trails, path[n].id);
    PlacedAt(nodes, trails, k, i);
    SameBranch(trails, entries, e, path, n, k, i);
  }

  lemma SomePlace(nodes: Nodes, trails: Trails, id: string) returns (k: string, i: nat)
    requires Populated(nodes, trails) && id in nodes
    ensures k in trails && i < |trails[k]| && trails[k][i].id == id
  {
    assert OnTrail(trails, id);
    k :| k in trails && id in Ids(trails[k]);
    i :| 0 <= i < |trails[k]| && trails[k][i].id == id;
  }

  lemma SameBranch(trails: Trails, entries: map<string, Summary>, e: string, path: Path, n: nat, k: string, i: nat)
    requires Building(trails, entries, e, path, n)
    requires k in trails && i < |trails[k]| && trails[k][i].id == path[n].id
    ensures trails[k][i] == path[n] && ParentAt(trails[k], i) == ParentAt(path, n)
  {
    hide Places;
    var finished: Trails := trails[e := path];
    assert finished[e] == path;
    if k == e {
      assert trails[k][i] == finished[k][i];
    } else {
      assert finished[k] == trails[k];
    }
    SamePlace(finished, k, i, e, n);
  }

  lemma SamePlace(trails: Trails, k: string, i: nat, l: string, j: nat)
    requires Places(trails) && k in trails && l in trails && i < |trails[k]| && j < |trails[l]|
    requires trails[k][i].id == trails[l][j].id
    ensures i == j && trails[k][i] == trails[l][j] && ParentAt(trails[k], i) == ParentAt(trails[l], j)
  {
    assert Branching(trails[k], trails[l]);
    assert trails[k][..i + 1][i] == trails[l][..j + 1][i];
    if i > 0 {
      assert trails[k][..i + 1][i - 1] == trails[l][..j + 1][i - 1];
    }
  }

  lemma GrowPlaced(nodes: Nodes, trails: Trails, entries: map<string, Summary>, e: string, path: Path, n: nat)
    requires Building(trails, entries, e, path, n)
    requires Populated(nodes, trails) && Placed(nodes, trails)
    ensures Placed(CountIn(nodes, path[n], ParentAt(path, n), entries[e]), trails[e := path[..n + 1]])
  {
    hide Places, Change, Populated;
    var next := CountIn(nodes, path[n], ParentAt(path, n), entries[e]);
    var grown: Trails := trails[e := path[..n + 1]];
    if path[n].id in nodes {
      ExistingFits(nodes, trails, entries, e, path, n);
    }
    forall k: string, i: nat | k in grown && i < |grown[k]|
      ensures StandsAt(next, grown[k], i)
    {
      if k != e || i < n {
        assert trails[k][i] == grown[k][i] && ParentAt(trails[k], i) == ParentAt(grown[k], i);
        assert StandsAt(nodes, trails[k], i);
      }
    }
  }

  /** The parent of a node is a node. */
  lemma ParentsPresent(nodes: Nodes, trails: Trails, c: string)
    requires Populated(nodes, trails) && Placed(nodes, trails) && c in nodes
    ensures nodes[c].parentId.Some? ==> nodes[c].parentId.value in nodes
  {
    var k, i := SomePlace(nodes, trails, c);
    PlacedAt(nodes, trails, k, i);
    if i > 0 {
      PlacedAt(nodes, trails, k, i - 1);
    }
  }

  lemma GrowLinked(nodes: Nodes, roots: seq<string>, trails: Trails, entries: map<string, Summary>, e: string,
                   path: Path, n: nat)
    requires Building(trails, entries, e, path, n)
    requires Populated(nodes, trails) && Placed(nodes, trails) && Linked(nodes, roots)
    ensures var parentId := ParentAt(path, n);
      Linked(LinkChild(CountIn(nodes, path[n], parentId, entries[e]), parentId, path[n].id),
             LinkRoot(roots, parentId, path[n].id))
  {
    hide Places, Change, Populated, Placed;
    var id, parentId := path[n].id, ParentAt(path, n);
    var counted := CountIn(nodes, path[n], parentId, entries[e]);
    assert parentId.Some? ==> parentId.value in nodes && parentId.value != id by {
      if n > 0 {
        assert trails[e][n - 1] == path[n - 1];
        PlacedAt(nodes, trails, e, n - 1);
        IdIsNew(trails, entries, e, path, n);
        assert Ids(path[..n])[n - 1] == path[n - 1].id;
      }
    }
    if id in nodes {
      ExistingFits(nodes, trails, entries, e, path, n);
      AlreadyLinked(nodes, roots, path[n], parentId, entries[e]);
    } else {
      assert forall c :: c in nodes ==> nodes[c].parentId != Some(id) by {
        forall c | c in nodes ensures nodes[c].parentId != Some(id) { ParentsPresent(nodes, trails, c); }
      }
      NewlyLinked(nodes, roots, path[n], parentId, entries[e]);
    }
  }

  lemma PlacedAt(nodes: Nodes, trails: Trails, k: string, i: nat)
    requires Placed(nodes, trails) && k in trails && i < |trails[k]|
    ensures StandsAt(nodes, trails[k], i)
  {
  }

  lemma AlreadyLinked(nodes: Nodes, roots: seq<string>, segment: Segment, parentId: Option<string>, summary: Summary)
    requires Linked(nodes, roots) && segment.id in nodes && nodes[segment.id].parentId == parentId
    requires parentId.Some? ==> parentId.value in nodes && parentId.value != segment.id
    ensures Linked(LinkChild(CountIn(nodes, segment, parentId, summary), parentId, segment.id),
                   LinkRoot(roots, parentId, segment.id))
  {
    hide Change, NoDup;
    var counted := CountIn(nodes, segment, parentId, summary);
    var linked := LinkChild(counted, parentId, segment.id);
    assert segment.id in roots <==> segment.id in nodes && nodes[segment.id].parentId == None;
    assert parentId.Some? ==> segment.id in nodes[parentId.value].childIds;
    assert forall c :: c in linked <==> c in nodes;
    assert forall c :: c in nodes ==>
      linked[c].childIds == nodes[c].childIds && linked[c].parentId == nodes[c].parentId;
  }

  lemma NewlyLinked(nodes: Nodes, roots: seq<string>, segment: Segment, parentId: Option<string>, summary: Summary)
    requires Linked(nodes, roots) && segment.id !in nodes
    requires forall c :: c in nodes ==> nodes[c].parentId != Some(segment.id)
    requires parentId.Some? ==> parentId.value in nodes && parentId.value != segment.id
    ensures Linked(LinkChild(CountIn(nodes, segment, parentId, summary), parentId, segment.id),
                   LinkRoot(roots, parentId, segment.id))
  {
    hide CountIn, NoDup;
    var id := segment.id;
    var counted := CountIn(nodes, segment, parentId, summary);
    var linked := LinkChild(counted, parentId, id);
    CountedNew(nodes, segment, parentId, summary);
    ChildrenLinked(nodes, counted, parentId, id);
    assert NoDup(LinkRoot(roots, parentId, id)) by { AppendNoDup(roots, id); }
    assert forall c :: c in linked <==> c in counted;
    assert forall c :: c in counted ==> linked[c].parentId == counted[c].parentId;
  }

  lemma CountedNew(nodes: Nodes, segment: Segment, parentId: Option<string>, summary: Summary)
    requires segment.id !in nodes
    ensures var counted := CountIn(nodes, segment, parentId, summary);
      && (forall c :: c in counted <==> c in nodes || c == segment.id)
      && (forall c :: c in nodes ==> counted[c] == nodes[c])
      && counted[segment.id].childIds == [] && counted[segment.id].parentId == parentId
  {
    hide Change;
  }

  lemma AppendNoDup(list: seq<string>, x: string)
    requires NoDup(list)
    ensures NoDup(WithElement(list, x))
    ensures forall y :: y in WithElement(list, x) <==> y in list || y == x
  {
  }

  lemma ChildrenLinked(nodes: Nodes, counted: Nodes, parentId: Option<string>, id: string)
    requires id !in nodes
    requires forall c :: c in counted <==> c in nodes || c == id
    requires forall c :: c in nodes ==> counted[c] == nodes[c]
    requires counted[id].childIds == [] && counted[id].parentId == parentId
    requires forall c :: c in nodes ==> nodes[c].parentId != Some(id)
    requires parentId.Some? ==> parentId.value in nodes
    requires forall p :: p in nodes ==> NoDup(nodes[p].childIds)
    requires forall p, c :: p in nodes ==> (c in nodes[p].childIds <==> c in nodes && nodes[c].parentId == Some(p))
    ensures var linked := LinkChild(counted, parentId, id);
      && (forall p :: p in linked ==> NoDup(linked[p].childIds))
      && (forall p, c :: p in linked ==> (c in linked[p].childIds <==> c in linked && linked[c].parentId == Some(p)))
  {
    hide NoDup, WithElement;
    var linked := LinkChild(counted, parentId, id);
    assert NoDup<string>([]) by { EmptyNoDup(); }
    assert forall c :: c in linked ==> linked[c].parentId == counted[c].parentId;
    if parentId.Some? {
      AppendNoDup(nodes[parentId.value].childIds, id);
    }
    forall p, c | p in linked ensures c in linked[p].childIds <==> c in linked && linked[c].parentId == Some(p) {
      if Some(p) != parentId {
        assert linked[p].childIds == counted[p].childIds;
      }
    }
  }

  lemma EmptyNoDup()
    ensures NoDup<string>([])
  {
  }

  /** Same nodes up to their children. */
  ghost predicate Relinked(nodes: Nodes, linked: Nodes) {
    && nodes.Keys == linked.Keys
    && (forall id :: id in nodes ==> linked[id] == nodes[id].(childIds := linked[id].childIds))
  }

  lemma StillPlaced(nodes: Nodes, next: Nodes, trails: Trails)
    requires Placed(nodes, trails) && nodes.Keys == next.Keys
    requires forall id :: id in nodes ==> next[id].id == nodes[id].id && next[id].caption == nodes[id].caption
                                          && next[id].parentId == nodes[id].parentId
    ensures Placed(next, trails)
  {
    forall k, i: nat | k in trails && i < |trails[k]| ensures StandsAt(next, trails[k], i) {
      PlacedAt(nodes, trails, k, i);
      assert trails[k][i].id in nodes.Keys;
    }
  }

  lemma RelinkedKeeps(nodes: Nodes, linked: Nodes, trails: Trails, entries: map<string, Summary>,
                      leaves: map<string, string>)
    requires Relinked(nodes, linked)
    requires Populated(nodes, trails) && Placed(nodes, trails) && Counted(nodes, trails, entries)
      && ListedAt(nodes, leaves)
    ensures Populated(linked, trails) && Placed(linked, trails) && Counted(linked, trails, entries)
      && ListedAt(linked, leaves)
  {
    hide OnTrail, Sums, NoDup, Under;
    assert forall id :: id in linked <==> id in nodes.Keys;
    StillPlaced(nodes, linked, trails);
  }

  lemma CountInKeepsListing(nodes: Nodes, segment: Segment, parentId: Option<string>, summary: Summary,
                            leaves: map<string, string>)
    requires ListedAt(nodes, leaves) && forall e :: e in leaves ==> leaves[e] in nodes
    ensures ListedAt(CountIn(nodes, segment, parentId, summary), leaves)
  {
    hide Change;
    EmptyNoDup();
  }

  /** The leaves of finished trails, all of them nodes while the tree covers those trails. */
  lemma LeavesPresent(nodes: Nodes, trails: Trails, e: string)
    requires Placed(nodes, trails)
    ensures forall k :: k in Leaves(trails - {e}) ==> Leaves(trails - {e})[k] in nodes
  {
    forall k | k in Leaves(trails - {e}) ensures Leaves(trails - {e})[k] in nodes {
      assert k in trails && trails[k] != [];
      PlacedAt(nodes, trails, k, |trails[k]| - 1);
    }
  }

  /** One position of an upsert extends the tree by exactly one step of the new trail. */
  lemma GrowShape(nodes: Nodes, roots: seq<string>, trails: Trails, entries: map<string, Summary>, e: string,
                  path: Path, n: nat)
    requires Building(trails, entries, e, path, n)
    requires Shape(nodes, roots, trails, entries) && ListedAt(nodes, Leaves(trails - {e}))
    ensures var parentId := ParentAt(path, n);
      var next := LinkChild(CountIn(nodes, path[n], parentId, entries[e]), parentId, path[n].id);
      && Shape(next, LinkRoot(roots, parentId, path[n].id), trails[e := path[..n + 1]], entries)
      && ListedAt(next, Leaves(trails - {e}))
  {
    hide Building, Populated, Placed, Linked, Counted, ListedAt, CountIn;
    assert n < |path| && e in trails && e in entries by { BuildingRange(trails, entries, e, path, n); }
    var parentId := ParentAt(path, n);
    var counted := CountIn(nodes, path[n], parentId, entries[e]);
    GrowCounted(nodes, trails, entries, e, path, n);
    GrowPlaced(nodes, trails, entries, e, path, n);
    GrowLinked(nodes, roots, trails, entries, e, path, n);
    LeavesPresent(nodes, trails, e);
    CountInKeepsListing(nodes, path[n], parentId, entries[e], Leaves(trails - {e}));
    RelinkedKeeps(counted, LinkChild(counted, parentId, path[n].id), trails[e := path[..n + 1]], entries,
                  Leaves(trails - {e}));
  }

  lemma BuildingRange(trails: Trails, entries: map<string, Summary>, e: string, path: Path, n: nat)
    requires Building(trails, entries, e, path, n)
    ensures n < |path| && e in trails && e in entries
  {
  }

  // ---- one position of a removal

  function UnlinkChild(nodes: Nodes, parentId: Option<string>, id: string): Nodes {
    if parentId.Some? && parentId.value in nodes then
      var parent := nodes[parentId.value];
      nodes[parentId.value := parent.(childIds := Without(parent.childIds, {id}))]
    else nodes
  }

  function UnlinkRoot(roots: seq<string>, parentId: Option<string>, id: string): seq<string> {
    if parentId.None? then Without(roots, {id}) else roots
  }

  /** What subtracting a contribution leaves of a node: the node with fewer exchanges, or nothing. */
  predicate Emptied(node: Node, summary: Summary) {
    Change(node.aggregate, summary, -1).exchangeCount == 0 && node.childIds == []
  }

  /** A node is emptied exactly when no other trail passes through it. */
  lemma EmptiedExactly(nodes: Nodes, roots: seq<string>, trails: Trails, entries: map<string, Summary>, e: string,
                       path: Path, n: nat)
    requires Building(trails, entries, e, path, n)
    requires Shape(nodes, roots, trails[e := path[..n + 1]], entries)
    ensures path[n].id in nodes
    ensures Sums(Change(nodes[path[n].id].aggregate, entries[e], -1), Under(trails, entries, path[n].id))
    ensures Emptied(nodes[path[n].id], entries[e]) <==> !OnTrail(trails, path[n].id)
    ensures Emptied(nodes[path[n].id], entries[e]) ==> forall c :: c in nodes ==> nodes[c].parentId != Some(path[n].id)
  {
    hide Places, Placed, Change, Sums, Under, OnTrail, NoDup;
    var id := path[n].id;
    UnderGrows(trails, entries, e, path, n, id);
    var under := Under(trails, entries, id);
    assert under[e := entries[e]] - {e} == under;
    var aggregate := Change(nodes[id].aggregate, entries[e], -1);
    SubtractSums(nodes[id].aggregate, Under(trails[e := path[..n + 1]], entries, id), e);
    assert aggregate.exchangeCount == |under| by {
      ExchangesTotal(under);
      SumsReading(aggregate, under);
    }
    UnderEmpty(trails, entries, id);
    if under == map[] {
      NoChildrenLeft(nodes, trails, entries, e, path, n);
      Childless(nodes, roots, id);
    }
  }

  lemma Childless(nodes: Nodes, roots: seq<string>, id: string)
    requires Linked(nodes, roots) && id in nodes
    ensures nodes[id].childIds == [] <==> forall c :: c in nodes ==> nodes[c].parentId != Some(id)
  {
    hide NoDup;
    if nodes[id].childIds != [] {
      var c := nodes[id].childIds[0];
      assert c in nodes[id].childIds;
      assert c in nodes && nodes[c].parentId == Some(id);
    }
  }

  lemma SumsReading(aggregate: Aggregate, entries: map<string, Summary>)
    requires Sums(aggregate, entries)
    ensures aggregate.exchangeCount == Total(entries, Exchanges)
  {
    assert Reading(aggregate, Exchanges) == Total(entries, Exchanges);
  }

  lemma UnderEmpty(trails: Trails, entries: map<string, Summary>, id: string)
    requires trails.Keys == entries.Keys
    ensures |Under(trails, entries, id)| == 0 <==> Under(trails, entries, id) == map[]
    ensures Under(trails, entries, id) == map[] <==> !OnTrail(trails, id)
  {
    if OnTrail(trails, id) {
      var k :| k in trails && id in Ids(trails[k]);
      assert k in Under(trails, entries, id);
    }
  }

  lemma NoChildrenLeft(nodes: Nodes, trails: Trails, entries: map<string, Summary>, e: string, path: Path, n: nat)
    requires Building(trails, entries, e, path, n)
    requires Populated(nodes, trails[e := path[..n + 1]]) && Placed(nodes, trails[e := path[..n + 1]])
    requires !OnTrail(trails, path[n].id)
    ensures forall c :: c in nodes ==> nodes[c].parentId != Some(path[n].id)
  {
    hide Places, Populated, Placed;
    var grown: Trails := trails[e := path[..n + 1]];
    forall c | c in nodes ensures nodes[c].parentId != Some(path[n].id) {
      var k, i := SomePlace(nodes, grown, c);
      PlacedAt(nodes, grown, k, i);
      if k == e {
        IdIsNew(trails, entries, e, path, n);
        assert i > 0 ==> Ids(path[..n])[i - 1] == path[i - 1].id;
      } else if i > 0 {
        assert Ids(trails[k])[i - 1] == grown[k][i - 1].id;
      }
    }
  }

  /** The node at a removal's position: without its contribution, or gone when nothing else keeps it. */
  function Discount(nodes: Nodes, id: string, summary: Summary): Nodes
    requires id in nodes
  {
    var node := nodes[id];
    if Emptied(node, summary) then UnlinkChild(nodes - {id}, node.parentId, id)
    else nodes[id := node.(aggregate := Change(node.aggregate, summary, -1))]
  }

  function DiscountRoots(nodes: Nodes, roots: seq<string>, id: string, summary: Summary): seq<string>
    requires id in nodes
  {
    if Emptied(nodes[id], summary) then UnlinkRoot(roots, nodes[id].parentId, id) else roots
  }

  lemma DiscountCounted(nodes: Nodes, roots: seq<string>, trails: Trails, entries: map<string, Summary>, e: string,
                        path: Path, n: nat)
    requires Building(trails, entries, e, path, n)
    requires Shape(nodes, roots, trails[e := path[..n + 1]], entries)
    ensures path[n].id in nodes
    ensures var next := Discount(nodes, path[n].id, entries[e]);
      Populated(next, trails) && Counted(next, trails, entries)
  {
    hide Places, Placed, Change, Sums, Under, OnTrail, Linked, Emptied;
    EmptiedExactly(nodes, roots, trails, entries, e, path, n);
    var id := path[n].id;
    var next := Discount(nodes, id, entries[e]);
    forall other
      ensures other in next <==> OnTrail(trails, other)
      ensures other in next ==> Sums(next[other].aggregate, Under(trails, entries, other))
    {
      UnderGrows(trails, entries, e, path, n, other);
    }
  }

  lemma DiscountPlaced(nodes: Nodes, roots: seq<string>, trails: Trails, entries: map<string, Summary>, e: string,
                       path: Path, n: nat)
    requires Building(trails, entries, e, path, n)
    requires Shape(nodes, roots, trails[e := path[..n + 1]], entries)
    ensures path[n].id in nodes
    ensures Placed(Discount(nodes, path[n].id, entries[e]), trails)
  {
    hide Places, Change, Sums, Under, OnTrail, Linked, Emptied, Counted, Populated, Placed;
    EmptiedExactly(nodes, roots, trails, entries, e, path, n);
    var grown: Trails := trails[e := path[..n + 1]];
    var next := Discount(nodes, path[n].id, entries[e]);
    forall k, i: nat | k in trails && i < |trails[k]|
      ensures StandsAt(next, trails[k], i)
    {
      assert grown[k][i] == trails[k][i];
      assert ParentAt(grown[k], i) == ParentAt(trails[k], i);
      PlacedAt(nodes, grown, k, i);
      OnOwnTrail(trails, k, i);
    }
    assert Placed(next, trails) by { PlacedIs(next, trails); }
  }

  lemma OnOwnTrail(trails: Trails, k: string, i: nat)
    requires k in trails && i < |trails[k]|
    ensures OnTrail(trails, trails[k][i].id)
  {
    assert Ids(trails[k])[i] == trails[k][i].id;
  }

  lemma PlacedIs(nodes: Nodes, trails: Trails)
    requires forall k, i: nat {:trigger StandsAt(nodes, trails[k], i)} :: k in trails && i < |trails[k]| ==>
      StandsAt(nodes, trails[k], i)
    ensures Placed(nodes, trails)
  {
  }

  lemma DiscountLinked(nodes: Nodes, roots: seq<string>, trails: Trails, entries: map<string, Summary>, e: string,
                       path: Path, n: nat)
    requires Building(trails, entries, e, path, n)
    requires Shape(nodes, roots, trails[e := path[..n + 1]], entries)
    ensures path[n].id in nodes
    ensures Linked(Discount(nodes, path[n].id, entries[e]), DiscountRoots(nodes, roots, path[n].id, entries[e]))
  {
    hide Places, Change, Sums, Under, OnTrail, Emptied, Counted, Populated, Placed, Linked, UnlinkChild, UnlinkRoot,
         Building;
    assert n < |path| && e in trails && e in entries by { BuildingRange(trails, entries, e, path, n); }
    EmptiedExactly(nodes, roots, trails, entries, e, path, n);
    var id := path[n].id;
    var next := Discount(nodes, id, entries[e]);
    if Emptied(nodes[id], entries[e]) {
      Unlinked(nodes, roots, id);
    } else {
      assert next.Keys == nodes.Keys;
      assert forall c :: c in nodes ==> next[c].childIds == nodes[c].childIds && next[c].parentId == nodes[c].parentId;
      SameLinks(nodes, next, roots);
    }
  }

  lemma SameLinks(nodes: Nodes, next: Nodes, roots: seq<string>)
    requires Linked(nodes, roots) && next.Keys == nodes.Keys
    requires forall c :: c in nodes ==> next[c].childIds == nodes[c].childIds && next[c].parentId == nodes[c].parentId
    ensures Linked(next, roots)
  {
    hide NoDup;
    assert forall c :: c in next <==> c in nodes.Keys;
  }

  lemma WithoutElement(list: seq<string>, id: string)
    requires NoDup(list)
    ensures NoDup(Without(list, {id}))
    ensures forall x :: x in Without(list, {id}) <==> x in list && x != id
  {
    WithoutNoDup(list, {id});
    forall x ensures x in Without(list, {id}) <==> x in list && x != id {
      WithoutMembers(list, {id}, x);
    }
  }

  /** What unlinking does to each remaining node: its parent stays, and its children lose `id`. */
  lemma UnlinkedNode(nodes: Nodes, roots: seq<string>, id: string, p: string)
    requires Linked(nodes, roots) && id in nodes && p in nodes && p != id
    ensures var next := UnlinkChild(nodes - {id}, nodes[id].parentId, id);
      && p in next && next[p].parentId == nodes[p].parentId
      && NoDup(next[p].childIds)
      && forall c :: c in next[p].childIds <==> c in nodes[p].childIds && c != id
  {
    hide NoDup, Without;
    WithoutElement(nodes[p].childIds, id);
    assert id in nodes[p].childIds <==> id in nodes && nodes[id].parentId == Some(p);
  }

  lemma Unlinked(nodes: Nodes, roots: seq<string>, id: string)
    requires Linked(nodes, roots) && id in nodes
    requires forall c :: c in nodes ==> nodes[c].parentId != Some(id)
    ensures Linked(UnlinkChild(nodes - {id}, nodes[id].parentId, id), UnlinkRoot(roots, nodes[id].parentId, id))
  {
    hide NoDup, Without;
    var parentId := nodes[id].parentId;
    var next := UnlinkChild(nodes - {id}, parentId, id);
    assert forall c :: c in next <==> c in nodes && c != id;
    hide UnlinkChild;
    WithoutElement(roots, id);
    assert id in roots <==> id in nodes && nodes[id].parentId == None;
    forall p | p in next ensures NoDup(next[p].childIds) && next[p].parentId == nodes[p].parentId {
      UnlinkedNode(nodes, roots, id, p);
    }
    forall p, c | p in next ensures c in next[p].childIds <==> c in next && next[c].parentId == Some(p) {
      UnlinkedNode(nodes, roots, id, p);
      assert c in nodes[p].childIds <==> c in nodes && nodes[c].parentId == Some(p);
    }
  }

  lemma DiscountListed(nodes: Nodes, id: string, summary: Summary, leaves: map<string, string>)
    requires id in nodes && ListedAt(nodes, leaves)
    ensures ListedAt(Discount(nodes, id, summary), leaves)
  {
    hide Emptied, Change, NoDup;
    var next := Discount(nodes, id, summary);
    assert forall c :: c in next ==> c in nodes && next[c].exchangeIds == nodes[c].exchangeIds;
  }

  /** One position of a removal takes exactly one step of the trail back. */
  lemma ShrinkShape(nodes: Nodes, roots: seq<string>, trails: Trails, entries: map<string, Summary>, e: string,
                    path: Path, n: nat)
    requires Building(trails, entries, e, path, n)
    requires Shape(nodes, roots, trails[e := path[..n + 1]], entries) && ListedAt(nodes, Leaves(trails - {e}))
    ensures path[n].id in nodes
    ensures Shape(Discount(nodes, path[n].id, entries[e]), DiscountRoots(nodes, roots, path[n].id, entries[e]), trails,
                  entries)
    ensures ListedAt(Discount(nodes, path[n].id, entries[e]), Leaves(trails - {e}))
  {
    hide Building, Populated, Placed, Linked, Counted, ListedAt, Discount, DiscountRoots;
    assert n < |path| && e in trails && e in entries by { BuildingRange(trails, entries, e, path, n); }
    DiscountCounted(nodes, roots, trails, entries, e, path, n);
    DiscountPlaced(nodes, roots, trails, entries, e, path, n);
    DiscountLinked(nodes, roots, trails, entries, e, path, n);
    DiscountListed(nodes, path[n].id, entries[e], Leaves(trails - {e}));
  }

  // ---- whole updates

  /** The base trails with the exchange's own trail built up to position `n`. */
  ghost function Partial(codec: UriCodec, base: map<string, Summary>, e: string, path: Path, n: nat): Trails
    requires n <= |path|
  {
    TrailsOf(codec, base)[e := path[..n]]
  }

  /** The tree over `base` while the trail of `e` is built or taken down, `n` positions of it standing. */
  ghost predicate Standing(codec: UriCodec, nodes: Nodes, roots: seq<string>, base: map<string, Summary>, e: string,
                           summary: Summary, n: nat) {
    && n <= |PathOf(codec, summary)|
    && Shape(nodes, roots, Partial(codec, base, e, PathOf(codec, summary), n), base[e := summary])
    && ListedAt(nodes, Leaves(TrailsOf(codec, base)))
  }

  lemma TrailsPlace(codec: UriCodec, entries: map<string, Summary>)
    requires EscapeLaw(codec)
    ensures Places(TrailsOf(codec, entries))
  {
    hide PathOf, EscapeLaw, Branching;
    forall k, l | k in entries && l in entries ensures Branching(PathOf(codec, entries[k]), PathOf(codec, entries[l])) {
      PathsBranch(codec, entries[k], entries[l]);
    }
  }

  lemma PrefixBranching(p: Path, q: Path, n: nat)
    requires n <= |p|
    ensures Branching(p, q) ==> Branching(p[..n], q)
    ensures Branching(q, p) ==> Branching(q, p[..n])
  {
    assert forall i :: 0 <= i < n ==> p[..n][i] == p[i] && p[..n][..i + 1] == p[..i + 1];
  }

  lemma PrefixPlaces(trails: Trails, e: string, path: Path, n: nat)
    requires Places(trails[e := path]) && n <= |path|
    ensures Places(trails[e := path[..n]])
  {
    hide Branching;
    var finished: Trails := trails[e := path];
    var partial: Trails := trails[e := path[..n]];
    forall k, l | k in partial && l in partial ensures Branching(partial[k], partial[l]) {
      assert Branching(finished[k], finished[l]);
      PrefixBranching(path, finished[l], n);
      PrefixBranching(path, partial[k], n);
    }
  }

  lemma PartialBuilding(codec: UriCodec, base: map<string, Summary>, e: string, summary: Summary, n: nat)
    requires EscapeLaw(codec) && e !in base && n < |PathOf(codec, summary)|
    ensures var path := PathOf(codec, summary);
      Building(Partial(codec, base, e, path, n), base[e := summary], e, path, n)
  {
    hide PathOf, EscapeLaw, Places;
    var path := PathOf(codec, summary);
    var partial := Partial(codec, base, e, path, n);
    TrailsPlace(codec, base[e := summary]);
    assert TrailsOf(codec, base[e := summary]) == TrailsOf(codec, base)[e := path];
    PrefixPlaces(TrailsOf(codec, base), e, path, n);
    assert partial[e := path] == TrailsOf(codec, base)[e := path];
    assert partial.Keys == base.Keys + {e};
  }

  lemma NextPartial(codec: UriCodec, base: map<string, Summary>, e: string, path: Path, n: nat)
    requires n < |path| && e !in base
    ensures Partial(codec, base, e, path, n)[e := path[..n + 1]] == Partial(codec, base, e, path, n + 1)
    ensures Partial(codec, base, e, path, n) - {e} == TrailsOf(codec, base)
  {
    hide PathOf;
  }

  lemma StandingGrows(codec: UriCodec, nodes: Nodes, roots: seq<string>, base: map<string, Summary>, e: string,
                      summary: Summary, n: nat)
    requires EscapeLaw(codec) && e !in base && n < |PathOf(codec, summary)|
    requires Standing(codec, nodes, roots, base, e, summary, n)
    ensures var path := PathOf(codec, summary);
      var parentId := ParentAt(path, n);
      Standing(codec, LinkChild(CountIn(nodes, path[n], parentId, summary), parentId, path[n].id),
               LinkRoot(roots, parentId, path[n].id), base, e, summary, n + 1)
  {
    hide PathOf, EscapeLaw, Shape, ListedAt, Leaves, Building, Partial, TrailsOf, CountIn, LinkChild, LinkRoot;
    var path := PathOf(codec, summary);
    PartialBuilding(codec, base, e, summary, n);
    NextPartial(codec, base, e, path, n);
    GrowShape(nodes, roots, Partial(codec, base, e, path, n), base[e := summary], e, path, n);
  }

  lemma StandingShrinks(codec: UriCodec, nodes: Nodes, roots: seq<string>, base: map<string, Summary>, e: string,
                        summary: Summary, n: nat)
    requires EscapeLaw(codec) && e !in base && n < |PathOf(codec, summary)|
    requires Standing(codec, nodes, roots, base, e, summary, n + 1)
    ensures PathOf(codec, summary)[n].id in nodes
    ensures var id := PathOf(codec, summary)[n].id;
      Standing(codec, Discount(nodes, id, summary), DiscountRoots(nodes, roots, id, summary), base, e, summary, n)
  {
    hide PathOf, EscapeLaw, Shape, ListedAt, Leaves, Building, Partial, TrailsOf, Discount, DiscountRoots;
    var path := PathOf(codec, summary);
    PartialBuilding(codec, base, e, summary, n);
    NextPartial(codec, base, e, path, n);
    ShrinkShape(nodes, roots, Partial(codec, base, e, path, n), base[e := summary], e, path, n);
  }

  /** With none of its positions standing, an exchange leaves no trace in the tree. */
  lemma NothingStanding(codec: UriCodec, nodes: Nodes, roots: seq<string>, base: map<string, Summary>, e: string,
                        summary: Summary)
    requires e !in base
    ensures Shape(nodes, roots, TrailsOf(codec, base), base) && ListedAt(nodes, Leaves(TrailsOf(codec, base)))
       <==> Standing(codec, nodes, roots, base, e, summary, 0)
  {
    hide PathOf, ListedAt, Leaves, Linked, Sums, Under, OnTrail, Placed;
    var trails, partial := TrailsOf(codec, base), Partial(codec, base, e, PathOf(codec, summary), 0);
    assert partial[e] == [];
    forall id
      ensures OnTrail(trails, id) <==> OnTrail(partial, id)
      ensures Under(trails, base, id) == Under(partial, base[e := summary], id)
    {
      EmptyTrailUnseen(trails, partial, base, e, summary, id);
    }
    SamePlaced(nodes, trails, partial, e);
  }

  /** An empty trail passes through nothing. */
  lemma EmptyTrailUnseen(trails: Trails, partial: Trails, base: map<string, Summary>, e: string, summary: Summary,
                         id: string)
    requires e !in trails && e !in base && partial == trails[e := []]
    ensures OnTrail(trails, id) <==> OnTrail(partial, id)
    ensures Under(trails, base, id) == Under(partial, base[e := summary], id)
  {
    if OnTrail(trails, id) {
      var k :| k in trails && id in Ids(trails[k]);
      assert k in partial && id in Ids(partial[k]);
    }
    if OnTrail(partial, id) {
      var k :| k in partial && id in Ids(partial[k]);
      assert k in trails && id in Ids(trails[k]);
    }
  }

  lemma SamePlaced(nodes: Nodes, trails: Trails, partial: Trails, e: string)
    requires e !in trails && partial == trails[e := []]
    ensures Placed(nodes, trails) <==> Placed(nodes, partial)
  {
    if Placed(nodes, partial) {
      forall k, i: nat | k in trails && i < |trails[k]| ensures StandsAt(nodes, trails[k], i) {
        PlacedAt(nodes, partial, k, i);
      }
    }
    if Placed(nodes, trails) {
      forall k, i: nat | k in partial && i < |partial[k]| ensures StandsAt(nodes, partial[k], i) {
        PlacedAt(nodes, trails, k, i);
      }
    }
  }

  function List(nodes: Nodes, id: string, e: string): Nodes
    requires id in nodes
  {
    nodes[id := nodes[id].(exchangeIds := nodes[id].exchangeIds + [e])]
  }

  function Unlist(nodes: Nodes, id: string, e: string): Nodes
    requires id in nodes
  {
    nodes[id := nodes[id].(exchangeIds := Without(nodes[id].exchangeIds, {e}))]
  }

  /** Nodes that differ in their exchange lists only. */
  ghost predicate Relisted(nodes: Nodes, next: Nodes) {
    && nodes.Keys == next.Keys
    && (forall id :: id in nodes ==> next[id] == nodes[id].(exchangeIds := next[id].exchangeIds))
  }

  lemma RelistedKeepsShape(nodes: Nodes, next: Nodes, roots: seq<string>, trails: Trails, entries: map<string, Summary>)
    requires Relisted(nodes, next) && Shape(nodes, roots, trails, entries)
    ensures Shape(next, roots, trails, entries)
  {
    hide OnTrail, Sums, NoDup, Under, Linked;
    assert forall id :: id in next <==> id in nodes.Keys;
    StillPlaced(nodes, next, trails);
    SameLinks(nodes, next, roots);
  }

  lemma ListAdds(nodes: Nodes, id: string, e: string, leaves: map<string, string>)
    requires id in nodes && ListedAt(nodes, leaves) && e !in leaves
    ensures Relisted(nodes, List(nodes, id, e)) && ListedAt(List(nodes, id, e), leaves[e := id])
  {
    assert e !in nodes[id].exchangeIds;
  }

  lemma UnlistRemoves(nodes: Nodes, id: string, e: string, leaves: map<string, string>)
    requires id in nodes && e in leaves && leaves[e] == id && ListedAt(nodes, leaves)
    ensures Relisted(nodes, Unlist(nodes, id, e)) && ListedAt(Unlist(nodes, id, e), leaves - {e})
  {
    hide NoDup;
    WithoutElement(nodes[id].exchangeIds, e);
  }

  lemma MappedChanges(codec: UriCodec, exchangeToPath: map<string, seq<string>>, entries: map<string, Summary>,
                      e: string, summary: Summary)
    requires Mapped(codec, exchangeToPath, entries)
    ensures Mapped(codec, exchangeToPath[e := Ids(PathOf(codec, summary))], entries[e := summary])
    ensures Mapped(codec, exchangeToPath - {e}, entries - {e})
  {
    hide PathOf;
  }

  lemma FinishedTrails(codec: UriCodec, base: map<string, Summary>, e: string, summary: Summary)
    requires e !in base
    ensures var path, trails := PathOf(codec, summary), TrailsOf(codec, base[e := summary]);
      && Partial(codec, base, e, path, |path|) == trails
      && Leaves(TrailsOf(codec, base))[e := path[|path| - 1].id] == Leaves(trails)
      && Leaves(trails) - {e} == Leaves(TrailsOf(codec, base))
      && e !in Leaves(TrailsOf(codec, base))
      && e in trails && trails[e] == path
  {
    hide PathOf, Leaves;
    var path: Path := PathOf(codec, summary);
    var trails: Trails := TrailsOf(codec, base);
    assert path[..|path|] == path;
    assert TrailsOf(codec, base[e := summary]) == trails[e := path];
    LeavesWith(trails, e, path);
  }

  lemma LeavesWith(trails: Trails, e: string, path: Path)
    requires e !in trails && path != []
    ensures Leaves(trails[e := path]) == Leaves(trails)[e := path[|path| - 1].id]
    ensures Leaves(trails[e := path]) - {e} == Leaves(trails) && e !in Leaves(trails)
  {
  }

  /** A fully standing trail whose leaf is listed completes an upsert. */
  lemma UpsertCompletes(codec: UriCodec, nodes: Nodes, roots: seq<string>, exchangeToPath: map<string, seq<string>>,
                        base: map<string, Summary>, e: string, summary: Summary)
    requires e !in base && Standing(codec, nodes, roots, base, e, summary, |PathOf(codec, summary)|)
    requires Mapped(codec, exchangeToPath, base)
    ensures var path := PathOf(codec, summary);
      && path[|path| - 1].id in nodes
      && Agrees(codec, Index(List(nodes, path[|path| - 1].id, e), roots, exchangeToPath[e := Ids(path)]),
                base[e := summary])
  {
    hide PathOf, Shape, ListedAt, Mapped, List, TrailsOf, Leaves, Partial, Relisted;
    var path := PathOf(codec, summary);
    var leaf, entries := path[|path| - 1].id, base[e := summary];
    var trails: Trails := TrailsOf(codec, entries);
    FinishedTrails(codec, base, e, summary);
    StandingLeaf(nodes, roots, trails, entries, e);
    ListAdds(nodes, leaf, e, Leaves(TrailsOf(codec, base)));
    RelistedKeepsShape(nodes, List(nodes, leaf, e), roots, trails, entries);
    MappedChanges(codec, exchangeToPath, base, e, summary);
  }

  lemma StandingLeaf(nodes: Nodes, roots: seq<string>, trails: Trails, entries: map<string, Summary>, e: string)
    requires Shape(nodes, roots, trails, entries) && e in trails && trails[e] != []
    ensures trails[e][|trails[e]| - 1].id in nodes
  {
    PlacedAt(nodes, trails, e, |trails[e]| - 1);
  }

  /** Unlisting the leaf of an agreeing index leaves the full trail standing over the others. */
  lemma RemovalStarts(codec: UriCodec, index: Index, entries: map<string, Summary>, e: string)
    requires Agrees(codec, index, entries) && e in entries
    ensures var path := PathOf(codec, entries[e]);
      && path[|path| - 1].id in index.nodesById
      && Standing(codec, Unlist(index.nodesById, path[|path| - 1].id, e), index.rootIds, entries - {e}, e, entries[e],
                  |path|)
  {
    hide PathOf, Shape, ListedAt, Mapped, Unlist, TrailsOf, Leaves, Partial, Relisted;
    var path, base := PathOf(codec, entries[e]), entries - {e};
    var leaf := path[|path| - 1].id;
    var trails: Trails := TrailsOf(codec, entries);
    assert base[e := entries[e]] == entries;
    FinishedTrails(codec, base, e, entries[e]);
    StandingLeaf(index.nodesById, index.rootIds, trails, entries, e);
    LeafOf(trails, e);
    UnlistRemoves(index.nodesById, leaf, e, Leaves(trails));
    RelistedKeepsShape(index.nodesById, Unlist(index.nodesById, leaf, e), index.rootIds, trails, entries);
  }

  lemma LeafOf(trails: Trails, e: string)
    requires e in trails && trails[e] != []
    ensures e in Leaves(trails) && Leaves(trails)[e] == trails[e][|trails[e]| - 1].id
  {
  }

  // ---- the two updates

  method RemoveStructureSummary(codec: UriCodec, index: Index, exchangeId: string, summary: Summary,
                                ghost entries: map<string, Summary>)
    returns (updated: Index)
    requires EscapeLaw(codec) && Agrees(codec, index, entries)
    requires exchangeId in entries ==> entries[exchangeId] == summary
    ensures Agrees(codec, updated, entries - {exchangeId})
  {
    hide EscapeLaw, PathOf, Shape, ListedAt, Standing, Discount, DiscountRoots, TrailsOf, Leaves;
    MappedChanges(codec, index.exchangeToPath, entries, exchangeId, summary);
    if exchangeId !in index.exchangeToPath {
      assert entries - {exchangeId} == entries;
      return index;
    }
    ghost var base := entries - {exchangeId};
    var path := index.exchangeToPath[exchangeId];
    RemovalStarts(codec, index, entries, exchangeId);
    var leaf := path[|path| - 1];
    var nodesById := Unlist(index.nodesById, leaf, exchangeId);
    var rootIds := index.rootIds;
    var position := |path|;
    while position > 0
      invariant 0 <= position <= |path|
      invariant Standing(codec, nodesById, rootIds, base, exchangeId, summary, position)
    {
      position := position - 1;
      StandingShrinks(codec, nodesById, rootIds, base, exchangeId, summary, position);
      var nodeId := path[position];
      nodesById, rootIds := Discount(nodesById, nodeId, summary), DiscountRoots(nodesById, rootIds, nodeId, summary);
    }
    NothingStanding(codec, nodesById, rootIds, base, exchangeId, summary);
    updated := Index(nodesById, rootIds, index.exchangeToPath - {exchangeId});
  }

  method UpsertStructureSummary(codec: UriCodec, index: Index, exchangeId: string, previous: Option<Summary>,
                                next: Summary, ghost entries: map<string, Summary>)
    returns (updated: Index)
    requires EscapeLaw(codec) && Agrees(codec, index, entries)
    requires previous == if exchangeId in entries then Some(entries[exchangeId]) else None
    ensures Agrees(codec, updated, entries[exchangeId := next])
  {
    hide EscapeLaw, PathOf, Shape, ListedAt, Standing, CountIn, LinkChild, LinkRoot, TrailsOf, Leaves;
    var removed := index;
    if previous.Some? {
      removed := RemoveStructureSummary(codec, index, exchangeId, previous.value, entries);
    }
    ghost var base := entries - {exchangeId};
    assert previous.None? ==> base == entries;
    assert base[exchangeId := next] == entries[exchangeId := next];
    var path := PathOf(codec, next);
    var nodesById, rootIds := removed.nodesById, removed.rootIds;
    NothingStanding(codec, nodesById, rootIds, base, exchangeId, next);
    for position := 0 to |path|
      invariant Standing(codec, nodesById, rootIds, base, exchangeId, next, position)
    {
      var segment, parentId := path[position], ParentAt(path, position);
      StandingGrows(codec, nodesById, rootIds, base, exchangeId, next, position);
      nodesById := CountIn(nodesById, segment, parentId, next);
      nodesById := LinkChild(nodesById, parentId, segment.id);
      rootIds := LinkRoot(rootIds, parentId, segment.id);
    }
    UpsertCompletes(codec, nodesById, rootIds, removed.exchangeToPath, base, exchangeId, next);
    var leaf := path[|path| - 1].id;
    updated := Index(List(nodesById, leaf, exchangeId), rootIds, removed.exchangeToPath[exchangeId := Ids(path)]);
  }

  // ---- what agreeing means

  lemma EmptyAgrees(codec: UriCodec)
    ensures Agrees(codec, EMPTY_INDEX, map[])
  {
  }

  /** Equal up to the order of siblings and the activity revision. */
  ghost predicate SameNode(a: Node, b: Node) {
    && a.id == b.id && a.caption == b.caption && a.parentId == b.parentId && a.aggregate == b.aggregate
    && |a.childIds| == |b.childIds| && |a.exchangeIds| == |b.exchangeIds|
    && (forall c :: c in a.childIds <==> c in b.childIds)
    && (forall e :: e in a.exchangeIds <==> e in b.exchangeIds)
  }

  lemma SameElements(a: seq<string>, b: seq<string>)
    requires NoDup(a) && NoDup(b) && forall x :: x in a <==> x in b
    ensures |a| == |b|
  {
    ElemsCard(a);
    ElemsCard(b);
    assert Elems(a) == Elems(b);
  }

  lemma SameNodes(a: Nodes, b: Nodes, rootsA: seq<string>, rootsB: seq<string>, trails: Trails,
                  entries: map<string, Summary>, leaves: map<string, string>, id: string)
    requires Shape(a, rootsA, trails, entries) && ListedAt(a, leaves)
    requires Shape(b, rootsB, trails, entries) && ListedAt(b, leaves)
    ensures id in a <==> id in b
    ensures id in a ==> SameNode(a[id], b[id])
  {
    hide OnTrail, Sums, NoDup, Placed;
    assert OnTrail(trails, id) <==> id in a;
    if id in a {
      var k, i := SomePlace(a, trails, id);
      PlacedAt(a, trails, k, i);
      PlacedAt(b, trails, k, i);
      SumsDetermine(a[id].aggregate, b[id].aggregate, Under(trails, entries, id));
      forall e ensures e in a[id].exchangeIds <==> e in b[id].exchangeIds {
        assert e in a[id].exchangeIds <==> e in leaves && leaves[e] == id;
        assert e in b[id].exchangeIds <==> e in leaves && leaves[e] == id;
      }
      SameElements(a[id].exchangeIds, b[id].exchangeIds);
      SameChildren(a, b, rootsA, rootsB, trails, id);
    }
  }

  lemma SameChildren(a: Nodes, b: Nodes, rootsA: seq<string>, rootsB: seq<string>, trails: Trails, id: string)
    requires Populated(a, trails) && Placed(a, trails) && Linked(a, rootsA)
    requires Populated(b, trails) && Placed(b, trails) && Linked(b, rootsB)
    requires id in a && id in b
    ensures forall c :: c in a[id].childIds <==> c in b[id].childIds
    ensures |a[id].childIds| == |b[id].childIds|
  {
    hide OnTrail, NoDup;
    forall c ensures c in a[id].childIds <==> c in b[id].childIds {
      assert c in a[id].childIds <==> c in a && a[c].parentId == Some(id);
      assert c in b[id].childIds <==> c in b && b[c].parentId == Some(id);
      SameParent(a, b, trails, c);
    }
    SameElements(a[id].childIds, b[id].childIds);
  }

  lemma SameParent(a: Nodes, b: Nodes, trails: Trails, c: string)
    requires Populated(a, trails) && Placed(a, trails) && Populated(b, trails) && Placed(b, trails)
    ensures c in a <==> c in b
    ensures c in a ==> a[c].parentId == b[c].parentId
  {
    hide OnTrail, Placed;
    assert OnTrail(trails, c) <==> c in a;
    if c in a {
      var k, i := SomePlace(a, trails, c);
      PlacedAt(a, trails, k, i);
      PlacedAt(b, trails, k, i);
    }
  }

  /**
   The retained summaries determine the tree: however two agreeing indexes were reached, they have the
   same groups, captions, parents, aggregates, roots, children and exchanges, and the same path map.
   */
  lemma AgreeingIndexesMatch(codec: UriCodec, a: Index, b: Index, entries: map<string, Summary>)
    requires Agrees(codec, a, entries) && Agrees(codec, b, entries)
    ensures a.nodesById.Keys == b.nodesById.Keys
    ensures forall id :: id in a.nodesById ==> SameNode(a.nodesById[id], b.nodesById[id])
    ensures forall r :: r in a.rootIds <==> r in b.rootIds
    ensures |a.rootIds| == |b.rootIds|
    ensures a.exchangeToPath == b.exchangeToPath
  {
    hide PathOf, Populated, Placed, Counted, ListedAt, SameNode, TrailsOf, Leaves;
    var trails := TrailsOf(codec, entries);
    forall id ensures id in a.nodesById <==> id in b.nodesById
      ensures id in a.nodesById ==> SameNode(a.nodesById[id], b.nodesById[id])
    {
      SameNodes(a.nodesById, b.nodesById, a.rootIds, b.rootIds, trails, entries, Leaves(trails), id);
    }
    forall r ensures r in a.rootIds <==> r in b.rootIds {
      SameParent(a.nodesById, b.nodesById, trails, r);
    }
    SameElements(a.rootIds, b.rootIds);
  }

  /** No group is kept that holds no exchange, and every count is the number of exchanges under its group. */
  lemma NoEmptyGroup(codec: UriCodec, index: Index, entries: map<string, Summary>, id: string)
    requires Agrees(codec, index, entries) && id in index.nodesById
    ensures index.nodesById[id].aggregate.exchangeCount == |Under(TrailsOf(codec, entries), entries, id)| > 0
  {
    hide PathOf, Placed, Linked, ListedAt, Sums, Under;
    var under := Under(TrailsOf(codec, entries), entries, id);
    SumsReading(index.nodesById[id].aggregate, under);
    ExchangesTotal(under);
    UnderEmpty(TrailsOf(codec, entries), entries, id);
  }
}
