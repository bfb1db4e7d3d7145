/**
 * The diagram card of the results view: the layout of nodes on the fixed
 * 600 x 400 canvas, the edges that are drawn between them, the node label
 * shown inside each circle, the icon beside the title and the rows of the
 * printable export.
 */
module GraphDiagram {
  import opened Base
  import opened JsText

  datatype DiagramType = BinaryTree | Tree | Graph | Directed | Flowchart | LinkedList {
    /** The `type` string the diagram descriptor carries. */
    function Name(): string {
      match this
      case BinaryTree => "binary-tree"
      case Tree => "tree"
      case Graph => "graph"
      case Directed => "directed"
      case Flowchart => "flowchart"
      case LinkedList => "linked-list"
    }
  }

  // `text` is the source's `label` field (`label` is a Dafny keyword).
  datatype Node = Node(id: string, text: string, level: Option<int>)
  datatype Edge = Edge(from: string, to: string, text: Option<string>)
  datatype Pos = Pos(x: real, y: real)

  /** One assignment `nodePositions[id] = pos` made by the layout. */
  type Write = (string, Pos)

  const Width: real := 600.0
  const Height: real := 400.0
  const Padding: real := 60.0
  const NodeRadius: real := 25.0
  /** Extra room left before the target node for the arrowhead of a directed edge. */
  const ArrowGap: real := 8.0

  // ---------------------------------------------------------------------------
  // Geometry of the two exact layouts

  /** `Math.max(n, 1)`. */
  function MaxOne(n: int): nat {
    if n >= 1 then n else 1
  }

  /** The centre of slot `i` when the usable width is cut into `count` equal slots. */
  function SlotX(i: nat, count: nat): real {
    var slotWidth := (Width - 2.0 * Padding) / (MaxOne(count) as real);
    Padding + slotWidth * (i as real) + slotWidth / 2.0
  }

  /** A node without a level sits on level 0 (`node.level ?? 0`). */
  function LevelOf(n: Node): int {
    n.level.GetOr(0)
  }

  /** The row of `level` when the usable height is cut into `maxLevel + 1` bands. */
  function RowY(level: int, maxLevel: int): real {
    var levelHeight := (Height - 2.0 * Padding) / (MaxOne(maxLevel + 1) as real);
    Padding + (level as real) * levelHeight + 30.0
  }

  /** Every slot centre lies strictly inside the padded width. */
  lemma SlotXInside(i: nat, count: nat)
    requires i < count
    ensures Padding < SlotX(i, count) < Width - Padding
  {
    var w := (Width - 2.0 * Padding) / (count as real);
    assert w * (count as real) == 480.0;
    assert w > 0.0;
    assert (i as real) + 0.5 < count as real;
    MulStrict(w, (i as real) + 0.5, count as real);
    assert w * (i as real) + w / 2.0 == w * ((i as real) + 0.5);
  }

  /** Slots further right have larger centres. */
  lemma SlotXIncreasing(i: nat, j: nat, count: nat)
    requires i < j
    ensures SlotX(i, count) < SlotX(j, count)
  {
    var w := (Width - 2.0 * Padding) / (MaxOne(count) as real);
    assert w > 0.0;
    MulStrict(w, i as real, j as real);
  }

  /** A node that is alone in its slot row is centred horizontally. */
  lemma LoneSlotCentred()
    ensures SlotX(0, 1) == Width / 2.0
  {
  }

  /** Deeper levels are drawn lower, whatever the deepest level is. */
  lemma RowYIncreasing(a: int, b: int, maxLevel: int)
    requires a < b && maxLevel >= 0
    ensures RowY(a, maxLevel) < RowY(b, maxLevel)
  {
    var h := (Height - 2.0 * Padding) / (MaxOne(maxLevel + 1) as real);
    assert h > 0.0;
    MulStrict(h, a as real, b as real);
  }

  lemma MulStrict(w: real, a: real, b: real)
    requires w > 0.0 && a < b
    ensures w * a < w * b
  {
    assert w * b - w * a == w * (b - a);
  }

  // ---------------------------------------------------------------------------
  // The position dictionary as the outcome of a sequence of writes

  function Ids(w: seq<Write>): set<string> {
    set k | 0 <= k < |w| :: w[k].0
  }

  /** The dictionary left by performing the writes in order; a later write to an id wins. */
  function Assign(w: seq<Write>): (m: map<string, Pos>)
    ensures m.Keys == Ids(w)
  {
    if w == [] then map[]
    else
      var init := w[..|w| - 1];
      assert Ids(w) == Ids(init) + {w[|w| - 1].0} by {
        forall k | 0 <= k < |init| ensures init[k] == w[k] { }
      }
      Assign(init)[w[|w| - 1].0 := w[|w| - 1].1]
  }

  /** The last write to an id decides its position. */
  lemma {:induction false} AssignLastWrite(w: seq<Write>, k: nat)
    requires k < |w|
    requires forall j :: k < j < |w| ==> w[j].0 != w[k].0
    ensures w[k].0 in Assign(w) && Assign(w)[w[k].0] == w[k].1
  {
    if k < |w| - 1 {
      var init := w[..|w| - 1];
      AssignLastWrite(init, k);
    }
  }

  /** Every write to `id` in `w` writes `p`. */
  predicate Uniform(w: seq<Write>, id: string, p: Pos) {
    forall j :: 0 <= j < |w| && w[j].0 == id ==> w[j].1 == p
  }

  /** When every write to an id carries the same position, that is its position. */
  lemma {:induction false} AssignUniform(w: seq<Write>, id: string, p: Pos)
    requires id in Ids(w)
    requires Uniform(w, id, p)
    ensures Assign(w)[id] == p
  {
    var init := w[..|w| - 1];
    if w[|w| - 1].0 != id {
      var k :| 0 <= k < |w| && w[k].0 == id;
      assert init[k] == w[k];
      AssignUniform(init, id, p);
    }
  }

  lemma AssignStep(w: seq<Write>, k: nat)
    requires k < |w|
    ensures Assign(w[..k + 1]) == Assign(w[..k])[w[k].0 := w[k].1]
  {
    assert w[..k + 1][..k] == w[..k];
  }

  // ---------------------------------------------------------------------------
  // What the layout writes, branch by branch

  function NodeIds(nodes: seq<Node>): set<string> {
    set n | n in nodes :: n.id
  }

  predicate DistinctIds(nodes: seq<Node>) {
    forall i, j :: 0 <= i < j < |nodes| ==> nodes[i].id != nodes[j].id
  }

  /** Node `i` (input order) written at `place(i)`: the linked-list and circle branches. */
  function IndexedWrites(nodes: seq<Node>, place: nat -> Pos): seq<Write> {
    seq(|nodes|, i requires 0 <= i < |nodes| => (nodes[i].id, place(i)))
  }

  function ListPlace(count: nat): nat -> Pos {
    (i: nat) => Pos(SlotX(i, count), Height / 2.0)
  }

  /** `circleAt(i, n)` stands for the point at angle 2*pi*i/n - pi/2 on the layout circle. */
  function CirclePlace(count: nat, circleAt: (nat, nat) -> Pos): nat -> Pos {
    (i: nat) => circleAt(i, MaxOne(count))
  }

  /** The nodes grouped under `level`, in input order (`levels[level]`). */
  function NodesAt(nodes: seq<Node>, level: int): seq<Node> {
    if nodes == [] then []
    else
      var last := nodes[|nodes| - 1];
      NodesAt(nodes[..|nodes| - 1], level) + (if LevelOf(last) == level then [last] else [])
  }

  function LevelSet(nodes: seq<Node>): set<int> {
    set n | n in nodes :: LevelOf(n)
  }

  /** `Math.max(...levelKeys, 0)`. */
  function MaxWithZero(keys: seq<int>): int {
    if keys == [] then 0
    else
      var m := MaxWithZero(keys[..|keys| - 1]);
      if keys[|keys| - 1] > m then keys[|keys| - 1] else m
  }

  /** The writes for one level: equal slots for that level's own node count. */
  function RowWrites(row: seq<Node>, level: int, maxLevel: int): seq<Write> {
    seq(|row|, j requires 0 <= j < |row| => (row[j].id, Pos(SlotX(j, |row|), RowY(level, maxLevel))))
  }

  /** The writes of the tree branch, levels taken in the order of `keys`. */
  function LevelsWrites(nodes: seq<Node>, keys: seq<int>, maxLevel: int): seq<Write> {
    if keys == [] then []
    else
      var level := keys[|keys| - 1];
      LevelsWrites(nodes, keys[..|keys| - 1], maxLevel) + RowWrites(NodesAt(nodes, level), level, maxLevel)
  }

  ghost function MinOf(s: set<int>): (m: int)
    requires s != {}
    ensures m in s && forall k :: k in s ==> m <= k
  {
    MinExists(s);
    var m :| m in s && forall k :: k in s ==> m <= k;
    m
  }

  lemma MinExists(s: set<int>)
    requires s != {}
    ensures exists m :: m in s && forall k :: k in s ==> m <= k
  {
    var m := MinWitness(s);
  }

  lemma Pick(s: set<int>) returns (x: int)
    requires s != {}
    ensures x in s
  {
    if forall y :: y !in s {
      assert false;
    }
    x :| x in s;
  }

  lemma MinWitness(s: set<int>) returns (m: int)
    requires s != {}
    ensures m in s && forall k :: k in s ==> m <= k
    decreases s
  {
    var x := Pick(s);
    if s == {x} {
      m := x;
    } else {
      var rest := MinWitness(s - {x});
      m := if x < rest then x else rest;
      forall k | k in s ensures m <= k {
        if k != x { assert k in s - {x}; }
      }
    }
  }

  /** The elements of `s` in ascending order (`Object.keys(levels).map(Number).sort(...)`). */
  ghost function Ascending(s: set<int>): seq<int>
    decreases s
  {
    if s == {} then [] else [MinOf(s)] + Ascending(s - {MinOf(s)})
  }

  predicate StrictlyIncreasing(keys: seq<int>) {
    forall i, j :: 0 <= i < j < |keys| ==> keys[i] < keys[j]
  }

  /** A key below every key of an increasing list extends it, and adds itself to its keys. */
  lemma ConsIncreasing(m: int, rest: seq<int>)
    requires StrictlyIncreasing(rest)
    requires forall k :: k in rest ==> m < k
    ensures StrictlyIncreasing([m] + rest)
    ensures (set k | k in [m] + rest) == {m} + (set k | k in rest)
  {
    var l := [m] + rest;
    forall i, j | 0 <= i < j < |l| ensures l[i] < l[j] {
      assert l[j] == rest[j - 1] && rest[j - 1] in rest;
      if i > 0 {
        assert l[i] == rest[i - 1];
      }
    }
  }

  lemma {:induction false} AscendingSorts(s: set<int>)
    ensures (set k | k in Ascending(s)) == s
    ensures StrictlyIncreasing(Ascending(s))
    decreases s
  {
    if s != {} {
      var m := MinOf(s);
      AscendingSorts(s - {m});
      var rest := Ascending(s - {m});
      assert Ascending(s) == [m] + rest;
      forall k | k in rest ensures m < k {
        assert k in s - {m};
      }
      ConsIncreasing(m, rest);
    } else {
      assert Ascending(s) == [];
    }
  }

  ghost function TreeKeys(nodes: seq<Node>): seq<int> {
    Ascending(LevelSet(nodes))
  }

  /** Every dictionary write the layout performs, in the order it performs them. */
  ghost function LayoutWrites(nodes: seq<Node>, t: DiagramType, circleAt: (nat, nat) -> Pos): seq<Write> {
    if t == LinkedList then
      IndexedWrites(nodes, ListPlace(|nodes|))
    else if t == BinaryTree || t == Tree then
      LevelsWrites(nodes, TreeKeys(nodes), MaxWithZero(TreeKeys(nodes)))
    else
      IndexedWrites(nodes, CirclePlace(|nodes|, circleAt))
  }

  // ---------------------------------------------------------------------------
  // The layout itself

  /**
   * The `layout` memo: fills the position dictionary node by node. The
   * circle branch's cos/sin point is the parameter `circleAt`.
   */
  method Layout(nodes: seq<Node>, t: DiagramType, circleAt: (nat, nat) -> Pos)
    returns (positions: map<string, Pos>)
    ensures positions == Assign(LayoutWrites(nodes, t, circleAt))
    ensures positions.Keys == NodeIds(nodes)
  {
    if t == LinkedList {
      positions := ListLayout(nodes);
      IndexedIds(nodes, ListPlace(|nodes|));
    } else if t == BinaryTree || t == Tree {
      var levels := GroupByLevel(nodes);
      var levelKeys := SortedKeys(levels.Keys);
      var maxLevel := MaxLevel(levelKeys);
      AscendingSorts(levels.Keys);
      positions := PlaceRows(nodes, levels, levelKeys, maxLevel);
      TreeIds(nodes, levelKeys, maxLevel);
    } else {
      positions := CircleLayout(nodes, circleAt);
      IndexedIds(nodes, CirclePlace(|nodes|, circleAt));
    }
  }

  /** The linked-list branch: equal slots left to right on the middle line. */
  method ListLayout(nodes: seq<Node>) returns (positions: map<string, Pos>)
    ensures positions == Assign(IndexedWrites(nodes, ListPlace(|nodes|)))
  {
    positions := map[];
    ghost var w := IndexedWrites(nodes, ListPlace(|nodes|));
    var nodeWidth := (Width - 2.0 * Padding) / (MaxOne(|nodes|) as real);
    for index := 0 to |nodes|
      invariant positions == Assign(w[..index])
    {
      var p := Pos(Padding + nodeWidth * (index as real) + nodeWidth / 2.0, Height / 2.0);
      assert w[index] == (nodes[index].id, p) by {
        assert p == ListPlace(|nodes|)(index);
      }
      AssignStep(w, index);
      positions := positions[nodes[index].id := p];
    }
    assert w[..|nodes|] == w;
  }

  /** The circle branch, with the trigonometry supplied as `circleAt`. */
  method CircleLayout(nodes: seq<Node>, circleAt: (nat, nat) -> Pos) returns (positions: map<string, Pos>)
    ensures positions == Assign(IndexedWrites(nodes, CirclePlace(|nodes|, circleAt)))
  {
    positions := map[];
    ghost var w := IndexedWrites(nodes, CirclePlace(|nodes|, circleAt));
    for index := 0 to |nodes|
      invariant positions == Assign(w[..index])
    {
      AssignStep(w, index);
      positions := positions[nodes[index].id := circleAt(index, MaxOne(|nodes|))];
    }
    assert w[..|nodes|] == w;
  }

  /** The grouping loop of the tree branch: `levels[node.level || 0]` collects the nodes in order. */
  method GroupByLevel(nodes: seq<Node>) returns (levels: map<int, seq<Node>>)
    ensures levels.Keys == LevelSet(nodes)
    ensures forall l :: l in levels ==> levels[l] == NodesAt(nodes, l)
  {
    levels := map[];
    for i := 0 to |nodes|
      invariant levels.Keys == LevelSet(nodes[..i])
      invariant forall l :: l in levels ==> levels[l] == NodesAt(nodes[..i], l)
    {
      var level := nodes[i].level.GetOr(0);
      assert nodes[..i + 1][..i] == nodes[..i];
      assert nodes[..i + 1] == nodes[..i] + [nodes[i]];
      LevelSetStep(nodes, i);
      if level !in levels {
        NodesAtOutside(nodes[..i], level);
        levels := levels[level := []];
      }
      levels := levels[level := levels[level] + [nodes[i]]];
    }
    assert nodes[..|nodes|] == nodes;
  }

  lemma LevelSetStep(nodes: seq<Node>, i: nat)
    requires i < |nodes|
    ensures LevelSet(nodes[..i + 1]) == LevelSet(nodes[..i]) + {LevelOf(nodes[i])}
  {
    assert nodes[..i + 1] == nodes[..i] + [nodes[i]];
    var level := LevelOf(nodes[i]);
    forall l | l in LevelSet(nodes[..i + 1]) ensures l in LevelSet(nodes[..i]) + {level} {
      var n :| n in nodes[..i + 1] && LevelOf(n) == l;
      assert n in nodes[..i] || n == nodes[i];
    }
    forall l | l in LevelSet(nodes[..i]) + {level} ensures l in LevelSet(nodes[..i + 1]) {
      if l == level {
        assert nodes[i] in nodes[..i + 1];
      } else {
        var n :| n in nodes[..i] && LevelOf(n) == l;
        assert n in nodes[..i + 1];
      }
    }
  }

  /** `Math.max(...levelKeys, 0)`. */
  method MaxLevel(levelKeys: seq<int>) returns (maxLevel: int)
    ensures maxLevel == MaxWithZero(levelKeys)
  {
    maxLevel := 0;
    for k := 0 to |levelKeys|
      invariant maxLevel == MaxWithZero(levelKeys[..k])
    {
      assert levelKeys[..k + 1][..k] == levelKeys[..k];
      if levelKeys[k] > maxLevel {
        maxLevel := levelKeys[k];
      }
    }
    assert levelKeys[..|levelKeys|] == levelKeys;
  }

  /** The row loops of the tree branch: level by level, nodes spread evenly across each row. */
  method PlaceRows(nodes: seq<Node>, levels: map<int, seq<Node>>, levelKeys: seq<int>, maxLevel: int)
    returns (positions: map<string, Pos>)
    requires forall k :: 0 <= k < |levelKeys| ==> levelKeys[k] in levels && levels[levelKeys[k]] == NodesAt(nodes, levelKeys[k])
    ensures positions == Assign(LevelsWrites(nodes, levelKeys, maxLevel))
  {
    positions := map[];
    var levelHeight := (Height - 2.0 * Padding) / (MaxOne(maxLevel + 1) as real);
    for k := 0 to |levelKeys|
      invariant positions == Assign(LevelsWrites(nodes, levelKeys[..k], maxLevel))
    {
      var level := levelKeys[k];
      assert levelKeys[..k + 1][..k] == levelKeys[..k];
      positions := PlaceRow(LevelsWrites(nodes, levelKeys[..k], maxLevel), positions, levels[level], level, maxLevel, levelHeight);
    }
    assert levelKeys[..|levelKeys|] == levelKeys;
  }

  /** One row of the tree branch, written over the positions placed so far. */
  method PlaceRow(ghost done: seq<Write>, before: map<string, Pos>, levelNodes: seq<Node>, level: int, maxLevel: int, levelHeight: real)
    returns (positions: map<string, Pos>)
    requires before == Assign(done)
    requires levelHeight == (Height - 2.0 * Padding) / (MaxOne(maxLevel + 1) as real)
    ensures positions == Assign(done + RowWrites(levelNodes, level, maxLevel))
  {
    positions := before;
    ghost var row := RowWrites(levelNodes, level, maxLevel);
    var levelWidth := (Width - 2.0 * Padding) / (MaxOne(|levelNodes|) as real);
    assert done + row[..0] == done;
    for index := 0 to |levelNodes|
      invariant positions == Assign(done + row[..index])
    {
      var p := Pos(Padding + levelWidth * (index as real) + levelWidth / 2.0, Padding + (level as real) * levelHeight + 30.0);
      RowWriteAt(levelNodes, level, maxLevel, index);
      assert p.x == Padding + (Width - 2.0 * Padding) / (MaxOne(|levelNodes|) as real) * (index as real) + (Width - 2.0 * Padding) / (MaxOne(|levelNodes|) as real) / 2.0;
      assert p.y == Padding + (level as real) * ((Height - 2.0 * Padding) / (MaxOne(maxLevel + 1) as real)) + 30.0;
      assert row[index].0 == levelNodes[index].id;
      assert row[index] == (levelNodes[index].id, p);
      AssignAppendStep(done, row, index);
      positions := positions[levelNodes[index].id := p];
    }
    assert row[..|levelNodes|] == row;
  }

  lemma RowWriteAt(levelNodes: seq<Node>, level: int, maxLevel: int, index: nat)
    requires index < |levelNodes|
    ensures RowWrites(levelNodes, level, maxLevel)[index]
      == (levelNodes[index].id,
          Pos(Padding + (Width - 2.0 * Padding) / (MaxOne(|levelNodes|) as real) * (index as real) + (Width - 2.0 * Padding) / (MaxOne(|levelNodes|) as real) / 2.0,
              Padding + (level as real) * ((Height - 2.0 * Padding) / (MaxOne(maxLevel + 1) as real)) + 30.0))
  {
    assert RowWrites(levelNodes, level, maxLevel)[index] == (levelNodes[index].id, Pos(SlotX(index, |levelNodes|), RowY(level, maxLevel)));
  }

  lemma AssignAppendStep(done: seq<Write>, row: seq<Write>, index: nat)
    requires index < |row|
    ensures Assign(done + row[..index + 1]) == Assign(done + row[..index])[row[index].0 := row[index].1]
  {
    var v := done + row[..index + 1];
    assert v[..|v| - 1] == done + row[..index];
    assert v[|v| - 1] == row[index];
  }

  /** The sort of the level keys, by repeatedly taking the smallest key left. */
  method SortedKeys(keys: set<int>) returns (sorted: seq<int>)
    ensures sorted == Ascending(keys)
  {
    sorted := [];
    var remaining := keys;
    while remaining != {}
      invariant sorted + Ascending(remaining) == Ascending(keys)
      decreases remaining
    {
      ghost var m := MinOf(remaining);
      var least :| least in remaining && forall k :: k in remaining ==> least <= k;
      assert least == m;
      sorted := sorted + [least];
      remaining := remaining - {least};
    }
  }

  lemma {:induction false} NodesAtOutside(nodes: seq<Node>, level: int)
    requires level !in LevelSet(nodes)
    ensures NodesAt(nodes, level) == []
  {
    if nodes != [] {
      var init := nodes[..|nodes| - 1];
      assert LevelSet(init) <= LevelSet(nodes) by {
        forall n | n in init ensures n in nodes { }
      }
      assert nodes[|nodes| - 1] in nodes;
      NodesAtOutside(init, level);
    }
  }

  lemma IndexedIds(nodes: seq<Node>, place: nat -> Pos)
    ensures Ids(IndexedWrites(nodes, place)) == NodeIds(nodes)
  {
    var w := IndexedWrites(nodes, place);
    forall id | id in NodeIds(nodes) ensures id in Ids(w) {
      var n :| n in nodes && n.id == id;
      var i :| 0 <= i < |nodes| && nodes[i] == n;
      assert w[i].0 == id;
    }
  }

  /** Membership in a level group: the nodes of the input on that level. */
  lemma {:induction false} NodesAtMembers(nodes: seq<Node>, level: int)
    ensures forall n :: n in NodesAt(nodes, level) <==> n in nodes && LevelOf(n) == level
  {
    if nodes != [] {
      var init := nodes[..|nodes| - 1];
      NodesAtMembers(init, level);
      var last := nodes[|nodes| - 1];
      assert nodes == init + [last];
      forall n ensures n in NodesAt(nodes, level) <==> n in nodes && LevelOf(n) == level {
        assert n in nodes <==> n in init || n == last;
      }
    }
  }

  lemma {:induction false} TreeIds(nodes: seq<Node>, keys: seq<int>, maxLevel: int)
    requires (set k | k in keys) == LevelSet(nodes)
    ensures Ids(LevelsWrites(nodes, keys, maxLevel)) == NodeIds(nodes)
  {
    LevelsIds(nodes, keys, maxLevel);
    forall n | n in nodes ensures LevelOf(n) in keys {
      assert LevelOf(n) in LevelSet(nodes);
    }
  }

  lemma {:induction false} LevelsIds(nodes: seq<Node>, keys: seq<int>, maxLevel: int)
    ensures Ids(LevelsWrites(nodes, keys, maxLevel)) == set n | n in nodes && LevelOf(n) in keys :: n.id
  {
    if keys != [] {
      var init := keys[..|keys| - 1];
      var level := keys[|keys| - 1];
      LevelsIds(nodes, init, maxLevel);
      NodesAtMembers(nodes, level);
      var a := LevelsWrites(nodes, init, maxLevel);
      var row := NodesAt(nodes, level);
      var b := RowWrites(row, level, maxLevel);
      assert Ids(a + b) == Ids(a) + Ids(b) by {
        forall k | 0 <= k < |a| ensures (a + b)[k] == a[k] { }
        forall k | 0 <= k < |b| ensures (a + b)[|a| + k] == b[k] { }
        forall id | id in Ids(a + b) ensures id in Ids(a) + Ids(b) {
          var k :| 0 <= k < |a + b| && (a + b)[k].0 == id;
          if k >= |a| { assert b[k - |a|].0 == id; }
        }
      }
      assert Ids(b) == set n | n in row :: n.id by {
        forall id | id in set n | n in row :: n.id ensures id in Ids(b) {
          var n :| n in row && n.id == id;
          var j :| 0 <= j < |row| && row[j] == n;
          assert b[j].0 == id;
        }
      }
      assert forall l :: l in keys <==> l in init || l == level;
    }
  }

  /** Each member of a level group is some input node, at a position given by its rank. */
  lemma {:induction false} NodesAtIndex(nodes: seq<Node>, level: int, j: nat) returns (i: nat)
    requires j < |NodesAt(nodes, level)|
    ensures i < |nodes| && nodes[i] == NodesAt(nodes, level)[j]
    ensures LevelOf(nodes[i]) == level && |NodesAt(nodes[..i], level)| == j
  {
    var init := nodes[..|nodes| - 1];
    if j < |NodesAt(init, level)| {
      i := NodesAtIndex(init, level, j);
      assert nodes[..i] == init[..i];
    } else {
      i := |nodes| - 1;
      assert nodes[..i] == init;
    }
  }

  /** The rank of a node within its level grows along the input and stays below the level's size. */
  lemma {:induction false} RankGrows(nodes: seq<Node>, i: nat, j: nat)
    requires i < j <= |nodes|
    ensures |NodesAt(nodes[..i], LevelOf(nodes[i]))| < |NodesAt(nodes[..j], LevelOf(nodes[i]))|
  {
    var level := LevelOf(nodes[i]);
    assert nodes[..j][..j - 1] == nodes[..j - 1];
    if j - 1 > i {
      RankGrows(nodes, i, j - 1);
    } else {
      assert nodes[..j][j - 1] == nodes[i];
    }
  }

  /** The tree position of node `i`: the row of its level, the slot of its rank in that level. */
  function TreePos(nodes: seq<Node>, i: nat, maxLevel: int): Pos
    requires i < |nodes|
  {
    var level := LevelOf(nodes[i]);
    Pos(SlotX(|NodesAt(nodes[..i], level)|, |NodesAt(nodes, level)|), RowY(level, maxLevel))
  }

  lemma {:induction false} LevelsWritesUniform(nodes: seq<Node>, keys: seq<int>, maxLevel: int, i: nat)
    requires DistinctIds(nodes) && i < |nodes|
    ensures Uniform(LevelsWrites(nodes, keys, maxLevel), nodes[i].id, TreePos(nodes, i, maxLevel))
  {
    if keys != [] {
      var init := keys[..|keys| - 1];
      var level := keys[|keys| - 1];
      LevelsWritesUniform(nodes, init, maxLevel, i);
      var a: seq<Write> := LevelsWrites(nodes, init, maxLevel);
      var row := NodesAt(nodes, level);
      var b: seq<Write> := RowWrites(row, level, maxLevel);
      forall k | 0 <= k < |a + b| && (a + b)[k].0 == nodes[i].id
        ensures (a + b)[k].1 == TreePos(nodes, i, maxLevel)
      {
        if k < |a| {
          assert (a + b)[k] == a[k];
        } else {
          var j := k - |a|;
          assert (a + b)[k] == b[j];
          assert b[j] == (row[j].id, Pos(SlotX(j, |row|), RowY(level, maxLevel)));
          var i' := NodesAtIndex(nodes, level, j);
          assert nodes[i'].id == nodes[i].id;
          assert i' == i;
          assert TreePos(nodes, i, maxLevel) == Pos(SlotX(j, |row|), RowY(level, maxLevel));
        }
      }
      assert LevelsWrites(nodes, keys, maxLevel) == a + b;
    }
  }

  // ---------------------------------------------------------------------------
  // What the layout guarantees

  /** Every node id gets a position and nothing else does; no nodes, no positions. */
  lemma LayoutCoversNodes(nodes: seq<Node>, t: DiagramType, circleAt: (nat, nat) -> Pos)
    ensures Assign(LayoutWrites(nodes, t, circleAt)).Keys == NodeIds(nodes)
    ensures nodes == [] ==> Assign(LayoutWrites(nodes, t, circleAt)) == map[]
  {
    if t == LinkedList {
      IndexedIds(nodes, ListPlace(|nodes|));
    } else if t == BinaryTree || t == Tree {
      AscendingSorts(LevelSet(nodes));
      TreeIds(nodes, TreeKeys(nodes), MaxWithZero(TreeKeys(nodes)));
    } else {
      IndexedIds(nodes, CirclePlace(|nodes|, circleAt));
    }
  }

  /**
   * Linked list: node `i` whose id is not repeated later sits in slot `i` of
   * `|nodes|` on the middle line, strictly inside the padded width.
   */
  lemma LinkedListPosition(nodes: seq<Node>, circleAt: (nat, nat) -> Pos, i: nat)
    requires i < |nodes|
    requires forall j :: i < j < |nodes| ==> nodes[j].id != nodes[i].id
    ensures nodes[i].id in Assign(LayoutWrites(nodes, LinkedList, circleAt))
    ensures Assign(LayoutWrites(nodes, LinkedList, circleAt))[nodes[i].id] == Pos(SlotX(i, |nodes|), 200.0)
    ensures Padding < SlotX(i, |nodes|) < Width - Padding
  {
    var w := IndexedWrites(nodes, ListPlace(|nodes|));
    assert LayoutWrites(nodes, LinkedList, circleAt) == w;
    assert w[i] == (nodes[i].id, Pos(SlotX(i, |nodes|), 200.0));
    AssignLastWrite(w, i);
    SlotXInside(i, |nodes|);
  }

  /** Linked list: with distinct ids, x strictly increases in input order and y is constant. */
  lemma LinkedListOrder(nodes: seq<Node>, circleAt: (nat, nat) -> Pos, i: nat, j: nat)
    requires DistinctIds(nodes) && i < j < |nodes|
    ensures nodes[i].id in Assign(LayoutWrites(nodes, LinkedList, circleAt))
    ensures nodes[j].id in Assign(LayoutWrites(nodes, LinkedList, circleAt))
    ensures Assign(LayoutWrites(nodes, LinkedList, circleAt))[nodes[i].id].x
          < Assign(LayoutWrites(nodes, LinkedList, circleAt))[nodes[j].id].x
    ensures Assign(LayoutWrites(nodes, LinkedList, circleAt))[nodes[i].id].y
         == Assign(LayoutWrites(nodes, LinkedList, circleAt))[nodes[j].id].y
  {
    LinkedListPosition(nodes, circleAt, i);
    LinkedListPosition(nodes, circleAt, j);
    SlotXIncreasing(i, j, |nodes|);
  }

  /** Circle: node `i` whose id is not repeated later gets the circle point of slot `i` of max(n, 1). */
  lemma CirclePosition(nodes: seq<Node>, t: DiagramType, circleAt: (nat, nat) -> Pos, i: nat)
    requires t == Graph || t == Directed || t == Flowchart
    requires i < |nodes|
    requires forall j :: i < j < |nodes| ==> nodes[j].id != nodes[i].id
    ensures nodes[i].id in Assign(LayoutWrites(nodes, t, circleAt))
    ensures Assign(LayoutWrites(nodes, t, circleAt))[nodes[i].id] == circleAt(i, |nodes|)
  {
    var w := IndexedWrites(nodes, CirclePlace(|nodes|, circleAt));
    assert LayoutWrites(nodes, t, circleAt) == w;
    assert MaxOne(|nodes|) == |nodes|;
    assert CirclePlace(|nodes|, circleAt)(i) == circleAt(i, |nodes|);
    assert w[i] == (nodes[i].id, circleAt(i, |nodes|));
    AssignLastWrite(w, i);
  }

  /**
   * Tree: with distinct ids, a node sits on the row of its level and in the
   * slot of its rank among that level's nodes, out of that level's count.
   */
  lemma TreePosition(nodes: seq<Node>, t: DiagramType, circleAt: (nat, nat) -> Pos, i: nat)
    requires t == BinaryTree || t == Tree
    requires DistinctIds(nodes) && i < |nodes|
    ensures nodes[i].id in Assign(LayoutWrites(nodes, t, circleAt))
    ensures Assign(LayoutWrites(nodes, t, circleAt))[nodes[i].id] == TreePos(nodes, i, MaxWithZero(TreeKeys(nodes)))
    ensures MaxWithZero(TreeKeys(nodes)) >= 0
  {
    var keys := TreeKeys(nodes);
    var w := LevelsWrites(nodes, keys, MaxWithZero(keys));
    assert LayoutWrites(nodes, t, circleAt) == w;
    AscendingSorts(LevelSet(nodes));
    TreeIds(nodes, keys, MaxWithZero(keys));
    assert nodes[i] in nodes;
    LevelsWritesUniform(nodes, keys, MaxWithZero(keys), i);
    AssignUniform(w, nodes[i].id, TreePos(nodes, i, MaxWithZero(keys)));
    MaxWithZeroNonNegative(keys);
  }

  lemma {:induction false} MaxWithZeroNonNegative(keys: seq<int>)
    ensures MaxWithZero(keys) >= 0
  {
    if keys != [] {
      MaxWithZeroNonNegative(keys[..|keys| - 1]);
    }
  }

  /** Tree: with distinct ids, a node on a smaller level is drawn strictly higher. */
  lemma TreeLevelsOrdered(nodes: seq<Node>, t: DiagramType, circleAt: (nat, nat) -> Pos, i: nat, j: nat)
    requires t == BinaryTree || t == Tree
    requires DistinctIds(nodes) && i < |nodes| && j < |nodes|
    requires LevelOf(nodes[i]) < LevelOf(nodes[j])
    ensures nodes[i].id in Assign(LayoutWrites(nodes, t, circleAt))
    ensures nodes[j].id in Assign(LayoutWrites(nodes, t, circleAt))
    ensures Assign(LayoutWrites(nodes, t, circleAt))[nodes[i].id].y
          < Assign(LayoutWrites(nodes, t, circleAt))[nodes[j].id].y
  {
    TreePosition(nodes, t, circleAt, i);
    TreePosition(nodes, t, circleAt, j);
    RowYIncreasing(LevelOf(nodes[i]), LevelOf(nodes[j]), MaxWithZero(TreeKeys(nodes)));
  }

  /**
   * Tree: with distinct ids, nodes of one level keep input order left to
   * right, and a node alone on its level is centred at x = 300.
   */
  lemma TreeLevelOrder(nodes: seq<Node>, t: DiagramType, circleAt: (nat, nat) -> Pos, i: nat, j: nat)
    requires t == BinaryTree || t == Tree
    requires DistinctIds(nodes) && i < j < |nodes|
    requires LevelOf(nodes[i]) == LevelOf(nodes[j])
    ensures nodes[i].id in Assign(LayoutWrites(nodes, t, circleAt))
    ensures nodes[j].id in Assign(LayoutWrites(nodes, t, circleAt))
    ensures Assign(LayoutWrites(nodes, t, circleAt))[nodes[i].id].x
          < Assign(LayoutWrites(nodes, t, circleAt))[nodes[j].id].x
  {
    TreePosition(nodes, t, circleAt, i);
    TreePosition(nodes, t, circleAt, j);
    RankGrows(nodes, i, j);
    SlotXIncreasing(|NodesAt(nodes[..i], LevelOf(nodes[i]))|, |NodesAt(nodes[..j], LevelOf(nodes[i]))|,
      |NodesAt(nodes, LevelOf(nodes[i]))|);
  }

  lemma TreeLoneNodeCentred(nodes: seq<Node>, t: DiagramType, circleAt: (nat, nat) -> Pos, i: nat)
    requires t == BinaryTree || t == Tree
    requires DistinctIds(nodes) && i < |nodes|
    requires |NodesAt(nodes, LevelOf(nodes[i]))| == 1
    ensures nodes[i].id in Assign(LayoutWrites(nodes, t, circleAt))
    ensures Assign(LayoutWrites(nodes, t, circleAt))[nodes[i].id].x == 300.0
  {
    TreePosition(nodes, t, circleAt, i);
    RankGrows(nodes, i, |nodes|);
    assert nodes[..|nodes|] == nodes;
    assert |NodesAt(nodes[..i], LevelOf(nodes[i]))| == 0;
    LoneSlotCentred();
  }

  // ---------------------------------------------------------------------------
  // Edges

  /** Edges of these types get an arrowhead and a larger gap before the target. */
  predicate IsDirected(t: DiagramType) {
    t == Directed || t == Flowchart || t == LinkedList
  }

  /** The distance cut off before the target node. */
  function HeadOffset(t: DiagramType): real {
    NodeRadius + (if IsDirected(t) then ArrowGap else 0.0)
  }

  datatype Segment = Segment(start: Pos, end: Pos)

  /**
   * The drawn line of an edge between two centres `distance` apart
   * (`distance` is `Math.sqrt(dx * dx + dy * dy)`).
   */
  function TrimEdge(from: Pos, to: Pos, distance: real, t: DiagramType): Segment
    requires distance > 0.0
  {
    var dx := to.x - from.x;
    var dy := to.y - from.y;
    Segment(Pos(from.x + (dx / distance) * NodeRadius, from.y + (dy / distance) * NodeRadius),
            Pos(to.x - (dx / distance) * HeadOffset(t), to.y - (dy / distance) * HeadOffset(t)))
  }

  /** Where an edge's label is drawn: the middle of the drawn line, 8 units higher. */
  function LabelPos(s: Segment): Pos {
    Pos((s.start.x + s.end.x) / 2.0, (s.start.y + s.end.y) / 2.0 - 8.0)
  }

  /**
   * `{edge.label && <text …>}`: the text drawn beside an edge's line, and
   * where. A missing or empty label is falsy, so nothing is drawn.
   */
  function DrawnLabel(e: Edge, s: Segment): (r: Option<(Pos, string)>)
    ensures r.Some? <==> e.text.Some? && e.text.value != ""
    ensures r.Some? ==> r.value.0 == LabelPos(s) && r.value.1 == e.text.value
  {
    match e.text
    case Some(t) => if t != "" then Some((LabelPos(s), t)) else None
    case None => None
  }

  /** The point a fraction `f` of the way from `a` to `b`. */
  function Along(a: Pos, b: Pos, f: real): Pos {
    Pos(a.x + f * (b.x - a.x), a.y + f * (b.y - a.y))
  }

  /**
   * The drawn line starts one node radius along the centre line from the
   * source and stops one radius (plus the arrow gap for directed types)
   * short of the target: with `distance` the length of the centre line,
   * those are the fractions `25 / distance` and `1 - offset / distance`.
   */
  lemma TrimEdgeAlongLine(from: Pos, to: Pos, distance: real, t: DiagramType)
    requires distance > 0.0
    ensures TrimEdge(from, to, distance, t).start == Along(from, to, NodeRadius / distance)
    ensures TrimEdge(from, to, distance, t).end == Along(from, to, 1.0 - HeadOffset(t) / distance)
    ensures HeadOffset(t) == (if IsDirected(t) then 33.0 else 25.0)
  {
    var dx := to.x - from.x;
    var dy := to.y - from.y;
    DivSwap(dx, NodeRadius, distance);
    DivSwap(dy, NodeRadius, distance);
    DivSwap(dx, HeadOffset(t), distance);
    DivSwap(dy, HeadOffset(t), distance);
    var f := HeadOffset(t) / distance;
    OneMinus(f, dx);
    OneMinus(f, dy);
    assert to.x - f * dx == from.x + (1.0 - f) * dx;
    assert to.y - f * dy == from.y + (1.0 - f) * dy;
  }

  lemma OneMinus(f: real, d: real)
    ensures (1.0 - f) * d == d - f * d
  {
  }

  /**
   * The drawn line keeps the edge's direction exactly when the centres are
   * further apart than the two cut-offs together (50, or 58 with an arrow);
   * closer nodes get a line drawn backwards.
   */
  lemma TrimEdgeKeepsDirection(distance: real, t: DiagramType)
    requires distance > 0.0
    ensures NodeRadius / distance < 1.0 - HeadOffset(t) / distance <==> NodeRadius + HeadOffset(t) < distance
  {
    var r := NodeRadius;
    var h := HeadOffset(t);
    assert r / distance + h / distance == (r + h) / distance;
    assert ((r + h) / distance) * distance == r + h;
    if (r + h) / distance < 1.0 {
      MulLess((r + h) / distance, 1.0, distance);
    }
    if r + h < distance {
      DivBelowOne(r + h, distance);
    }
  }

  lemma DivSwap(a: real, r: real, d: real)
    requires d > 0.0
    ensures (a / d) * r == (r / d) * a
  {
  }

  lemma MulLess(a: real, b: real, d: real)
    requires d > 0.0 && a < b
    ensures a * d < b * d
  {
    assert b * d - a * d == (b - a) * d;
  }

  lemma DivBelowOne(a: real, d: real)
    requires d > 0.0 && a < d
    ensures a / d < 1.0
  {
  }

  /** The label sits halfway along the drawn line, raised by 8. */
  lemma LabelAtMidpoint(s: Segment)
    ensures LabelPos(s).x - s.start.x == s.end.x - LabelPos(s).x
    ensures (LabelPos(s).y + 8.0) - s.start.y == s.end.y - (LabelPos(s).y + 8.0)
  {
  }

  /** The edges that are drawn, with their endpoint centres: those whose both ends have a position. */
  function VisibleEdges(edges: seq<Edge>, positions: map<string, Pos>): (r: seq<(Edge, Pos, Pos)>)
    ensures |r| <= |edges|
    ensures forall k :: 0 <= k < |r| ==>
      && r[k].0 in edges
      && r[k].0.from in positions && r[k].0.to in positions
      && r[k].1 == positions[r[k].0.from] && r[k].2 == positions[r[k].0.to]
  {
    if edges == [] then []
    else
      var e := edges[0];
      var rest := VisibleEdges(edges[1..], positions);
      assert forall k :: 0 <= k < |rest| ==> rest[k].0 in edges by {
        forall k | 0 <= k < |rest| ensures rest[k].0 in edges {
          assert rest[k].0 in edges[1..];
        }
      }
      (if e.from in positions && e.to in positions then [(e, positions[e.from], positions[e.to])] else []) + rest
  }

  /** Skipping one edge never affects the others: the drawn list of a concatenation is the concatenation. */
  lemma {:induction false} VisibleEdgesAppend(a: seq<Edge>, b: seq<Edge>, positions: map<string, Pos>)
    ensures VisibleEdges(a + b, positions) == VisibleEdges(a, positions) + VisibleEdges(b, positions)
  {
    if a == [] {
      assert a + b == b;
    } else {
      assert (a + b)[0] == a[0];
      assert (a + b)[1..] == a[1..] + b;
      VisibleEdgesAppend(a[1..], b, positions);
    }
  }

  /** An edge is drawn exactly when both its ends have a position. */
  lemma {:induction false} VisibleEdgesComplete(edges: seq<Edge>, positions: map<string, Pos>, e: Edge)
    requires e in edges
    ensures (exists k :: 0 <= k < |VisibleEdges(edges, positions)| && VisibleEdges(edges, positions)[k].0 == e)
        <==> e.from in positions && e.to in positions
  {
    var r := VisibleEdges(edges, positions);
    if e.from in positions && e.to in positions {
      if edges[0] == e {
        assert r == [(e, positions[e.from], positions[e.to])] + VisibleEdges(edges[1..], positions);
        assert 0 < |r| && r[0].0 == e;
        assert VisibleEdges(edges, positions)[0].0 == e;
      } else {
        VisibleEdgesComplete(edges[1..], positions, e);
        var rest := VisibleEdges(edges[1..], positions);
        var k :| 0 <= k < |rest| && rest[k].0 == e;
        assert r[|r| - |rest| + k] == rest[k];
      }
    } else {
      forall k | 0 <= k < |r| ensures r[k].0 != e {
        assert r[k].0.from in positions && r[k].0.to in positions;
      }
    }
  }

  // ---------------------------------------------------------------------------
  // Text inside a node

  const Ellipsis: char := '\U{2026}'

  /** The label as shown in a node: at most 6 characters, then an ellipsis if cut. */
  function DisplayLabel(text: string): (r: string)
    ensures |r| <= 7
    ensures |text| <= 6 ==> r == text
    ensures |text| > 6 ==> |r| == 7 && r[..6] == text[..6] && r[6..] == [Ellipsis]
  {
    if |text| > 6 then text[..6] + [Ellipsis] else text
  }

  /**
   * The suffix as the component's text spells it: the three characters
   * that the UTF-8 bytes of `…` give when read as Windows-1252.
   */
  const WrittenEllipsis: string := "\U{00E2}\U{20AC}\U{00A6}"

  /** The truncation with the suffix as written. */
  function DisplayLabelAsWritten(text: string): (r: string)
    ensures |text| <= 6 ==> r == text
    ensures |text| > 6 ==> |r| == 9 && r[..6] == text[..6] && r[6..] == WrittenEllipsis
  {
    if |text| > 6 then text[..6] + WrittenEllipsis else text
  }

  /** With the suffix as written a cut label is nine characters long, not seven. */
  lemma AsWrittenLabelTooLong()
    ensures |DisplayLabelAsWritten("abcdefg")| == 9
    ensures DisplayLabelAsWritten("abcdefg") != DisplayLabel("abcdefg")
  {
    assert DisplayLabel("abcdefg")[6] == Ellipsis;
    assert |DisplayLabel("abcdefg")| == 7;
  }

  // ---------------------------------------------------------------------------
  // Title icon

  datatype Icon = BinaryIcon | ListIcon | ArrowIcon | NetworkIcon

  function TypeIcon(name: string): Icon {
    if name == "binary-tree" || name == "tree" then BinaryIcon
    else if name == "linked-list" then ListIcon
    else if name == "directed" || name == "flowchart" then ArrowIcon
    else NetworkIcon
  }

  /** Among the six diagram types only `graph` falls through to the generic icon; trees share one. */
  lemma TypeIcons(t: DiagramType)
    ensures TypeIcon(t.Name()) == NetworkIcon <==> t == Graph
    ensures TypeIcon(t.Name()) == BinaryIcon <==> t == BinaryTree || t == Tree
    ensures TypeIcon(t.Name()) == ArrowIcon <==> t == Directed || t == Flowchart
  {
  }

  // ---------------------------------------------------------------------------
  // Export rows

  /** `n.level ?? '-'`: only a missing level prints a dash. */
  function LevelCell(level: Option<int>): string {
    match level
    case Some(v) => NumberString(v)
    case None => "-"
  }

  /** `e.label || '-'`: a missing or empty label prints a dash. */
  function EdgeLabelCell(text: Option<string>): string {
    if text.Some? && text.value != "" then text.value else "-"
  }

  function NodeRow(n: Node): string {
    "<tr><td>" + n.id + "</td><td>" + n.text + "</td><td>" + LevelCell(n.level) + "</td></tr>"
  }

  function EdgeRow(e: Edge): string {
    "<tr><td>" + e.from + "</td><td>" + e.to + "</td><td>" + EdgeLabelCell(e.text) + "</td></tr>"
  }

  /** `diagram.nodes.map(...)`. */
  function NodeRowList(nodes: seq<Node>): seq<string> {
    if nodes == [] then [] else [NodeRow(nodes[0])] + NodeRowList(nodes[1..])
  }

  /** `diagram.edges.map(...)`. */
  function EdgeRowList(edges: seq<Edge>): seq<string> {
    if edges == [] then [] else [EdgeRow(edges[0])] + EdgeRowList(edges[1..])
  }

  /** The node table body: `diagram.nodes.map(...).join('')`. */
  function NodeRows(nodes: seq<Node>): string {
    Join(NodeRowList(nodes), "")
  }

  /** The edge table body: `diagram.edges.map(...).join('')`. */
  function EdgeRows(edges: seq<Edge>): string {
    Join(EdgeRowList(edges), "")
  }

  lemma {:induction false} JoinNoSeparatorAppend(a: seq<string>, b: seq<string>)
    ensures Join(a + b, "") == Join(a, "") + Join(b, "")
  {
    if b == [] {
      assert a + b == a;
    } else if a == [] {
      assert a + b == b;
    } else {
      var init := b[..|b| - 1];
      JoinNoSeparatorAppend(a, init);
      assert (a + b)[..|a + b| - 1] == a + init;
      if |b| == 1 {
        assert init == [];
      }
    }
  }

  /** One row per node, in input order: the rows of `[n] + rest` are n's row, then rest's. */
  lemma NodeRowsCons(n: Node, rest: seq<Node>)
    ensures NodeRows([n] + rest) == NodeRow(n) + NodeRows(rest)
  {
    assert ([n] + rest)[1..] == rest;
    JoinNoSeparatorAppend([NodeRow(n)], NodeRowList(rest));
  }

  /** One row per edge, in input order, including edges the drawing skips. */
  lemma EdgeRowsCons(e: Edge, rest: seq<Edge>)
    ensures EdgeRows([e] + rest) == EdgeRow(e) + EdgeRows(rest)
  {
    assert ([e] + rest)[1..] == rest;
    JoinNoSeparatorAppend([EdgeRow(e)], EdgeRowList(rest));
  }

  /** A present level, 0 included, never prints as the dash, and a non-negative one reads back as itself. */
  lemma LevelCellFaithful(level: Option<int>)
    ensures LevelCell(level) == "-" <==> level.None?
    ensures level == Some(0) ==> LevelCell(level) == "0"
    ensures level.Some? && level.value >= 0 ==> DigitsValue(LevelCell(level)) == level.value
  {
    if level.Some? && level.value >= 0 {
      DecimalNatRoundTrip(level.value);
    }
  }

  /** A label prints verbatim unless it is missing or empty. */
  lemma EdgeLabelCellFaithful(text: Option<string>)
    ensures text.Some? && text.value != "" ==> EdgeLabelCell(text) == text.value
    ensures text == None || text == Some("") ==> EdgeLabelCell(text) == "-"
  {
  }
}
