/**
 * The follower's A* planner over the tile grid. Nodes live in an arena
 * (`nodes: seq<Node>`) with the parent link stored as an arena index; the
 * open and closed lists hold arena indices. Nodes are only ever appended to
 * the arena and never updated, which is how the program behaves: its
 * "better f" branch rebinds a local and leaves the open entry as it was.
 */
module Planner {
  import opened Wrappers
  import opened Grid

  /** A search node: its cell, `g` steps from the start, heuristic `h`, `f = g + h`. */
  datatype Node = Node(x: int, y: int, g: int, h: int, f: int, parent: Option<nat>) {

    function Coords(): Cell
    {
      Cell(x, y)
    }

    /** `calc_scores`: Manhattan distance to the target as `h`, and `f = g + h`. */
    function CalcScores(target: Cell): Node
    {
      var h := Dist(Coords(), target);
      this.(h := h, f := g + h)
    }
  }

  /**
   * `Node(x, y, parent)`: a root has `g = 0`, a child one more than its
   * parent; `h` and `f` start at -1 until scores are computed.
   */
  function NewNode(c: Cell, parent: Option<nat>, nodes: seq<Node>): Node
    requires parent.Some? ==> parent.value < |nodes|
  {
    Node(c.x, c.y, if parent.None? then 0 else nodes[parent.value].g + 1, -1, -1, parent)
  }

  /** Every entry of `ids` is an index into the arena. */
  predicate IndicesIn(nodes: seq<Node>, ids: seq<nat>)
  {
    forall k :: 0 <= k < |ids| ==> ids[k] < |nodes|
  }

  /** The f-score of the node at position `k` of list `ids`. */
  function FAt(nodes: seq<Node>, ids: seq<nat>, k: nat): int
    requires IndicesIn(nodes, ids) && k < |ids|
  {
    nodes[ids[k]].f
  }

  /** The scan of `get_lowest_f` from position `i` on, `best` being the winner so far. */
  function LowestFFrom(nodes: seq<Node>, open: seq<nat>, i: nat, best: nat): (r: nat)
    requires IndicesIn(nodes, open) && best < i <= |open|
    requires forall j :: 0 <= j < i ==> FAt(nodes, open, best) <= FAt(nodes, open, j)
    requires forall j :: 0 <= j < best ==> FAt(nodes, open, j) > FAt(nodes, open, best)
    ensures r < |open|
    ensures forall j :: 0 <= j < |open| ==> FAt(nodes, open, r) <= FAt(nodes, open, j)
    ensures forall j :: 0 <= j < r ==> FAt(nodes, open, j) > FAt(nodes, open, r)
    decreases |open| - i
  {
    if i == |open| then best
    else LowestFFrom(nodes, open, i + 1, if FAt(nodes, open, i) < FAt(nodes, open, best) then i else best)
  }

  /**
   * `get_lowest_f`: the position of an open node of least `f`, the earliest
   * one on ties (the comparison is a strict `<`); nothing for an empty list.
   */
  function GetLowestF(nodes: seq<Node>, open: seq<nat>): (r: Option<nat>)
    requires IndicesIn(nodes, open)
    ensures r.None? <==> |open| == 0
    ensures r.Some? ==> r.value < |open|
    ensures r.Some? ==> forall j :: 0 <= j < |open| ==> FAt(nodes, open, r.value) <= FAt(nodes, open, j)
    ensures r.Some? ==> forall j :: 0 <= j < r.value ==> FAt(nodes, open, j) > FAt(nodes, open, r.value)
  {
    if |open| == 0 then None else Some(LowestFFrom(nodes, open, 1, 0))
  }

  /** `node_list_contains`: some node of the list sits on cell `c`. */
  function NodeListContains(nodes: seq<Node>, ids: seq<nat>, c: Cell): (r: bool)
    requires IndicesIn(nodes, ids)
    ensures r <==> exists k :: 0 <= k < |ids| && nodes[ids[k]].Coords() == c
  {
    if |ids| == 0 then false
    else nodes[ids[0]].Coords() == c || NodeListContains(nodes, ids[1..], c)
  }

  /** `get_node_by_coords`: the position of the first node of the list on cell `c`. */
  function GetNodeByCoords(nodes: seq<Node>, ids: seq<nat>, c: Cell): (r: Option<nat>)
    requires IndicesIn(nodes, ids)
    ensures r.Some? ==> r.value < |ids| && nodes[ids[r.value]].Coords() == c
    ensures r.Some? ==> forall k :: 0 <= k < r.value ==> nodes[ids[k]].Coords() != c
    ensures r.None? ==> forall k :: 0 <= k < |ids| ==> nodes[ids[k]].Coords() != c
  {
    if |ids| == 0 then None
    else if nodes[ids[0]].Coords() == c then Some(0)
    else match GetNodeByCoords(nodes, ids[1..], c)
      case None => None
      case Some(k) => Some(k + 1)
  }

  /** The children `get_walkable` makes of node `p` for the candidate cells `cs`, in order. */
  function WalkableAmong(tiles: map<Cell, int>, nodes: seq<Node>, p: nat, cs: seq<Cell>): seq<Node>
    requires p < |nodes|
  {
    if cs == [] then []
    else
      var rest := WalkableAmong(tiles, nodes, p, cs[..|cs| - 1]);
      var c := cs[|cs| - 1];
      if SolidAt(tiles, c) then rest else rest + [NewNode(c, Some(p), nodes)]
  }

  /** What `get_walkable` returns for node `p`: its non-solid neighbours up, left, right, down. */
  function Walkable(tiles: map<Cell, int>, nodes: seq<Node>, p: nat): seq<Node>
    requires p < |nodes|
  {
    WalkableAmong(tiles, nodes, p, Neighbours(nodes[p].Coords()))
  }

  lemma {:induction false} WalkableAmongFacts(tiles: map<Cell, int>, nodes: seq<Node>, p: nat, cs: seq<Cell>)
    requires p < |nodes|
    ensures var w := WalkableAmong(tiles, nodes, p, cs);
      && |w| <= |cs|
      && (forall t :: 0 <= t < |w| ==>
            && w[t].Coords() in cs && !SolidAt(tiles, w[t].Coords())
            && w[t].parent == Some(p) && w[t].g == nodes[p].g + 1)
      && (forall c :: c in cs && !SolidAt(tiles, c) ==> exists t :: 0 <= t < |w| && w[t].Coords() == c)
  {
    if cs != [] {
      var init := cs[..|cs| - 1];
      var last := cs[|cs| - 1];
      WalkableAmongFacts(tiles, nodes, p, init);
      assert cs == init + [last];
      var rest := WalkableAmong(tiles, nodes, p, init);
      var w := WalkableAmong(tiles, nodes, p, cs);
      forall c | c in cs && !SolidAt(tiles, c)
        ensures exists t :: 0 <= t < |w| && w[t].Coords() == c
      {
        if c == last {
          assert w[|rest|].Coords() == c;
        } else {
          assert c in init;
          var t :| 0 <= t < |rest| && rest[t].Coords() == c;
          assert w[t] == rest[t];
        }
      }
    }
  }

  /** The first position of `c` in `cs`, or `|cs|` when it does not occur. */
  function IndexIn(cs: seq<Cell>, c: Cell): (k: nat)
    ensures k <= |cs|
    ensures k < |cs| ==> cs[k] == c
    ensures forall i :: 0 <= i < k ==> cs[i] != c
  {
    if cs == [] then 0
    else if cs[0] == c then 0
    else 1 + IndexIn(cs[1..], c)
  }

  /** `IndexIn` finds the first occurrence. */
  lemma {:induction false} IndexInAt(cs: seq<Cell>, c: Cell, k: nat)
    requires k < |cs| && cs[k] == c && forall i :: 0 <= i < k ==> cs[i] != c
    ensures IndexIn(cs, c) == k
  {
    if k > 0 {
      IndexInAt(cs[1..], c, k - 1);
    }
  }

  /** The children come in the order of their candidate cells. */
  lemma {:induction false} WalkableAmongOrder(tiles: map<Cell, int>, nodes: seq<Node>, p: nat, cs: seq<Cell>)
    requires p < |nodes|
    requires forall i, j :: 0 <= i < j < |cs| ==> cs[i] != cs[j]
    ensures var w := WalkableAmong(tiles, nodes, p, cs);
      forall t1, t2 :: 0 <= t1 < t2 < |w| ==> IndexIn(cs, w[t1].Coords()) < IndexIn(cs, w[t2].Coords())
  {
    if cs != [] {
      var init := cs[..|cs| - 1];
      var last := cs[|cs| - 1];
      assert cs == init + [last];
      WalkableAmongOrder(tiles, nodes, p, init);
      WalkableAmongFacts(tiles, nodes, p, init);
      var rest := WalkableAmong(tiles, nodes, p, init);
      var w := WalkableAmong(tiles, nodes, p, cs);
      forall x | x in init
        ensures IndexIn(cs, x) == IndexIn(init, x) < |init|
      {
        IndexInAt(cs, x, IndexIn(init, x));
      }
      IndexInAt(cs, last, |init|);
      forall t1, t2 | 0 <= t1 < t2 < |w|
        ensures IndexIn(cs, w[t1].Coords()) < IndexIn(cs, w[t2].Coords())
      {
        assert w[t1] == rest[t1] && w[t1].Coords() in init;
        if t2 < |rest| {
          assert w[t2] == rest[t2] && w[t2].Coords() in init;
        } else {
          assert w[t2].Coords() == last;
        }
      }
    }
  }

  /**
   * At most four children, each on a non-solid cell adjacent to the parent,
   * each with the parent's index and `g` one more than the parent's; every
   * non-solid neighbour of the parent gets one, and the children come in the
   * order up, left, right, down.
   */
  lemma WalkableFacts(tiles: map<Cell, int>, nodes: seq<Node>, p: nat)
    requires p < |nodes|
    ensures var w := Walkable(tiles, nodes, p);
      && |w| <= 4
      && (forall t :: 0 <= t < |w| ==>
            && Adjacent(nodes[p].Coords(), w[t].Coords()) && !SolidAt(tiles, w[t].Coords())
            && w[t].parent == Some(p) && w[t].g == nodes[p].g + 1)
      && (forall c :: Adjacent(nodes[p].Coords(), c) && !SolidAt(tiles, c) ==>
            exists t :: 0 <= t < |w| && w[t].Coords() == c)
      && (forall t1, t2 :: 0 <= t1 < t2 < |w| ==>
            IndexIn(Neighbours(nodes[p].Coords()), w[t1].Coords())
            < IndexIn(Neighbours(nodes[p].Coords()), w[t2].Coords()))
  {
    WalkableAmongFacts(tiles, nodes, p, Neighbours(nodes[p].Coords()));
    WalkableAmongOrder(tiles, nodes, p, Neighbours(nodes[p].Coords()));
  }

  /** How many of the four candidates the scan of `get_walkable` has passed before `(i, j)`. */
  function Before(i: int, j: int): nat
  {
    if i < 0 then (if j > 0 then 1 else 0)
    else if i == 0 then 1 + (if j > -1 then 1 else 0) + (if j > 1 then 1 else 0)
    else if i == 1 then 3 + (if j > 0 then 1 else 0)
    else 4
  }

  /**
   * `get_walkable`: scan the offsets `i` (rows) and `j` (columns) in
   * -1..1, keep those with exactly one zero, and make a child for each
   * non-solid cell.
   */
  method GetWalkable(tiles: map<Cell, int>, nodes: seq<Node>, p: nat) returns (result: seq<Node>)
    requires p < |nodes|
    ensures result == Walkable(tiles, nodes, p)
  {
    var parent := nodes[p];
    ghost var cs := Neighbours(parent.Coords());
    result := [];
    for i := -1 to 2
      invariant result == WalkableAmong(tiles, nodes, p, cs[..Before(i, -1)])
    {
      for j := -1 to 2
        invariant result == WalkableAmong(tiles, nodes, p, cs[..Before(i, j)])
      {
        if (i == 0 || j == 0) && (i != 0 || j != 0) {
          var tx, ty := parent.x + j, parent.y + i;
          var solid := IsSolid(GetTile(tiles, Cell(tx, ty)));
          ghost var k := Before(i, j);
          assert k + 1 == Before(i, j + 1) && cs[k] == Cell(tx, ty);
          assert cs[..k + 1][..k] == cs[..k];
          if !solid {
            result := result + [NewNode(Cell(tx, ty), Some(p), nodes)];
          }
        }
      }
    }
    assert cs[..Before(2, -1)] == cs;
  }

  /** The cells of the arena's nodes. */
  ghost function ArenaCells(nodes: seq<Node>): set<Cell>
  {
    set i | 0 <= i < |nodes| :: nodes[i].Coords()
  }

  /** A child node as the search makes it: scored, adjacent to its parent, on a non-solid cell. */
  ghost predicate ChildOk(tiles: map<Cell, int>, nodes: seq<Node>, i: nat, goal: Cell)
    requires i < |nodes|
  {
    var n := nodes[i];
    && n.parent.Some? && n.parent.value < i
    && Adjacent(nodes[n.parent.value].Coords(), n.Coords())
    && n.g == nodes[n.parent.value].g + 1
    && n.h == Dist(n.Coords(), goal) && n.f == n.g + n.h
    && !SolidAt(tiles, n.Coords())
  }

  /**
   * The arena of a search from `start` to `goal`: the unscored root first,
   * then children whose parents come earlier, no two nodes on one cell.
   */
  ghost predicate Arena(tiles: map<Cell, int>, nodes: seq<Node>, start: Cell, goal: Cell)
  {
    && |nodes| > 0 && nodes[0] == Node(start.x, start.y, 0, -1, -1, None)
    && (forall i :: 0 < i < |nodes| ==> ChildOk(tiles, nodes, i, goal))
    && (forall i, j :: 0 <= i < j < |nodes| ==> nodes[i].Coords() != nodes[j].Coords())
  }

  /** Open and closed split the arena: each node is in exactly one, the open list has no repeats. */
  ghost predicate Partition(nodes: seq<Node>, open: seq<nat>, closed: seq<nat>)
  {
    && IndicesIn(nodes, open) && IndicesIn(nodes, closed)
    && (forall a, b :: 0 <= a < b < |open| ==> open[a] != open[b])
    && (forall i :: 0 <= i < |nodes| ==> (i in open <==> i !in closed))
  }

  /** Every non-solid neighbour of `c` has a node in the arena. */
  ghost predicate Known(tiles: map<Cell, int>, nodes: seq<Node>, c: Cell)
  {
    forall n :: n in Neighbours(c) && !SolidAt(tiles, n) ==> n in ArenaCells(nodes)
  }

  /** The first `m` closed nodes have been expanded. */
  ghost predicate ExpandedUpTo(tiles: map<Cell, int>, nodes: seq<Node>, closed: seq<nat>, m: int)
    requires IndicesIn(nodes, closed) && m <= |closed|
  {
    forall k :: 0 <= k < m ==> Known(tiles, nodes, nodes[closed[k]].Coords())
  }

  lemma InArena(nodes: seq<Node>, i: nat)
    requires i < |nodes|
    ensures nodes[i].Coords() in ArenaCells(nodes)
  {
  }

  lemma ArenaCellsAppend(nodes: seq<Node>, n: Node)
    ensures ArenaCells(nodes + [n]) == ArenaCells(nodes) + {n.Coords()}
  {
    var after := nodes + [n];
    forall c | c in ArenaCells(nodes) + {n.Coords()}
      ensures c in ArenaCells(after)
    {
      if c == n.Coords() {
        InArena(after, |nodes|);
      } else {
        var i :| 0 <= i < |nodes| && nodes[i].Coords() == c;
        InArena(after, i);
      }
    }
  }

  /** Distinct cells: the arena has exactly as many cells as nodes. */
  lemma {:induction false} ArenaCellsCount(nodes: seq<Node>)
    requires forall i, j :: 0 <= i < j < |nodes| ==> nodes[i].Coords() != nodes[j].Coords()
    ensures |ArenaCells(nodes)| == |nodes|
  {
    if nodes != [] {
      var init := nodes[..|nodes| - 1];
      var last := nodes[|nodes| - 1];
      ArenaCellsCount(init);
      assert nodes == init + [last];
      ArenaCellsAppend(init, last);
      assert last.Coords() !in ArenaCells(init);
    }
  }

  /** A search confined to `region` never holds more nodes than `region` has cells. */
  lemma ArenaBound(tiles: map<Cell, int>, nodes: seq<Node>, start: Cell, goal: Cell, region: set<Cell>)
    requires Arena(tiles, nodes, start, goal) && ArenaCells(nodes) <= region
    ensures |nodes| <= |region|
  {
    ArenaCellsCount(nodes);
    assert region == ArenaCells(nodes) + (region - ArenaCells(nodes));
  }

  lemma ContainedInArena(nodes: seq<Node>, ids: seq<nat>, c: Cell)
    requires IndicesIn(nodes, ids) && NodeListContains(nodes, ids, c)
    ensures c in ArenaCells(nodes)
  {
    var k :| 0 <= k < |ids| && nodes[ids[k]].Coords() == c;
    InArena(nodes, ids[k]);
  }

  /** Moving the open node at position `k` to the closed list keeps the split. */
  lemma PartitionMove(nodes: seq<Node>, open: seq<nat>, closed: seq<nat>, k: nat)
    requires Partition(nodes, open, closed) && k < |open|
    ensures Partition(nodes, open[..k] + open[k + 1..], closed + [open[k]])
  {
    var open' := open[..k] + open[k + 1..];
    assert forall a :: 0 <= a < |open'| ==> open'[a] == if a < k then open[a] else open[a + 1];
    forall i | 0 <= i < |nodes|
      ensures i in open' <==> i !in closed + [open[k]]
    {
      if i in open' {
        var a :| 0 <= a < |open'| && open'[a] == i;
        assert i == if a < k then open[a] else open[a + 1];
      }
      if i in open && i != open[k] {
        var a :| 0 <= a < |open| && open[a] == i;
        assert i == open'[if a < k then a else a - 1];
      }
    }
  }

  /** A new child on a cell no listed node occupies keeps every search invariant. */
  lemma AddChild(tiles: map<Cell, int>, nodes: seq<Node>, start: Cell, goal: Cell, region: set<Cell>,
                 open: seq<nat>, closed: seq<nat>, w: Node, current: nat)
    requires Arena(tiles, nodes, start, goal) && ArenaCells(nodes) <= region && ClosedUnder(tiles, region)
    requires Partition(nodes, open, closed) && current < |nodes|
    requires w.parent == Some(current) && w.g == nodes[current].g + 1
    requires w.h == Dist(w.Coords(), goal) && w.f == w.g + w.h
    requires Adjacent(nodes[current].Coords(), w.Coords()) && !SolidAt(tiles, w.Coords())
    requires !NodeListContains(nodes, closed, w.Coords()) && !NodeListContains(nodes, open, w.Coords())
    ensures Arena(tiles, nodes + [w], start, goal)
    ensures ArenaCells(nodes + [w]) == ArenaCells(nodes) + {w.Coords()}
    ensures ArenaCells(nodes + [w]) <= region && |nodes| + 1 <= |region|
    ensures Partition(nodes + [w], open + [|nodes|], closed)
  {
    var after := nodes + [w];
    FreshCell(nodes, open, closed, w.Coords());
    assert ChildOk(tiles, after, |nodes|, goal);
    assert forall i :: 0 < i < |nodes| ==> ChildOk(tiles, nodes, i, goal) ==> ChildOk(tiles, after, i, goal);
    ArenaCellsAppend(nodes, w);
    InArena(nodes, current);
    assert w.Coords() in Neighbours(nodes[current].Coords());
    ArenaBound(tiles, after, start, goal, region);
  }

  /** A cell that no open or closed node occupies has no node in the arena. */
  lemma FreshCell(nodes: seq<Node>, open: seq<nat>, closed: seq<nat>, c: Cell)
    requires Partition(nodes, open, closed)
    requires !NodeListContains(nodes, closed, c) && !NodeListContains(nodes, open, c)
    ensures forall i :: 0 <= i < |nodes| ==> nodes[i].Coords() != c
  {
    forall i | 0 <= i < |nodes|
      ensures nodes[i].Coords() != c
    {
      if i in open {
        var a :| 0 <= a < |open| && open[a] == i;
      } else {
        var a :| 0 <= a < |closed| && closed[a] == i;
      }
    }
  }

  lemma KnownGrows(tiles: map<Cell, int>, nodes: seq<Node>, closed: seq<nat>, m: int, w: Node)
    requires IndicesIn(nodes, closed) && m <= |closed|
    requires ExpandedUpTo(tiles, nodes, closed, m)
    ensures IndicesIn(nodes + [w], closed) && ExpandedUpTo(tiles, nodes + [w], closed, m)
  {
    ArenaCellsAppend(nodes, w);
    forall k | 0 <= k < m
      ensures Known(tiles, nodes + [w], (nodes + [w])[closed[k]].Coords())
    {
      assert (nodes + [w])[closed[k]] == nodes[closed[k]];
    }
  }

  /** With the open list empty, the arena is closed under steps and misses the goal. */
  lemma Exhausted(tiles: map<Cell, int>, nodes: seq<Node>, closed: seq<nat>, goal: Cell)
    requires Partition(nodes, [], closed) && ExpandedUpTo(tiles, nodes, closed, |closed|)
    requires forall k :: 0 <= k < |closed| ==> nodes[closed[k]].Coords() != goal
    ensures ClosedUnder(tiles, ArenaCells(nodes)) && goal !in ArenaCells(nodes)
  {
    forall c | c in ArenaCells(nodes)
      ensures Known(tiles, nodes, c) && c != goal
    {
      var i :| 0 <= i < |nodes| && nodes[i].Coords() == c;
      assert i in closed;
      var k :| 0 <= k < |closed| && closed[k] == i;
    }
  }

  /**
   * The state of the inner loop of `determine_path_to` once the children in
   * `done` have been offered: the arena has grown from `nodes0` by appending
   * only, each new node went onto the open list, and every offered cell has
   * a node.
   */
  ghost predicate Offered(tiles: map<Cell, int>, start: Cell, goal: Cell, region: set<Cell>,
                          nodes0: seq<Node>, open0: seq<nat>, closed: seq<nat>,
                          nodes: seq<Node>, open: seq<nat>, done: seq<Node>)
  {
    && |nodes0| <= |nodes| && nodes[..|nodes0|] == nodes0
    && |open| == |open0| + (|nodes| - |nodes0|)
    && open[..|open0|] == open0 && (forall u :: |open0| <= u < |open| ==> open[u] == |nodes0| + (u - |open0|))
    && Arena(tiles, nodes, start, goal) && ArenaCells(nodes) <= region
    && Partition(nodes, open, closed) && |closed| > 0
    && ExpandedUpTo(tiles, nodes, closed, |closed| - 1)
    && forall u :: 0 <= u < |done| ==> done[u].Coords() in ArenaCells(nodes)
  }

  /** A child on a cell that already has a node changes nothing. */
  lemma OfferSkip(tiles: map<Cell, int>, start: Cell, goal: Cell, region: set<Cell>,
                  nodes0: seq<Node>, open0: seq<nat>, closed: seq<nat>,
                  nodes: seq<Node>, open: seq<nat>, done: seq<Node>, w: Node)
    requires Offered(tiles, start, goal, region, nodes0, open0, closed, nodes, open, done)
    requires w.Coords() in ArenaCells(nodes)
    ensures Offered(tiles, start, goal, region, nodes0, open0, closed, nodes, open, done + [w])
  {
  }

  /** A child on a fresh cell is scored and appended to the arena and the open list. */
  lemma OfferAdd(tiles: map<Cell, int>, start: Cell, goal: Cell, region: set<Cell>,
                 nodes0: seq<Node>, open0: seq<nat>, closed: seq<nat>,
                 nodes: seq<Node>, open: seq<nat>, done: seq<Node>, w: Node, current: nat)
    requires Offered(tiles, start, goal, region, nodes0, open0, closed, nodes, open, done)
    requires ClosedUnder(tiles, region) && current < |nodes0|
    requires w.parent == Some(current) && w.g == nodes0[current].g + 1
    requires Adjacent(nodes0[current].Coords(), w.Coords()) && !SolidAt(tiles, w.Coords())
    requires !NodeListContains(nodes, closed, w.Coords()) && !NodeListContains(nodes, open, w.Coords())
    ensures Offered(tiles, start, goal, region, nodes0, open0, closed,
                    nodes + [w.CalcScores(goal)], open + [|nodes|], done + [w])
  {
    var scored := w.CalcScores(goal);
    assert nodes[current] == nodes0[current];
    AddChild(tiles, nodes, start, goal, region, open, closed, scored, current);
    KnownGrows(tiles, nodes, closed, |closed| - 1, scored);
    assert (nodes + [scored])[..|nodes0|] == nodes[..|nodes0|];
  }

  /**
   * The arena and open list once the inner loop of `determine_path_to` has
   * offered the children `ws` in order: a child on a cell already listed,
   * closed or open, changes nothing; any other is scored and appended to
   * the arena and to the end of the open list.
   */
  function Offering(nodes: seq<Node>, open: seq<nat>, closed: seq<nat>, ws: seq<Node>, goal: Cell)
    : (r: (seq<Node>, seq<nat>))
    requires IndicesIn(nodes, open) && IndicesIn(nodes, closed)
    ensures |nodes| <= |r.0| && r.0[..|nodes|] == nodes
    ensures IndicesIn(r.0, r.1) && IndicesIn(r.0, closed)
  {
    if ws == [] then (nodes, open)
    else
      var (n, o) := Offering(nodes, open, closed, ws[..|ws| - 1], goal);
      var w := ws[|ws| - 1];
      if NodeListContains(n, closed, w.Coords()) || NodeListContains(n, o, w.Coords()) then (n, o)
      else (n + [w.CalcScores(goal)], o + [|n|])
  }

  /** The nodes `Offering` appends are children from `ws`, scored. */
  lemma {:induction false} OfferingFrom(nodes: seq<Node>, open: seq<nat>, closed: seq<nat>, ws: seq<Node>, goal: Cell)
    requires IndicesIn(nodes, open) && IndicesIn(nodes, closed)
    ensures var r := Offering(nodes, open, closed, ws, goal);
      forall i :: |nodes| <= i < |r.0| ==> exists t :: 0 <= t < |ws| && r.0[i] == ws[t].CalcScores(goal)
  {
    if ws != [] {
      var init := ws[..|ws| - 1];
      OfferingFrom(nodes, open, closed, init, goal);
      assert var r := Offering(nodes, open, closed, init, goal);
        forall i :: |nodes| <= i < |r.0| ==> exists t :: 0 <= t < |init| && r.0[i] == init[t].CalcScores(goal);
      var prev := Offering(nodes, open, closed, init, goal);
      var r := Offering(nodes, open, closed, ws, goal);
      assert |r.0| <= |prev.0| + 1 && r.0[..|prev.0|] == prev.0;
      forall i | |nodes| <= i < |prev.0|
        ensures exists t :: 0 <= t < |ws| && r.0[i] == ws[t].CalcScores(goal)
      {
        var t :| 0 <= t < |init| && prev.0[i] == init[t].CalcScores(goal);
        assert r.0[i] == prev.0[i] && init[t] == ws[t];
      }
      if |r.0| > |prev.0| {
        assert r.0[|prev.0|] == ws[|ws| - 1].CalcScores(goal);
      }
    }
  }

  /**
   * `Offering` appends children in the order of `ws`: with the cells of `ws`
   * strictly increasing in `key`, so are the cells of the appended nodes.
   */
  lemma {:induction false} OfferingOrder(nodes: seq<Node>, open: seq<nat>, closed: seq<nat>, ws: seq<Node>,
                                         goal: Cell, key: Cell -> int)
    requires IndicesIn(nodes, open) && IndicesIn(nodes, closed)
    requires forall t1, t2 :: 0 <= t1 < t2 < |ws| ==> key(ws[t1].Coords()) < key(ws[t2].Coords())
    ensures var r := Offering(nodes, open, closed, ws, goal);
      forall i, j :: |nodes| <= i < j < |r.0| ==> key(r.0[i].Coords()) < key(r.0[j].Coords())
  {
    if ws != [] {
      var init := ws[..|ws| - 1];
      var w := ws[|ws| - 1];
      OfferingOrder(nodes, open, closed, init, goal, key);
      OfferingFrom(nodes, open, closed, init, goal);
      assert var r := Offering(nodes, open, closed, init, goal);
        forall i :: |nodes| <= i < |r.0| ==> exists t :: 0 <= t < |init| && r.0[i] == init[t].CalcScores(goal);
      assert var r := Offering(nodes, open, closed, init, goal);
        forall i, j :: |nodes| <= i < j < |r.0| ==> key(r.0[i].Coords()) < key(r.0[j].Coords());
      var prev := Offering(nodes, open, closed, init, goal);
      var r := Offering(nodes, open, closed, ws, goal);
      assert |r.0| <= |prev.0| + 1 && r.0[..|prev.0|] == prev.0;
      if |r.0| > |prev.0| {
        assert r.0[|prev.0|] == w.CalcScores(goal);
        forall i | |nodes| <= i < |prev.0|
          ensures key(r.0[i].Coords()) < key(r.0[|prev.0|].Coords())
        {
          var t :| 0 <= t < |init| && prev.0[i] == init[t].CalcScores(goal);
          assert init[t] == ws[t];
          assert key(r.0[i].Coords()) == key(ws[t].Coords()) < key(w.Coords());
        }
      }
    }
  }

  /** Offering one more child: the last step of `Offering`, spelled out. */
  lemma OfferingSnoc(nodes0: seq<Node>, open0: seq<nat>, closed: seq<nat>, done: seq<Node>, w: Node, goal: Cell)
    requires IndicesIn(nodes0, open0) && IndicesIn(nodes0, closed)
    ensures var prev := Offering(nodes0, open0, closed, done, goal);
      Offering(nodes0, open0, closed, done + [w], goal)
      == if NodeListContains(prev.0, closed, w.Coords()) || NodeListContains(prev.0, prev.1, w.Coords())
         then prev
         else (prev.0 + [w.CalcScores(goal)], prev.1 + [|prev.0|])
  {
    assert (done + [w])[..|done|] == done;
  }

  /** Offering a child whose cell already has a node changes nothing. */
  lemma OfferingKnown(nodes0: seq<Node>, open0: seq<nat>, closed: seq<nat>, done: seq<Node>, w: Node, goal: Cell,
                      nodes: seq<Node>, open: seq<nat>)
    requires IndicesIn(nodes0, open0) && IndicesIn(nodes0, closed)
    requires IndicesIn(nodes, open) && IndicesIn(nodes, closed)
    requires nodes == Offering(nodes0, open0, closed, done, goal).0
    requires open == Offering(nodes0, open0, closed, done, goal).1
    requires NodeListContains(nodes, closed, w.Coords()) || NodeListContains(nodes, open, w.Coords())
    ensures Offering(nodes0, open0, closed, done + [w], goal).0 == nodes
    ensures Offering(nodes0, open0, closed, done + [w], goal).1 == open
  {
    OfferingSnoc(nodes0, open0, closed, done, w, goal);
  }

  /** Offering a child on a cell with no node appends it, scored, to the arena and the open list. */
  lemma OfferingFresh(nodes0: seq<Node>, open0: seq<nat>, closed: seq<nat>, done: seq<Node>, w: Node, goal: Cell,
                      nodes: seq<Node>, open: seq<nat>)
    requires IndicesIn(nodes0, open0) && IndicesIn(nodes0, closed)
    requires IndicesIn(nodes, open) && IndicesIn(nodes, closed)
    requires nodes == Offering(nodes0, open0, closed, done, goal).0
    requires open == Offering(nodes0, open0, closed, done, goal).1
    requires !NodeListContains(nodes, closed, w.Coords()) && !NodeListContains(nodes, open, w.Coords())
    ensures Offering(nodes0, open0, closed, done + [w], goal).0 == nodes + [w.CalcScores(goal)]
    ensures Offering(nodes0, open0, closed, done + [w], goal).1 == open + [|nodes|]
  {
    OfferingSnoc(nodes0, open0, closed, done, w, goal);
    var prev := Offering(nodes0, open0, closed, done, goal);
    assert !NodeListContains(prev.0, closed, w.Coords()) && !NodeListContains(prev.0, prev.1, w.Coords());
    assert Offering(nodes0, open0, closed, done + [w], goal) == (prev.0 + [w.CalcScores(goal)], prev.1 + [|prev.0|]);
  }

  /** The first `t + 1` elements are the first `t` and then the next one. */
  lemma TakeNext(ws: seq<Node>, t: nat)
    requires t < |ws|
    ensures ws[..t + 1] == ws[..t] + [ws[t]]
  {
  }

  /**
   * One pass of the inner loop of `determine_path_to`, for child `walkable`
   * of `current`: a cell already closed is skipped; a cell not yet open gets
   * the scored child appended; a cell already open keeps its entry,
   * whatever the new `f`.
   */
  method Offer(tiles: map<Cell, int>, start: Cell, goal: Cell, ghost region: set<Cell>,
               ghost nodes0: seq<Node>, ghost open0: seq<nat>, closed: seq<nat>,
               nodes: seq<Node>, open: seq<nat>, ghost done: seq<Node>, walkable: Node, current: nat)
    returns (nodes': seq<Node>, open': seq<nat>)
    requires Offered(tiles, start, goal, region, nodes0, open0, closed, nodes, open, done)
    requires ClosedUnder(tiles, region) && current < |nodes0|
    requires walkable.parent == Some(current) && walkable.g == nodes0[current].g + 1
    requires Adjacent(nodes0[current].Coords(), walkable.Coords()) && !SolidAt(tiles, walkable.Coords())
    requires IndicesIn(nodes0, open0) && IndicesIn(nodes0, closed)
    requires nodes == Offering(nodes0, open0, closed, done, goal).0
    requires open == Offering(nodes0, open0, closed, done, goal).1
    ensures Offered(tiles, start, goal, region, nodes0, open0, closed, nodes', open', done + [walkable])
    ensures nodes' == Offering(nodes0, open0, closed, done + [walkable], goal).0
    ensures open' == Offering(nodes0, open0, closed, done + [walkable], goal).1
    ensures NodeListContains(nodes, closed, walkable.Coords()) || NodeListContains(nodes, open, walkable.Coords()) ==>
      nodes' == nodes && open' == open
    ensures !NodeListContains(nodes, closed, walkable.Coords()) && !NodeListContains(nodes, open, walkable.Coords()) ==>
      nodes' == nodes + [walkable.CalcScores(goal)] && open' == open + [|nodes|]
  {
    nodes', open' := nodes, open;
    if NodeListContains(nodes, closed, walkable.Coords()) {
      OfferingKnown(nodes0, open0, closed, done, walkable, goal, nodes, open);
      ContainedInArena(nodes, closed, walkable.Coords());
      OfferSkip(tiles, start, goal, region, nodes0, open0, closed, nodes, open, done, walkable);
      return;
    }
    if !NodeListContains(nodes, open, walkable.Coords()) {
      OfferingFresh(nodes0, open0, closed, done, walkable, goal, nodes, open);
      OfferAdd(tiles, start, goal, region, nodes0, open0, closed, nodes, open, done, walkable, current);
      var scored := walkable.CalcScores(goal);
      nodes' := nodes + [scored];
      open' := open + [|nodes|];
    } else {
      OfferingKnown(nodes0, open0, closed, done, walkable, goal, nodes, open);
      ContainedInArena(nodes, open, walkable.Coords());
      OfferSkip(tiles, start, goal, region, nodes0, open0, closed, nodes, open, done, walkable);
      var scored := walkable.CalcScores(goal);
      var pos := GetNodeByCoords(nodes, open, scored.Coords()).value;
      var preexisting := nodes[open[pos]];
      if scored.f < preexisting.f {
        // Only the local is rebound: the open entry keeps its scores and parent.
        preexisting := scored;
      }
    }
  }

  /**
   * The inner loop of `determine_path_to`: offer each walkable child of
   * `current` (the node just closed) to the open list.
   */
  method Expand(tiles: map<Cell, int>, start: Cell, goal: Cell, ghost region: set<Cell>,
                nodes0: seq<Node>, open0: seq<nat>, closed: seq<nat>, current: nat)
    returns (nodes: seq<Node>, open: seq<nat>)
    requires Arena(tiles, nodes0, start, goal) && ArenaCells(nodes0) <= region && ClosedUnder(tiles, region)
    requires Partition(nodes0, open0, closed) && |closed| > 0 && closed[|closed| - 1] == current
    requires ExpandedUpTo(tiles, nodes0, closed, |closed| - 1)
    ensures |nodes0| <= |nodes| && nodes[..|nodes0|] == nodes0
    ensures |open| == |open0| + (|nodes| - |nodes0|)
    ensures open[..|open0|] == open0 && forall u :: |open0| <= u < |open| ==> open[u] == |nodes0| + (u - |open0|)
    ensures Arena(tiles, nodes, start, goal) && ArenaCells(nodes) <= region && |nodes| <= |region|
    ensures Partition(nodes, open, closed)
    ensures ExpandedUpTo(tiles, nodes, closed, |closed|)
    ensures (nodes, open) == Offering(nodes0, open0, closed, Walkable(tiles, nodes0, current), goal)
    ensures forall i :: |nodes0| <= i < |nodes| ==>
      && nodes[i].parent == Some(current) && nodes[i].g == nodes0[current].g + 1
      && nodes[i].h == Dist(nodes[i].Coords(), goal) && nodes[i].f == nodes[i].g + nodes[i].h
    ensures forall i, j :: |nodes0| <= i < j < |nodes| ==>
      IndexIn(Neighbours(nodes0[current].Coords()), nodes[i].Coords())
      < IndexIn(Neighbours(nodes0[current].Coords()), nodes[j].Coords())
  {
    nodes, open := nodes0, open0;
    var walkables := GetWalkable(tiles, nodes, current);
    assert forall t :: 0 <= t < |walkables| ==>
      && Adjacent(nodes0[current].Coords(), walkables[t].Coords()) && !SolidAt(tiles, walkables[t].Coords())
      && walkables[t].parent == Some(current) && walkables[t].g == nodes0[current].g + 1
    by {
      WalkableFacts(tiles, nodes0, current);
    }
    assert walkables[..0] == [];
    for t := 0 to |walkables|
      invariant Offered(tiles, start, goal, region, nodes0, open0, closed, nodes, open, walkables[..t])
      invariant nodes == Offering(nodes0, open0, closed, walkables[..t], goal).0
      invariant open == Offering(nodes0, open0, closed, walkables[..t], goal).1
    {
      TakeNext(walkables, t);
      nodes, open := Offer(tiles, start, goal, region, nodes0, open0, closed, nodes, open, walkables[..t],
                           walkables[t], current);
    }
    assert walkables[..|walkables|] == walkables;
    ExpandDone(tiles, start, goal, region, nodes0, open0, closed, nodes, open, walkables, current);
    ExpandChildren(tiles, nodes0, open0, closed, current, goal, nodes);
  }

  /**
   * The nodes one expansion appends are children of the node expanded, one
   * step further from the start, scored, in the order up, left, right, down.
   */
  lemma ExpandChildren(tiles: map<Cell, int>, nodes0: seq<Node>, open0: seq<nat>, closed: seq<nat>,
                       current: nat, goal: Cell, nodes: seq<Node>)
    requires IndicesIn(nodes0, open0) && IndicesIn(nodes0, closed) && current < |nodes0|
    requires nodes == Offering(nodes0, open0, closed, Walkable(tiles, nodes0, current), goal).0
    ensures forall i :: |nodes0| <= i < |nodes| ==>
      && nodes[i].parent == Some(current) && nodes[i].g == nodes0[current].g + 1
      && nodes[i].h == Dist(nodes[i].Coords(), goal) && nodes[i].f == nodes[i].g + nodes[i].h
    ensures forall i, j :: |nodes0| <= i < j < |nodes| ==>
      IndexIn(Neighbours(nodes0[current].Coords()), nodes[i].Coords())
      < IndexIn(Neighbours(nodes0[current].Coords()), nodes[j].Coords())
  {
    var ws := Walkable(tiles, nodes0, current);
    WalkableFacts(tiles, nodes0, current);
    OfferingFrom(nodes0, open0, closed, ws, goal);
    var cs := Neighbours(nodes0[current].Coords());
    OfferingOrder(nodes0, open0, closed, ws, goal, c => IndexIn(cs, c));
  }

  /** Once every walkable child is offered, the node just closed counts as expanded. */
  lemma ExpandDone(tiles: map<Cell, int>, start: Cell, goal: Cell, region: set<Cell>,
                   nodes0: seq<Node>, open0: seq<nat>, closed: seq<nat>,
                   nodes: seq<Node>, open: seq<nat>, walkables: seq<Node>, current: nat)
    requires current < |nodes0| && walkables == Walkable(tiles, nodes0, current)
    requires |closed| > 0 && closed[|closed| - 1] == current
    requires Offered(tiles, start, goal, region, nodes0, open0, closed, nodes, open, walkables[..|walkables|])
    ensures |nodes0| <= |nodes| && nodes[..|nodes0|] == nodes0
    ensures |open| == |open0| + (|nodes| - |nodes0|)
    ensures open[..|open0|] == open0 && forall u :: |open0| <= u < |open| ==> open[u] == |nodes0| + (u - |open0|)
    ensures Arena(tiles, nodes, start, goal) && ArenaCells(nodes) <= region && |nodes| <= |region|
    ensures Partition(nodes, open, closed)
    ensures ExpandedUpTo(tiles, nodes, closed, |closed|)
  {
    WalkableFacts(tiles, nodes0, current);
    assert nodes[current] == nodes0[current];
    forall n | n in Neighbours(nodes0[current].Coords()) && !SolidAt(tiles, n)
      ensures n in ArenaCells(nodes)
    {
      var t :| 0 <= t < |walkables| && walkables[t].Coords() == n;
      assert walkables[..|walkables|][t] == walkables[t];
    }
    ArenaBound(tiles, nodes, start, goal, region);
  }

  /** Arena indices in strictly increasing order, that is, in order of creation. */
  predicate Ascending(ids: seq<nat>)
  {
    forall a, b :: 0 <= a < b < |ids| ==> ids[a] < ids[b]
  }

  /** Removing one entry keeps the rest in creation order. */
  lemma AscendingRemove(ids: seq<nat>, k: nat)
    requires Ascending(ids) && k < |ids|
    ensures Ascending(ids[..k] + ids[k + 1..])
  {
    var rest := ids[..k] + ids[k + 1..];
    assert forall a :: 0 <= a < |rest| ==> rest[a] == if a < k then ids[a] else ids[a + 1];
  }

  /** Appending the new nodes `n`, `n + 1`, ... after older entries keeps creation order. */
  lemma AscendingAppendNew(mid: seq<nat>, ids: seq<nat>, n: nat)
    requires Ascending(mid) && (forall a :: 0 <= a < |mid| ==> mid[a] < n)
    requires |mid| <= |ids| && ids[..|mid|] == mid
    requires forall u :: |mid| <= u < |ids| ==> ids[u] == n + (u - |mid|)
    ensures Ascending(ids)
  {
    forall a, b | 0 <= a < b < |ids|
      ensures ids[a] < ids[b]
    {
      if b < |mid| {
        assert ids[a] == mid[a] && ids[b] == mid[b];
      } else if a < |mid| {
        assert ids[a] == mid[a];
      }
    }
  }

  /**
   * With the open list in creation order, the entry `get_lowest_f` picks is
   * the oldest of those with the least `f`.
   */
  lemma LowestIsOldest(nodes: seq<Node>, open: seq<nat>)
    requires IndicesIn(nodes, open) && Ascending(open) && |open| > 0
    ensures var k := GetLowestF(nodes, open).value;
      forall j :: 0 <= j < |open| && FAt(nodes, open, j) == FAt(nodes, open, k) ==> open[k] <= open[j]
  {
  }

  /**
   * The invariant of the search loop: a sound arena inside the region, split
   * by the open and closed lists, the open list in creation order, every
   * closed node expanded and none on the goal.
   */
  ghost predicate Searching(tiles: map<Cell, int>, start: Cell, goal: Cell, region: set<Cell>,
                            nodes: seq<Node>, open: seq<nat>, closed: seq<nat>)
  {
    && Arena(tiles, nodes, start, goal) && ArenaCells(nodes) <= region && |nodes| <= |region|
    && Partition(nodes, open, closed) && Ascending(open)
    && ExpandedUpTo(tiles, nodes, closed, |closed|)
    && forall k :: 0 <= k < |closed| ==> nodes[closed[k]].Coords() != goal
  }

  /** The search starts with the root alone on the open list. */
  lemma SearchBegins(tiles: map<Cell, int>, start: Cell, goal: Cell, region: set<Cell>)
    requires start in region
    ensures Searching(tiles, start, goal, region, [NewNode(start, None, [])], [0], [])
  {
    var nodes := [NewNode(start, None, [])];
    assert forall c :: c in ArenaCells(nodes) ==> c == start;
    ArenaBound(tiles, nodes, start, goal, region);
  }

  /**
   * Moving the selected open entry to the closed list: every closed node
   * but the new one is expanded and off the goal.
   */
  lemma CloseSelected(tiles: map<Cell, int>, start: Cell, goal: Cell, region: set<Cell>,
                      nodes: seq<Node>, open: seq<nat>, closed: seq<nat>, k: nat)
    requires Searching(tiles, start, goal, region, nodes, open, closed) && k < |open|
    ensures open[k] < |nodes|
    ensures Partition(nodes, open[..k] + open[k + 1..], closed + [open[k]])
    ensures Ascending(open[..k] + open[k + 1..])
    ensures ExpandedUpTo(tiles, nodes, closed + [open[k]], |closed|)
    ensures forall j :: 0 <= j < |closed| ==> nodes[(closed + [open[k]])[j]].Coords() != goal
  {
    PartitionMove(nodes, open, closed, k);
    AscendingRemove(open, k);
  }

  /** When the closed list holds the goal, it is the node just closed. */
  lemma GoalJustClosed(nodes: seq<Node>, closed: seq<nat>, goal: Cell)
    requires IndicesIn(nodes, closed) && |closed| > 0
    requires forall j :: 0 <= j < |closed| - 1 ==> nodes[closed[j]].Coords() != goal
    requires NodeListContains(nodes, closed, goal)
    ensures nodes[closed[|closed| - 1]].Coords() == goal
  {
  }

  /** After expanding a node that is not the goal, the loop invariant holds again. */
  lemma SearchStep(tiles: map<Cell, int>, start: Cell, goal: Cell, region: set<Cell>,
                   before: seq<Node>, mid: seq<nat>, nodes: seq<Node>, open: seq<nat>, closed: seq<nat>)
    requires Arena(tiles, nodes, start, goal) && ArenaCells(nodes) <= region && |nodes| <= |region|
    requires Partition(nodes, open, closed) && ExpandedUpTo(tiles, nodes, closed, |closed|)
    requires |before| <= |nodes| && nodes[..|before|] == before
    requires IndicesIn(before, closed) && !NodeListContains(before, closed, goal)
    requires IndicesIn(before, mid) && Ascending(mid)
    requires |mid| <= |open| && open[..|mid|] == mid
    requires forall u :: |mid| <= u < |open| ==> open[u] == |before| + (u - |mid|)
    ensures Searching(tiles, start, goal, region, nodes, open, closed)
  {
    AscendingAppendNew(mid, open, |before|);
    assert forall k :: 0 <= k < |closed| ==> nodes[closed[k]] == before[closed[k]];
  }

  /**
   * `determine_path_to`, the search itself: best-first from `start` by
   * least `f`, ties to the earliest open node, neighbours up, left, right,
   * down; a neighbour already open is never updated. `region` is a finite
   * set of cells around `start` that no step through a non-solid cell
   * leaves; the program needs none, and it also stops whenever the goal
   * is reachable, a case this method does not cover.
   * `found` is the arena index of the node that reached `goal`, if any.
   */
  method Search(tiles: map<Cell, int>, start: Cell, goal: Cell, ghost region: set<Cell>)
    returns (found: Option<nat>, nodes: seq<Node>)
    requires start in region && ClosedUnder(tiles, region)
    ensures Arena(tiles, nodes, start, goal) && ArenaCells(nodes) <= region
    ensures found.Some? ==> found.value < |nodes| && nodes[found.value].Coords() == goal
    ensures found.None? ==> ClosedUnder(tiles, ArenaCells(nodes)) && start in ArenaCells(nodes)
    ensures found.None? ==> goal !in ArenaCells(nodes)
  {
    nodes := [NewNode(start, None, [])];
    var open: seq<nat> := [0];
    var closed: seq<nat> := [];
    found := None;
    SearchBegins(tiles, start, goal, region);
    while |open| != 0
      invariant Searching(tiles, start, goal, region, nodes, open, closed)
      invariant found.None?
      decreases |region| - |nodes|, |open|
    {
      var k := GetLowestF(nodes, open).value;
      var current := open[k];
      CloseSelected(tiles, start, goal, region, nodes, open, closed, k);
      closed := closed + [current];
      open := open[..k] + open[k + 1..];
      if NodeListContains(nodes, closed, goal) {
        GoalJustClosed(nodes, closed, goal);
        found := Some(current);
        break;
      }
      ghost var before, mid := nodes, open;
      nodes, open := Expand(tiles, start, goal, region, nodes, open, closed, current);
      SearchStep(tiles, start, goal, region, before, mid, nodes, open, closed);
    }
    InArena(nodes, 0);
    if found.None? {
      Exhausted(tiles, nodes, closed, goal);
    }
  }

  /** Every parent link points to an earlier node, so following links ends at a root. */
  ghost predicate ParentsBefore(nodes: seq<Node>)
  {
    forall i :: 0 <= i < |nodes| && nodes[i].parent.Some? ==> nodes[i].parent.value < i
  }

  lemma ArenaParentsBefore(tiles: map<Cell, int>, nodes: seq<Node>, start: Cell, goal: Cell)
    requires Arena(tiles, nodes, start, goal)
    ensures ParentsBefore(nodes)
  {
    forall i | 0 <= i < |nodes| && nodes[i].parent.Some?
      ensures nodes[i].parent.value < i
    {
      assert i != 0;
      assert ChildOk(tiles, nodes, i, goal);
    }
  }

  /**
   * What `backtrace_path` collects from node `i`: its cell, its parent's, and
   * so on, stopping before the root.
   */
  ghost function Trace(nodes: seq<Node>, i: nat): seq<Cell>
    requires ParentsBefore(nodes) && i < |nodes|
    decreases i
  {
    match nodes[i].parent
    case None => []
    case Some(p) => [nodes[i].Coords()] + Trace(nodes, p)
  }

  /**
   * A plan from `start` to `goal` as the follower stores it: goal first, each
   * cell a step from the next, the last a step from `start`, `start` itself
   * left out, every cell non-solid; empty exactly when `start == goal`.
   */
  ghost predicate IsPlan(tiles: map<Cell, int>, start: Cell, goal: Cell, path: seq<Cell>)
  {
    && (|path| == 0 <==> start == goal)
    && (|path| > 0 ==> path[0] == goal && Adjacent(path[|path| - 1], start))
    && (forall k :: 0 < k < |path| ==> Adjacent(path[k - 1], path[k]))
    && (forall k :: 0 <= k < |path| ==> !SolidAt(tiles, path[k]) && path[k] != start)
  }

  /**
   * The trace of any node of a search arena is a plan to that node's cell,
   * as long as the node's `g`, and runs through arena cells only.
   */
  lemma {:induction false} TraceIsPlan(tiles: map<Cell, int>, nodes: seq<Node>, start: Cell, goal: Cell, i: nat)
    requires Arena(tiles, nodes, start, goal) && i < |nodes|
    ensures ParentsBefore(nodes)
    ensures IsPlan(tiles, start, nodes[i].Coords(), Trace(nodes, i))
    ensures |Trace(nodes, i)| == nodes[i].g
    ensures forall c :: c in Trace(nodes, i) ==> c in ArenaCells(nodes)
  {
    ArenaParentsBefore(tiles, nodes, start, goal);
    if i > 0 {
      assert ChildOk(tiles, nodes, i, goal);
      var p := nodes[i].parent.value;
      TraceIsPlan(tiles, nodes, start, goal, p);
      var rest := Trace(nodes, p);
      var here := nodes[i].Coords();
      assert Trace(nodes, i) == [here] + rest;
      assert here != start by {
        assert nodes[0].Coords() == start;
      }
      DistSymmetric(nodes[p].Coords(), here);
      InArena(nodes, i);
    }
  }

  /** Dropping the goal from a plan of two or more cells leaves a plan to the next cell. */
  lemma PlanTail(tiles: map<Cell, int>, start: Cell, goal: Cell, path: seq<Cell>)
    requires IsPlan(tiles, start, goal, path) && |path| >= 2
    ensures IsPlan(tiles, start, path[1], path[1..])
  {
  }

  /** No plan is shorter than the Manhattan distance between its ends. */
  lemma {:induction false} PlanAtLeastDist(tiles: map<Cell, int>, start: Cell, goal: Cell, path: seq<Cell>)
    requires IsPlan(tiles, start, goal, path)
    ensures |path| >= Dist(start, goal)
    decreases |path|
  {
    if |path| == 1 {
      DistSymmetric(goal, start);
    } else if |path| >= 2 {
      PlanTail(tiles, start, goal, path);
      PlanAtLeastDist(tiles, start, path[1], path[1..]);
      DistTriangle(start, path[1], goal);
      DistSymmetric(path[0], path[1]);
    }
  }

  /** A plan from inside a set closed under steps never leaves it. */
  lemma {:induction false} PlanStaysIn(tiles: map<Cell, int>, s: set<Cell>, start: Cell, goal: Cell, path: seq<Cell>)
    requires IsPlan(tiles, start, goal, path) && ClosedUnder(tiles, s) && start in s
    ensures forall k :: 0 <= k < |path| ==> path[k] in s
    decreases |path|
  {
    if |path| == 1 {
      DistSymmetric(path[0], start);
      assert path[0] in Neighbours(start);
    } else if |path| >= 2 {
      PlanTail(tiles, start, goal, path);
      PlanStaysIn(tiles, s, start, path[1], path[1..]);
      assert path[1] in s;
      DistSymmetric(path[0], path[1]);
      assert path[0] in Neighbours(path[1]);
      forall k | 0 <= k < |path|
        ensures path[k] in s
      {
        if k > 0 {
          assert path[k] == path[1..][k - 1];
        }
      }
    }
  }

  /**
   * When a search runs out of open nodes, what it reached contains the start,
   * is closed under steps and misses the goal: then no plan to the goal exists.
   */
  lemma NoPlanOutside(tiles: map<Cell, int>, s: set<Cell>, start: Cell, goal: Cell, path: seq<Cell>)
    requires ClosedUnder(tiles, s) && start in s && goal !in s
    ensures !IsPlan(tiles, start, goal, path)
  {
    if IsPlan(tiles, start, goal, path) {
      PlanStaysIn(tiles, s, start, goal, path);
    }
  }
}
