/** Insertion into the nested-set page tree (`nestedset.Create`, called at
    spaces/service.go:83 and :280). The library that implements it is not
    part of this model, so this module states an ASSUMED algorithm, the
    textbook one: a root is placed to the right of every interval of its
    space; a child takes the two positions starting at the parent's `rgt`
    after every later endpoint of that space has moved right by two. The
    lemmas show that this assumption keeps the intervals of each space
    properly nested, which is what the ancestor query relies on. */
module NestedSet {
  import opened PageModel

  /** Two nodes are unrelated by space, or their intervals are disjoint, or
      one lies strictly inside the other. */
  predicate Compatible(a: Node, b: Node) {
    a.spaceId != b.spaceId || a.rgt < b.lft || b.rgt < a.lft || Encloses(a, b) || Encloses(b, a)
  }

  /** Every interval is non-empty, and within a space any two intervals are
      disjoint or strictly nested, so no two nodes of a space share an
      endpoint. */
  predicate Laminar(nodes: seq<Node>) {
    (forall i | 0 <= i < |nodes| :: nodes[i].lft < nodes[i].rgt)
    && forall i, j | 0 <= i < |nodes| && 0 <= j < |nodes| && i != j :: Compatible(nodes[i], nodes[j])
  }

  /** The largest `rgt` among the nodes of `spaceId`, or 0 when it has none. */
  function MaxRgt(nodes: seq<Node>, spaceId: int): (m: int)
    ensures m >= 0
    ensures forall i | 0 <= i < |nodes| && nodes[i].spaceId == spaceId :: nodes[i].rgt <= m
    ensures m == 0 || exists i | 0 <= i < |nodes| :: nodes[i].spaceId == spaceId && nodes[i].rgt == m
  {
    if nodes == [] then 0
    else
      var rest := MaxRgt(nodes[..|nodes| - 1], spaceId);
      var last := nodes[|nodes| - 1];
      assert forall i | 0 <= i < |nodes| - 1 :: nodes[..|nodes| - 1][i] == nodes[i];
      if last.spaceId == spaceId && last.rgt > rest then last.rgt else rest
  }

  /** Assumed `nestedset.Create(tx, page, nil)`: appends a root row of
      `spaceId` with the next id, depth 0 and an interval to the right of
      every interval of its space. The nullable parent id is stored as
      given. */
  function InsertRoot(nodes: seq<Node>, spaceId: int, parentId: int, parentValid: bool): (r: seq<Node>)
    ensures |r| == |nodes| + 1 && r[..|nodes|] == nodes
    ensures var n := r[|nodes|];
            && n.id == |nodes| + 1 && n.parentId == parentId && n.parentValid == parentValid && n.spaceId == spaceId
            && n.depth == 0 && n.childrenCount == 0 && n.lft + 1 == n.rgt && n.lft >= 1
            && forall i | 0 <= i < |nodes| && nodes[i].spaceId == spaceId :: nodes[i].rgt < n.lft
  {
    var m := MaxRgt(nodes, spaceId);
    nodes + [Node(|nodes| + 1, parentId, parentValid, m + 1, m + 2, 0, 0, spaceId)]
  }

  /** Moves an endpoint at or after `at` two places right. */
  function Moved(x: int, at: int): int {
    if x >= at then x + 2 else x
  }

  /** The update a child insertion applies to one existing row of the
      parent's table: inside the scope, `rgt >= at` and `lft > at` move
      right by two. */
  function Shift(n: Node, spaceId: int, at: int): Node {
    if n.spaceId != spaceId then n
    else n.(lft := if n.lft > at then n.lft + 2 else n.lft, rgt := Moved(n.rgt, at))
  }

  /** Assumed `nestedset.Create(tx, page, parent)` for the parent at index
      `pi`: shifts the later endpoints of the parent's space, counts one
      more child on the parent, and appends the child with the next id in
      the two freed positions. */
  function InsertChild(nodes: seq<Node>, pi: nat): (r: seq<Node>)
    requires pi < |nodes|
    ensures |r| == |nodes| + 1
    ensures var p, c := nodes[pi], r[|nodes|];
            && c.id == |nodes| + 1 && c.parentId == p.id && c.parentValid && c.spaceId == p.spaceId
            && c.depth == p.depth + 1 && c.childrenCount == 0 && c.lft + 1 == c.rgt
            && (p.lft < p.rgt ==> Encloses(r[pi], c))
            && r[pi].childrenCount == p.childrenCount + 1
    ensures forall i | 0 <= i < |nodes| ::
              && r[i].id == nodes[i].id && r[i].parentId == nodes[i].parentId && r[i].parentValid == nodes[i].parentValid
              && r[i].depth == nodes[i].depth && r[i].spaceId == nodes[i].spaceId
              && (i != pi ==> r[i].childrenCount == nodes[i].childrenCount)
    ensures forall i | 0 <= i < |nodes| && nodes[i].spaceId != nodes[pi].spaceId :: r[i] == nodes[i]
  {
    var p := nodes[pi];
    var shifted := seq(|nodes|, i requires 0 <= i < |nodes| => Shift(nodes[i], p.spaceId, p.rgt));
    var counted := shifted[pi := shifted[pi].(childrenCount := p.childrenCount + 1)];
    counted + [Node(|nodes| + 1, p.id, true, p.rgt, p.rgt + 1, p.depth + 1, 0, p.spaceId)]
  }

  /** Appending a root keeps the intervals of every space properly nested. */
  lemma InsertRootLaminar(nodes: seq<Node>, spaceId: int, parentId: int, parentValid: bool)
    requires Laminar(nodes)
    ensures Laminar(InsertRoot(nodes, spaceId, parentId, parentValid))
  {
    var r := InsertRoot(nodes, spaceId, parentId, parentValid);
    forall i, j | 0 <= i < |r| && 0 <= j < |r| && i != j ensures Compatible(r[i], r[j]) {
      if i < |nodes| && j < |nodes| {
        assert r[i] == nodes[i] && r[j] == nodes[j];
      }
    }
  }

  /** The shift moves every endpoint of the parent's space monotonically:
      within the scope, a row's new interval is its old one with both ends
      moved by `Moved`, because no row other than the parent has an
      endpoint at the parent's `rgt`. */
  lemma ShiftIsMoved(nodes: seq<Node>, pi: nat, i: nat)
    requires Laminar(nodes) && pi < |nodes| && i < |nodes|
    requires nodes[i].spaceId == nodes[pi].spaceId
    ensures var at := nodes[pi].rgt;
            Shift(nodes[i], nodes[pi].spaceId, at).lft == Moved(nodes[i].lft, at)
            && Shift(nodes[i], nodes[pi].spaceId, at).rgt == Moved(nodes[i].rgt, at)
  {
    if i != pi {
      assert Compatible(nodes[i], nodes[pi]);
    }
  }

  /** Inserting a child keeps the intervals of every space properly nested,
      and keeps which existing rows enclose which. */
  lemma {:induction false} InsertChildLaminar(nodes: seq<Node>, pi: nat)
    requires Laminar(nodes) && pi < |nodes|
    ensures Laminar(InsertChild(nodes, pi))
    ensures var r := InsertChild(nodes, pi);
            forall i, j | 0 <= i < |nodes| && 0 <= j < |nodes| && nodes[i].spaceId == nodes[j].spaceId ::
              Encloses(r[i], r[j]) <==> Encloses(nodes[i], nodes[j])
  {
    var r := InsertChild(nodes, pi);
    var p := nodes[pi];
    var at := p.rgt;
    var n := |nodes|;
    forall i | 0 <= i < n && nodes[i].spaceId == p.spaceId
      ensures r[i].lft == Moved(nodes[i].lft, at) && r[i].rgt == Moved(nodes[i].rgt, at)
    {
      ShiftIsMoved(nodes, pi, i);
    }
    forall i | 0 <= i < |r| ensures r[i].lft < r[i].rgt {
      if i < n && nodes[i].spaceId == p.spaceId {
        assert nodes[i].lft < nodes[i].rgt;
      }
    }
    forall i, j | 0 <= i < n && 0 <= j < n && nodes[i].spaceId == nodes[j].spaceId
      ensures Encloses(r[i], r[j]) <==> Encloses(nodes[i], nodes[j])
    {
      if nodes[i].spaceId != p.spaceId {
        assert r[i] == nodes[i] && r[j] == nodes[j];
      }
    }
    forall i, j | 0 <= i < |r| && 0 <= j < |r| && i != j ensures Compatible(r[i], r[j]) {
      if i < n && j < n {
        assert Compatible(nodes[i], nodes[j]);
        if nodes[i].spaceId == nodes[j].spaceId && nodes[i].spaceId != p.spaceId {
          assert r[i] == nodes[i] && r[j] == nodes[j];
        }
      } else if i < n {
        ChildCompatible(nodes, pi, i);
      } else {
        ChildCompatible(nodes, pi, j);
      }
    }
  }

  /** After the insertion, the new child and an existing row are in
      different spaces, disjoint, or the row encloses the child. */
  lemma ChildCompatible(nodes: seq<Node>, pi: nat, i: nat)
    requires Laminar(nodes) && pi < |nodes| && i < |nodes|
    ensures var r := InsertChild(nodes, pi);
            Compatible(r[i], r[|nodes|]) && Compatible(r[|nodes|], r[i])
  {
    var r := InsertChild(nodes, pi);
    if nodes[i].spaceId == nodes[pi].spaceId {
      ShiftIsMoved(nodes, pi, i);
      if i != pi {
        assert Compatible(nodes[i], nodes[pi]);
      }
    }
  }
}
