/** Scene selection and the node walk of the model loader
    (src/Engine/Model.cpp, `load_model` and `process_node`). */
module GltfScene {
  import opened GltfDocument

  /** The node hierarchy is acyclic, witnessed by `rank`: every child index
      is a node and ranks strictly lower than its parent, and every mesh
      reference is a mesh. The glTF 2.0 specification requires the
      hierarchy to be disjoint strict trees (section 3.5.2), which admits
      such a rank (the height of each node); the walk itself has no cycle
      guard, so this precondition is what makes it terminate. */
  ghost predicate Ranked(doc: Document, rank: seq<nat>) {
    && |rank| == |doc.nodes|
    && (forall n :: 0 <= n < |doc.nodes| ==> doc.nodes[n].mesh < |doc.meshes|)
    && (forall n, j :: 0 <= n < |doc.nodes| && 0 <= j < |doc.nodes[n].children| ==>
          doc.nodes[n].children[j] < |doc.nodes| && rank[doc.nodes[n].children[j]] < rank[n])
  }

  /** Every entry of `ns` is a node ranked below `bound`. */
  ghost predicate Below(doc: Document, rank: seq<nat>, ns: seq<nat>, bound: nat) {
    |rank| == |doc.nodes| &&
    forall i :: 0 <= i < |ns| ==> ns[i] < |doc.nodes| && rank[ns[i]] < bound
  }

  /** The scene `load_model` processes: the default scene when it is set,
      scene 0 otherwise. */
  function SceneIndex(doc: Document): (r: nat)
    ensures doc.defaultScene >= 0 ==> r == doc.defaultScene
    ensures doc.defaultScene < 0 ==> r == 0
  {
    if doc.defaultScene >= 0 then doc.defaultScene else 0
  }

  /** The nodes `process_node` visits when started on each of `ns` in turn:
      depth first, a node before its children, children in array order.
      `bound` is any rank above all of `ns`; it only serves termination. */
  function PreOrder(doc: Document, ghost rank: seq<nat>, ns: seq<nat>, ghost bound: nat): (r: seq<nat>)
    requires Ranked(doc, rank) && Below(doc, rank, ns, bound)
    ensures |r| >= |ns|
    ensures forall i :: 0 <= i < |r| ==> r[i] < |doc.nodes|
    decreases bound, |ns|
  {
    if |ns| == 0 then []
    else
      var n := ns[0];
      [n] + PreOrder(doc, rank, doc.nodes[n].children, rank[n]) + PreOrder(doc, rank, ns[1..], bound)
  }

  /** The walk does not depend on which bound is used. */
  lemma {:induction false} PreOrderBound(doc: Document, rank: seq<nat>, ns: seq<nat>, b1: nat, b2: nat)
    requires Ranked(doc, rank) && Below(doc, rank, ns, b1) && Below(doc, rank, ns, b2)
    ensures PreOrder(doc, rank, ns, b1) == PreOrder(doc, rank, ns, b2)
    decreases |ns|
  {
    if |ns| > 0 {
      PreOrderBound(doc, rank, ns[1..], b1, b2);
    }
  }

  /** Walking `a` then `b` is walking `a + b`: nothing visited is
      remembered, so a node reachable twice is visited twice. */
  lemma {:induction false} PreOrderAppend(doc: Document, rank: seq<nat>, a: seq<nat>, b: seq<nat>, bound: nat)
    requires Ranked(doc, rank) && Below(doc, rank, a, bound) && Below(doc, rank, b, bound)
    ensures Below(doc, rank, a + b, bound)
    ensures PreOrder(doc, rank, a + b, bound) == PreOrder(doc, rank, a, bound) + PreOrder(doc, rank, b, bound)
    decreases |a|
  {
    if |a| == 0 {
      assert a + b == b;
    } else {
      var n := a[0];
      assert (a + b)[0] == n;
      assert (a + b)[1..] == a[1..] + b;
      PreOrderAppend(doc, rank, a[1..], b, bound);
      var kids := PreOrder(doc, rank, doc.nodes[n].children, rank[n]);
      calc {
        PreOrder(doc, rank, a + b, bound);
        [n] + kids + PreOrder(doc, rank, a[1..] + b, bound);
        [n] + kids + (PreOrder(doc, rank, a[1..], bound) + PreOrder(doc, rank, b, bound));
        ([n] + kids + PreOrder(doc, rank, a[1..], bound)) + PreOrder(doc, rank, b, bound);
      }
    }
  }

  /** The same roots listed twice are walked twice, in full. */
  lemma RevisitedRootsAreWalkedAgain(doc: Document, rank: seq<nat>, ns: seq<nat>, bound: nat)
    requires Ranked(doc, rank) && Below(doc, rank, ns, bound)
    ensures Below(doc, rank, ns + ns, bound)
    ensures PreOrder(doc, rank, ns + ns, bound) == PreOrder(doc, rank, ns, bound) + PreOrder(doc, rank, ns, bound)
    ensures |PreOrder(doc, rank, ns + ns, bound)| == 2 * |PreOrder(doc, rank, ns, bound)|
  {
    PreOrderAppend(doc, rank, ns, ns, bound);
  }

  /** A node is visited first, its subtrees follow, one child after the
      other in array order. */
  lemma {:induction false} NodeBeforeChildren(doc: Document, rank: seq<nat>, n: nat)
    requires Ranked(doc, rank) && n < |doc.nodes|
    ensures Below(doc, rank, [n], rank[n] + 1)
    ensures Below(doc, rank, doc.nodes[n].children, rank[n] + 1)
    ensures var kids := doc.nodes[n].children;
      PreOrder(doc, rank, [n], rank[n] + 1)
      == [n] + (if |kids| == 0 then []
                else PreOrder(doc, rank, [kids[0]], rank[n] + 1)
                     + PreOrder(doc, rank, kids[1..], rank[n] + 1))
  {
    var kids := doc.nodes[n].children;
    assert [n][1..] == [];
    PreOrderBound(doc, rank, kids, rank[n], rank[n] + 1);
    if |kids| > 0 {
      assert kids == [kids[0]] + kids[1..];
      PreOrderAppend(doc, rank, [kids[0]], kids[1..], rank[n] + 1);
    }
  }

  /** The walk restated with an explicit stack of pending nodes instead of
      recursion; it visits the same nodes in the same order. */
  method PreOrderWithStack(doc: Document, ghost rank: seq<nat>, roots: seq<nat>, ghost bound: nat)
    returns (visited: seq<nat>)
    requires Ranked(doc, rank) && Below(doc, rank, roots, bound)
    ensures visited == PreOrder(doc, rank, roots, bound)
  {
    ghost var top := bound + MaxRank(rank);
    BelowRaise(doc, rank, roots, bound, top);
    PreOrderBound(doc, rank, roots, bound, top);
    visited := [];
    var stack := roots;
    while |stack| > 0
      invariant Below(doc, rank, stack, top)
      invariant visited + PreOrder(doc, rank, stack, top) == PreOrder(doc, rank, roots, bound)
      decreases |PreOrder(doc, rank, stack, top)|
    {
      var n := stack[0];
      ghost var rest := PreOrder(doc, rank, doc.nodes[n].children + stack[1..], top);
      PopStep(doc, rank, stack, top);
      assert (visited + [n]) + rest == visited + PreOrder(doc, rank, stack, top);
      visited := visited + [n];
      stack := doc.nodes[n].children + stack[1..];
    }
    assert visited + [] == visited;
  }

  lemma BelowRaise(doc: Document, rank: seq<nat>, ns: seq<nat>, b1: nat, b2: nat)
    requires Below(doc, rank, ns, b1) && b1 <= b2
    ensures Below(doc, rank, ns, b2)
  {
  }

  /** Popping the top node of a stack and pushing its children leaves the
      rest of the walk unchanged. */
  lemma PopStep(doc: Document, rank: seq<nat>, stack: seq<nat>, top: nat)
    requires Ranked(doc, rank) && Below(doc, rank, stack, top) && |stack| > 0
    ensures Below(doc, rank, doc.nodes[stack[0]].children + stack[1..], top)
    ensures PreOrder(doc, rank, stack, top)
      == [stack[0]] + PreOrder(doc, rank, doc.nodes[stack[0]].children + stack[1..], top)
  {
    var n := stack[0];
    var kids := doc.nodes[n].children;
    assert Below(doc, rank, kids, top);
    PreOrderBound(doc, rank, kids, rank[n], top);
    PreOrderAppend(doc, rank, kids, stack[1..], top);
  }

  /** A rank at least as large as every entry of `rank`. */
  function MaxRank(rank: seq<nat>): (m: nat)
    ensures forall i :: 0 <= i < |rank| ==> rank[i] <= m
  {
    if |rank| == 0 then 0
    else
      var rest := MaxRank(rank[1..]);
      assert forall i :: 1 <= i < |rank| ==> rank[i] == rank[1..][i - 1];
      if rank[0] > rest then rank[0] else rest
  }

  /** The primitives of the mesh a node references, none if it has none. */
  function MeshPrimitives(doc: Document, n: nat): seq<Primitive>
    requires n < |doc.nodes| && doc.nodes[n].mesh < |doc.meshes|
  {
    var m := doc.nodes[n].mesh;
    if m >= 0 then doc.meshes[m].primitives else []
  }

  /** Every node references a mesh of the document, or none. */
  ghost predicate MeshesResolve(doc: Document, ns: seq<nat>) {
    forall i :: 0 <= i < |ns| ==> ns[i] < |doc.nodes| && doc.nodes[ns[i]].mesh < |doc.meshes|
  }

  /** The primitives of the visited nodes, each mesh's primitives in their
      array order, in visiting order. */
  function PrimitivesOf(doc: Document, visited: seq<nat>): seq<Primitive>
    requires MeshesResolve(doc, visited)
  {
    if |visited| == 0 then []
    else MeshPrimitives(doc, visited[0]) + PrimitivesOf(doc, visited[1..])
  }

  lemma {:induction false} PrimitivesOfAppend(doc: Document, a: seq<nat>, b: seq<nat>)
    requires MeshesResolve(doc, a) && MeshesResolve(doc, b)
    ensures MeshesResolve(doc, a + b)
    ensures PrimitivesOf(doc, a + b) == PrimitivesOf(doc, a) + PrimitivesOf(doc, b)
    decreases |a|
  {
    if |a| == 0 {
      assert a + b == b;
    } else {
      assert (a + b)[0] == a[0];
      assert (a + b)[1..] == a[1..] + b;
      PrimitivesOfAppend(doc, a[1..], b);
    }
  }

  /** The scene's roots, all of them nodes. */
  ghost predicate SceneWalkable(doc: Document, rank: seq<nat>) {
    && Ranked(doc, rank)
    && SceneIndex(doc) < |doc.scenes|
    && forall i :: 0 <= i < |doc.scenes[SceneIndex(doc)].nodes| ==>
         doc.scenes[SceneIndex(doc)].nodes[i] < |doc.nodes|
  }

  /** The nodes `load_model` hands to `process_node`, in the order the
      meshes of the model are produced. */
  function SceneNodes(doc: Document, ghost rank: seq<nat>): (r: seq<nat>)
    requires SceneWalkable(doc, rank)
    ensures MeshesResolve(doc, r)
  {
    PreOrder(doc, rank, doc.scenes[SceneIndex(doc)].nodes, MaxRank(rank) + 1)
  }

  /** The primitives of the scene, in the order `process_node` turns them
      into meshes. */
  function ScenePrimitives(doc: Document, ghost rank: seq<nat>): seq<Primitive>
    requires SceneWalkable(doc, rank)
  {
    PrimitivesOf(doc, SceneNodes(doc, rank))
  }
}
