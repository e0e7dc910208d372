/**
 The enter/exit iterator over the block tree, and the removal of a node during iteration.

 A position in the tree is a path of child indices from the document; the empty path is
 the document itself. An event is entering or exiting the node at a path. The iterator
 moves from one event to the next as the block parser's iterator does: into the first
 child of an entered container, else to the next sibling, else out of the parent. Removing
 a node unlinks it and resets the iterator so that the removed node's next sibling (or the
 parent's exit) comes next.
 */
module Iterator {
  import opened Blocks

  type Path = seq<nat>

  datatype Event = Enter(path: Path) | Exit(path: Path) | Done

  /** `p` leads from the document through existing children. */
  predicate ValidPath(ns: seq<Node>, p: Path)
    decreases |p|
  {
    |p| == 0 || (p[0] < |ns| && ValidPath(ns[p[0]].children, p[1..]))
  }

  /** The children of the node at `p` (of the document for the empty path). */
  function ChildrenAt(ns: seq<Node>, p: Path): seq<Node>
    requires ValidPath(ns, p)
    decreases |p|
  {
    if |p| == 0 then ns else ChildrenAt(ns[p[0]].children, p[1..])
  }

  function Parent(p: Path): Path
    requires |p| > 0
  {
    p[..|p| - 1]
  }

  function Last(p: Path): nat
    requires |p| > 0
  {
    p[|p| - 1]
  }

  /** A path's parent is a path, and the path's last index picks one of its children. */
  lemma {:induction false} ParentPath(ns: seq<Node>, p: Path)
    requires ValidPath(ns, p) && |p| > 0
    ensures ValidPath(ns, Parent(p))
    ensures Last(p) < |ChildrenAt(ns, Parent(p))|
    ensures ChildrenAt(ns, p) == ChildrenAt(ns, Parent(p))[Last(p)].children
    decreases |p|
  {
    if |p| > 1 {
      assert Parent(p)[1..] == Parent(p[1..]);
      ParentPath(ns[p[0]].children, p[1..]);
    }
  }

  /** The node at a non-empty path. */
  function NodeAt(ns: seq<Node>, p: Path): Node
    requires ValidPath(ns, p) && |p| > 0
  {
    ParentPath(ns, p);
    ChildrenAt(ns, Parent(p))[Last(p)]
  }

  /** The document and every non-leaf node are containers. */
  predicate IsContainerAt(ns: seq<Node>, p: Path)
    requires ValidPath(ns, p)
  {
    |p| == 0 || !IsLeaf(NodeAt(ns, p).kind)
  }

  predicate ValidEvent(ns: seq<Node>, ev: Event) {
    ev.Done? || ValidPath(ns, ev.path)
  }

  /** The event following `ev`. */
  function Next(ns: seq<Node>, ev: Event): (r: Event)
    requires ValidEvent(ns, ev)
    ensures ValidEvent(ns, r)
  {
    if ev.Done? then Done
    else
      var p := ev.path;
      if ev.Enter? && IsContainerAt(ns, p) then
        if |ChildrenAt(ns, p)| == 0 then Exit(p)
        else
          assert ChildrenAt(ns, p + [0]) == ChildrenAt(ns, p)[0].children by {
            ExtendPath(ns, p, 0);
          }
          Enter(p + [0])
      else if |p| == 0 then Done
      else
        ParentPath(ns, p);
        if Last(p) + 1 < |ChildrenAt(ns, Parent(p))| then
          ExtendPath(ns, Parent(p), Last(p) + 1);
          Enter(Parent(p) + [Last(p) + 1])
        else Exit(Parent(p))
  }

  /** A path extended by the index of one of its children is a path. */
  lemma {:induction false} ExtendPath(ns: seq<Node>, p: Path, i: nat)
    requires ValidPath(ns, p) && i < |ChildrenAt(ns, p)|
    ensures ValidPath(ns, p + [i])
    ensures ChildrenAt(ns, p + [i]) == ChildrenAt(ns, p)[i].children
    decreases |p|
  {
    if |p| > 0 {
      assert (p + [i])[1..] == p[1..] + [i];
      ExtendPath(ns[p[0]].children, p[1..], i);
    }
  }

  /** The sequence without its element at `k`, the others in their order. */
  function RemoveAt<T>(s: seq<T>, k: nat): (r: seq<T>)
    requires k < |s|
    ensures |r| == |s| - 1
    ensures forall j :: 0 <= j < k ==> r[j] == s[j]
    ensures forall j :: k <= j < |r| ==> r[j] == s[j + 1]
  {
    s[..k] + s[k + 1..]
  }

  /** The tree with the node at `p` unlinked from its parent's children. */
  function Unlink(ns: seq<Node>, p: Path): seq<Node>
    requires ValidPath(ns, p) && |p| > 0
    decreases |p|
  {
    if |p| == 1 then RemoveAt(ns, p[0])
    else ns[p[0] := ns[p[0]].(children := Unlink(ns[p[0]].children, p[1..]))]
  }

  /** Unlinking removes exactly the node from its parent's children, the remaining siblings
      in their order, and leaves the parent's own fields alone. */
  lemma {:induction false} UnlinkRemovesFromParent(ns: seq<Node>, p: Path)
    requires ValidPath(ns, p) && |p| > 0
    ensures ValidPath(ns, Parent(p)) && Last(p) < |ChildrenAt(ns, Parent(p))|
    ensures ValidPath(Unlink(ns, p), Parent(p))
    ensures ChildrenAt(Unlink(ns, p), Parent(p)) == RemoveAt(ChildrenAt(ns, Parent(p)), Last(p))
    ensures |Parent(p)| > 0 ==>
      NodeAt(Unlink(ns, p), Parent(p))
      == NodeAt(ns, Parent(p)).(children := RemoveAt(ChildrenAt(ns, Parent(p)), Last(p)))
    decreases |p|
  {
    ParentPath(ns, p);
    if |p| > 1 {
      var i := p[0];
      var inner := Unlink(ns[i].children, p[1..]);
      assert Parent(p) == [i] + Parent(p[1..]);
      assert Parent(p)[1..] == Parent(p[1..]);
      UnlinkRemovesFromParent(ns[i].children, p[1..]);
      var ns' := Unlink(ns, p);
      assert ns'[i].children == inner;
      if |Parent(p)| > 1 {
        ParentPath(ns, Parent(p));
        ParentPath(ns', Parent(p));
        assert Parent(Parent(p))[1..] == Parent(Parent(p[1..]));
        assert Parent(Parent(p)) == [i] + Parent(Parent(p[1..]));
        ChildrenAtCons(ns, i, Parent(Parent(p)));
        ChildrenAtCons(ns', i, Parent(Parent(p)));
      }
    }
  }

  /**
   Nothing but the path to the removed node changes: at every depth above the parent the
   siblings of the node on the path are the same nodes as before, and the node on the path
   keeps its type, literal and position. Together with `UnlinkRemovesFromParent` this pins
   the whole tree after unlinking.
   */
  lemma {:induction false} UnlinkKeepsOtherNodes(ns: seq<Node>, p: Path, k: nat)
    requires ValidPath(ns, p) && k + 1 < |p|
    ensures ValidPath(ns, p[..k]) && ValidPath(Unlink(ns, p), p[..k])
    ensures var before, after := ChildrenAt(ns, p[..k]), ChildrenAt(Unlink(ns, p), p[..k]);
      && p[k] < |before| == |after|
      && (forall j :: 0 <= j < |before| && j != p[k] ==> after[j] == before[j])
      && after[p[k]].(children := before[p[k]].children) == before[p[k]]
    decreases |p|
  {
    if k == 0 {
      assert p[..k] == [];
    } else {
      var i := p[0];
      UnlinkKeepsOtherNodes(ns[i].children, p[1..], k - 1);
      assert p[..k][1..] == p[1..][..k - 1];
      assert Unlink(ns, p)[i].children == Unlink(ns[i].children, p[1..]);
    }
  }

  /** Walking a path is walking its first step, then the rest. */
  lemma ChildrenAtCons(ns: seq<Node>, i: nat, q: Path)
    requires |q| > 0 && q[0] == i && ValidPath(ns, q)
    ensures ValidPath(ns[i].children, q[1..])
    ensures ChildrenAt(ns, q) == ChildrenAt(ns[i].children, q[1..])
  {
  }

  /**
   Removal of the node at `p` during iteration, as the front end does it on an error:
   remember the previous sibling and the parent, unlink the node, and reset the iterator to
   the previous sibling's exit if there is one, else to the parent's enter.
   */
  function RemoveNode(ns: seq<Node>, p: Path): Removal
    requires ValidPath(ns, p) && |p| > 0
  {
    var resume := if Last(p) > 0 then Exit(Parent(p) + [Last(p) - 1]) else Enter(Parent(p));
    Removal(Unlink(ns, p), resume)
  }

  /** The tree after a removal, and the event the iterator was reset to. */
  datatype Removal = Removal(tree: seq<Node>, resume: Event)

  /**
   After a removal the iterator goes on with the removed node's next sibling, which now
   sits at the removed node's path, or, when the removed node was the last child, with its
   parent's exit. The parent is a container, as every node with children is. The proof
   is by cases, not by induction; automatic induction is off so that the solver is not
   handed induction hypotheses it cannot use.
   */
  lemma {:induction false} RemoveNodeResumesAtNextSibling(ns: seq<Node>, p: Path)
    requires ValidPath(ns, p) && |p| > 0
    requires ValidPath(ns, Parent(p)) && IsContainerAt(ns, Parent(p))
    ensures Last(p) < |ChildrenAt(ns, Parent(p))|
    ensures ValidPath(RemoveNode(ns, p).tree, Parent(p))
    ensures ChildrenAt(RemoveNode(ns, p).tree, Parent(p))
      == RemoveAt(ChildrenAt(ns, Parent(p)), Last(p))
    ensures ValidEvent(RemoveNode(ns, p).tree, RemoveNode(ns, p).resume)
    ensures Next(RemoveNode(ns, p).tree, RemoveNode(ns, p).resume)
      == (if Last(p) + 1 < |ChildrenAt(ns, Parent(p))| then Enter(p) else Exit(Parent(p)))
    ensures Last(p) + 1 < |ChildrenAt(ns, Parent(p))| ==>
      && ValidPath(RemoveNode(ns, p).tree, p)
      && NodeAt(RemoveNode(ns, p).tree, p) == ChildrenAt(ns, Parent(p))[Last(p) + 1]
  {
    UnlinkRemovesFromParent(ns, p);
    if Last(p) > 0 {
      ResumeWithPrevious(ns, p);
    } else {
      ResumeWithoutPrevious(ns, p);
    }
    if Last(p) + 1 < |ChildrenAt(ns, Parent(p))| {
      NextSiblingMoves(ns, p);
    }
  }

  /** The removed node had a previous sibling: the iterator resumes at its exit. Not by
      induction (automatic induction off, as above). */
  lemma {:induction false} ResumeWithPrevious(ns: seq<Node>, p: Path)
    requires ValidPath(ns, p) && |p| > 0 && Last(p) > 0 && ValidPath(ns, Parent(p))
    ensures ValidEvent(RemoveNode(ns, p).tree, RemoveNode(ns, p).resume)
    ensures Next(RemoveNode(ns, p).tree, RemoveNode(ns, p).resume)
      == (if Last(p) + 1 < |ChildrenAt(ns, Parent(p))| then Enter(p) else Exit(Parent(p)))
  {
    var q, k := Parent(p), Last(p);
    var ns' := Unlink(ns, p);
    UnlinkRemovesFromParent(ns, p);
    assert RemoveNode(ns, p) == Removal(ns', Exit(q + [k - 1]));
    ResumeAfterPrevious(ns', q, k - 1);
    assert q + [k - 1 + 1] == p;
  }

  /** The removed node was the first child: the iterator resumes at the parent's enter. */
  lemma ResumeWithoutPrevious(ns: seq<Node>, p: Path)
    requires ValidPath(ns, p) && |p| > 0 && Last(p) == 0
    requires ValidPath(ns, Parent(p)) && IsContainerAt(ns, Parent(p))
    ensures ValidEvent(RemoveNode(ns, p).tree, RemoveNode(ns, p).resume)
    ensures Next(RemoveNode(ns, p).tree, RemoveNode(ns, p).resume)
      == (if Last(p) + 1 < |ChildrenAt(ns, Parent(p))| then Enter(p) else Exit(Parent(p)))
  {
    var q := Parent(p);
    var ns' := Unlink(ns, p);
    UnlinkRemovesFromParent(ns, p);
    assert RemoveNode(ns, p) == Removal(ns', Enter(q));
    ResumeAtParent(ns, ns', q);
    assert q + [0] == p;
  }

  /** The removed node's next sibling now sits at the removed node's path. */
  lemma NextSiblingMoves(ns: seq<Node>, p: Path)
    requires ValidPath(ns, p) && |p| > 0 && ValidPath(ns, Parent(p))
    requires Last(p) + 1 < |ChildrenAt(ns, Parent(p))|
    ensures ValidPath(RemoveNode(ns, p).tree, p)
    ensures NodeAt(RemoveNode(ns, p).tree, p) == ChildrenAt(ns, Parent(p))[Last(p) + 1]
  {
    var q, k := Parent(p), Last(p);
    var ns' := Unlink(ns, p);
    UnlinkRemovesFromParent(ns, p);
    ExtendPath(ns', q, k);
    assert q + [k] == p;
  }

  /** Exiting child `j` of the node at `q` moves on to child `j + 1`, or out of `q`. */
  lemma ResumeAfterPrevious(ns: seq<Node>, q: Path, j: nat)
    requires ValidPath(ns, q) && j < |ChildrenAt(ns, q)|
    ensures ValidPath(ns, q + [j])
    ensures Next(ns, Exit(q + [j]))
      == (if j + 1 < |ChildrenAt(ns, q)| then Enter(q + [j + 1]) else Exit(q))
  {
    ExtendPath(ns, q, j);
    assert Parent(q + [j]) == q && Last(q + [j]) == j;
  }

  /** Entering the container at `q` moves on to its first child, or out of it. The node at
      `q` in the tree after the removal is a container when it was one before. */
  lemma ResumeAtParent(ns: seq<Node>, ns': seq<Node>, q: Path)
    requires ValidPath(ns, q) && IsContainerAt(ns, q) && ValidPath(ns', q)
    requires |q| > 0 ==> NodeAt(ns', q).kind == NodeAt(ns, q).kind
    ensures Next(ns', Enter(q))
      == (if |ChildrenAt(ns', q)| > 0 then Enter(q + [0]) else Exit(q))
  {
  }
}
