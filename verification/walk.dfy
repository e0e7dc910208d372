/**
 The walk over the block tree that builds the typed comment.

 `WalkNodes` is the reference: it goes through the children of the document in order,
 converts every node, attaches it where it belongs, classifies every paragraph when its
 children are done, and prunes every node whose conversion or classification failed.
 `ParseChildren` is the walk as the front end runs it: one event per enter and exit, an
 explicit stack of open containers, root-level entities buffered and appended at the end.
 The two are proved to agree.
 */
module Walk {
  import opened Wrappers
  import opened Blocks
  import opened Command

  /** Conversion of a block node to an entity, which may fail with an error. It stands for
      the conversion function of the markdown entity classes, which are not part of this
      model: `Some(e)` rejects the node with error `e`; `None` accepts it, and the node
      then converts to `Convert(n)`. */
  type Reject = Node -> Option<ParseError>

  /** The outcome of walking a sequence of sibling nodes: the entities they give, the
      nodes kept in the block tree, the brief flag after them, and the errors met. */
  datatype WalkResult = WalkResult(entities: seq<Entity>, kept: seq<Node>, first: bool,
                                   errors: seq<ParseError>)

  function WalkNodes(cfg: Config, reject: Reject, ns: seq<Node>, first: bool): WalkResult
    decreases ns
  {
    if |ns| == 0 then WalkResult([], [], first, [])
    else
      var h := WalkNode(cfg, reject, ns[0], first);
      Then(h, WalkNodes(cfg, reject, ns[1..], h.first))
  }

  /** The walk of some siblings followed by the walk of the next ones. */
  function Then(h: WalkResult, t: WalkResult): WalkResult {
    WalkResult(h.entities + t.entities, h.kept + t.kept, t.first, h.errors + t.errors)
  }

  /**
   One node: rejected on entry, it is dropped with its whole subtree and nothing else
   happens. A leaf becomes an entity. A container becomes an entity holding its children's
   entities; a paragraph is then classified, and if classification fails the block node is
   dropped, while its entity, already attached, stays with its default section.
   */
  function WalkNode(cfg: Config, reject: Reject, n: Node, first: bool): WalkResult
    decreases n
  {
    match reject(n)
    case Some(e) => WalkResult([], [], first, [e])
    case None =>
      if IsLeaf(n.kind) then WalkResult([Convert(n)], [n], first, [])
      else Close(cfg, n, WalkNodes(cfg, reject, n.children, first))
  }

  /** A container after the walk `c` of its children: its entity holds their entities; a
      paragraph is classified, which clears the flag, and is dropped from the block tree if
      that fails. */
  function Close(cfg: Config, n: Node, c: WalkResult): WalkResult {
    var shell := Convert(n).(children := c.entities);
    if n.kind == Paragraph then
      var pc := ParseCommand(cfg, shell, c.first);
      match pc.error
      case Some(e) => WalkResult([pc.paragraph], [], false, c.errors + [e])
      case None => WalkResult([pc.paragraph], [n.(children := c.kept)], false, c.errors)
    else WalkResult([shell], [n.(children := c.kept)], c.first, c.errors)
  }

  // ---------------------------------------------------------------------------------
  // The event walk

  /** An event of the walk: entering a node (whose parent may be the document) or
      exiting a container. */
  datatype Visit = Entering(node: Node, atRoot: bool) | Exiting(node: Node)

  /** The events the iterator delivers for sibling nodes `ns`: a rejected node is removed
      on entry, so the iterator goes on with its next sibling without entering its
      children; a leaf is only entered; a container is entered, walked and exited. */
  function TraceNodes(reject: Reject, ns: seq<Node>, atRoot: bool): seq<Visit>
    decreases ns
  {
    if |ns| == 0 then [] else TraceNode(reject, ns[0], atRoot) + TraceNodes(reject, ns[1..], atRoot)
  }

  function TraceNode(reject: Reject, n: Node, atRoot: bool): seq<Visit>
    decreases n
  {
    if reject(n).Some? || IsLeaf(n.kind) then [Entering(n, atRoot)]
    else [Entering(n, atRoot)] + TraceNodes(reject, n.children, false) + [Exiting(n)]
  }

  /** An open container: its entity with the children attached so far, and whether it is
      a child of the document. */
  datatype Frame = Frame(entity: Entity, atRoot: bool)

  /** The state of the event walk: the open containers (innermost last), the buffered
      children of the document, the brief flag and the errors logged. */
  datatype State = State(stack: seq<Frame>, direct: seq<Entity>, first: bool,
                         errors: seq<ParseError>)

  /** The stack with `es` attached to the innermost open container. */
  function AppendToTop(stack: seq<Frame>, es: seq<Entity>): seq<Frame>
    requires |stack| > 0
  {
    var top := stack[|stack| - 1];
    stack[..|stack| - 1] + [top.(entity := top.entity.(children := top.entity.children + es))]
  }

  /** Places entity `e`: buffered if it is a child of the document, else attached to the
      innermost open container. `None` if there is none, which no tree's events reach. */
  function Attach(s: State, e: Entity, atRoot: bool): Option<State> {
    if atRoot then Some(s.(direct := s.direct + [e]))
    else if |s.stack| == 0 then None
    else Some(s.(stack := AppendToTop(s.stack, [e])))
  }

  /**
   One event. On entry the node is converted; a rejected node only logs its error (the
   iterator then skips it); a container is pushed, a leaf placed. On exit the innermost
   container is popped, classified if it is a paragraph (clearing the brief flag and
   logging an error if there is one), and placed. `None` when an exit finds no open
   container.
   */
  function ProcessVisit(cfg: Config, reject: Reject, s: State, v: Visit): Option<State> {
    match v
    case Entering(n, atRoot) =>
      (match reject(n)
       case Some(e) => Some(s.(errors := s.errors + [e]))
       case None =>
         if IsLeaf(n.kind) then Attach(s, Convert(n), atRoot)
         else Some(s.(stack := s.stack + [Frame(Convert(n), atRoot)])))
    case Exiting(_) =>
      if |s.stack| == 0 then None
      else
        var f := s.stack[|s.stack| - 1];
        var popped := s.(stack := s.stack[..|s.stack| - 1]);
        if f.entity.kind == Paragraph then
          var pc := ParseCommand(cfg, f.entity, s.first);
          var logged := if pc.error.Some? then [pc.error.value] else [];
          Attach(popped.(first := false, errors := s.errors + logged), pc.paragraph, f.atRoot)
        else Attach(popped, f.entity, f.atRoot)
  }

  /** The events `vs` processed in order from state `s`. */
  function Process(cfg: Config, reject: Reject, s: State, vs: seq<Visit>): Option<State>
    decreases |vs|
  {
    if |vs| == 0 then Some(s)
    else
      match Process(cfg, reject, s, vs[..|vs| - 1])
      case None => None
      case Some(t) => ProcessVisit(cfg, reject, t, vs[|vs| - 1])
  }

  lemma {:induction false} ProcessAppend(cfg: Config, reject: Reject, s: State, a: seq<Visit>, b: seq<Visit>)
    ensures Process(cfg, reject, s, a + b) ==
      match Process(cfg, reject, s, a)
      case None => None
      case Some(t) => Process(cfg, reject, t, b)
    decreases |b|
  {
    if |b| == 0 {
      assert a + b == a;
    } else {
      assert (a + b)[..|a + b| - 1] == a + b[..|b| - 1];
      ProcessAppend(cfg, reject, s, a, b[..|b| - 1]);
    }
  }

  /** The state after the walk of some siblings, given what the reference walk gives for
      them: their entities are buffered (children of the document) or attached to the
      innermost open container, and the flag and the errors are carried over. */
  function Absorb(s: State, w: WalkResult, atRoot: bool): State
    requires !atRoot ==> |s.stack| > 0
  {
    if atRoot then s.(direct := s.direct + w.entities, first := w.first, errors := s.errors + w.errors)
    else s.(stack := AppendToTop(s.stack, w.entities), first := w.first, errors := s.errors + w.errors)
  }

  lemma AppendToTopTwice(stack: seq<Frame>, a: seq<Entity>, b: seq<Entity>)
    requires |stack| > 0
    ensures AppendToTop(AppendToTop(stack, a), b) == AppendToTop(stack, a + b)
  {
    var top := stack[|stack| - 1];
    assert top.entity.children + a + b == top.entity.children + (a + b);
    assert AppendToTop(stack, a)[..|stack| - 1] == stack[..|stack| - 1];
  }

  lemma AppendToTopNothing(stack: seq<Frame>)
    requires |stack| > 0
    ensures AppendToTop(stack, []) == stack
  {
    var top := stack[|stack| - 1];
    assert top.entity.children + [] == top.entity.children;
  }

  /**
   The event walk over the events of siblings `ns` does what the reference walk does:
   it never meets an exit without an open container, it leaves the stack of open
   containers as it found it apart from the children attached to the innermost one, and
   it places the same entities, keeps the same flag and logs the same errors.
   */
  lemma {:induction false} ProcessTraceNodes(cfg: Config, reject: Reject, s: State, ns: seq<Node>, atRoot: bool)
    requires !atRoot ==> |s.stack| > 0
    ensures Process(cfg, reject, s, TraceNodes(reject, ns, atRoot))
      == Some(Absorb(s, WalkNodes(cfg, reject, ns, s.first), atRoot))
    decreases ns
  {
    if |ns| == 0 {
      assert s.errors + [] == s.errors;
      if atRoot {
        assert s.direct + [] == s.direct;
      } else {
        AppendToTopNothing(s.stack);
      }
    } else {
      var h := WalkNode(cfg, reject, ns[0], s.first);
      var t := WalkNodes(cfg, reject, ns[1..], h.first);
      var s1 := Absorb(s, h, atRoot);
      assert TraceNodes(reject, ns, atRoot) == TraceNode(reject, ns[0], atRoot) + TraceNodes(reject, ns[1..], atRoot);
      ProcessAppend(cfg, reject, s, TraceNode(reject, ns[0], atRoot), TraceNodes(reject, ns[1..], atRoot));
      ProcessTraceNode(cfg, reject, s, ns[0], atRoot);
      ProcessTraceNodes(cfg, reject, s1, ns[1..], atRoot);
      AbsorbThen(s, h, t, atRoot);
    }
  }

  /** Absorbing two walks in turn is absorbing their sequence. */
  lemma AbsorbThen(s: State, h: WalkResult, t: WalkResult, atRoot: bool)
    requires !atRoot ==> |s.stack| > 0
    ensures Absorb(Absorb(s, h, atRoot), t, atRoot) == Absorb(s, Then(h, t), atRoot)
  {
    assert s.errors + h.errors + t.errors == s.errors + (h.errors + t.errors);
    if atRoot {
      assert s.direct + h.entities + t.entities == s.direct + (h.entities + t.entities);
    } else {
      AppendToTopTwice(s.stack, h.entities, t.entities);
    }
  }

  lemma {:induction false} ProcessTraceNode(cfg: Config, reject: Reject, s: State, n: Node, atRoot: bool)
    requires !atRoot ==> |s.stack| > 0
    ensures Process(cfg, reject, s, TraceNode(reject, n, atRoot))
      == Some(Absorb(s, WalkNode(cfg, reject, n, s.first), atRoot))
    decreases n
  {
    var enter := Entering(n, atRoot);
    ProcessOne(cfg, reject, s, enter);
    if reject(n).Some? {
      if atRoot {
        assert s.direct + [] == s.direct;
      } else {
        AppendToTopNothing(s.stack);
      }
    } else if IsLeaf(n.kind) {
      assert s.errors + [] == s.errors;
    } else {
      var c := WalkNodes(cfg, reject, n.children, s.first);
      var s1 := s.(stack := s.stack + [Frame(Convert(n), atRoot)]);
      var inner := TraceNodes(reject, n.children, false);
      ProcessAppend(cfg, reject, s, [enter], inner);
      ProcessTraceNodes(cfg, reject, s1, n.children, false);
      var s2 := Absorb(s1, c, false);
      ProcessAppend(cfg, reject, s, [enter] + inner, [Exiting(n)]);
      ProcessOne(cfg, reject, s2, Exiting(n));
      EnteredContainer(s, n, c, atRoot);
      ExitCloses(cfg, reject, s, n, c, atRoot);
    }
  }

  lemma ProcessOne(cfg: Config, reject: Reject, s: State, v: Visit)
    ensures Process(cfg, reject, s, [v]) == ProcessVisit(cfg, reject, s, v)
  {
    assert [v][..0] == [];
  }

  /** After entering a container and walking its children, its frame on top of the stack
      holds their entities. */
  lemma EnteredContainer(s: State, n: Node, c: WalkResult, atRoot: bool)
    ensures Absorb(s.(stack := s.stack + [Frame(Convert(n), atRoot)]), c, false)
      == s.(stack := s.stack + [Frame(Convert(n).(children := c.entities), atRoot)],
            first := c.first, errors := s.errors + c.errors)
  {
    assert [] + c.entities == c.entities;
    assert (s.stack + [Frame(Convert(n), atRoot)])[..|s.stack|] == s.stack;
  }

  /** Exiting a container whose frame holds its children's entities places what the
      reference walk gives for it. */
  lemma ExitCloses(cfg: Config, reject: Reject, s: State, n: Node, c: WalkResult, atRoot: bool)
    requires !atRoot ==> |s.stack| > 0
    ensures ProcessVisit(cfg, reject,
              s.(stack := s.stack + [Frame(Convert(n).(children := c.entities), atRoot)],
                 first := c.first, errors := s.errors + c.errors),
              Exiting(n))
      == Some(Absorb(s, Close(cfg, n, c), atRoot))
  {
    var f := Frame(Convert(n).(children := c.entities), atRoot);
    assert (s.stack + [f])[..|s.stack|] == s.stack;
    if n.kind == Paragraph {
      var pc := ParseCommand(cfg, f.entity, c.first);
      if pc.error.Some? {
        assert s.errors + c.errors + [pc.error.value] == s.errors + (c.errors + [pc.error.value]);
      } else {
        assert s.errors + c.errors + [] == s.errors + c.errors;
      }
    }
  }

  /** Processing one more event: it succeeds when all the events do. Not by induction;
      automatic induction is off so that the solver is not handed useless hypotheses. */
  lemma {:induction false} ProcessNext(cfg: Config, reject: Reject, s: State, vs: seq<Visit>, i: nat, t: State)
    requires i < |vs| && Process(cfg, reject, s, vs).Some?
    requires Process(cfg, reject, s, vs[..i]) == Some(t)
    ensures ProcessVisit(cfg, reject, t, vs[i]).Some?
    ensures Process(cfg, reject, s, vs[..i + 1]) == ProcessVisit(cfg, reject, t, vs[i])
  {
    ProcessSnoc(cfg, reject, s, vs, i, t);
    PrefixProcesses(cfg, reject, s, vs, i + 1);
  }

  lemma ProcessSnoc(cfg: Config, reject: Reject, s: State, vs: seq<Visit>, i: nat, t: State)
    requires i < |vs| && Process(cfg, reject, s, vs[..i]) == Some(t)
    ensures Process(cfg, reject, s, vs[..i + 1]) == ProcessVisit(cfg, reject, t, vs[i])
  {
    assert vs[..i + 1][..i] == vs[..i];
  }

  /** Events processed from a state never get stuck if all of them do not. */
  lemma PrefixProcesses(cfg: Config, reject: Reject, s: State, vs: seq<Visit>, j: nat)
    requires j <= |vs| && Process(cfg, reject, s, vs).Some?
    ensures Process(cfg, reject, s, vs[..j]).Some?
  {
    assert vs == vs[..j] + vs[j..];
    ProcessAppend(cfg, reject, s, vs[..j], vs[j..]);
  }

  /**
   The walk of the front end: iterate over the events of the document's children with a
   stack of open containers, buffer the document's own children, and hand them to the
   comment at the end. It gives the entities and the errors of the reference walk.
   */
  method ParseChildren(cfg: Config, reject: Reject, roots: seq<Node>)
    returns (children: seq<Entity>, errors: seq<ParseError>)
    ensures children == WalkNodes(cfg, reject, roots, true).entities
    ensures errors == WalkNodes(cfg, reject, roots, true).errors
  {
    var visits := TraceNodes(reject, roots, true);
    var init := State([], [], true, []);
    ProcessTraceNodes(cfg, reject, init, roots, true);
    var s := init;
    assert visits[..0] == [];
    var i := 0;
    while i < |visits|
      invariant i <= |visits|
      invariant Process(cfg, reject, init, visits[..i]) == Some(s)
    {
      ProcessNext(cfg, reject, init, visits, i, s);
      s := ProcessVisit(cfg, reject, s, visits[i]).value;
      i := i + 1;
    }
    assert visits[..i] == visits;
    children := s.direct;
    errors := s.errors;
  }
}
