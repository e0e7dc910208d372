/**
 What the walk over the block tree guarantees: the brief flag tracks whether a paragraph
 has been classified yet, every paragraph is classified with the right default, the typed
 tree mirrors the block nodes that convert, and the block tree keeps exactly the nodes
 whose conversion and classification succeed.
 */
module WalkFacts {
  import opened Wrappers
  import opened Blocks
  import opened Command
  import opened Walk

  // ---------------------------------------------------------------------------------
  // Paragraphs in the order they are classified

  /** The paragraphs of an entity forest in post-order: a paragraph after everything in
      it, which is the order in which the walk classifies them. */
  function Paragraphs(es: seq<Entity>): seq<Entity>
    decreases es
  {
    if |es| == 0 then [] else ParagraphsIn(es[0]) + Paragraphs(es[1..])
  }

  function ParagraphsIn(e: Entity): seq<Entity>
    decreases e
  {
    Paragraphs(e.children) + (if e.kind == Paragraph then [e] else [])
  }

  lemma {:induction false} ParagraphsAppend(a: seq<Entity>, b: seq<Entity>)
    ensures Paragraphs(a + b) == Paragraphs(a) + Paragraphs(b)
    decreases |a|
  {
    if |a| == 0 {
      assert a + b == b;
    } else {
      assert (a + b)[1..] == a[1..] + b;
      ParagraphsAppend(a[1..], b);
    }
  }

  lemma ParagraphsOne(e: Entity)
    ensures Paragraphs([e]) == ParagraphsIn(e)
  {
    assert [e][1..] == [];
  }

  /** Classifying a paragraph changes at most the text of its first child, a text node, so
      the paragraphs inside it stay as they were. */
  lemma ClassifyKeepsInnerParagraphs(cfg: Config, p: Entity, first: bool)
    requires p.kind == Paragraph
    ensures Paragraphs(ParseCommand(cfg, p, first).paragraph.children) == Paragraphs(p.children)
  {
    var q := ParseCommand(cfg, p, first).paragraph;
    if HasKnownCommand(cfg, p) {
      ReplaceFirstText(p.children, q.children[0]);
      assert q.children == [q.children[0]] + p.children[1..];
    }
  }

  /** Replacing the first entity of a forest by one of the same kind and children, not a
      paragraph, keeps the paragraphs of the forest. */
  lemma ReplaceFirstText(es: seq<Entity>, x: Entity)
    requires |es| > 0 && x.kind == es[0].kind != Paragraph && x.children == es[0].children
    ensures Paragraphs([x] + es[1..]) == Paragraphs(es)
  {
    assert ([x] + es[1..])[1..] == es[1..];
  }

  // ---------------------------------------------------------------------------------
  // The brief flag

  /**
   After walking some siblings the flag is still set exactly when it was set before and
   the walk classified no paragraph: the first paragraph classified, and only it, is
   classified with the flag set.
   */
  lemma {:induction false} WalkNodesFlag(cfg: Config, reject: Reject, ns: seq<Node>, first: bool)
    ensures WalkNodes(cfg, reject, ns, first).first
      == (first && |Paragraphs(WalkNodes(cfg, reject, ns, first).entities)| == 0)
    decreases ns
  {
    if |ns| > 0 {
      var h := WalkNode(cfg, reject, ns[0], first);
      WalkNodeFlag(cfg, reject, ns[0], first);
      WalkNodesFlag(cfg, reject, ns[1..], h.first);
      ParagraphsAppend(h.entities, WalkNodes(cfg, reject, ns[1..], h.first).entities);
    }
  }

  lemma {:induction false} WalkNodeFlag(cfg: Config, reject: Reject, n: Node, first: bool)
    ensures WalkNode(cfg, reject, n, first).first
      == (first && |Paragraphs(WalkNode(cfg, reject, n, first).entities)| == 0)
    decreases n
  {
    if reject(n).None? {
      if IsLeaf(n.kind) {
        ParagraphsOne(Convert(n));
      } else {
        var c := WalkNodes(cfg, reject, n.children, first);
        WalkNodesFlag(cfg, reject, n.children, first);
        CloseFlag(cfg, n, c, first);
      }
    }
  }

  lemma CloseFlag(cfg: Config, n: Node, c: WalkResult, first: bool)
    requires !IsLeaf(n.kind)
    requires c.first == (first && |Paragraphs(c.entities)| == 0)
    ensures Close(cfg, n, c).first == (first && |Paragraphs(Close(cfg, n, c).entities)| == 0)
  {
    var shell := Convert(n).(children := c.entities);
    if n.kind == Paragraph {
      ParagraphsOne(ParseCommand(cfg, shell, c.first).paragraph);
    } else {
      ParagraphsOne(shell);
    }
  }

  // ---------------------------------------------------------------------------------
  // The command a paragraph node opens with

  /** The first of the nodes that is not rejected on entry: the node whose entity comes
      first among their entities. */
  function FirstSurvivor(reject: Reject, ns: seq<Node>): Option<Node>
    decreases ns
  {
    if |ns| == 0 then None
    else if reject(ns[0]).Some? then FirstSurvivor(reject, ns[1..])
    else Some(ns[0])
  }

  /** The command word a node opens with, read off the block tree: its first child that is
      not rejected is a text starting with the command character, and the word runs from
      after that character up to the first white space or the end of the text. */
  function CommandOf(cfg: Config, reject: Reject, n: Node): Option<string> {
    var m := FirstSurvivor(reject, n.children);
    if m.Some? && m.value.kind == Text && |m.value.literal| > 0
       && m.value.literal[0] == cfg.commandChar
    then Some(m.value.literal[1..][..WordLength(m.value.literal[1..])])
    else None
  }

  /** The command word of a paragraph node, when the table knows it. */
  function KnownCommandOf(cfg: Config, reject: Reject, n: Node): Option<string> {
    var w := CommandOf(cfg, reject, n);
    if n.kind == Paragraph && w.Some? && cfg.trySection(w.value) != Invalid then w else None
  }

  /** The section paragraph node `n` belongs in, `first` telling whether it is the first
      paragraph of the comment: that of its known command, else the default. */
  function SectionOf(cfg: Config, reject: Reject, n: Node, first: bool): Section {
    match KnownCommandOf(cfg, reject, n)
    case Some(w) => cfg.trySection(w)
    case None => DefaultSection(first)
  }

  // ---------------------------------------------------------------------------------
  // Classification of every paragraph

  /** The paragraph nodes the walk classifies, in post-order: every paragraph that is not
      inside a node rejected on entry. */
  function ParagraphNodes(reject: Reject, ns: seq<Node>): seq<Node>
    decreases ns
  {
    if |ns| == 0 then [] else ParagraphNodesIn(reject, ns[0]) + ParagraphNodes(reject, ns[1..])
  }

  function ParagraphNodesIn(reject: Reject, n: Node): seq<Node>
    decreases n
  {
    if reject(n).Some? || IsLeaf(n.kind) then []
    else ParagraphNodes(reject, n.children) + (if n.kind == Paragraph then [n] else [])
  }

  /** Paragraph `e` is node `n` classified with flag `first`: it has the node's position,
      the section of the node's own known command or else the default, and the title of
      that section. */
  predicate ClassifiedAs(cfg: Config, reject: Reject, e: Entity, n: Node, first: bool) {
    && e.line == n.line && e.column == n.column
    && e.section == SectionOf(cfg, reject, n, first)
    && e.title == cfg.sectionName(e.section)
  }

  /** Paragraphs `ps` are the nodes `pn` classified in order, the flag set for the first
      only if it was set at the start. */
  predicate ClassifiedInOrder(cfg: Config, reject: Reject, ps: seq<Entity>, pn: seq<Node>, first: bool) {
    && |ps| == |pn|
    && forall j :: 0 <= j < |ps| ==> ClassifiedAs(cfg, reject, ps[j], pn[j], first && j == 0)
  }

  lemma ClassifiedInOrderAppend(cfg: Config, reject: Reject, a: seq<Entity>, b: seq<Entity>,
                                an: seq<Node>, bn: seq<Node>, first: bool)
    requires ClassifiedInOrder(cfg, reject, a, an, first)
    requires ClassifiedInOrder(cfg, reject, b, bn, first && |a| == 0)
    ensures ClassifiedInOrder(cfg, reject, a + b, an + bn, first)
  {
    forall j | 0 <= j < |a + b|
      ensures ClassifiedAs(cfg, reject, (a + b)[j], (an + bn)[j], first && j == 0)
    {
      if j >= |a| {
        assert (a + b)[j] == b[j - |a|] && (an + bn)[j] == bn[j - |a|];
      } else {
        assert (a + b)[j] == a[j] && (an + bn)[j] == an[j];
      }
    }
  }

  /**
   Every paragraph the walk yields, in post-order, is the corresponding paragraph node
   classified: it carries the section of its own known command, or else the default
   section, brief for the first paragraph when the flag was set at the start and details
   for every other one.
   */
  lemma {:induction false} WalkNodesClassified(cfg: Config, reject: Reject, ns: seq<Node>, first: bool)
    ensures ClassifiedInOrder(cfg, reject, Paragraphs(WalkNodes(cfg, reject, ns, first).entities),
                              ParagraphNodes(reject, ns), first)
    decreases ns
  {
    if |ns| > 0 {
      var h := WalkNode(cfg, reject, ns[0], first);
      var t := WalkNodes(cfg, reject, ns[1..], h.first);
      WalkNodeClassified(cfg, reject, ns[0], first);
      WalkNodeFlag(cfg, reject, ns[0], first);
      WalkNodesClassified(cfg, reject, ns[1..], h.first);
      ParagraphsAppend(h.entities, t.entities);
      ClassifiedInOrderAppend(cfg, reject, Paragraphs(h.entities), Paragraphs(t.entities),
                              ParagraphNodesIn(reject, ns[0]), ParagraphNodes(reject, ns[1..]), first);
    }
  }

  lemma {:induction false} WalkNodeClassified(cfg: Config, reject: Reject, n: Node, first: bool)
    ensures ClassifiedInOrder(cfg, reject, Paragraphs(WalkNode(cfg, reject, n, first).entities),
                              ParagraphNodesIn(reject, n), first)
    decreases n
  {
    if reject(n).None? {
      if IsLeaf(n.kind) {
        ParagraphsOne(Convert(n));
      } else {
        var c := WalkNodes(cfg, reject, n.children, first);
        WalkNodesClassified(cfg, reject, n.children, first);
        WalkNodesFlag(cfg, reject, n.children, first);
        WalkNodesMirror(cfg, reject, n.children, first);
        CloseClassified(cfg, reject, n, c, first);
      }
    }
  }

  lemma CloseClassified(cfg: Config, reject: Reject, n: Node, c: WalkResult, first: bool)
    requires reject(n).None? && !IsLeaf(n.kind)
    requires ClassifiedInOrder(cfg, reject, Paragraphs(c.entities), ParagraphNodes(reject, n.children), first)
    requires c.first == (first && |Paragraphs(c.entities)| == 0)
    requires MirrorForest(cfg, reject, c.entities, n.children, None)
    ensures ClassifiedInOrder(cfg, reject, Paragraphs(Close(cfg, n, c).entities),
                              ParagraphNodesIn(reject, n), first)
  {
    var shell := Convert(n).(children := c.entities);
    if n.kind == Paragraph {
      var q := ParseCommand(cfg, shell, c.first).paragraph;
      ParagraphsOne(q);
      ClassifyKeepsInnerParagraphs(cfg, shell, c.first);
      ClassifiedParagraph(cfg, reject, n, c.entities, c.first);
      ClassifiedInOrderAppend(cfg, reject, Paragraphs(c.entities), [q],
                              ParagraphNodes(reject, n.children), [n], first);
    } else {
      ParagraphsOne(shell);
      assert Paragraphs(shell.children) + [] == Paragraphs(c.entities);
      assert ParagraphNodes(reject, n.children) + [] == ParagraphNodes(reject, n.children);
    }
  }

  /** The entity of a paragraph node, its children mirroring the node's, opens with a
      command exactly when the node does, and with the same word. */
  lemma ShellCommand(cfg: Config, reject: Reject, n: Node, es: seq<Entity>)
    requires n.kind == Paragraph && MirrorForest(cfg, reject, es, n.children, None)
    ensures var shell := Convert(n).(children := es);
      && (LeadsWithCommand(cfg, shell) <==> CommandOf(cfg, reject, n).Some?)
      && (LeadsWithCommand(cfg, shell) ==> CommandWord(cfg, shell) == CommandOf(cfg, reject, n).value)
      && (HasKnownCommand(cfg, shell) <==> KnownCommandOf(cfg, reject, n).Some?)
  {
    MirrorFirst(cfg, reject, es, n.children);
  }

  /** Classifying the entity of a paragraph node gives the node classified. */
  lemma ClassifiedParagraph(cfg: Config, reject: Reject, n: Node, es: seq<Entity>, first: bool)
    requires n.kind == Paragraph && MirrorForest(cfg, reject, es, n.children, None)
    ensures ClassifiedAs(cfg, reject, ParseCommand(cfg, Convert(n).(children := es), first).paragraph,
                         n, first)
  {
    ShellCommand(cfg, reject, n, es);
  }

  /** Without a known command of its own, the first paragraph of a comment is brief. */
  lemma FirstParagraphIsBrief(cfg: Config, reject: Reject, roots: seq<Node>)
    ensures var ps := Paragraphs(WalkNodes(cfg, reject, roots, true).entities);
      var pn := ParagraphNodes(reject, roots);
      |ps| == |pn| && (|ps| > 0 && KnownCommandOf(cfg, reject, pn[0]).None? ==> ps[0].section == Brief)
  {
    WalkNodesClassified(cfg, reject, roots, true);
  }

  /**
   With a command table that maps no word to the brief section, only the first paragraph
   of a comment can be brief: every later paragraph carries the details section or a
   command's section.
   */
  lemma OnlyFirstParagraphIsBrief(cfg: Config, reject: Reject, roots: seq<Node>)
    requires forall w :: cfg.trySection(w) != Brief
    ensures var ps := Paragraphs(WalkNodes(cfg, reject, roots, true).entities);
      forall j :: 0 < j < |ps| ==> ps[j].section != Brief
  {
    var ps := Paragraphs(WalkNodes(cfg, reject, roots, true).entities);
    var pn := ParagraphNodes(reject, roots);
    WalkNodesClassified(cfg, reject, roots, true);
    forall j | 0 < j < |ps|
      ensures ps[j].section != Brief
    {
      assert ClassifiedAs(cfg, reject, ps[j], pn[j], false);
    }
  }

  // ---------------------------------------------------------------------------------
  // The typed tree mirrors the block nodes that convert

  /** Entity `e` stands for node `n`: same type and position, no children for a leaf, and
      children mirroring the node's. Its text is the node's literal, except for the first
      child of a paragraph with a known command `w` (`strip` is `Some(w)`): then it is the
      literal with the command character, exactly the word `w` and the white space after
      it removed. */
  predicate MirrorNode(cfg: Config, reject: Reject, e: Entity, n: Node, strip: Option<string>)
    decreases n
  {
    && e.kind == n.kind && e.line == n.line && e.column == n.column
    && (match strip
        case None => e.text == n.literal
        case Some(w) => StripsCommand(n.literal, w, e.text))
    && (if IsLeaf(n.kind) then e.children == []
        else MirrorForest(cfg, reject, e.children, n.children, KnownCommandOf(cfg, reject, n)))
  }

  /** Entities `es` stand for the nodes of `ns` that are not rejected, in order; `strip`
      applies to the first of them. */
  predicate MirrorForest(cfg: Config, reject: Reject, es: seq<Entity>, ns: seq<Node>, strip: Option<string>)
    decreases ns
  {
    if |ns| == 0 then |es| == 0
    else if reject(ns[0]).Some? then MirrorForest(cfg, reject, es, ns[1..], strip)
    else |es| > 0 && MirrorNode(cfg, reject, es[0], ns[0], strip)
         && MirrorForest(cfg, reject, es[1..], ns[1..], None)
  }

  lemma MirrorForestAppend(cfg: Config, reject: Reject, a: seq<Entity>, b: seq<Entity>,
                           m: seq<Node>, ns: seq<Node>)
    requires MirrorForest(cfg, reject, a, m, None) && MirrorForest(cfg, reject, b, ns, None)
    ensures MirrorForest(cfg, reject, a + b, m + ns, None)
    decreases m
  {
    if |m| == 0 {
      assert m + ns == ns;
      assert a + b == b;
    } else {
      assert (m + ns)[1..] == m[1..] + ns;
      if reject(m[0]).Some? {
        MirrorForestAppend(cfg, reject, a, b, m[1..], ns);
      } else {
        assert (a + b)[1..] == a[1..] + b;
        MirrorForestAppend(cfg, reject, a[1..], b, m[1..], ns);
      }
    }
  }

  /** The first entity mirrors the first node that is not rejected, with its exact text. */
  lemma MirrorFirst(cfg: Config, reject: Reject, es: seq<Entity>, ns: seq<Node>)
    requires MirrorForest(cfg, reject, es, ns, None)
    ensures |es| > 0 <==> FirstSurvivor(reject, ns).Some?
    ensures |es| > 0 ==>
      && es[0].kind == FirstSurvivor(reject, ns).value.kind
      && es[0].text == FirstSurvivor(reject, ns).value.literal
    decreases ns
  {
    if |ns| > 0 && reject(ns[0]).Some? {
      MirrorFirst(cfg, reject, es, ns[1..]);
    }
  }

  /** Stripping command word `w` from the text of the first entity keeps the mirror, the
      first entity now being the first child of a paragraph with that command. */
  lemma MirrorStripped(cfg: Config, reject: Reject, es: seq<Entity>, ns: seq<Node>, w: string, t: string)
    requires MirrorForest(cfg, reject, es, ns, None) && |es| > 0
    requires StripsCommand(es[0].text, w, t)
    ensures MirrorForest(cfg, reject, [es[0].(text := t)] + es[1..], ns, Some(w))
    decreases ns
  {
    if reject(ns[0]).Some? {
      MirrorStripped(cfg, reject, es, ns[1..], w, t);
    } else {
      assert ([es[0].(text := t)] + es[1..])[1..] == es[1..];
    }
  }

  /** The entities the walk yields mirror the nodes not rejected on entry, their children
      mirroring the nodes' children, down to the leaves; in every paragraph with a known
      command, exactly that command is stripped from the first child's text. */
  lemma {:induction false} WalkNodesMirror(cfg: Config, reject: Reject, ns: seq<Node>, first: bool)
    ensures MirrorForest(cfg, reject, WalkNodes(cfg, reject, ns, first).entities, ns, None)
    decreases ns
  {
    if |ns| > 0 {
      var h := WalkNode(cfg, reject, ns[0], first);
      var t := WalkNodes(cfg, reject, ns[1..], h.first);
      WalkNodeMirror(cfg, reject, ns[0], first);
      WalkNodesMirror(cfg, reject, ns[1..], h.first);
      MirrorForestAppend(cfg, reject, h.entities, t.entities, [ns[0]], ns[1..]);
      assert [ns[0]] + ns[1..] == ns;
    }
  }

  lemma {:induction false} WalkNodeMirror(cfg: Config, reject: Reject, n: Node, first: bool)
    ensures MirrorForest(cfg, reject, WalkNode(cfg, reject, n, first).entities, [n], None)
    decreases n
  {
    assert [n][1..] == [];
    if reject(n).None? && !IsLeaf(n.kind) {
      var c := WalkNodes(cfg, reject, n.children, first);
      WalkNodesMirror(cfg, reject, n.children, first);
      CloseMirror(cfg, reject, n, c);
    }
  }

  lemma CloseMirror(cfg: Config, reject: Reject, n: Node, c: WalkResult)
    requires reject(n).None? && !IsLeaf(n.kind)
    requires MirrorForest(cfg, reject, c.entities, n.children, None)
    ensures MirrorForest(cfg, reject, Close(cfg, n, c).entities, [n], None)
  {
    assert [n][1..] == [];
    var shell := Convert(n).(children := c.entities);
    var e := Close(cfg, n, c).entities[0];
    assert Close(cfg, n, c).entities[1..] == [];
    if n.kind == Paragraph {
      ShellCommand(cfg, reject, n, c.entities);
      if HasKnownCommand(cfg, shell) {
        var q := ParseCommand(cfg, shell, c.first).paragraph;
        var w := CommandWord(cfg, shell);
        MirrorStripped(cfg, reject, c.entities, n.children, w, q.children[0].text);
        assert q.children == [c.entities[0].(text := q.children[0].text)] + c.entities[1..];
      }
    }
    assert MirrorNode(cfg, reject, e, n, None);
  }

  // ---------------------------------------------------------------------------------
  // The block tree keeps the nodes that convert and classify

  /** A paragraph whose classification fails: it opens with a command word the table does
      not know. */
  predicate FailsOnExit(cfg: Config, reject: Reject, n: Node) {
    && n.kind == Paragraph
    && CommandOf(cfg, reject, n).Some?
    && cfg.trySection(CommandOf(cfg, reject, n).value) == Invalid
  }

  /** The block tree without the nodes rejected on entry and the paragraphs whose
      classification fails, each with its whole subtree. */
  function Prune(cfg: Config, reject: Reject, ns: seq<Node>): seq<Node>
    decreases ns
  {
    if |ns| == 0 then []
    else if reject(ns[0]).Some? || FailsOnExit(cfg, reject, ns[0]) then Prune(cfg, reject, ns[1..])
    else [PruneNode(cfg, reject, ns[0])] + Prune(cfg, reject, ns[1..])
  }

  function PruneNode(cfg: Config, reject: Reject, n: Node): Node
    decreases n
  {
    if IsLeaf(n.kind) then n else n.(children := Prune(cfg, reject, n.children))
  }

  /** The walk keeps in the block tree exactly the pruned tree. */
  lemma {:induction false} WalkNodesPrunes(cfg: Config, reject: Reject, ns: seq<Node>, first: bool)
    ensures WalkNodes(cfg, reject, ns, first).kept == Prune(cfg, reject, ns)
    decreases ns
  {
    if |ns| > 0 {
      var h := WalkNode(cfg, reject, ns[0], first);
      WalkNodePrunes(cfg, reject, ns[0], first);
      WalkNodesPrunes(cfg, reject, ns[1..], h.first);
    }
  }

  lemma {:induction false} WalkNodePrunes(cfg: Config, reject: Reject, n: Node, first: bool)
    ensures WalkNode(cfg, reject, n, first).kept
      == if reject(n).Some? || FailsOnExit(cfg, reject, n) then [] else [PruneNode(cfg, reject, n)]
    decreases n
  {
    if reject(n).None? && !IsLeaf(n.kind) {
      var c := WalkNodes(cfg, reject, n.children, first);
      WalkNodesPrunes(cfg, reject, n.children, first);
      WalkNodesMirror(cfg, reject, n.children, first);
      ClosePrunes(cfg, reject, n, c);
    }
  }

  lemma ClosePrunes(cfg: Config, reject: Reject, n: Node, c: WalkResult)
    requires !IsLeaf(n.kind)
    requires c.kept == Prune(cfg, reject, n.children)
    requires MirrorForest(cfg, reject, c.entities, n.children, None)
    ensures Close(cfg, n, c).kept
      == if FailsOnExit(cfg, reject, n) then [] else [n.(children := Prune(cfg, reject, n.children))]
  {
    CloseFails(cfg, reject, n, c);
  }

  /** Classification of a container fails exactly for the paragraphs `FailsOnExit`
      names, and the error is at the paragraph's position. */
  lemma CloseFails(cfg: Config, reject: Reject, n: Node, c: WalkResult)
    requires !IsLeaf(n.kind)
    requires MirrorForest(cfg, reject, c.entities, n.children, None)
    ensures |Close(cfg, n, c).errors| == |c.errors| + (if FailsOnExit(cfg, reject, n) then 1 else 0)
    ensures FailsOnExit(cfg, reject, n) ==>
      var e := Close(cfg, n, c).errors[|c.errors|]; e.line == n.line && e.column == n.column
    ensures FailsOnExit(cfg, reject, n) <==> Close(cfg, n, c).kept == []
  {
    if n.kind == Paragraph {
      var shell := Convert(n).(children := c.entities);
      ShellCommand(cfg, reject, n, c.entities);
      assert ParseCommand(cfg, shell, c.first).error.Some? <==> FailsOnExit(cfg, reject, n);
    }
  }

  // ---------------------------------------------------------------------------------
  // One warning per removed node

  /** The number of nodes the walk removes from the block tree: the nodes rejected on
      entry (whose subtrees are never visited) and the paragraphs whose classification
      fails. */
  function Removed(cfg: Config, reject: Reject, ns: seq<Node>): nat
    decreases ns
  {
    if |ns| == 0 then 0 else RemovedIn(cfg, reject, ns[0]) + Removed(cfg, reject, ns[1..])
  }

  function RemovedIn(cfg: Config, reject: Reject, n: Node): nat
    decreases n
  {
    if reject(n).Some? then 1
    else if IsLeaf(n.kind) then 0
    else Removed(cfg, reject, n.children) + (if FailsOnExit(cfg, reject, n) then 1 else 0)
  }

  /** The walk logs one warning for every node it removes. */
  lemma {:induction false} WalkNodesWarnings(cfg: Config, reject: Reject, ns: seq<Node>, first: bool)
    ensures |WalkNodes(cfg, reject, ns, first).errors| == Removed(cfg, reject, ns)
    decreases ns
  {
    if |ns| > 0 {
      var h := WalkNode(cfg, reject, ns[0], first);
      WalkNodeWarnings(cfg, reject, ns[0], first);
      WalkNodesWarnings(cfg, reject, ns[1..], h.first);
    }
  }

  lemma {:induction false} WalkNodeWarnings(cfg: Config, reject: Reject, n: Node, first: bool)
    ensures |WalkNode(cfg, reject, n, first).errors| == RemovedIn(cfg, reject, n)
    decreases n
  {
    if reject(n).None? && !IsLeaf(n.kind) {
      var c := WalkNodes(cfg, reject, n.children, first);
      WalkNodesWarnings(cfg, reject, n.children, first);
      WalkNodesMirror(cfg, reject, n.children, first);
      CloseFails(cfg, reject, n, c);
    }
  }
}
