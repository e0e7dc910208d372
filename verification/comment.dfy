/**
 Parsing one raw comment: the text is fed line by line to the markdown block parser, and
 the block tree it returns is walked into the typed comment.
 */
module Comment {
  import opened Wrappers
  import opened Blocks
  import opened Chunking
  import opened Walk
  import opened WalkFacts

  /** The markdown block parser: the chunks fed to it, in order, give the children of the
      document node it builds. The block parser is not part of this model. */
  type BlockParser = seq<string> -> seq<Node>

  /** A parsed comment: its top-level entities, and the warnings logged on the way. */
  datatype Parsed = Parsed(children: seq<Entity>, warnings: seq<ParseError>)

  /**
   Parses a raw comment. The block parser sees the chunks of the comment text up to its
   first NUL character, and the comment gets what the reference walk yields for the
   document's children: entities mirroring the nodes that convert, with exactly the known
   command stripped from each paragraph that opens with one, and every paragraph carrying
   the section of its own known command, or else the default (brief for the first
   paragraph only). The warnings are those of the walk, one for each node removed.
   */
  method Parse(cfg: Config, build: BlockParser, reject: Reject, raw: string) returns (r: Parsed)
    ensures var roots := build(Chunks(CString(raw), cfg.implicitParagraph));
      && r.children == WalkNodes(cfg, reject, roots, true).entities
      && r.warnings == WalkNodes(cfg, reject, roots, true).errors
    ensures var roots := build(Chunks(CString(raw), cfg.implicitParagraph));
      && MirrorForest(cfg, reject, r.children, roots, None)
      && ClassifiedInOrder(cfg, reject, Paragraphs(r.children), ParagraphNodes(reject, roots), true)
  {
    var fed := ParseDocument(raw, cfg.implicitParagraph);
    var roots := build(fed);
    var children, warnings := ParseChildren(cfg, reject, roots);
    WalkNodesMirror(cfg, reject, roots, true);
    WalkNodesClassified(cfg, reject, roots, true);
    r := Parsed(children, warnings);
  }
}
