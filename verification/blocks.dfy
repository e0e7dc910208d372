/**
 The data the comment front end works on: the block tree built by the markdown parser, the
 typed documentation entities made from it, the configuration and the parse errors.
 */
module Blocks {

  /** Node types of the block tree. The document node is not among them: it is the implicit
      root, and the block parser puts a document node nowhere else. */
  datatype Kind =
    | BlockQuote | List | Item | CodeBlock | HtmlBlock | Paragraph | Heading | ThematicBreak
    | Text | SoftBreak | LineBreak | Code | HtmlInline | Emph | Strong | Link | Image

  /** Leaf types are visited once (entered, never exited); all others are containers. */
  predicate IsLeaf(k: Kind) {
    match k
    case CodeBlock | HtmlBlock | ThematicBreak | Text | SoftBreak | LineBreak | Code | HtmlInline => true
    case _ => false
  }

  /** A block or inline node: its type, literal text, start position and children. */
  datatype Node = Node(kind: Kind, literal: string, line: nat, column: nat, children: seq<Node>)

  /** Documentation section kinds; `Invalid` is what the command lookup answers for an
      unknown command word. */
  datatype Section =
    | Brief | Details | Parameter | TemplateParameter | BaseClass | Return | Effects | Notes
    | Requires | See | Module | Group | Exclude | UniqueName | OutputSection | Invalid

  /** A typed documentation entity. `section` and `title` matter for paragraphs only. */
  datatype Entity = Entity(kind: Kind, text: string, section: Section, title: string,
                           line: nat, column: nat, children: seq<Entity>)

  /** The recoverable error of the comment parser, with the position it concerns. */
  datatype ParseError = ParseError(message: string, line: nat, column: nat)

  /**
   The configuration the front end reads: the command character, whether every line is its
   own paragraph, the command lookup (word to section, `Invalid` when unknown) and the
   section titles. The lookup and the titles are configurable tables, kept abstract.
   */
  datatype Config = Config(commandChar: char, implicitParagraph: bool,
                           trySection: string -> Section, sectionName: Section -> string)

  /** The entity a block node converts to, before any child is attached and before any
      paragraph is classified. */
  function Convert(n: Node): Entity {
    Entity(n.kind, n.literal, Details, "", n.line, n.column, [])
  }
}
