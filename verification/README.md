# Comment front end of standardese, in Dafny

This project models the front end that standardese, a C++ documentation generator, uses
to parse one raw documentation comment (`src/comment.cpp`). It has four pieces:

- **Decoration stripping** (`skip_comment`). Each line of the comment loses its leading
  blanks, one run of `/` and the blanks after it.
- **Line chunking** (`parse_document`). The comment, read as a C string, is cut at
  newlines. Each line is stripped and fed to the markdown block parser as one chunk, with
  its newline. The last line is fed without a newline. With implicit paragraphs, an extra
  `"\n"` chunk follows every newline-terminated line.
- **Paragraph classification** (`parse_command`). A paragraph gets a default section:
  brief for the first paragraph classified, details afterwards. If its first inline is
  plain text that starts with the command character, the command word is looked up. An
  unknown word is an error at the paragraph's position. A known word is stripped from the
  text, with the command character and the white space after it. It then sets the section
  and its title.
- **Tree walk with error pruning** (`parse_children`, `remove_node`). The block tree is
  walked with enter and exit events and a stack of open containers. Every node is converted
  to a typed entity. Children of the document are buffered and appended at the end.
  Deeper entities go to the innermost open container. Paragraphs are classified on exit. A
  node whose conversion or classification fails is logged and unlinked from the block
  tree, and the iterator resumes at the node's next sibling.

`md_comment::parse` composes chunking, the block parser and the walk (`Comment.Parse`).

Modules:

- `Decoration`: the scan, checked against an independent recogniser of
  `[ \t]* ('/'+ [ \t]*)?`.
- `Chunking`: the feeding loop, checked against a line-by-line reference definition of the
  chunk sequence.
- `Blocks`: block nodes, entities, sections and the configuration.
- `Command`: classification of one paragraph.
- `Iterator`: the block parser's enter/exit iterator over paths in the tree, and removal
  during iteration.
- `Walk`: a recursive reference walk, and the event loop with its explicit stack, proved
  to agree.
- `WalkFacts`: what the walk guarantees.
- `Comment`: the composition.

Four things stay abstract:

- the markdown block parser: a function from the fed chunks to the document's children;
- the conversion of a block node to an entity: an oracle that may reject a node with an
  error;
- the command lookup: a function from word to section, `Invalid` when unknown;
- the section titles: a function from section to title.

## Model

| member | source | states |
|---|---|---|
| `Decoration.SkipComment` | src/comment.cpp:30-43 | The scan stops exactly at the end of the longest prefix of the form `[ \t]* ('/'+ [ \t]*)?`. Everything skipped is a space, a tab or `/`, so it never crosses a newline or the end of the string. The first character not skipped is not a space or a tab. |
| `Decoration.SkipBlanks` | src/comment.cpp:32-33 | The blank loop passes spaces and tabs only, and stops at the first character that is neither. It keeps the scan on course for the longest decoration. |
| `Decoration.SkipSlashes` | src/comment.cpp:37-38 | The slash loop passes `/` only, and stops at the first character that is not `/`. From there the scan goes on as the recogniser does after the run of slashes. |
| `Decoration.DecorationLengthIsLongestDecoration` | src/comment.cpp:30-43 | The length the scan skips is a decoration, and one more character would not be. |
| `Decoration.DecorationStopsAt` | src/comment.cpp:30-43 | The decoration of a line never reaches past a character that cannot be part of it, such as a newline, and only depends on the text before it. |
| `Decoration.RunOnlyDecorationChars` | src/comment.cpp:30-43 | A decoration consists of spaces, tabs and `/` only. |
| `Chunking.CStringLength` | src/comment.cpp:54 | The loop reads the comment up to its first NUL character. |
| `Chunking.ParseDocument` | src/comment.cpp:45-84 | The chunks fed are those of the reference definition for the text before the first NUL. There are two per newline plus one with implicit paragraphs, and one per newline plus one without. |
| `Chunking.FeedLine` | src/comment.cpp:56-70 | At a newline, the line is fed with its newline, plus an extra `"\n"` with implicit paragraphs. The next line's decoration is then skipped. The chunks fed so far, followed by those of the rest of the text, are still all the chunks. |
| `Chunking.ChunkCount` | src/comment.cpp:60-70 | The number of chunks is newlines + 1, or 2·newlines + 1 with implicit paragraphs. |
| `Chunking.ChunkShape` | src/comment.cpp:56-70 | With or without implicit paragraphs, every chunk but the last ends in a newline and holds no other. The last chunk holds no newline. |
| `Chunking.ChunksReassemble` | src/comment.cpp:53-81 | Putting each line's removed decoration back in front of its chunk gives the text back. So the chunks are the lines with their decoration removed and every newline kept. |
| `Chunking.DecorationsHaveShape` | src/comment.cpp:53-61 | What is removed from each line is a decoration. |
| `Chunking.ChunksKeepNewlines` | src/comment.cpp:56-63 | Without implicit paragraphs, the concatenated chunks hold exactly the newlines of the text. |
| `Chunking.ImplicitParagraphChunks` | src/comment.cpp:65-70 | With implicit paragraphs, the chunks are those without, plus an extra `"\n"` after every newline-terminated line chunk but not after the last line. |
| `Command.WordLength` | src/comment.cpp:137-140 | The command word runs up to the first white space, or to the end of the text. |
| `Command.SpaceLength` | src/comment.cpp:149-151 | The white space after the word is skipped up to the first character that is not white space. |
| `Command.ParseCommand` | src/comment.cpp:116-157 | Described after this table. |
| `Command.StrippedTextReassembles` | src/comment.cpp:148-154 | The old text is the command character, the word, white space and the new text, in that order. |
| `Command.ScanToSpace` | src/comment.cpp:139-140 | The scan as written stops at white space only. |
| `Command.CommandScanOverrunsText` | src/comment.cpp:139-140 | For a text that is just the command character and a word, the scan as written passes the terminating NUL. `WordLength` stops at the end of the text. |
| `Iterator.UnlinkRemovesFromParent` | src/comment.cpp:102 | Unlinking removes exactly the node from its parent's children and keeps the other siblings in order. The parent is otherwise unchanged. |
| `Iterator.UnlinkKeepsOtherNodes` | src/comment.cpp:102 | Above the parent, only the path to the removed node changes. At every depth the other siblings are the same nodes as before. The node on the path keeps its type, literal and position. With `UnlinkRemovesFromParent` this fixes the whole tree after unlinking. |
| `Iterator.RemoveNodeResumesAtNextSibling` | src/comment.cpp:96-114 | The contract of `Iterator.RemoveNode`, which models `remove_node`. After a removal, the parent's children are the old ones without the removed node. The iterator, reset to the previous sibling's exit or the parent's enter, next enters the removed node's next sibling, now at the removed node's path. If there is none, it next exits the parent. |
| `Iterator.NextSiblingMoves` | src/comment.cpp:102 | After unlinking, the removed node's next sibling sits at the removed node's path. |
| `Iterator.ResumeAfterPrevious` | src/comment.cpp:103-105 | Resuming at the previous sibling's exit moves on to the following sibling or out of the parent. |
| `Iterator.ResumeAtParent` | src/comment.cpp:106-109 | Resuming at the parent's enter moves on to its first child, or out of it if it has none. |
| `Walk.ProcessTraceNodes` | src/comment.cpp:170-199 | Described after this table. |
| `Walk.ProcessTraceNode` | src/comment.cpp:177-199 | The contract of `Walk.ProcessVisit`, the loop body, over all of one node's events. They do what the reference walk does for the node. |
| `Walk.ExitCloses` | src/comment.cpp:192-199 | On exit, the innermost open container is popped and classified if it is a paragraph. It is then placed where it belongs. |
| `Walk.ParseChildren` | src/comment.cpp:159-212 | Described after this table. |
| `WalkFacts.WalkNodesFlag` | src/comment.cpp:119-122 | After the walk the brief flag is set exactly when it was set before and no paragraph was classified. So it is consumed by the first paragraph, whether or not that paragraph has a valid command. |
| `WalkFacts.WalkNodesClassified` | src/comment.cpp:118-156 | Described after this table. |
| `WalkFacts.ClassifiedParagraph` | src/comment.cpp:118-156 | Classifying a paragraph's entity gives the paragraph node classified. It carries the section of the node's own known command, or else the default. It also carries that section's title and the node's position. |
| `WalkFacts.ShellCommand` | src/comment.cpp:123-140 | A paragraph's entity opens with a command exactly when its node does, and with the same word. The word is read off the node's first child that survived conversion. |
| `WalkFacts.FirstParagraphIsBrief` | src/comment.cpp:118-122 | The first paragraph of a comment is brief unless it has a known command of its own. |
| `Command.StripsCommandDetermined` | src/comment.cpp:148-154 | Stripping a given word leaves exactly one text: what follows the word and all the white space after it. |
| `WalkFacts.ClassifyKeepsInnerParagraphs` | src/comment.cpp:149-154 | Stripping a command changes no paragraph inside the classified one. |
| `WalkFacts.OnlyFirstParagraphIsBrief` | src/comment.cpp:118-122 | If no command word maps to brief, no paragraph after the first is brief. |
| `WalkFacts.WalkNodesMirror` | src/comment.cpp:179-190 | Described after this table. |
| `WalkFacts.WalkNodesPrunes` | src/comment.cpp:202-206 | The block tree keeps exactly the nodes that are neither rejected on entry nor paragraphs whose command word is unknown. Each removed node goes with its subtree, and the kept nodes stay in order. |
| `WalkFacts.CloseFails` | src/comment.cpp:142-146 | Described after this table. |
| `WalkFacts.WalkNodesWarnings` | src/comment.cpp:202-206 | The walk logs one warning for every node it removes. |
| `Comment.Parse` | src/comment.cpp:215-223 | Described after this table. |

The longer rows:

- `Command.ParseCommand`:
  - Kind, text, position and the number of children are kept.
  - The title is that of the section.
  - There is an error exactly when the first child is a text that opens with the command
    character and an unknown word. The error is at the paragraph's start position.
  - Without a known command, the section is the default (brief exactly when the flag is
    set) and the children are untouched.
  - With a known command, the section is the one looked up. Only the first child's text
    changes: it becomes the suffix after the character, the word and the following white
    space, and does not start with white space.
- `Walk.ProcessTraceNodes`:
  - The event loop over the events of some siblings never meets an exit without an open
    container.
  - It leaves the container stack as it found it.
  - It buffers or attaches to the innermost open container what the reference walk yields.
  - It threads the brief flag and logs the same errors.
- `Walk.ParseChildren`: the walk over the document's children hands the comment the
  reference walk's entities and errors, in document order.
- `WalkFacts.WalkNodesClassified`:
  - The paragraphs of the typed tree, at any depth and in post-order, correspond one to one
    with the paragraph nodes that are not inside a rejected node.
  - The command word of each is read off its own node: the first child that is not
    rejected is a text opening with the command character.
  - A paragraph whose word the table knows carries that word's section.
  - Any other paragraph carries the default section. That is brief for the first paragraph
    when the flag was set at the start, and details for every later one.
  - Each carries its section's title and its node's position.
- `WalkFacts.WalkNodesMirror`:
  - The typed tree mirrors the nodes not rejected on entry: same type and position, the
    node's literal as text, down to the leaves.
  - In a paragraph with a known command, the first child's text is the literal with the
    command character, exactly that word and all the white space after it removed.
  - Every other text is the literal unchanged.
  - A paragraph whose classification failed stays in the typed tree.
- `WalkFacts.CloseFails`:
  - Classification of a container fails exactly when it is a paragraph whose first
    surviving child is a text opening with the command character and an unknown word.
  - The error then carries the paragraph's position.
  - The node is then dropped from the block tree.
- `Comment.Parse`:
  - The block parser gets the chunks of the comment text.
  - The comment's children are the reference walk's entities for the document's children,
    and the warnings are its errors.
  - The typed tree mirrors the nodes that convert, with exactly the known command stripped
    from each paragraph that opens with one.
  - Each paragraph carries the section of its own known command, or else the default. The
    default is brief for the first paragraph only.

## Left out

- The markdown block and inline parser (`cmark_parser_new`, `cmark_parser_feed`,
  `cmark_parser_finish`, normalisation): it is an external library. `Comment.Parse` takes
  it as a function from the fed chunks to the document's children.
- `md_entity::try_parse`, `is_container` and the `md_*` entity classes: their sources are
  not part of this model.
  - Conversion is an oracle that may reject a node with an error.
  - A node that converts becomes an entity of its own type, text and position.
  - Leafness is decided by node type, following the block parser's iterator, which exits
    only non-leaf nodes.
- The `Reject` oracle sees only the node. `md_entity::try_parse` also receives the
  innermost open container (line 181). The model does not let conversion depend on it.
- Strings are sequences of Dafny `char`, while the source scans C `char` bytes.
  `Command.IsSpace` is `std::isspace` in the C locale, read on a byte. Every delimiter the
  code tests is ASCII: blank, tab, `/`, newline, NUL and the command character. So the
  results agree when each char is read as a byte.
- `try_get_section` and `get_section_name`: configurable tables, kept as abstract functions
  in `Config`.
- Logging of warnings (lines 204-205) is left out. The errors are returned in order
  instead, and the comment's name only appears in the log message.
- Memory management is left out: the deleters, wrappers and `cmark_node_free`
  (lines 20-28, 86-94, 113).
- `Walk.ParseChildren` does not state the identity of typed entities.
  - The source attaches an entity to its parent on enter and fills it in through a pointer.
  - The model builds entities as values and places a container's entity when it is exited.
  - The order of children is the same either way.
- `Walk.ParseChildren`: the events are those of `TraceNodes`, the order in which the
  block parser's iterator visits the tree, skipping a removed node's subtree. The
  `Iterator` module proves the removal step and defines the step function. It does not
  prove that iterating `Iterator.Next` from the document yields exactly `TraceNodes`.
- The document node is the implicit root of the tree. It is never entered or exited, which
  is what the skip at lines 173-175 achieves.
- `Command.ParseCommand`:
  - The command-word loop at lines 139-140 has no end-of-string guard. The model stops at
    the end of the text (see Findings).
  - An empty paragraph keeps its default section. The source dereferences its first child
    without checking (line 124).
- `Chunking.ParseDocument`: the comment text after a NUL character is ignored, as the
  source's loop condition does.
- The end-to-end tests of the newer documentation pipeline are left out, along with link
  resolution, anchors and group handling. None of them is implemented by this file.

## Findings

| source | as written | input that shows it | evidently intended | confidence | as-written member | corrected member |
|---|---|---|---|---|---|---|
| src/comment.cpp:139-140 | The command word is read with `while (!std::isspace(*str))`. Nothing stops it at the NUL that ends the text. | A paragraph whose text is the command character and a word with nothing after it, e.g. a paragraph holding only a command. The scan passes the end of the text and reads memory beyond it. | Stop the word at the end of the text. | high, not executed | `Command.CommandScanOverrunsText` | `Command.WordLength` |
