/**
 Splitting a raw comment into the chunks that are fed to the block parser.

 The raw comment is read as a C string, up to its first NUL. Every line loses its
 decoration (see `Decoration`), every line but the last is fed together with its newline,
 the last line is fed without one (possibly empty), and with implicit paragraphs an extra
 newline is fed after every newline-terminated line so that each line ends a block.
 */
module Chunking {
  import opened Decoration

  /** Length of `s` read as a C string: the index of its first NUL, or its length. */
  function CStringLength(s: string): (n: nat)
    ensures n <= |s|
    ensures forall k :: 0 <= k < n ==> s[k] != '\0'
    ensures n < |s| ==> s[n] == '\0'
  {
    if |s| == 0 || s[0] == '\0' then 0
    else
      var m := CStringLength(s[1..]);
      assert forall k :: 1 <= k < 1 + m ==> s[k] == s[1..][k - 1];
      1 + m
  }

  /** The part of the raw comment the scanner reads. */
  function CString(s: string): string {
    s[..CStringLength(s)]
  }

  /** Index of the first newline of `t`, or `|t|` if there is none. */
  function FirstNewline(t: string): (k: nat)
    ensures k <= |t|
  {
    if |t| == 0 || t[0] == '\n' then 0 else 1 + FirstNewline(t[1..])
  }

  /** `FirstNewline` finds the first newline: none before it, one at it unless at the end. */
  lemma {:induction false} FirstNewlineIsFirst(t: string)
    ensures NoNewline(t[..FirstNewline(t)])
    ensures FirstNewline(t) < |t| ==> t[FirstNewline(t)] == '\n'
  {
    if |t| > 0 && t[0] != '\n' {
      FirstNewlineIsFirst(t[1..]);
      assert t[..FirstNewline(t)] == [t[0]] + t[1..][..FirstNewline(t[1..])];
    }
  }

  /** Conversely, the first newline is found wherever it is. */
  lemma FirstNewlineAt(t: string, k: nat)
    requires k <= |t| && NoNewline(t[..k]) && (k < |t| ==> t[k] == '\n')
    ensures FirstNewline(t) == k
  {
    var f := FirstNewline(t);
    FirstNewlineIsFirst(t);
    forall j | 0 <= j < k
      ensures t[j] != '\n'
    {
      assert t[..k][j] == t[j];
    }
    forall j | 0 <= j < f
      ensures t[j] != '\n'
    {
      assert t[..f][j] == t[j];
    }
  }

  function NewlineCount(t: string): nat {
    if |t| == 0 then 0 else (if t[0] == '\n' then 1 else 0) + NewlineCount(t[1..])
  }

  /** A line without its decoration. */
  function Strip(line: string): string {
    line[DecorationLength(line)..]
  }

  /** The decoration of a line, i.e. what `Strip` removes. */
  function DecorationOf(line: string): string {
    line[..DecorationLength(line)]
  }

  /** The chunks fed for the text `t`, in order (reference definition, line by line). */
  function Chunks(t: string, implicitParagraph: bool): (cs: seq<string>)
    decreases |t|
  {
    var k := FirstNewline(t);
    if k == |t| then [Strip(t)]
    else LineChunks(Strip(t[..k]) + "\n", implicitParagraph) + Chunks(t[k + 1..], implicitParagraph)
  }

  /** What is fed for a line that a newline ends: the line with its newline, then, with
      implicit paragraphs, a newline of its own that ends the paragraph. */
  function LineChunks(line: string, implicitParagraph: bool): seq<string> {
    if implicitParagraph then [line, "\n"] else [line]
  }

  /** The decorations removed from the lines of `t`, one per line. */
  function Decorations(t: string): (ds: seq<string>)
    decreases |t|
  {
    var k := FirstNewline(t);
    if k == |t| then [DecorationOf(t)]
    else [DecorationOf(t[..k])] + Decorations(t[k + 1..])
  }

  /** The concatenation of a sequence of strings. */
  function Concat(cs: seq<string>): string {
    if |cs| == 0 then [] else cs[0] + Concat(cs[1..])
  }

  /** `ds[0] + cs[0] + ds[1] + cs[1] + ...`. */
  function Weave(ds: seq<string>, cs: seq<string>): string
    requires |ds| == |cs|
  {
    if |ds| == 0 then [] else ds[0] + cs[0] + Weave(ds[1..], cs[1..])
  }

  /** A line chunk followed by one extra newline chunk, except after the last. */
  function WithBlankLines(cs: seq<string>): seq<string>
    requires |cs| >= 1
  {
    if |cs| == 1 then cs else [cs[0], "\n"] + WithBlankLines(cs[1..])
  }

  predicate NoNewline(c: string) {
    forall j :: 0 <= j < |c| ==> c[j] != '\n'
  }

  /** A chunk fed for a line that a newline ended. */
  predicate IsLineChunk(c: string) {
    |c| >= 1 && c[|c| - 1] == '\n' && NoNewline(c[..|c| - 1])
  }

  lemma NewlineCountAppend(a: string, b: string)
    ensures NewlineCount(a + b) == NewlineCount(a) + NewlineCount(b)
  {
    if |a| > 0 {
      assert (a + b)[0] == a[0];
      assert (a + b)[1..] == a[1..] + b;
      NewlineCountAppend(a[1..], b);
    } else {
      assert a + b == b;
    }
  }

  lemma NewlineCountAtFirst(t: string)
    ensures FirstNewline(t) == |t| ==> NewlineCount(t) == 0
    ensures FirstNewline(t) < |t| ==> NewlineCount(t) == 1 + NewlineCount(t[FirstNewline(t) + 1..])
    decreases |t|
  {
    if |t| > 0 && t[0] != '\n' {
      NewlineCountAtFirst(t[1..]);
      if FirstNewline(t) < |t| {
        assert t[1..][FirstNewline(t[1..]) + 1..] == t[FirstNewline(t) + 1..];
      }
    }
  }

  /** Stripping never crosses a newline: a stripped line still has none. */
  lemma StripKeepsLine(line: string)
    requires NoNewline(line)
    ensures NoNewline(Strip(line))
    ensures DecorationOf(line) + Strip(line) == line
    ensures IsDecoration(DecorationOf(line))
  {
    DecorationLengthIsLongestDecoration(line);
  }

  /** Chunk count: one per line, plus one blank line per newline with implicit paragraphs. */
  lemma {:induction false} ChunkCount(t: string, implicitParagraph: bool)
    ensures |Chunks(t, implicitParagraph)|
      == (if implicitParagraph then 2 else 1) * NewlineCount(t) + 1
    decreases |t|
  {
    NewlineCountAtFirst(t);
    var k := FirstNewline(t);
    if k < |t| {
      ChunkCount(t[k + 1..], implicitParagraph);
    }
  }

  /** With or without implicit paragraphs, every chunk but the last ends in a newline and
      holds no other, and the last one holds no newline. */
  lemma {:induction false} ChunkShape(t: string, implicitParagraph: bool)
    ensures var cs := Chunks(t, implicitParagraph);
      && (forall j :: 0 <= j < |cs| - 1 ==> IsLineChunk(cs[j]))
      && NoNewline(cs[|cs| - 1])
    decreases |t|
  {
    var k := FirstNewline(t);
    FirstNewlineIsFirst(t);
    if k == |t| {
      assert t[..k] == t;
      StripKeepsLine(t);
    } else {
      StripKeepsLine(t[..k]);
      ChunkShape(t[k + 1..], implicitParagraph);
      var c := Strip(t[..k]) + "\n";
      assert IsLineChunk(c);
      assert IsLineChunk("\n") by {
        assert "\n"[..0] == [];
      }
      var line := LineChunks(c, implicitParagraph);
      assert forall j :: 0 <= j < |line| ==> IsLineChunk(line[j]);
      var rest := Chunks(t[k + 1..], implicitParagraph);
      var cs := Chunks(t, implicitParagraph);
      assert cs == line + rest;
      forall j | 0 <= j < |cs| - 1
        ensures IsLineChunk(cs[j])
      {
        if j >= |line| {
          assert cs[j] == rest[j - |line|];
        }
      }
    }
  }

  /** The removed decorations woven back between the chunks give the text back: chunking
      without implicit paragraphs loses nothing but the decorations, and keeps every
      newline. */
  lemma {:induction false} ChunksReassemble(t: string)
    ensures |Decorations(t)| == |Chunks(t, false)|
    ensures Weave(Decorations(t), Chunks(t, false)) == t
    decreases |t|
  {
    var k := FirstNewline(t);
    FirstNewlineIsFirst(t);
    if k == |t| {
      assert t[..k] == t;
      StripKeepsLine(t);
      assert Weave(Decorations(t), Chunks(t, false)) == DecorationOf(t) + Strip(t) + [];
    } else {
      ChunksReassemble(t[k + 1..]);
      ReassembleLine(t, k);
    }
  }

  lemma ReassembleLine(t: string, k: nat)
    requires k == FirstNewline(t) < |t|
    requires |Decorations(t[k + 1..])| == |Chunks(t[k + 1..], false)|
    requires Weave(Decorations(t[k + 1..]), Chunks(t[k + 1..], false)) == t[k + 1..]
    ensures |Decorations(t)| == |Chunks(t, false)|
    ensures Weave(Decorations(t), Chunks(t, false)) == t
  {
    var line, rest := t[..k], t[k + 1..];
    LineCons(t, k);
    WeaveCons(DecorationOf(line), Strip(line) + "\n", Decorations(rest), Chunks(rest, false));
    FirstNewlineIsFirst(t);
    StripKeepsLine(line);
    JoinLine(t, k, DecorationOf(line), Strip(line));
  }

  /** The decorations and chunks of a text with a newline: those of its first line, then
      those of the rest. */
  lemma LineCons(t: string, k: nat)
    requires k == FirstNewline(t) < |t|
    ensures Decorations(t) == [DecorationOf(t[..k])] + Decorations(t[k + 1..])
    ensures Chunks(t, false) == [Strip(t[..k]) + "\n"] + Chunks(t[k + 1..], false)
  {
    DecorationsCons(t, k);
    ChunksCons(t, k);
  }

  lemma DecorationsCons(t: string, k: nat)
    requires k == FirstNewline(t) < |t|
    ensures Decorations(t) == [DecorationOf(t[..k])] + Decorations(t[k + 1..])
  {
  }

  lemma ChunksCons(t: string, k: nat)
    requires k == FirstNewline(t) < |t|
    ensures Chunks(t, false) == [Strip(t[..k]) + "\n"] + Chunks(t[k + 1..], false)
  {
  }

  lemma WeaveCons(d: string, c: string, ds: seq<string>, cs: seq<string>)
    requires |ds| == |cs|
    ensures Weave([d] + ds, [c] + cs) == d + c + Weave(ds, cs)
  {
    assert ([d] + ds)[1..] == ds && ([c] + cs)[1..] == cs;
  }

  /** A line split in two, its newline and the rest give the text back. */
  lemma JoinLine(t: string, k: nat, a: string, b: string)
    requires k < |t| && t[k] == '\n' && a + b == t[..k]
    ensures a + (b + "\n") + t[k + 1..] == t
  {
    assert t == t[..k] + [t[k]] + t[k + 1..];
  }

  /** Each removed decoration has the decoration shape. */
  lemma {:induction false} DecorationsHaveShape(t: string)
    ensures forall j :: 0 <= j < |Decorations(t)| ==> IsDecoration(Decorations(t)[j])
    decreases |t|
  {
    var k := FirstNewline(t);
    if k == |t| {
      DecorationLengthIsLongestDecoration(t);
    } else {
      DecorationLengthIsLongestDecoration(t[..k]);
      DecorationsHaveShape(t[k + 1..]);
      assert Decorations(t)[1..] == Decorations(t[k + 1..]);
    }
  }

  lemma {:induction false} NoNewlineCount(c: string)
    requires NoNewline(c)
    ensures NewlineCount(c) == 0
    decreases |c|
  {
    if |c| > 0 {
      NoNewlineCount(c[1..]);
    }
  }

  /** Chunking without implicit paragraphs keeps exactly the newlines of the text. */
  lemma {:induction false} ChunksKeepNewlines(t: string)
    ensures NewlineCount(Concat(Chunks(t, false))) == NewlineCount(t)
    decreases |t|
  {
    var k := FirstNewline(t);
    NewlineCountAtFirst(t);
    FirstNewlineIsFirst(t);
    if k == |t| {
      assert t[..k] == t;
      StripKeepsLine(t);
      NoNewlineCount(Strip(t));
      var cs := Chunks(t, false);
      assert cs == [Strip(t)];
      assert cs[1..] == [];
      assert Concat(cs) == Strip(t) + [] == Strip(t);
    } else {
      ChunksKeepNewlines(t[k + 1..]);
      var cs := Chunks(t, false);
      assert cs[1..] == Chunks(t[k + 1..], false);
      StripKeepsLine(t[..k]);
      NoNewlineCount(Strip(t[..k]));
      NewlineCountAppend(Strip(t[..k]), "\n");
      NewlineCountAppend(Strip(t[..k]) + "\n", Concat(cs[1..]));
    }
  }

  /** With implicit paragraphs the chunks are those without, with a `"\n"` chunk after every
      line chunk but the last. */
  lemma {:induction false} ImplicitParagraphChunks(t: string)
    ensures Chunks(t, true) == WithBlankLines(Chunks(t, false))
    decreases |t|
  {
    var k := FirstNewline(t);
    if k < |t| {
      ImplicitParagraphChunks(t[k + 1..]);
      var cs := Chunks(t, false);
      assert cs[1..] == Chunks(t[k + 1..], false);
      assert |Chunks(t[k + 1..], false)| >= 1;
    }
  }

  /**
   The feeding loop of the source: scan the raw comment as a C string, strip the
   decoration at the start of every line, feed each line with its newline when the newline
   is reached (then an extra newline with implicit paragraphs), and feed the rest at the end.
   */
  method ParseDocument(raw: string, implicitParagraph: bool) returns (fed: seq<string>)
    ensures fed == Chunks(CString(raw), implicitParagraph)
    ensures |fed| == (if implicitParagraph then 2 else 1) * NewlineCount(CString(raw)) + 1
  {
    ghost var n := CStringLength(raw);
    ghost var lineStart := 0;
    var curStart := SkipComment(raw, 0);
    var curLength := 0;
    var cur := curStart;
    fed := [];
    FeedStart(raw, n, curStart, implicitParagraph);
    while cur < |raw| && raw[cur] != '\0'
      invariant cur == curStart + curLength
      invariant FeedInvariant(raw, n, lineStart, curStart, cur, fed, implicitParagraph)
      decreases |raw| - cur
    {
      if raw[cur] == '\n' {
        ghost var lineEnd := cur;
        fed, cur := FeedLine(raw, n, lineStart, curStart, cur, fed, implicitParagraph);
        lineStart := lineEnd + 1;
        curStart := cur;
        curLength := 0;
      } else {
        FeedChar(raw, n, lineStart, curStart, cur, fed, implicitParagraph);
        cur := cur + 1;
        curLength := curLength + 1;
      }
    }
    FeedEnd(raw, n, lineStart, curStart, cur, fed, implicitParagraph);
    fed := fed + [raw[curStart..curStart + curLength]];
    ChunkCount(CString(raw), implicitParagraph);
  }

  /** The end of a line: feed it with its newline (and the extra newline with implicit
      paragraphs), then skip the decoration of the next line. */
  method FeedLine(raw: string, ghost n: nat, ghost lineStart: nat, curStart: nat, cur: nat,
                  fed: seq<string>, implicitParagraph: bool)
    returns (fed': seq<string>, next: nat)
    requires FeedInvariant(raw, n, lineStart, curStart, cur, fed, implicitParagraph)
    requires cur < |raw| && raw[cur] == '\n'
    ensures cur < next
    ensures FeedInvariant(raw, n, cur + 1, next, next, fed', implicitParagraph)
  {
    fed' := fed + LineChunks(raw[curStart..cur + 1], implicitParagraph);
    next := SkipComment(raw, cur + 1);
    FeedNewline(raw, n, lineStart, curStart, cur, next, fed, fed', implicitParagraph);
  }

  /** What the feeding loop keeps: the current line starts at `lineStart`, its decoration
      ends at `curStart`, no newline has been met on it before `cur`, and the chunks fed so
      far followed by those of the rest of the text are all the chunks. */
  ghost predicate FeedInvariant(raw: string, n: nat, lineStart: nat, curStart: nat, cur: nat,
                                fed: seq<string>, implicitParagraph: bool)
  {
    && n == CStringLength(raw)
    && lineStart <= curStart <= cur <= n
    && curStart == lineStart + DecorationLength(raw[lineStart..n])
    && NoNewline(raw[lineStart..cur])
    && fed + Chunks(raw[lineStart..n], implicitParagraph) == Chunks(raw[..n], implicitParagraph)
  }

  /** Where the scanner stops is where the decoration of the C string ends. */
  lemma DecorationInCString(raw: string, n: nat, i: nat)
    requires n == CStringLength(raw) && i <= n
    ensures i + DecorationLength(raw[i..]) == i + DecorationLength(raw[i..n])
  {
    if n < |raw| {
      DecorationStopsAt(raw[i..], n - i);
      assert raw[i..][..n - i] == raw[i..n];
    } else {
      assert raw[i..] == raw[i..n];
    }
  }

  lemma FeedStart(raw: string, n: nat, curStart: nat, implicitParagraph: bool)
    requires n == CStringLength(raw)
    requires curStart == DecorationLength(raw[0..])
    ensures FeedInvariant(raw, n, 0, curStart, curStart, [], implicitParagraph)
  {
    DecorationInCString(raw, n, 0);
    SkippedDecoration(raw, 0, curStart);
    SkippedDecoration(raw[..n], 0, curStart);
    assert raw[0..n] == raw[..n];
    assert raw[0..curStart] == raw[..n][0..curStart];
    assert NoNewline(raw[0..curStart]);
  }

  lemma FeedNewline(raw: string, n: nat, lineStart: nat, curStart: nat, cur: nat, next: nat,
                    before: seq<string>, fed: seq<string>, implicitParagraph: bool)
    requires FeedInvariant(raw, n, lineStart, curStart, cur, before, implicitParagraph)
    requires cur < |raw| && raw[cur] == '\n'
    requires next == cur + 1 + DecorationLength(raw[cur + 1..])
    requires fed == before + LineChunks(raw[curStart..cur + 1], implicitParagraph)
    ensures FeedInvariant(raw, n, cur + 1, next, next, fed, implicitParagraph)
  {
    assert cur < n;
    LineStep(raw, n, lineStart, curStart, cur, implicitParagraph);
    ConcatAssociative(before, LineChunks(raw[curStart..cur + 1], implicitParagraph),
                      Chunks(raw[cur + 1..n], implicitParagraph), Chunks(raw[..n], implicitParagraph));
    NextLineDecoration(raw, n, cur + 1, next);
  }

  /** Associativity of `+` on chunk sequences, stated for the one regrouping the feeding
      loop needs; as a lemma of its own it keeps that step cheap for the solver. */
  lemma ConcatAssociative(before: seq<string>, line: seq<string>, rest: seq<string>, all: seq<string>)
    requires before + (line + rest) == all
    ensures before + line + rest == all
  {
  }

  lemma NextLineDecoration(raw: string, n: nat, i: nat, next: nat)
    requires n == CStringLength(raw) && i <= n
    requires next == i + DecorationLength(raw[i..])
    ensures i <= next <= n
    ensures next == i + DecorationLength(raw[i..n])
    ensures NoNewline(raw[i..next])
  {
    DecorationInCString(raw, n, i);
    SkippedDecoration(raw, i, next);
    forall j | 0 <= j < next - i
      ensures raw[i..next][j] != '\n'
    {
      assert raw[i..next][j] == raw[i + j];
    }
  }

  lemma FeedChar(raw: string, n: nat, lineStart: nat, curStart: nat, cur: nat,
                 fed: seq<string>, implicitParagraph: bool)
    requires FeedInvariant(raw, n, lineStart, curStart, cur, fed, implicitParagraph)
    requires cur < |raw| && raw[cur] != '\0' && raw[cur] != '\n'
    ensures FeedInvariant(raw, n, lineStart, curStart, cur + 1, fed, implicitParagraph)
  {
    assert raw[lineStart..cur + 1] == raw[lineStart..cur] + [raw[cur]];
  }

  lemma FeedEnd(raw: string, n: nat, lineStart: nat, curStart: nat, cur: nat,
                fed: seq<string>, implicitParagraph: bool)
    requires FeedInvariant(raw, n, lineStart, curStart, cur, fed, implicitParagraph)
    requires !(cur < |raw| && raw[cur] != '\0')
    ensures cur == n
    ensures fed + [raw[curStart..cur]] == Chunks(CString(raw), implicitParagraph)
  {
    LastLine(raw, n, lineStart, curStart, cur, implicitParagraph);
  }

  lemma LineStep(raw: string, n: nat, lineStart: nat, curStart: nat, cur: nat, implicitParagraph: bool)
    requires lineStart <= curStart <= cur < n <= |raw|
    requires curStart == lineStart + DecorationLength(raw[lineStart..n])
    requires raw[cur] == '\n'
    requires NoNewline(raw[lineStart..cur])
    ensures Chunks(raw[lineStart..n], implicitParagraph)
      == LineChunks(raw[curStart..cur + 1], implicitParagraph) + Chunks(raw[cur + 1..n], implicitParagraph)
  {
    var u := raw[lineStart..n];
    var k := cur - lineStart;
    assert u[..k] == raw[lineStart..cur];
    FirstNewlineAt(u, k);
    DecorationStopsAt(u, k);
    assert Strip(u[..k]) + "\n" == raw[curStart..cur + 1];
    assert u[k + 1..] == raw[cur + 1..n];
  }

  lemma LastLine(raw: string, n: nat, lineStart: nat, curStart: nat, cur: nat, implicitParagraph: bool)
    requires lineStart <= curStart <= cur == n <= |raw|
    requires curStart == lineStart + DecorationLength(raw[lineStart..n])
    requires NoNewline(raw[lineStart..cur])
    ensures Chunks(raw[lineStart..n], implicitParagraph) == [raw[curStart..n]]
  {
    var u := raw[lineStart..n];
    assert u[..|u|] == u;
    FirstNewlineAt(u, |u|);
  }
}
