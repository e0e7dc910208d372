/**
 Classification of one paragraph: the default section (brief for the first paragraph,
 details afterwards) and the section command that may open the paragraph's text.
 */
module Command {
  import opened Wrappers
  import opened Blocks

  /** White space as the C library classifies it: space, tab, newline, vertical tab, form
      feed, carriage return. */
  predicate IsSpace(c: char) {
    c == ' ' || '\t' <= c <= '\r'
  }

  predicate AllSpace(s: string) {
    forall k :: 0 <= k < |s| ==> IsSpace(s[k])
  }

  predicate NoSpace(s: string) {
    forall k :: 0 <= k < |s| ==> !IsSpace(s[k])
  }

  /** The section a paragraph gets when it carries no command. */
  function DefaultSection(first: bool): Section {
    if first then Brief else Details
  }

  /** Length of the command word at the start of `s`: everything up to the first white
      space, or to the end of the string. */
  function WordLength(s: string): (n: nat)
    ensures n <= |s|
    ensures forall k :: 0 <= k < n ==> !IsSpace(s[k])
    ensures n < |s| ==> IsSpace(s[n])
  {
    if |s| == 0 || IsSpace(s[0]) then 0
    else
      var m := WordLength(s[1..]);
      assert forall k :: 1 <= k < 1 + m ==> s[k] == s[1..][k - 1];
      1 + m
  }

  /** Number of white-space characters at the start of `s`. */
  function SpaceLength(s: string): (n: nat)
    ensures n <= |s|
    ensures forall k :: 0 <= k < n ==> IsSpace(s[k])
    ensures n < |s| ==> !IsSpace(s[n])
  {
    if |s| == 0 || !IsSpace(s[0]) then 0
    else
      var m := SpaceLength(s[1..]);
      assert forall k :: 1 <= k < 1 + m ==> s[k] == s[1..][k - 1];
      1 + m
  }

  /** The paragraph opens with a plain text whose first character is the command
      character. */
  predicate LeadsWithCommand(cfg: Config, p: Entity) {
    && |p.children| > 0
    && p.children[0].kind == Text
    && |p.children[0].text| > 0
    && p.children[0].text[0] == cfg.commandChar
  }

  /** The command word after the command character. */
  function CommandWord(cfg: Config, p: Entity): string
    requires LeadsWithCommand(cfg, p)
  {
    var t := p.children[0].text[1..];
    t[..WordLength(t)]
  }

  /** The paragraph opens with a command the lookup knows. */
  predicate HasKnownCommand(cfg: Config, p: Entity) {
    LeadsWithCommand(cfg, p) && cfg.trySection(CommandWord(cfg, p)) != Invalid
  }

  /** `rest` is `text` after its first character, the word `w` that follows it and the
      white space after the word. */
  predicate StripsCommand(text: string, w: string, rest: string) {
    && 1 + |w| + |rest| <= |text|
    && text[1..1 + |w|] == w
    && rest == text[|text| - |rest|..]
    && (forall k :: 1 + |w| <= k < |text| - |rest| ==> IsSpace(text[k]))
    && (|rest| > 0 ==> !IsSpace(rest[0]))
  }

  /** The outcome of classifying a paragraph: the paragraph as it is afterwards, and the
      error raised, if any. */
  datatype Classified = Classified(paragraph: Entity, error: Option<ParseError>)

  /**
   Classifies paragraph `p`, `first` telling whether it is the first paragraph classified.
   The default section is set first; then a command word opening the text is looked up.
   An unknown word is an error at the paragraph's position, and the paragraph keeps its
   default section. A known word is removed from the text together with the command
   character and the white space after it, and sets the section and its title. An empty
   paragraph keeps its default section.
   */
  function ParseCommand(cfg: Config, p: Entity, first: bool): (r: Classified)
    requires p.kind == Paragraph
    ensures var q := r.paragraph;
      && q.kind == Paragraph && q.text == p.text
      && q.line == p.line && q.column == p.column
      && |q.children| == |p.children|
      && (|p.children| > 0 ==> q.children[1..] == p.children[1..])
      && q.title == cfg.sectionName(q.section)
    ensures r.error.Some? <==> LeadsWithCommand(cfg, p) && cfg.trySection(CommandWord(cfg, p)) == Invalid
    ensures r.error.Some? ==> r.error.value.line == p.line && r.error.value.column == p.column
    ensures !HasKnownCommand(cfg, p) ==>
      r.paragraph.section == DefaultSection(first) && r.paragraph.children == p.children
    ensures HasKnownCommand(cfg, p) ==>
      && r.paragraph.section == cfg.trySection(CommandWord(cfg, p))
      && r.paragraph.children[0]
         == p.children[0].(text := r.paragraph.children[0].text)
      && StripsCommand(p.children[0].text, CommandWord(cfg, p), r.paragraph.children[0].text)
  {
    var def := DefaultSection(first);
    var q := p.(section := def, title := cfg.sectionName(def));
    if |q.children| == 0 || q.children[0].kind != Text then Classified(q, None)
    else
      var text := q.children[0].text;
      if |text| == 0 || text[0] != cfg.commandChar then Classified(q, None)
      else
        var w := text[1..][..WordLength(text[1..])];
        var section := cfg.trySection(w);
        if section == Invalid then
          Classified(q, Some(ParseError("Unknown command '" + w + "'", q.line, q.column)))
        else
          var after := text[1 + |w|..];
          var rest := after[SpaceLength(after)..];
          var t := q.children[0].(text := rest);
          StripsWord(text, w);
          Classified(q.(section := section, title := cfg.sectionName(section),
                        children := [t] + q.children[1..]), None)
  }

  /** Removing the character, the whole command word and the white space after it from a
      text is a strip of that word. */
  lemma StripsWord(text: string, w: string)
    requires |text| > 0 && w == text[1..][..WordLength(text[1..])]
    ensures var after := text[1 + |w|..]; StripsCommand(text, w, after[SpaceLength(after)..])
  {
    var after := text[1 + |w|..];
    var rest := after[SpaceLength(after)..];
    assert text[1..1 + |w|] == text[1..][..|w|];
    assert forall k :: 1 + |w| <= k < |text| - |rest| ==> text[k] == after[k - 1 - |w|];
  }

  /** The text left by a known command does not start with white space and, with the
      command character, the word and the white space removed, gives the old text back. */
  lemma StrippedTextReassembles(text: string, w: string, rest: string)
    requires StripsCommand(text, w, rest)
    ensures text == [text[0]] + w + text[1 + |w|..|text| - |rest|] + rest
    ensures AllSpace(text[1 + |w|..|text| - |rest|])
  {
    assert text == text[..1] + text[1..1 + |w|] + text[1 + |w|..|text| - |rest|] + text[|text| - |rest|..];
  }

  /** Stripping a given word leaves one text only: whatever follows the word and all of
      the white space after it, which is skipped in full, never in part. */
  lemma StripsCommandDetermined(text: string, w: string, rest: string)
    requires StripsCommand(text, w, rest)
    ensures rest == text[1 + |w| + SpaceLength(text[1 + |w|..])..]
  {
    var a := text[1 + |w|..];
    var m := |text| - |rest| - 1 - |w|;
    assert forall k :: 0 <= k < m ==> a[k] == text[1 + |w| + k];
    assert m < |a| ==> a[m] == rest[0];
    assert SpaceLength(a) == m;
  }

  /** The command-word scan as the source writes it, over memory `mem` holding the text,
      its terminating NUL and whatever follows: it stops at white space only. Reaching
      the end of `mem` stands for reading memory the text does not own. */
  function ScanToSpace(mem: string, i: nat): (n: nat)
    requires i <= |mem|
    ensures i <= n <= |mem|
    ensures forall k :: i <= k < n ==> !IsSpace(mem[k])
    ensures n < |mem| ==> IsSpace(mem[n])
    decreases |mem| - i
  {
    if i == |mem| || IsSpace(mem[i]) then i else ScanToSpace(mem, i + 1)
  }

  /** A text that is only the command character and a word, such as a paragraph holding
      just a command: the scan as written runs over the NUL that ends the text and on into
      the memory after it, while `WordLength` stops at the end of the text. */
  lemma CommandScanOverrunsText(text: string, tail: string)
    requires |text| > 0 && NoSpace(text[1..])
    ensures ScanToSpace(text + ['\0'] + tail, 1) > |text|
    ensures 1 + WordLength(text[1..]) == |text|
  {
    var mem := text + ['\0'] + tail;
    forall k | 1 <= k <= |text|
      ensures !IsSpace(mem[k])
    {
      if k < |text| {
        assert mem[k] == text[1..][k - 1];
      }
    }
  }
}
