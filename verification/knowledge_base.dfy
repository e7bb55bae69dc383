/**
 * The knowledge-base text parser (parseKnowledgeBase): the text is split into
 * lines, each line is classified by its prefix, and one pass over the lines
 * emits headings, rules and paragraphs and gathers consecutive list items of one
 * kind into a single list. The rendered elements are modelled as blocks.
 */
module KnowledgeBase {
  import opened Wrappers
  import opened Text
  import opened Collections

  datatype ListKind = Bulleted | Numbered

  datatype Block =
    | Heading(level: nat, text: string)
    | List(kind: ListKind, items: seq<string>)
    | Rule
    | Paragraph(text: string)

  /** What a line is, by the first test of the dispatch that it passes. */
  datatype Line =
    | HeadingLine(level: nat, text: string)
    | ItemLine(kind: ListKind, text: string)
    | RuleLine
    | ParagraphLine(text: string)
    | BlankLine

  // ---------------------------------------------------------------------------
  // Classifying one line

  /** The length of the match of `^\d+\.\s`, or 0 when the line does not match. */
  function NumberedPrefixLength(line: string): (n: nat)
    ensures n == 0 || (n >= 3 && n <= |line|)
    ensures n > 0 ==> AllDigits(line[..n - 2]) && line[n - 2] == '.' && IsWhitespace(line[n - 1])
  {
    var d := |LeadingDigits(line)|;
    if d > 0 && d + 1 < |line| && line[d] == '.' && IsWhitespace(line[d + 1]) then
      assert line[..d] == LeadingDigits(line);
      d + 2
    else 0
  }

  /** The heading level of the "# ", "## " and "### " markers, tested in that order; 0 for none. */
  function HeadingLevel(line: string): (n: nat)
    ensures n <= 3 && (n > 0 ==> n + 1 <= |line| && line[0] == '#')
  {
    if StartsWith(line, "# ") then 1
    else if StartsWith(line, "## ") then 2
    else if StartsWith(line, "### ") then 3
    else 0
  }

  /** The "- " and "• " markers of a bullet. */
  predicate IsBullet(line: string)
    ensures IsBullet(line) ==> |line| >= 2 && !IsWhitespace(line[0])
  {
    StartsWith(line, "- ") || StartsWith(line, "• ")
  }

  /**
   * The dispatch of the loop body: "# ", "## " and "### " headings, "- " and "• "
   * bullets, `digits. whitespace` numbered items, a rule when the trimmed line is
   * "---", a paragraph for any other line with a non-blank trim, and nothing for a
   * blank line.
   */
  function Classify(line: string): (r: Line)
    ensures r.HeadingLine? ==> 1 <= r.level <= 3 && r.level + 1 <= |line| && r.text == line[r.level + 1..]
    ensures r.ItemLine? ==> |r.text| < |line| && r.text == line[|line| - |r.text|..]
    ensures r.ParagraphLine? ==> r.text == line
  {
    var h := HeadingLevel(line);
    var n := NumberedPrefixLength(line);
    if h > 0 then HeadingLine(h, line[h + 1..])
    else if IsBullet(line) then ItemLine(Bulleted, line[2..])
    else if n > 0 then ItemLine(Numbered, line[n..])
    else if Trim(line) == "---" then RuleLine
    else if Trim(line) != "" then ParagraphLine(line)
    else BlankLine
  }

  /** A line emits nothing exactly when it is blank. */
  lemma ClassifyBlank(line: string)
    ensures Classify(line).BlankLine? <==> IsBlank(line)
  {
    TrimEmptyIffBlank(line);
    if |line| > 0 && !IsWhitespace(line[0]) {
      assert !IsBlank(line);
    }
    if HeadingLevel(line) == 0 && !IsBullet(line) && NumberedPrefixLength(line) > 0 {
      assert line[..NumberedPrefixLength(line) - 2][0] == line[0];
    }
  }

  /** Each heading marker followed by a text classifies as that heading of the text. */
  lemma ClassifyHeadings(t: string)
    ensures Classify("# " + t) == HeadingLine(1, t)
    ensures Classify("## " + t) == HeadingLine(2, t)
    ensures Classify("### " + t) == HeadingLine(3, t)
  {
    assert ("# " + t)[..2] == "# ";
    assert ("## " + t)[..3] == "## ";
    assert ("## " + t)[1] == '#';
    assert ("### " + t)[..4] == "### ";
    assert ("### " + t)[1] == '#' && ("### " + t)[2] == '#';
  }

  /** Both bullet markers followed by a text classify as a bullet item of the text. */
  lemma ClassifyBullets(t: string)
    ensures Classify("- " + t) == ItemLine(Bulleted, t)
    ensures Classify("• " + t) == ItemLine(Bulleted, t)
  {
    assert ("- " + t)[..2] == "- ";
    assert ("• " + t)[..2] == "• ";
    assert ("- " + t)[0] == '-';
    assert ("• " + t)[0] == '•';
  }

  /** A number, a dot and a space before a text classify as a numbered item of the text. */
  lemma ClassifyNumbered(n: nat, t: string)
    ensures Classify(Decimal(n) + ". " + t) == ItemLine(Numbered, t)
  {
    var d := Decimal(n);
    var line := d + ". " + t;
    NumberedPrefixOf(d, t);
    assert HeadingLevel(line) == 0 && !IsBullet(line) by {
      assert line[0] == d[0];
    }
  }

  lemma NumberedPrefixOf(d: string, t: string)
    requires |d| > 0 && AllDigits(d)
    ensures NumberedPrefixLength(d + ". " + t) == |d| + 2
    ensures (d + ". " + t)[|d| + 2..] == t
  {
    var line := d + ". " + t;
    assert line == d + (". " + t);
    LeadingDigitsBeforeOther(d, ". " + t);
    assert line[|d|] == '.' && line[|d| + 1] == ' ';
  }

  /** The classified lines of the text. */
  function Lines(text: string): (ls: seq<Line>)
    ensures |ls| == |Split(text, '\n')|
    ensures forall i | 0 <= i < |ls| :: ls[i] == Classify(Split(text, '\n')[i])
  {
    var raw := Split(text, '\n');
    seq(|raw|, i requires 0 <= i < |raw| => Classify(raw[i]))
  }

  /**
   * A text without a newline is one line, and a newline divides a text into the
   * lines before it and the lines after it.
   */
  lemma LinesAtNewlines(a: string, b: string)
    ensures '\n' !in a ==> Lines(a) == [Classify(a)]
    ensures Lines(a + "\n" + b) == Lines(a) + Lines(b)
  {
    if '\n' !in a {
      SplitWithoutSeparator(a, '\n');
    }
    SplitAtSeparator(a, b, '\n');
  }

  // ---------------------------------------------------------------------------
  // The pass over the lines

  /** The loop state: the emitted blocks, the kind of the open list, its items. */
  datatype State = State(blocks: seq<Block>, open: Option<ListKind>, items: seq<string>)

  const Initial := State([], None, [])

  /**
   * endList: the blocks emitted so far stay in front, at most one list follows them,
   * and nothing is open afterwards.
   */
  function EndList(st: State): (r: State)
    ensures r.open.None? && r.items == []
    ensures st.blocks <= r.blocks && |r.blocks| <= |st.blocks| + 1
  {
    if |st.items| > 0 && st.open.Some? then
      State(st.blocks + [List(st.open.value, st.items)], None, [])
    else
      State(st.blocks, None, [])
  }

  /**
   * endList moves the open items into the emitted lists and leaves the emitted
   * blocks that are not lists as they were.
   */
  lemma EndListMovesItems(st: State)
    ensures ListItems(EndList(st).blocks) == ListItems(st.blocks) + (if st.open.Some? then st.items else [])
    ensures NonListBlocks(EndList(st).blocks) == NonListBlocks(st.blocks)
  {
    if |st.items| > 0 && st.open.Some? {
      AppendBlock(st.blocks, List(st.open.value, st.items));
    }
  }

  function Emit(st: State, b: Block): State {
    var e := EndList(st);
    e.(blocks := e.blocks + [b])
  }

  /** One iteration of the loop body. */
  function Step(st: State, line: Line): State {
    match line
    case HeadingLine(level, text) => Emit(st, Heading(level, text))
    case ItemLine(kind, text) =>
      var e := if st.open != Some(kind) then EndList(st).(open := Some(kind)) else st;
      e.(items := e.items + [text])
    case RuleLine => Emit(st, Rule)
    case ParagraphLine(text) => Emit(st, Paragraph(text))
    case BlankLine => st
  }

  /** The state after the loop has seen the lines. */
  function Run(lines: seq<Line>): State
    decreases |lines|
  {
    if |lines| == 0 then Initial
    else Step(Run(lines[..|lines| - 1]), lines[|lines| - 1])
  }

  /** parseKnowledgeBase: the blocks after the loop and the final endList. */
  function Parse(text: string): (blocks: seq<Block>)
    ensures NoEmptyList(blocks)
    ensures ListItems(blocks) == ItemTexts(Lines(text))
    ensures NonListBlocks(blocks) == OtherBlocks(Lines(text))
    ensures AdjacentListsDiffer(blocks)
  {
    var lines := Lines(text);
    RunInvariant(lines);
    var st := Run(lines);
    EndListInvariant(st, lines);
    EndList(st).blocks
  }

  /** The loop as the source writes it, with the list state in mutable variables. */
  method ParseLoop(text: string) returns (elements: seq<Block>)
    ensures elements == Parse(text)
  {
    var raw := Split(text, '\n');
    var lines := Lines(text);
    var blocks: seq<Block> := [];
    var listType: Option<ListKind> := None;
    var listItems: seq<string> := [];
    for i := 0 to |raw|
      invariant State(blocks, listType, listItems) == Run(lines[..i])
    {
      assert lines[..i + 1][..i] == lines[..i];
      var st := Step(State(blocks, listType, listItems), Classify(raw[i]));
      blocks, listType, listItems := st.blocks, st.open, st.items;
    }
    assert lines[..|raw|] == lines;
    var st := EndList(State(blocks, listType, listItems));
    elements := st.blocks;
  }

  // ---------------------------------------------------------------------------
  // What the emitted blocks hold

  /** Every emitted list has an item. */
  predicate NoEmptyList(blocks: seq<Block>) {
    forall i | 0 <= i < |blocks| :: blocks[i].List? ==> |blocks[i].items| > 0
  }

  /** Two lists are never next to each other unless their kinds differ. */
  predicate AdjacentListsDiffer(blocks: seq<Block>) {
    forall i | 0 <= i < |blocks| - 1 :: blocks[i].List? && blocks[i + 1].List? ==> blocks[i].kind != blocks[i + 1].kind
  }

  /** The items of the emitted lists, list after list. */
  function ListItems(blocks: seq<Block>): seq<string>
    decreases |blocks|
  {
    if |blocks| == 0 then []
    else
      var b := blocks[|blocks| - 1];
      ListItems(blocks[..|blocks| - 1]) + (if b.List? then b.items else [])
  }

  /** The emitted blocks that are not lists, in order. */
  function NonListBlocks(blocks: seq<Block>): seq<Block>
    decreases |blocks|
  {
    if |blocks| == 0 then []
    else
      var b := blocks[|blocks| - 1];
      NonListBlocks(blocks[..|blocks| - 1]) + (if b.List? then [] else [b])
  }

  /** The texts of the item lines, in order. */
  function ItemTexts(lines: seq<Line>): seq<string>
    decreases |lines|
  {
    if |lines| == 0 then []
    else
      var l := lines[|lines| - 1];
      ItemTexts(lines[..|lines| - 1]) + (if l.ItemLine? then [l.text] else [])
  }

  /** The block each heading, rule and paragraph line stands for, in order. */
  function OtherBlocks(lines: seq<Line>): seq<Block>
    decreases |lines|
  {
    if |lines| == 0 then []
    else
      var l := lines[|lines| - 1];
      OtherBlocks(lines[..|lines| - 1]) + match l
        case HeadingLine(level, text) => [Heading(level, text)]
        case RuleLine => [Rule]
        case ParagraphLine(text) => [Paragraph(text)]
        case _ => []
  }

  // ---------------------------------------------------------------------------
  // The loop invariant

  function Last(blocks: seq<Block>): Block
    requires |blocks| > 0
  {
    blocks[|blocks| - 1]
  }

  /**
   * What holds once the open list is closed: no empty list; a list is open exactly
   * when it has items; the emitted and the open items are the item lines seen; the
   * other blocks are the other lines seen; adjacent lists differ in kind.
   */
  ghost predicate Consistent(st: State, lines: seq<Line>) {
    && NoEmptyList(st.blocks)
    && (st.open.Some? <==> |st.items| > 0)
    && ListItems(st.blocks) + st.items == ItemTexts(lines)
    && NonListBlocks(st.blocks) == OtherBlocks(lines)
    && AdjacentListsDiffer(st.blocks)
  }

  /**
   * What holds after every iteration: the state is consistent, and when the last
   * emitted block is a list, a list of another kind is open.
   */
  ghost predicate Invariant(st: State, lines: seq<Line>) {
    && Consistent(st, lines)
    && (|st.blocks| > 0 && Last(st.blocks).List? ==> st.open.Some? && Last(st.blocks).kind != st.open.value)
  }

  lemma AppendBlock(blocks: seq<Block>, b: Block)
    ensures ListItems(blocks + [b]) == ListItems(blocks) + (if b.List? then b.items else [])
    ensures NonListBlocks(blocks + [b]) == NonListBlocks(blocks) + (if b.List? then [] else [b])
  {
    assert (blocks + [b])[..|blocks|] == blocks;
  }

  /** Closing the list keeps the state consistent, with nothing open afterwards. */
  lemma EndListInvariant(st: State, lines: seq<Line>)
    requires Invariant(st, lines)
    ensures Consistent(EndList(st), lines)
  {
    if |st.items| > 0 {
      var b := List(st.open.value, st.items);
      AppendBlock(st.blocks, b);
      var bs := st.blocks + [b];
      assert bs[|bs| - 1] == b;
      forall i | 0 <= i < |bs| ensures bs[i].List? ==> |bs[i].items| > 0 {
        if i < |st.blocks| {
          assert bs[i] == st.blocks[i];
        }
      }
      forall i | 0 <= i < |bs| - 1 && bs[i].List? && bs[i + 1].List? ensures bs[i].kind != bs[i + 1].kind {
        if i + 1 < |st.blocks| {
          assert bs[i] == st.blocks[i] && bs[i + 1] == st.blocks[i + 1];
        } else {
          assert bs[i] == Last(st.blocks);
        }
      }
    }
  }

  lemma EmitInvariant(st: State, lines: seq<Line>, l: Line, b: Block)
    requires Invariant(st, lines)
    requires !b.List? && !l.ItemLine? && !l.BlankLine?
    requires OtherBlocks(lines + [l]) == OtherBlocks(lines) + [b]
    ensures Invariant(Emit(st, b), lines + [l])
  {
    EndListInvariant(st, lines);
    var e := EndList(st);
    AppendBlock(e.blocks, b);
    assert (lines + [l])[..|lines|] == lines;
    var bs := e.blocks + [b];
    forall i | 0 <= i < |bs| - 1 && bs[i].List? && bs[i + 1].List? ensures bs[i].kind != bs[i + 1].kind {
      assert bs[i] == e.blocks[i] && bs[i + 1] == e.blocks[i + 1];
    }
  }

  lemma ItemInvariant(st: State, lines: seq<Line>, kind: ListKind, text: string)
    requires Invariant(st, lines)
    ensures Invariant(Step(st, ItemLine(kind, text)), lines + [ItemLine(kind, text)])
  {
    if st.open != Some(kind) {
      EndListInvariant(st, lines);
      LastAfterEndList(st, kind);
      StartListInvariant(EndList(st), lines, kind, text);
    } else {
      ContinueListInvariant(st, lines, kind, text);
    }
  }

  lemma LastAfterEndList(st: State, kind: ListKind)
    requires st.open != Some(kind) && (st.open.Some? <==> |st.items| > 0)
    requires |st.blocks| > 0 && Last(st.blocks).List? ==> st.open.Some? && Last(st.blocks).kind != st.open.value
    ensures var e := EndList(st); |e.blocks| > 0 && Last(e.blocks).List? ==> Last(e.blocks).kind != kind
  {
    var e := EndList(st);
    if |st.items| > 0 && st.open.Some? {
      assert Last(e.blocks) == List(st.open.value, st.items);
    } else {
      assert e.blocks == st.blocks;
    }
  }

  /** An item of the open kind joins the open list. */
  lemma ContinueListInvariant(st: State, lines: seq<Line>, kind: ListKind, text: string)
    requires Invariant(st, lines) && st.open == Some(kind)
    ensures Invariant(st.(items := st.items + [text]), lines + [ItemLine(kind, text)])
  {
    var l := ItemLine(kind, text);
    assert (lines + [l])[..|lines|] == lines;
    assert ListItems(st.blocks) + (st.items + [text]) == ItemTexts(lines) + [text];
  }

  /** An item of a kind that is not open starts a list of that kind after a closed state. */
  lemma StartListInvariant(e: State, lines: seq<Line>, kind: ListKind, text: string)
    requires Consistent(e, lines) && e.open.None? && e.items == []
    requires |e.blocks| > 0 && Last(e.blocks).List? ==> Last(e.blocks).kind != kind
    ensures Invariant(State(e.blocks, Some(kind), [text]), lines + [ItemLine(kind, text)])
  {
    var l := ItemLine(kind, text);
    assert (lines + [l])[..|lines|] == lines;
  }

  lemma StepInvariant(st: State, lines: seq<Line>, l: Line)
    requires Invariant(st, lines)
    ensures Invariant(Step(st, l), lines + [l])
  {
    assert (lines + [l])[..|lines|] == lines;
    match l
    case HeadingLine(level, text) => EmitInvariant(st, lines, l, Heading(level, text));
    case ItemLine(kind, text) => ItemInvariant(st, lines, kind, text);
    case RuleLine => EmitInvariant(st, lines, l, Rule);
    case ParagraphLine(text) => EmitInvariant(st, lines, l, Paragraph(text));
    case BlankLine =>
  }

  lemma {:induction false} RunInvariant(lines: seq<Line>)
    ensures Invariant(Run(lines), lines)
    decreases |lines|
  {
    if |lines| > 0 {
      var prefix := lines[..|lines| - 1];
      RunInvariant(prefix);
      StepInvariant(Run(prefix), prefix, lines[|lines| - 1]);
      assert prefix + [lines[|lines| - 1]] == lines;
    }
  }

  // ---------------------------------------------------------------------------
  // Further properties

  predicate NotBlank(l: Line) {
    !l.BlankLine?
  }

  /** Blank lines change nothing: the pass over the lines without them ends in the same state. */
  lemma {:induction false} BlankLinesIgnored(lines: seq<Line>)
    ensures Run(lines) == Run(Filter(lines, NotBlank))
    decreases |lines|
  {
    if |lines| > 0 {
      var prefix, l := lines[..|lines| - 1], lines[|lines| - 1];
      BlankLinesIgnored(prefix);
      assert lines == prefix + [l];
      FilterConcat(prefix, [l], NotBlank);
      var kept := Filter(prefix, NotBlank);
      var f := Filter(lines, NotBlank);
      if NotBlank(l) {
        assert Filter([l], NotBlank) == [l];
        assert f == kept + [l];
        assert f[..|f| - 1] == kept;
        assert Run(f) == Step(Run(kept), l);
      } else {
        assert Filter([l], NotBlank) == [];
        assert f == kept;
      }
    }
  }

  /** A heading, a rule or a paragraph closes any open list: nothing is open after it. */
  lemma ClosingLines(st: State, l: Line)
    requires l.HeadingLine? || l.RuleLine? || l.ParagraphLine?
    ensures Step(st, l).open.None? && Step(st, l).items == []
    ensures |st.items| > 0 && st.open.Some? ==>
      Step(st, l).blocks[|st.blocks|] == List(st.open.value, st.items)
  {
  }

  /** A heading, a rule or a paragraph line: the lines that close an open list. */
  predicate Closes(l: Line) {
    l.HeadingLine? || l.RuleLine? || l.ParagraphLine?
  }

  /** The block a heading, rule or paragraph line stands for. */
  function BlockOf(l: Line): (b: Block)
    requires Closes(l)
    ensures !b.List?
  {
    match l
    case HeadingLine(level, text) => Heading(level, text)
    case RuleLine => Rule
    case ParagraphLine(text) => Paragraph(text)
  }

  /** The blocks of classified lines: the pass over them, then the final endList. */
  function ParseLines(lines: seq<Line>): seq<Block> {
    EndList(Run(lines)).blocks
  }

  /** A state with the blocks `p` emitted before its own. */
  function Shifted(p: seq<Block>, st: State): State {
    st.(blocks := p + st.blocks)
  }

  lemma EndListShifted(p: seq<Block>, st: State)
    ensures EndList(Shifted(p, st)) == Shifted(p, EndList(st))
  {
    if |st.items| > 0 && st.open.Some? {
      assert p + st.blocks + [List(st.open.value, st.items)] == p + (st.blocks + [List(st.open.value, st.items)]);
    }
  }

  /** The loop body only appends blocks, so blocks emitted earlier do not affect it. */
  lemma StepShifted(p: seq<Block>, st: State, l: Line)
    ensures Step(Shifted(p, st), l) == Shifted(p, Step(st, l))
  {
    EndListShifted(p, st);
    match l
    case HeadingLine(level, text) =>
      assert p + EndList(st).blocks + [Heading(level, text)] == p + (EndList(st).blocks + [Heading(level, text)]);
    case ItemLine(kind, text) =>
    case RuleLine =>
      assert p + EndList(st).blocks + [Rule] == p + (EndList(st).blocks + [Rule]);
    case ParagraphLine(text) =>
      assert p + EndList(st).blocks + [Paragraph(text)] == p + (EndList(st).blocks + [Paragraph(text)]);
    case BlankLine =>
  }

  /** After a closing line the pass starts afresh, behind the blocks emitted so far. */
  lemma {:induction false} RunAfterClosing(a: seq<Line>, l: Line, b: seq<Line>)
    requires Closes(l)
    ensures Run(a + [l] + b) == Shifted(ParseLines(a) + [BlockOf(l)], Run(b))
    decreases |b|
  {
    var p := ParseLines(a) + [BlockOf(l)];
    if |b| == 0 {
      assert a + [l] + b == a + [l];
      assert (a + [l])[..|a|] == a;
    } else {
      var b' := b[..|b| - 1];
      var c := a + [l] + b;
      assert c[..|c| - 1] == a + [l] + b';
      assert c[|c| - 1] == b[|b| - 1];
      RunAfterClosing(a, l, b');
      StepShifted(p, Run(b'), b[|b| - 1]);
    }
  }

  /**
   * A heading, rule or paragraph line divides the parse: the blocks of the lines
   * before it, its own block, then the blocks of the lines after it. No list runs
   * across it.
   */
  lemma ClosingLineSplits(a: seq<Line>, l: Line, b: seq<Line>)
    requires Closes(l)
    ensures ParseLines(a + [l] + b) == ParseLines(a) + [BlockOf(l)] + ParseLines(b)
  {
    var p := ParseLines(a) + [BlockOf(l)];
    RunAfterClosing(a, l, b);
    EndListShifted(p, Run(b));
  }

  /** A run that continues a state shifted by `p` stays shifted by `p`, whatever lines follow. */
  lemma {:induction false} RunShiftedTail(a: seq<Line>, m: seq<Line>, b: seq<Line>, p: seq<Block>)
    requires Run(a + m) == Shifted(p, Run(m))
    ensures Run(a + m + b) == Shifted(p, Run(m + b))
    decreases |b|
  {
    if |b| == 0 {
      assert a + m + b == a + m && m + b == m;
    } else {
      var b', l := b[..|b| - 1], b[|b| - 1];
      assert b == b' + [l];
      assert a + m + b == (a + m + b') + [l];
      assert m + b == (m + b') + [l];
      RunSnoc(a + m + b', l);
      RunSnoc(m + b', l);
      RunShiftedTail(a, m, b', p);
      StepShifted(p, Run(m + b'), l);
    }
  }

  lemma RunSnoc(x: seq<Line>, l: Line)
    ensures Run(x + [l]) == Step(Run(x), l)
  {
    assert (x + [l])[..|x|] == x;
  }

  /** An item of another kind than the open list's starts the pass afresh behind the blocks emitted so far. */
  lemma RunAfterSwitch(a: seq<Line>, kind: ListKind, t: string, b: seq<Line>)
    requires Run(a).open != Some(kind)
    ensures Run(a + [ItemLine(kind, t)] + b) == Shifted(ParseLines(a), Run([ItemLine(kind, t)] + b))
  {
    var m := [ItemLine(kind, t)];
    assert (a + m)[..|a|] == a && (a + m)[|a|] == ItemLine(kind, t);
    assert m[..0] == [];
    assert Run(a + m) == State(ParseLines(a), Some(kind), [t]);
    assert Run(m) == State([], Some(kind), [t]);
    RunShiftedTail(a, m, b, ParseLines(a));
  }

  /**
   * An item of another kind than the open list's closes that list: the parse is
   * the blocks of the lines before it, then the blocks of the lines from it on.
   */
  lemma KindSwitchSplits(a: seq<Line>, kind: ListKind, t: string, b: seq<Line>)
    requires Run(a).open != Some(kind)
    ensures ParseLines(a + [ItemLine(kind, t)] + b) == ParseLines(a) + ParseLines([ItemLine(kind, t)] + b)
  {
    RunAfterSwitch(a, kind, t, b);
    EndListShifted(ParseLines(a), Run([ItemLine(kind, t)] + b));
  }

  /** After items of one kind, an item of the other kind ends their list and starts its own. */
  lemma SwitchAfterItems(a: seq<Line>, k1: ListKind, k2: ListKind, t: string, b: seq<Line>)
    requires |a| > 0 && forall i | 0 <= i < |a| :: a[i].ItemLine? && a[i].kind == k1
    requires k1 != k2
    ensures ParseLines(a + [ItemLine(k2, t)] + b) == [List(k1, ItemTexts(a))] + ParseLines([ItemLine(k2, t)] + b)
  {
    RunOfOneKind(a, k1);
    ItemsOfOneKindParse(a, k1);
    KindSwitchSplits(a, k2, t, b);
  }

  /** The same on the text: a heading, rule or paragraph line divides the parsed text. */
  lemma ParseAtClosingLine(before: string, line: string, after: string)
    requires '\n' !in line && Closes(Classify(line))
    ensures Parse(before + "\n" + line + "\n" + after) == Parse(before) + [BlockOf(Classify(line))] + Parse(after)
  {
    var text := before + "\n" + line + "\n" + after;
    LinesAroundLine(before, line, after);
    ClosingLineSplits(Lines(before), Classify(line), Lines(after));
    ParseIsParseLines(text);
    ParseIsParseLines(before);
    ParseIsParseLines(after);
  }

  lemma LinesAroundLine(before: string, line: string, after: string)
    requires '\n' !in line
    ensures Lines(before + "\n" + line + "\n" + after) == Lines(before) + [Classify(line)] + Lines(after)
  {
    assert before + "\n" + line + "\n" + after == before + "\n" + (line + "\n" + after);
    LinesAtNewlines(line, after);
    LinesAtNewlines(before, line + "\n" + after);
  }

  lemma ParseIsParseLines(text: string)
    ensures Parse(text) == ParseLines(Lines(text))
  {
  }

  /** Item lines of one kind and nothing else: the pass holds them all in one open list. */
  lemma {:induction false} RunOfOneKind(lines: seq<Line>, kind: ListKind)
    requires |lines| > 0
    requires forall i | 0 <= i < |lines| :: lines[i].ItemLine? && lines[i].kind == kind
    ensures Run(lines) == State([], Some(kind), ItemTexts(lines))
    decreases |lines|
  {
    var prefix := lines[..|lines| - 1];
    if |prefix| > 0 {
      RunOfOneKind(prefix, kind);
    } else {
      assert ItemTexts(prefix) == [];
    }
  }

  /** Item lines of one kind parse to a single list of their texts. */
  lemma ItemsOfOneKindParse(lines: seq<Line>, kind: ListKind)
    requires |lines| > 0
    requires forall i | 0 <= i < |lines| :: lines[i].ItemLine? && lines[i].kind == kind
    ensures ParseLines(lines) == [List(kind, ItemTexts(lines))]
  {
    RunOfOneKind(lines, kind);
    ItemTextsNonEmpty(lines);
  }

  /**
   * Two runs of items around a heading, rule or paragraph parse to two lists around
   * its block, even when both runs have one kind.
   */
  lemma ClosingBetweenItems(a: seq<Line>, k1: ListKind, l: Line, b: seq<Line>, k2: ListKind)
    requires |a| > 0 && forall i | 0 <= i < |a| :: a[i].ItemLine? && a[i].kind == k1
    requires Closes(l)
    requires |b| > 0 && forall i | 0 <= i < |b| :: b[i].ItemLine? && b[i].kind == k2
    ensures ParseLines(a + [l] + b) == [List(k1, ItemTexts(a)), BlockOf(l), List(k2, ItemTexts(b))]
  {
    ItemsOfOneKindParse(a, k1);
    ItemsOfOneKindParse(b, k2);
    ClosingLineSplits(a, l, b);
    ThreeBlocks(ParseLines(a), BlockOf(l), ParseLines(b), List(k1, ItemTexts(a)), List(k2, ItemTexts(b)));
  }

  lemma ThreeBlocks(p: seq<Block>, m: Block, q: seq<Block>, x: Block, y: Block)
    requires p == [x] && q == [y]
    ensures p + [m] + q == [x, m, y]
  {
  }

  lemma ItemTextsNonEmpty(lines: seq<Line>)
    requires |lines| > 0 && lines[|lines| - 1].ItemLine?
    ensures |ItemTexts(lines)| > 0
  {
  }

  /** A run of items of one kind, after anything but an open list of that kind, starts a list of its own. */
  lemma ItemsOfOneKindGather(st: State, kind: ListKind, a: string, b: string)
    ensures var s2 := Step(Step(st, ItemLine(kind, a)), ItemLine(kind, b));
      s2.open == Some(kind) && s2.items[|s2.items| - 2..] == [a, b]
  {
  }

  /** An example: a heading, two bullets, a blank line, one bullet and a numbered item. */
  lemma ParseExample()
    ensures var lines := [HeadingLine(1, "T"), ItemLine(Bulleted, "a"), ItemLine(Bulleted, "b"),
                          BlankLine, ItemLine(Bulleted, "c"), ItemLine(Numbered, "d")];
      EndList(Run(lines)).blocks == [Heading(1, "T"), List(Bulleted, ["a", "b", "c"]), List(Numbered, ["d"])]
  {
    var lines := [HeadingLine(1, "T"), ItemLine(Bulleted, "a"), ItemLine(Bulleted, "b"),
                  BlankLine, ItemLine(Bulleted, "c"), ItemLine(Numbered, "d")];
    assert lines[..1][..0] == [];
    assert Run(lines[..1]) == State([Heading(1, "T")], None, []);
    assert lines[..2][..1] == lines[..1];
    assert Run(lines[..2]) == State([Heading(1, "T")], Some(Bulleted), ["a"]);
    assert lines[..3][..2] == lines[..2];
    assert Run(lines[..3]) == State([Heading(1, "T")], Some(Bulleted), ["a", "b"]);
    assert lines[..4][..3] == lines[..3];
    assert Run(lines[..4]) == Run(lines[..3]);
    assert lines[..5][..4] == lines[..4];
    assert Run(lines[..5]) == State([Heading(1, "T")], Some(Bulleted), ["a", "b", "c"]);
    assert lines[..6][..5] == lines[..5];
    assert Run(lines[..6]) == State([Heading(1, "T"), List(Bulleted, ["a", "b", "c"])], Some(Numbered), ["d"]);
    assert lines[..6] == lines;
  }
}
