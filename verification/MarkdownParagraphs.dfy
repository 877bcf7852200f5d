/** Which paragraph of a Markdown source becomes its description. Paragraphs are found by
    looking at the lines one by one, apart from the scanner and its reference. */
module MarkdownParagraphs {
  import opened Text
  import opened MarkdownDescription

  // ---- where paragraphs and custom blocks stand, line by line ------------------------------

  /** What a line is part of, as seen from the lines before it. */
  datatype Mode = Open | InBlock | InCode(fence: string) | InMarked

  function Inner(kind: Kind): Mode {
    match kind
    case Opening => InBlock
    case Code(fence) => InCode(fence)
    case Marked => InMarked
    case Text => Open
    case Skipped => Open
  }

  /** The mode behind a stripped line. */
  function After(mode: Mode, line: string): Mode {
    match mode
    case Open => Inner(KindOf(line))
    case InBlock => if line == ":::" then Open else InBlock
    case InCode(fence) => if StartsWith(line, fence) then Open else mode
    case InMarked => if line == [] then Open else InMarked
  }

  function ModeAt(lines: seq<string>, i: nat): Mode
    requires i <= |lines|
  {
    if i == 0 then Open else After(ModeAt(lines, i - 1), Stripped(lines[i - 1]))
  }

  /** Line `i` is running text: outside every block, fence and marked part, and plain. */
  predicate TextAt(lines: seq<string>, i: nat) {
    i < |lines| && ModeAt(lines, i).Open? && Plain(Stripped(lines[i]))
  }

  /** Lines `i` up to `j` are a whole paragraph: text that no text precedes or follows. */
  ghost predicate ParagraphAt(lines: seq<string>, i: nat, j: nat) {
    && i < j <= |lines| && (forall k :: i <= k < j ==> TextAt(lines, k))
    && !TextAt(lines, j) && (i == 0 || !TextAt(lines, i - 1))
  }

  /** Line `i` opens a custom block, and its body ends before the closing line `j` or the end. */
  ghost predicate CustomAt(lines: seq<string>, i: nat, j: nat) {
    && i < j <= |lines| && ModeAt(lines, i).Open? && BlockFence(Stripped(lines[i]))
    && (forall k :: i < k < j ==> Stripped(lines[k]) != ":::")
    && (j == |lines| || Stripped(lines[j]) == ":::")
  }

  ghost predicate TextFrom(lines: seq<string>, index: nat, text: seq<string>) {
    exists i: nat, j: nat :: index <= i && ParagraphAt(lines, i, j) && text == StrippedLines(lines[i..j])
  }

  ghost predicate CustomFrom(lines: seq<string>, index: nat, body: seq<string>) {
    exists i: nat, j: nat :: index <= i && CustomAt(lines, i, j) && body == lines[i + 1..j]
  }

  lemma KindOfPlain(line: string)
    ensures KindOf(line).Text? <==> Plain(line)
    ensures KindOf(line).Opening? <==> BlockFence(line)
  {
    assert ":::"[0] != '#' && "#"[0] == '#';
  }

  /** Inside, a line that does not stop the loop keeps its mode and one that does ends it. */
  lemma InnerMode(kind: Kind, line: string)
    ensures !Stops(kind)(line) ==> After(Inner(kind), line) == Inner(kind)
    ensures Stops(kind)(line) && !kind.Text? && !kind.Skipped? ==> After(Inner(kind), line) == Open
  {
    KindOfPlain(line);
  }

  /** The scan stands at a line that the modes see as it does. */
  ghost predicate Ready(lines: seq<string>, index: nat) {
    && index <= |lines|
    && (|| index == |lines| || ModeAt(lines, index).Open?
        || (ModeAt(lines, index).InMarked? && Stripped(lines[index]) == []))
    && (index == 0 || !TextAt(lines, index - 1) || !TextAt(lines, index))
  }

  /** `k` is where the inner loop of this kind, begun at `index`, stops. */
  ghost predicate StopsAt(lines: seq<string>, index: nat, k: nat, kind: Kind) {
    && index < k <= |lines|
    && (k < |lines| ==> Stops(kind)(Stripped(lines[k])))
    && (forall m :: index < m < k ==> !Stops(kind)(Stripped(lines[m])))
  }

  lemma FindStops(lines: seq<string>, index: nat, k: nat, kind: Kind)
    requires index < |lines| && k == index + 1 + Find(lines[index + 1..], Stops(kind))
    ensures StopsAt(lines, index, k, kind)
  {
    var rest := lines[index + 1..];
    assert forall m :: index < m < |lines| ==> lines[m] == rest[m - (index + 1)];
  }

  /** A turn of the scan: it begins at `index` with a line of this kind and stops at `k`. */
  ghost predicate Turn(lines: seq<string>, index: nat, k: nat, kind: Kind) {
    && index < |lines| && Ready(lines, index) && kind == KindOf(Stripped(lines[index]))
    && StopsAt(lines, index, k, kind)
  }

  lemma {:induction false} ModesInside(lines: seq<string>, index: nat, k: nat, kind: Kind, m: nat)
    requires StopsAt(lines, index, k, kind) && index < m <= k && ModeAt(lines, index + 1) == Inner(kind)
    ensures ModeAt(lines, m) == Inner(kind)
    decreases m
  {
    if m > index + 1 {
      ModesInside(lines, index, k, kind, m - 1);
      InnerMode(kind, Stripped(lines[m - 1]));
      assert ModeAt(lines, m) == After(Inner(kind), Stripped(lines[m - 1]));
    }
  }

  /** Behind its first line the inner loop runs in its own mode. */
  lemma TurnModes(lines: seq<string>, index: nat, k: nat, kind: Kind, m: nat)
    requires Turn(lines, index, k, kind) && index < m <= k
    ensures ModeAt(lines, m) == Inner(kind)
  {
    EntersMode(lines, index);
    ModesInside(lines, index, k, kind, m);
  }

  lemma EntersMode(lines: seq<string>, index: nat)
    requires index < |lines| && Ready(lines, index)
    ensures ModeAt(lines, index + 1) == Inner(KindOf(Stripped(lines[index])))
  {
  }

  /** Running text between `index` and where the scan goes on is that of a paragraph. */
  lemma TurnText(lines: seq<string>, index: nat, k: nat, kind: Kind, m: nat)
    requires Turn(lines, index, k, kind) && index <= m < Onward(kind, lines, k)
    ensures TextAt(lines, m) <==> kind.Text?
  {
    KindOfPlain(Stripped(lines[index]));
    if index < m {
      TurnModes(lines, index, k, kind, m);
      if kind.Text? { KindOfPlain(Stripped(lines[m])); }
    }
  }

  /** The line that stops a loop is not text that goes on behind it. */
  lemma StopEndsText(lines: seq<string>, index: nat, k: nat, kind: Kind)
    requires StopsAt(lines, index, k, kind) && (kind.Text? || kind.Marked?)
    ensures !TextAt(lines, k)
  {
  }

  /** Behind a closing line the mode is open again. */
  lemma PastStop(lines: seq<string>, k: nat, kind: Kind)
    requires k < |lines| && ModeAt(lines, k) == Inner(kind) && Stops(kind)(Stripped(lines[k]))
    requires kind.Opening? || kind.Code?
    ensures Ready(lines, k + 1)
  {
    InnerMode(kind, Stripped(lines[k]));
    assert ModeAt(lines, k + 1).Open? && !TextAt(lines, k);
  }

  /** Text and marked parts are followed by what stopped them. */
  lemma AtStop(lines: seq<string>, index: nat, k: nat, kind: Kind)
    requires StopsAt(lines, index, k, kind) && ModeAt(lines, k) == Inner(kind) && (kind.Text? || kind.Marked?)
    ensures Ready(lines, k)
  {
    StopEndsText(lines, index, k, kind);
  }

  lemma SkippedStops(line: string)
    ensures Stops(Skipped)(line)
  {
  }

  lemma PastSkipped(lines: seq<string>, index: nat, k: nat, kind: Kind)
    requires Turn(lines, index, k, kind) && kind.Skipped?
    ensures Ready(lines, k)
  {
    if index + 1 < |lines| { SkippedStops(Stripped(lines[index + 1])); }
    assert k == index + 1;
    EntersMode(lines, index);
    KindOfPlain(Stripped(lines[index]));
  }

  lemma AtEnd(lines: seq<string>)
    ensures Ready(lines, |lines|)
  {
    assert !TextAt(lines, |lines|);
  }

  lemma TurnIsReady(lines: seq<string>, index: nat, k: nat, kind: Kind)
    requires Turn(lines, index, k, kind)
    ensures Ready(lines, Onward(kind, lines, k))
  {
    TurnModes(lines, index, k, kind, k);
    if kind.Text? || kind.Marked? {
      AtStop(lines, index, k, kind);
    } else if kind.Skipped? {
      PastSkipped(lines, index, k, kind);
    } else if k < |lines| {
      PastStop(lines, k, kind);
    } else {
      AtEnd(lines);
    }
  }

  /** A paragraph that starts within a text turn is the whole turn. */
  lemma TurnIsParagraph(lines: seq<string>, index: nat, k: nat, kind: Kind)
    requires Turn(lines, index, k, kind) && kind.Text?
    ensures ParagraphAt(lines, index, k)
    ensures forall i: nat, j: nat :: index <= i < k && ParagraphAt(lines, i, j) ==> i == index && j == k
  {
    forall m | index <= m < k ensures TextAt(lines, m) { TurnText(lines, index, k, kind, m); }
    StopEndsText(lines, index, k, kind);
    assert ParagraphAt(lines, index, k);
  }

  lemma TextTurn(lines: seq<string>, index: nat, k: nat, text: seq<string>)
    requires Turn(lines, index, k, Text)
    ensures TextFrom(lines, index, text) <==> TextFrom(lines, k, text) || text == StrippedLines(lines[index..k])
  {
    TurnIsParagraph(lines, index, k, Text);
  }

  lemma OtherTurn(lines: seq<string>, index: nat, k: nat, kind: Kind, text: seq<string>)
    requires Turn(lines, index, k, kind) && !kind.Text?
    ensures TextFrom(lines, index, text) <==> TextFrom(lines, Onward(kind, lines, k), text)
  {
    var next := Onward(kind, lines, k);
    forall m | index <= m < next ensures !TextAt(lines, m) { TurnText(lines, index, k, kind, m); }
    forall i: nat, j: nat | index <= i && ParagraphAt(lines, i, j) ensures next <= i { assert TextAt(lines, i); }
  }

  lemma TurnParagraph(lines: seq<string>, index: nat, k: nat, kind: Kind, text: seq<string>)
    requires Turn(lines, index, k, kind)
    ensures TextFrom(lines, index, text) <==>
              || TextFrom(lines, Onward(kind, lines, k), text)
              || (kind.Text? && text == [Stripped(lines[index])] + StrippedLines(lines[index + 1..k]))
  {
    if kind.Text? {
      TextTurn(lines, index, k, text);
      assert StrippedLines(lines[index..k]) == [Stripped(lines[index])] + StrippedLines(lines[index + 1..k]);
    } else {
      OtherTurn(lines, index, k, kind, text);
    }
  }

  lemma TurnCustom(lines: seq<string>, index: nat, k: nat, kind: Kind, body: seq<string>)
    requires Turn(lines, index, k, kind)
    ensures CustomFrom(lines, index, body) <==>
              || CustomFrom(lines, Onward(kind, lines, k), body)
              || (kind.Opening? && body == lines[index + 1..k])
  {
    var next := Onward(kind, lines, k);
    KindOfPlain(Stripped(lines[index]));
    if kind.Opening? { TurnIsCustom(lines, index, k, kind); }
    forall i: nat, j: nat | index <= i < next && CustomAt(lines, i, j) ensures i == index && kind.Opening? {
      if i > index { NoFenceInside(lines, index, k, kind, i); }
    }
  }

  lemma TurnIsCustom(lines: seq<string>, index: nat, k: nat, kind: Kind)
    requires Turn(lines, index, k, kind) && kind.Opening?
    ensures CustomAt(lines, index, k)
    ensures forall j: nat :: CustomAt(lines, index, j) ==> j == k
  {
    KindOfPlain(Stripped(lines[index]));
  }

  /** No custom block opens while another line's turn lasts. */
  lemma NoFenceInside(lines: seq<string>, index: nat, k: nat, kind: Kind, i: nat)
    requires Turn(lines, index, k, kind) && index < i < Onward(kind, lines, k)
    ensures !ModeAt(lines, i).Open? || !BlockFence(Stripped(lines[i]))
  {
    TurnModes(lines, index, k, kind, i);
    KindOfPlain(Stripped(lines[i]));
  }

  /** The blocks of the reference are exactly the paragraphs and custom blocks that stand
      among the lines. */
  lemma {:induction false} BlocksFrom(lines: seq<string>, index: nat, b: Block)
    requires Ready(lines, index)
    ensures b in Blocks(lines[index..]) <==>
              if b.Paragraph? then TextFrom(lines, index, b.text) else CustomFrom(lines, index, b.body)
    decreases |lines| - index
  {
    if index < |lines| {
      var kind := KindOf(Stripped(lines[index]));
      var k := index + 1 + Find(lines[index + 1..], Stops(kind));
      FindStops(lines, index, k, kind);
      BlocksAt(lines, index, k);
      TurnIsReady(lines, index, k, kind);
      BlocksFrom(lines, Onward(kind, lines, k), b);
      match b
      case Paragraph(text) => TurnParagraph(lines, index, k, kind, text);
      case Custom(body) => TurnCustom(lines, index, k, kind, body);
    }
  }

  lemma BlocksExactly(lines: seq<string>, b: Block)
    ensures b in Blocks(lines) <==> if b.Paragraph? then TextFrom(lines, 0, b.text) else CustomFrom(lines, 0, b.body)
  {
    assert lines[0..] == lines;
    BlocksFrom(lines, 0, b);
  }

  // ---- the paragraphs of a source -----------------------------------------------------------

  function LinesOf(source: string): seq<string> { SplitLines(StripFrontmatter(source)) }

  /** `text` is a paragraph of the source: a maximal stretch of running text among its lines,
      or a paragraph of the body of one of its custom blocks. */
  ghost predicate HasParagraph(source: string, text: seq<string>)
    decreases |source|
  {
    || TextFrom(LinesOf(source), 0, text)
    || exists body :: CustomFrom(LinesOf(source), 0, body) && |Join(body, '\n')| < |source|
                      && HasParagraph(Join(body, '\n'), text)
  }

  /** All paragraphs in the order of the source, those of custom blocks in their place. */
  function Paragraphs(source: string): seq<seq<string>>
    decreases |source|
  {
    SourceBlocks(source);
    Flatten(Blocks(LinesOf(source)), |source|)
  }

  function Flatten(blocks: seq<Block>, bound: nat): seq<seq<string>>
    requires Below(blocks, bound)
    decreases bound, |blocks|, 0
  {
    if blocks == [] then []
    else
      assert forall b :: b in blocks[1..] ==> b in blocks;
      FlatBlock(blocks[0], bound) + Flatten(blocks[1..], bound)
  }

  function FlatBlock(b: Block, bound: nat): seq<seq<string>>
    requires b.Custom? ==> |Join(b.body, '\n')| < bound
    decreases bound, 0, 0
  {
    match b
    case Paragraph(text) => [text]
    case Custom(body) => Paragraphs(Join(body, '\n'))
  }

  ghost predicate InCustom(blocks: seq<Block>, bound: nat, text: seq<string>) {
    exists body :: Custom(body) in blocks && |Join(body, '\n')| < bound && text in Paragraphs(Join(body, '\n'))
  }

  lemma InFirstOrRest(blocks: seq<Block>, bound: nat, text: seq<string>)
    requires blocks != [] && (blocks[0].Custom? ==> |Join(blocks[0].body, '\n')| < bound)
    ensures InCustom(blocks, bound, text) <==>
              (blocks[0].Custom? && text in FlatBlock(blocks[0], bound)) || InCustom(blocks[1..], bound, text)
  {
    assert blocks == [blocks[0]] + blocks[1..];
    if blocks[0].Custom? { assert Custom(blocks[0].body) in blocks; }
  }

  lemma {:induction false} FlattenMeaning(blocks: seq<Block>, bound: nat, text: seq<string>)
    requires Below(blocks, bound)
    ensures text in Flatten(blocks, bound) <==> Paragraph(text) in blocks || InCustom(blocks, bound, text)
  {
    if blocks != [] {
      var first, rest := blocks[0], blocks[1..];
      assert forall b :: b in rest ==> b in blocks;
      FlattenMeaning(rest, bound, text);
      InFirstOrRest(blocks, bound, text);
      assert text in Flatten(blocks, bound) <==> text in FlatBlock(first, bound) || text in Flatten(rest, bound);
      assert Paragraph(text) in blocks <==> first == Paragraph(text) || Paragraph(text) in rest;
    }
  }

  ghost predicate Nested(source: string, text: seq<string>) {
    exists body :: CustomFrom(LinesOf(source), 0, body) && |Join(body, '\n')| < |source|
                   && text in Paragraphs(Join(body, '\n'))
  }

  lemma ParagraphsUnfold(source: string, text: seq<string>)
    ensures text in Paragraphs(source) <==> TextFrom(LinesOf(source), 0, text) || Nested(source, text)
  {
    var lines := LinesOf(source);
    SourceBlocks(source);
    FlattenMeaning(Blocks(lines), |source|, text);
    BlocksExactly(lines, Paragraph(text));
    forall body ensures Custom(body) in Blocks(lines) <==> CustomFrom(lines, 0, body) {
      BlocksExactly(lines, Custom(body));
    }
  }

  /** The list holds exactly the paragraphs of the source. */
  lemma {:induction false} ParagraphsExactly(source: string, text: seq<string>)
    ensures text in Paragraphs(source) <==> HasParagraph(source, text)
    decreases |source|
  {
    ParagraphsUnfold(source, text);
    forall body | |Join(body, '\n')| < |source|
      ensures text in Paragraphs(Join(body, '\n')) <==> HasParagraph(Join(body, '\n'), text)
    {
      ParagraphsExactly(Join(body, '\n'), text);
    }
  }

  // ---- what a description is ----------------------------------------------------------------

  function TextOf(inline: string -> string, text: seq<string>): string { inline(Join(text, ' ')) }

  /** `d` is what a list of paragraphs may yield: the shortened text of one of them, or nothing
      if all are empty. */
  ghost predicate Yields(inline: string -> string, texts: seq<seq<string>>, d: string) {
    && |d| <= PAGE_DESCRIPTION_LIMIT + 1
    && (d == [] ==> forall t :: t in texts ==> TextOf(inline, t) == [])
    && (d != [] ==> exists t :: t in texts && TextOf(inline, t) != [] && d == TruncateDescription(TextOf(inline, t)))
  }

  lemma {:induction false} ChoiceMeaning(inline: string -> string, blocks: seq<Block>, bound: nat)
    requires Below(blocks, bound)
    ensures Yields(inline, Flatten(blocks, bound), Choose(inline, blocks, bound).text)
    ensures Choose(inline, blocks, bound).Useful? ==> Choose(inline, blocks, bound).text != []
    decreases bound, |blocks|, 1
  {
    if blocks != [] {
      assert blocks[0] in blocks;
      CandidateMeaning(inline, blocks[0], bound);
      assert forall b :: b in blocks[1..] ==> b in blocks;
      ChoiceMeaning(inline, blocks[1..], bound);
      YieldsAppend(inline, FlatBlock(blocks[0], bound), Flatten(blocks[1..], bound),
                   Candidate(inline, blocks[0], bound).text, Choose(inline, blocks[1..], bound).text);
    }
  }

  lemma YieldsAppend(inline: string -> string, a: seq<seq<string>>, b: seq<seq<string>>, d: string, e: string)
    requires Yields(inline, a, d) && Yields(inline, b, e)
    ensures d != [] ==> Yields(inline, a + b, d)
    ensures e != [] || d == [] ==> Yields(inline, a + b, e)
  {
  }

  lemma {:induction false} CandidateMeaning(inline: string -> string, b: Block, bound: nat)
    requires b.Custom? ==> |Join(b.body, '\n')| < bound
    ensures Yields(inline, FlatBlock(b, bound), Candidate(inline, b, bound).text)
    ensures Candidate(inline, b, bound).Useful? ==> Candidate(inline, b, bound).text != []
    decreases bound, 0, 0
  {
    match b
    case Custom(body) => DescriptionYields(inline, Join(body, '\n'));
    case Paragraph(text) => assert text in [text];
  }

  lemma {:induction false} DescriptionYields(inline: string -> string, source: string)
    ensures Yields(inline, Paragraphs(source), Describe(inline, source))
    decreases |source|
  {
    SourceBlocks(source);
    ChoiceMeaning(inline, Blocks(LinesOf(source)), |source|);
  }

  /** Every description has at most 161 characters, is empty exactly when all paragraphs of the
      source are, and otherwise is the shortened text of one of them: of running text that
      stands outside headings, code, lists, quotes and tables. */
  lemma DescriptionMeaning(inline: string -> string, source: string)
    ensures var d := Describe(inline, source);
            && |d| <= PAGE_DESCRIPTION_LIMIT + 1
            && (d == [] <==> forall t :: HasParagraph(source, t) ==> TextOf(inline, t) == [])
            && (d != [] ==> exists t :: HasParagraph(source, t) && d == TruncateDescription(TextOf(inline, t)))
  {
    DescriptionYields(inline, source);
    forall t ensures t in Paragraphs(source) <==> HasParagraph(source, t) { ParagraphsExactly(source, t); }
  }

  // ---- which paragraph it is --------------------------------------------------------------

  /** The first useful paragraph of a plain list, else the first that is not empty. */
  function Pick(inline: string -> string, texts: seq<seq<string>>): Choice {
    if texts == [] then Short([])
    else
      var t, rest := TextOf(inline, texts[0]), Pick(inline, texts[1..]);
      if |t| >= MIN_USEFUL_DESCRIPTION_LENGTH then Useful(TruncateDescription(t))
      else if rest.Short? && t != [] then Short(t)
      else rest
  }

  /** The first of two choices unless only the second is useful or not empty. */
  function Prefer(a: Choice, b: Choice): Choice {
    if a.Useful? || (b.Short? && a.text != []) then a else b
  }

  lemma {:induction false} PickAppend(inline: string -> string, a: seq<seq<string>>, b: seq<seq<string>>)
    ensures Pick(inline, a + b) == Prefer(Pick(inline, a), Pick(inline, b))
  {
    if a == [] {
      assert a + b == b;
    } else {
      assert (a + b)[1..] == a[1..] + b;
      PickAppend(inline, a[1..], b);
    }
  }

  lemma {:induction false} ShortIsShort(inline: string -> string, texts: seq<seq<string>>)
    ensures Pick(inline, texts).Short? ==> |Pick(inline, texts).text| < MIN_USEFUL_DESCRIPTION_LENGTH
  {
    if texts != [] { ShortIsShort(inline, texts[1..]); }
  }

  /** Shortening does not make a useful choice useless. */
  predicate Sturdy(c: Choice) { c.Useful? ==> |c.text| >= MIN_USEFUL_DESCRIPTION_LENGTH }

  /** The first block with a useful paragraph is that paragraph, or keeps a useful length when
      its text is shortened. */
  ghost predicate KeepsFirst(inline: string -> string, blocks: seq<Block>, bound: nat)
    requires Below(blocks, bound)
    decreases |blocks|
  {
    blocks == [] ||
    (assert forall b :: b in blocks[1..] ==> b in blocks;
     var first := Pick(inline, FlatBlock(blocks[0], bound));
     if first.Useful? then blocks[0].Paragraph? || Sturdy(first) else KeepsFirst(inline, blocks[1..], bound))
  }

  lemma {:induction false} SturdyKeepsFirst(inline: string -> string, blocks: seq<Block>, bound: nat)
    requires Below(blocks, bound) && Sturdy(Pick(inline, Flatten(blocks, bound)))
    ensures KeepsFirst(inline, blocks, bound)
    decreases |blocks|
  {
    if blocks != [] {
      assert forall b :: b in blocks[1..] ==> b in blocks;
      PickAppend(inline, FlatBlock(blocks[0], bound), Flatten(blocks[1..], bound));
      if !Pick(inline, FlatBlock(blocks[0], bound)).Useful? { SturdyKeepsFirst(inline, blocks[1..], bound); }
    }
  }

  lemma {:induction false} ChooseIsPick(inline: string -> string, blocks: seq<Block>, bound: nat)
    requires Below(blocks, bound) && KeepsFirst(inline, blocks, bound)
    ensures Choose(inline, blocks, bound) == Pick(inline, Flatten(blocks, bound))
    decreases bound, |blocks|, 1
  {
    if blocks != [] {
      assert blocks[0] in blocks;
      assert forall b :: b in blocks[1..] ==> b in blocks;
      var flat := FlatBlock(blocks[0], bound);
      CandidateIsPick(inline, blocks[0], bound);
      PickAppend(inline, flat, Flatten(blocks[1..], bound));
      if !Pick(inline, flat).Useful? { ChooseIsPick(inline, blocks[1..], bound); }
    }
  }

  /** A block counts for the scanner as its paragraphs would one by one if and only if it is a
      paragraph itself or shortening leaves its first useful paragraph useful. */
  lemma {:induction false} CandidateIsPick(inline: string -> string, b: Block, bound: nat)
    requires b.Custom? ==> |Join(b.body, '\n')| < bound
    ensures Candidate(inline, b, bound) == Pick(inline, FlatBlock(b, bound)) <==>
              b.Paragraph? || Sturdy(Pick(inline, FlatBlock(b, bound)))
    decreases bound, 0, 0
  {
    match b
    case Paragraph(text) => assert [text][1..] == [];
    case Custom(body) =>
      var source := Join(body, '\n');
      SourceBlocks(source);
      assert FlatBlock(b, bound) == Paragraphs(source) == Flatten(Blocks(LinesOf(source)), |source|);
      if Sturdy(Pick(inline, Paragraphs(source))) {
        SturdyKeepsFirst(inline, Blocks(LinesOf(source)), |source|);
        ChooseIsPick(inline, Blocks(LinesOf(source)), |source|);
        ShortIsShort(inline, Paragraphs(source));
      }
  }

  ghost predicate FirstUsefulSurvives(inline: string -> string, source: string) {
    SourceBlocks(source);
    KeepsFirst(inline, Blocks(LinesOf(source)), |source|)
  }

  /** The recursion through custom blocks gives the same answer as one look through all
      paragraphs in order, unless shortening leaves a custom block's first useful paragraph
      with fewer than 24 characters. */
  lemma DescriptionIsFirstUseful(inline: string -> string, source: string)
    requires FirstUsefulSurvives(inline, source)
    ensures Describe(inline, source) == Pick(inline, Paragraphs(source)).text
  {
    SourceBlocks(source);
    ChooseIsPick(inline, Blocks(LinesOf(source)), |source|);
  }

  /** A useful paragraph whose shortened text is not. */
  predicate Shrinks(inline: string -> string, text: seq<string>) {
    && |TextOf(inline, text)| >= MIN_USEFUL_DESCRIPTION_LENGTH
    && |TruncateDescription(TextOf(inline, text))| < MIN_USEFUL_DESCRIPTION_LENGTH
  }

  ghost predicate Shrunk(inline: string -> string, blocks: seq<Block>, d: string) {
    exists text :: Paragraph(text) in blocks && Shrinks(inline, text) && d == TruncateDescription(TextOf(inline, text))
  }

  /** A useful choice is long, unless it is a paragraph that shrinks. */
  lemma {:induction false} UsefulIsLong(inline: string -> string, blocks: seq<Block>, bound: nat)
    requires Below(blocks, bound)
    ensures var c := Choose(inline, blocks, bound);
            c.Useful? ==> |c.text| >= MIN_USEFUL_DESCRIPTION_LENGTH || Shrunk(inline, blocks, c.text)
    decreases |blocks|
  {
    if blocks != [] {
      var first, rest := blocks[0], blocks[1..];
      assert first in blocks && forall b :: b in rest ==> b in blocks;
      UsefulIsLong(inline, rest, bound);
      if first.Paragraph? && Shrinks(inline, first.text) { assert Paragraph(first.text) in blocks; }
    }
  }

  /** The scan chooses as one look through all paragraphs in order would, usefulness and text,
      if and only if shortening leaves the first useful paragraph useful or that paragraph
      stands outside custom blocks. The one exception needs a paragraph outside custom blocks
      that shrinks to the very text of the one passed over. */
  lemma ChoiceIsFirstUsefulExactly(inline: string -> string, blocks: seq<Block>, bound: nat)
    requires Below(blocks, bound)
    ensures var same := Choose(inline, blocks, bound) == Pick(inline, Flatten(blocks, bound));
            && (KeepsFirst(inline, blocks, bound) ==> same)
            && (same ==>
                  KeepsFirst(inline, blocks, bound) || Shrunk(inline, blocks, Choose(inline, blocks, bound).text))
            && ((forall text :: Paragraph(text) in blocks ==> !Shrinks(inline, text)) ==>
                  (same <==> KeepsFirst(inline, blocks, bound)))
  {
    UsefulIsLong(inline, blocks, bound);
    if KeepsFirst(inline, blocks, bound) {
      ChooseIsPick(inline, blocks, bound);
    } else if Sturdy(Pick(inline, Flatten(blocks, bound))) {
      SturdyKeepsFirst(inline, blocks, bound);
    }
  }

  // ---- where the first useful paragraph is passed over ---------------------------------------

  /** A line of text as it stands in a source. */
  predicate PlainSource(line: string) { Plain(line) && Stripped(line) == line && '\n' !in line && '\r' !in line }

  /** A source of one plain line is its only paragraph. */
  lemma PlainSourceBlocks(line: string)
    requires PlainSource(line)
    ensures LinesOf(line) == [line] && Blocks([line]) == [Paragraph([line])]
  {
    assert line[0] != '\U{FEFF}' by { assert |StripStart(line)| == |line|; }
    OneLine(line);
    KindOfPlain(line);
    var rest: seq<string> := [];
    assert [line][1..] == rest && Find(rest, Stops(Text)) == 0;
    BlocksUnfold([line], rest, 0);
    assert [line] + StrippedLines(rest[..0]) == [line];
  }

  /** A custom block around one line, and another line behind it. */
  function BlockThenLine(a: string, b: string): string { ":::" + "\n" + (a + "\n" + (":::" + "\n" + b)) }

  lemma BlockThenLineLines(a: string, b: string)
    requires PlainSource(a) && PlainSource(b)
    ensures LinesOf(BlockThenLine(a, b)) == [":::", a, ":::", b]
  {
    var source := BlockThenLine(a, b);
    assert source[0] == ':' && StripFrontmatter(source) == source;
    FirstLine(":::", "\n", a + "\n" + (":::" + "\n" + b));
    FirstLine(a, "\n", ":::" + "\n" + b);
    FirstLine(":::", "\n", b);
    OneLine(b);
  }

  lemma FenceIsStripped()
    ensures Stripped(":::") == ":::" && KindOf(":::").Opening?
  {
    KindOfPlain(":::");
  }

  /** A closed custom block of one line, whatever stands behind it. */
  lemma CustomThen(fence: string, a: string, behind: seq<string>)
    requires Stripped(fence) == fence && KindOf(fence).Opening? && Stops(Opening)(fence) && !Stops(Opening)(Stripped(a))
    ensures Blocks([fence, a, fence] + behind) == [Custom([a])] + Blocks(behind)
  {
    var lines, rest := [fence, a, fence] + behind, [a, fence] + behind;
    assert lines[1..] == rest && rest[0] == a && rest[1] == fence;
    FindIs(rest, Stops(Opening), 1);
    BlocksUnfold(lines, rest, 1);
    assert rest[..1] == [a] && AfterLine(rest, 1) == behind;
  }

  lemma BlockThenLineBlocks(a: string, b: string)
    requires PlainSource(a) && PlainSource(b)
    ensures Blocks([":::", a, ":::", b]) == [Custom([a]), Paragraph([b])]
  {
    FenceIsStripped();
    PlainSourceBlocks(b);
    assert a != ":::";
    CustomThen(":::", a, [b]);
    assert [":::", a, ":::"] + [b] == [":::", a, ":::", b];
  }

  /** A custom block whose only paragraph is long but ends, when cut, in so much punctuation
      that fewer than 24 characters stay: the scanner takes it for a short one and goes on to
      the next useful paragraph. */
  lemma ShortenedParagraphIsPassedOver(inline: string -> string, a: string, b: string)
    requires PlainSource(a) && PlainSource(b)
    requires |inline(a)| >= MIN_USEFUL_DESCRIPTION_LENGTH && |inline(b)| >= MIN_USEFUL_DESCRIPTION_LENGTH
    requires |TruncateDescription(inline(a))| < MIN_USEFUL_DESCRIPTION_LENGTH
    ensures Paragraphs(BlockThenLine(a, b)) == [[a], [b]]
    ensures Pick(inline, Paragraphs(BlockThenLine(a, b))) == Useful(TruncateDescription(inline(a)))
    ensures Describe(inline, BlockThenLine(a, b)) == TruncateDescription(inline(b))
  {
    var source := BlockThenLine(a, b);
    SourceBlocks(source);
    BlockThenLineLines(a, b);
    BlockThenLineBlocks(a, b);
    SingleParagraph(inline, a);
    TwoBlocks(inline, a, b, TruncateDescription(inline(a)), |source|);
    PickTwo(inline, a, b);
  }

  lemma PickTwo(inline: string -> string, a: string, b: string)
    requires |inline(a)| >= MIN_USEFUL_DESCRIPTION_LENGTH
    ensures Pick(inline, [[a], [b]]) == Useful(TruncateDescription(inline(a)))
  {
    assert Join([a], ' ') == a;
  }

  lemma {:induction false} StrippedOfClean(line: string)
    requires line != [] && !ScriptSpace(line[0]) && !ScriptSpace(line[|line| - 1])
    ensures Stripped(line) == line
  {
    assert StripStart(line) == line;
  }

  /** Text that opens with a letter and holds no space is a plain line. */
  lemma LetterLine(line: string)
    requires line != [] && 'a' <= line[0] <= 'z' && forall c :: c in line ==> c == '!' || 'a' <= c <= 'z'
    ensures PlainSource(line)
  {
    assert line[|line| - 1] in line;
    StrippedOfClean(line);
  }

  function Bangs(): string { "a" + seq(200, _ => '!') }

  lemma BangsShrink()
    ensures PlainSource(Bangs()) && |Bangs()| == 201 && |TruncateDescription(Bangs())| <= 2
  {
    var a, t := Bangs(), TruncateDescription(Bangs());
    assert forall i :: 0 < i < |a| ==> a[i] == '!';
    LetterLine(a);
    assert |t| > 1 ==> t[..|t| - 1][|t| - 2] == a[|t| - 2];
  }

  /** A member of the family, with text that inline markup leaves as it is. */
  lemma BangsArePassedOver()
    ensures var inline, b := (x: string) => x, seq(30, _ => 'b');
            && Pick(inline, Paragraphs(BlockThenLine(Bangs(), b))) == Useful(TruncateDescription(Bangs()))
            && Describe(inline, BlockThenLine(Bangs(), b)) == b
  {
    var b := seq(30, _ => 'b');
    BangsShrink();
    LetterLine(b);
    ShortenedParagraphIsPassedOver((x: string) => x, Bangs(), b);
  }

  lemma TwoBlocks(inline: string -> string, a: string, b: string, d: string, bound: nat)
    requires Below([Custom([a]), Paragraph([b])], bound) && |inline(b)| >= MIN_USEFUL_DESCRIPTION_LENGTH
    requires Paragraphs(a) == [[a]] && Describe(inline, a) == d && |d| < MIN_USEFUL_DESCRIPTION_LENGTH
    ensures Flatten([Custom([a]), Paragraph([b])], bound) == [[a], [b]]
    ensures Choose(inline, [Custom([a]), Paragraph([b])], bound) == Useful(TruncateDescription(inline(b)))
  {
    var first, rest := Custom([a]), [Paragraph([b])];
    var blocks := [first] + rest;
    assert blocks == [Custom([a]), Paragraph([b])] && first in blocks;
    ChooseUnfold(inline, first, rest, bound);
    CustomUnfold(inline, [a], a, bound);
    OneBlock(inline, b, bound);
    var one: seq<seq<string>>, two: seq<seq<string>> := [[a]], [[b]];
    assert one + two == [[a], [b]];
  }

  lemma ChooseUnfold(inline: string -> string, first: Block, rest: seq<Block>, bound: nat)
    requires Below([first] + rest, bound)
    ensures Below(rest, bound) && (first.Custom? ==> |Join(first.body, '\n')| < bound)
    ensures Flatten([first] + rest, bound) == FlatBlock(first, bound) + Flatten(rest, bound)
    ensures Choose(inline, [first] + rest, bound)
            == Prefer(Candidate(inline, first, bound), Choose(inline, rest, bound))
  {
    var blocks := [first] + rest;
    assert first in blocks && blocks[1..] == rest && forall b :: b in rest ==> b in blocks;
  }

  lemma CustomUnfold(inline: string -> string, body: seq<string>, source: string, bound: nat)
    requires source == Join(body, '\n') && |source| < bound
    ensures FlatBlock(Custom(body), bound) == Paragraphs(source)
    ensures var d := Describe(inline, source);
            Candidate(inline, Custom(body), bound)
            == if |d| >= MIN_USEFUL_DESCRIPTION_LENGTH then Useful(d) else Short(d)
  {
  }

  lemma OneBlock(inline: string -> string, a: string, bound: nat)
    requires |inline(a)| >= MIN_USEFUL_DESCRIPTION_LENGTH
    ensures Below([Paragraph([a])], bound) && Flatten([Paragraph([a])], bound) == [[a]]
    ensures Choose(inline, [Paragraph([a])], bound) == Useful(TruncateDescription(inline(a)))
  {
    var blocks := [Paragraph([a])];
    assert blocks[1..] == [] && Join([a], ' ') == a;
    assert FlatBlock(blocks[0], bound) == [[a]] && Flatten(blocks[1..], bound) == [];
  }

  lemma SingleParagraph(inline: string -> string, a: string)
    requires PlainSource(a) && |inline(a)| >= MIN_USEFUL_DESCRIPTION_LENGTH
    ensures Paragraphs(a) == [[a]] && Describe(inline, a) == TruncateDescription(inline(a))
  {
    SourceBlocks(a);
    PlainSourceBlocks(a);
    OneBlock(inline, a, |a|);
  }
}
