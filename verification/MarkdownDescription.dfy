/** The page description taken from a Markdown source by the documentation site. A
    character here stands for one UTF-16 unit of the original strings. */
module MarkdownDescription {
  import opened Text

  const PAGE_DESCRIPTION_LIMIT: nat := 160
  const MIN_USEFUL_DESCRIPTION_LENGTH: nat := 24

  // ---- characters and trimming ------------------------------------------------

  /** The whitespace of JavaScript's `trim` and `\s`. */
  predicate ScriptSpace(c: char) { (IsSpace(c) && c != '\U{85}') || c == '\U{FEFF}' }

  function StripStart(s: string): (t: string)
    ensures |t| <= |s|
  {
    if s != [] && ScriptSpace(s[0]) then StripStart(s[1..]) else s
  }

  function StripEnd(s: string, drop: char -> bool): (t: string)
    ensures |t| <= |s| && t <= s && (t == [] || !drop(t[|t| - 1]))
  {
    if s != [] && drop(s[|s| - 1]) then StripEnd(s[..|s| - 1], drop) else s
  }

  /** The text between the outer whitespace. */
  function Stripped(s: string): (t: string)
    ensures |t| <= |s|
  {
    StripEnd(StripStart(s), ScriptSpace)
  }

  predicate StartsWith(s: string, prefix: string) { prefix <= s }

  predicate Punctuation(c: char) {
    c in {'\U{FF0C}', '\U{3002}', '\U{FF01}', '\U{FF1F}', '\U{FF1B}', '\U{FF1A}', ',', '.', '!', '?', ';', ':'}
  }

  /** Long text is cut, trailing spaces and punctuation go, and an ellipsis is added. */
  function TruncateDescription(text: string): (t: string)
    ensures |t| <= PAGE_DESCRIPTION_LIMIT + 1
    ensures |text| <= PAGE_DESCRIPTION_LIMIT ==> t == text
    ensures |text| > PAGE_DESCRIPTION_LIMIT ==>
              t != [] && t[|t| - 1] == '\U{2026}' && t[..|t| - 1] <= text
              && (|t| > 1 ==> !ScriptSpace(t[|t| - 2]) && !Punctuation(t[|t| - 2]))
  {
    if |text| <= PAGE_DESCRIPTION_LIMIT then text
    else StripEnd(text[..PAGE_DESCRIPTION_LIMIT], c => ScriptSpace(c) || Punctuation(c)) + ['\U{2026}']
  }

  // ---- lines and front matter ---------------------------------------------------

  /** A line break at `i`, with or without a carriage return: the position after it. */
  function AfterBreak(s: string, i: nat): (j: Option<nat>)
    ensures j.Some? ==> i < j.value <= |s|
  {
    if i < |s| && s[i] == '\n' then Some(i + 1)
    else if i + 1 < |s| && s[i] == '\r' && s[i + 1] == '\n' then Some(i + 2)
    else None
  }

  predicate DashesAt(s: string, i: nat) { i + 3 <= |s| && s[i..i + 3] == "---" }

  /** The first closing fence at or after `i`: the position after its dashes. */
  function ClosingFence(s: string, i: nat): (j: Option<nat>)
    ensures j.Some? ==> j.value <= |s|
    decreases |s| - i
  {
    if i >= |s| then None
    else
      var b := AfterBreak(s, i);
      if b.Some? && DashesAt(s, b.value) then Some(b.value + 3) else ClosingFence(s, i + 1)
  }

  function StripFrontmatter(source: string): (rest: string)
    ensures |rest| <= |source|
  {
    var s := if source != [] && source[0] == '\U{FEFF}' then source[1..] else source;
    var open := if DashesAt(s, 0) then AfterBreak(s, 3) else None;
    var close := if open.Some? then ClosingFence(s, open.value) else None;
    if close.None? then s else AfterLineEnd(s, close.value)
  }

  function AfterLineEnd(s: string, e: nat): (rest: string)
    requires e <= |s|
    ensures |rest| <= |s|
  {
    var e' := if e < |s| && s[e] == '\r' then e + 1 else e;
    var e'' := if e' < |s| && s[e'] == '\n' then e' + 1 else e';
    s[e''..]
  }

  function SplitLines(s: string): (lines: seq<string>)
    ensures |lines| >= 1
  {
    if s == [] then [[]]
    else
      var b := AfterBreak(s, 0);
      if b.Some? then [[]] + SplitLines(s[b.value..])
      else
        var rest := SplitLines(s[1..]);
        [[s[0]] + rest[0]] + rest[1..]
  }

  lemma {:induction false} StripStartMeaning(pre: string, s: string)
    requires (forall c :: c in pre ==> ScriptSpace(c)) && (s == [] || !ScriptSpace(s[0]))
    ensures StripStart(pre + s) == s
  {
    if pre == [] {
      assert pre + s == s;
    } else {
      assert (pre + s)[1..] == pre[1..] + s && pre[0] in pre;
      StripStartMeaning(pre[1..], s);
    }
  }

  lemma {:induction false} StripEndMeaning(s: string, post: string, drop: char -> bool)
    requires (forall c :: c in post ==> drop(c)) && (s == [] || !drop(s[|s| - 1]))
    ensures StripEnd(s + post, drop) == s
  {
    if post == [] {
      assert s + post == s;
    } else {
      var n := |post| - 1;
      assert (s + post)[..|s + post| - 1] == s + post[..n] && post[n] in post;
      StripEndMeaning(s, post[..n], drop);
    }
  }

  /** Whitespace on either side goes, and nothing else. */
  lemma StrippedMeaning(pre: string, s: string, post: string)
    requires (forall c :: c in pre ==> ScriptSpace(c)) && (forall c :: c in post ==> ScriptSpace(c))
    requires s != [] && !ScriptSpace(s[0]) && !ScriptSpace(s[|s| - 1])
    ensures Stripped(pre + s + post) == s && Stripped(pre) == []
  {
    assert pre + s + post == pre + (s + post);
    StripStartMeaning(pre, s + post);
    StripEndMeaning(s, post, ScriptSpace);
    StripStartMeaning(pre, []);
    assert pre + [] == pre;
  }

  /** Long text is cut to its first 160 characters; the spaces and punctuation at the end of
      those go, and nothing else, and an ellipsis is added. */
  lemma TruncateMeaning(head: string, tail: string, rest: string)
    requires |head + tail| == 160 && rest != [] && forall c :: c in tail ==> ScriptSpace(c) || Punctuation(c)
    requires head == [] || !(ScriptSpace(head[|head| - 1]) || Punctuation(head[|head| - 1]))
    ensures TruncateDescription(head + tail + rest) == head + "\U{2026}"
  {
    var text := head + tail + rest;
    assert text[..PAGE_DESCRIPTION_LIMIT] == head + tail;
    StripEndMeaning(head, tail, c => ScriptSpace(c) || Punctuation(c));
  }

  /** A source is its first line, a line break and the rest, or one line. */
  lemma {:induction false} FirstLine(line: string, brk: string, rest: string)
    requires '\n' !in line && (brk == "\r\n" || (brk == "\n" && (line == [] || line[|line| - 1] != '\r')))
    ensures SplitLines(line + brk + rest) == [line] + SplitLines(rest)
  {
    var s := line + brk + rest;
    if line == [] {
      assert s[|brk|..] == rest && AfterBreak(s, 0) == Some(|brk|);
    } else {
      assert s[1..] == line[1..] + brk + rest;
      FirstLine(line[1..], brk, rest);
      assert |s| > 1 && (s[0] == '\r' ==> s[1] != '\n') by {
        if |line| > 1 { assert s[1] == line[1] && line[1] in line; }
      }
      assert s[0] == line[0] && s[0] in line;
      assert AfterBreak(s, 0) == None && [line[0]] + line[1..] == line;
    }
  }

  lemma {:induction false} OneLine(line: string)
    requires '\n' !in line
    ensures SplitLines(line) == [line]
  {
    if line != [] {
      OneLine(line[1..]);
      assert |line| > 1 ==> line[1] in line;
      assert AfterBreak(line, 0) == None && [line[0]] + line[1..] == line;
    }
  }

  // ---- what front matter is ---------------------------------------------------------

  function WithoutMark(source: string): string {
    if source != [] && source[0] == '\U{FEFF}' then source[1..] else source
  }

  predicate Break(b: string) { b == "\n" || b == "\r\n" }

  predicate ThreeDashes(s: string, i: nat) { i + 3 <= |s| && s[i] == '-' && s[i + 1] == '-' && s[i + 2] == '-' }

  /** A closing line begins at `i`: a line break and three dashes. */
  predicate ClosesAt(s: string, i: nat) {
    || (i < |s| && s[i] == '\n' && ThreeDashes(s, i + 1))
    || (i + 1 < |s| && s[i] == '\r' && s[i + 1] == '\n' && ThreeDashes(s, i + 2))
  }

  lemma DashesHere(s: string, i: nat)
    ensures DashesAt(s, i) <==> ThreeDashes(s, i)
  {
    if i + 3 <= |s| { assert s[i..i + 3] == [s[i], s[i + 1], s[i + 2]] && "---" == ['-', '-', '-']; }
  }

  lemma ClosesHere(s: string, i: nat)
    ensures ClosesAt(s, i) <==> AfterBreak(s, i).Some? && DashesAt(s, AfterBreak(s, i).value)
  {
    DashesHere(s, i + 1);
    DashesHere(s, i + 2);
  }

  lemma {:induction false} ClosingFenceMeaning(s: string, i: nat)
    ensures ClosingFence(s, i).None? <==> forall j :: i <= j ==> !ClosesAt(s, j)
    decreases |s| - i
  {
    if i < |s| {
      ClosesHere(s, i);
      ClosingFenceMeaning(s, i + 1);
    }
  }

  lemma {:induction false} FirstClosing(s: string, i: nat, j: nat)
    requires i <= j && ClosesAt(s, j) && forall k :: i <= k < j ==> !ClosesAt(s, k)
    ensures AfterBreak(s, j).Some? && ClosingFence(s, i) == Some(AfterBreak(s, j).value + 3)
    decreases j - i
  {
    ClosesHere(s, i);
    if i < j { FirstClosing(s, i + 1, j); }
  }

  /** The optional line end behind the closing dashes, as long as it can be. */
  predicate LineEnd(b: string, rest: string) {
    || b == "\r\n" || b == "\n"
    || (b == "\r" && (rest == [] || rest[0] != '\n'))
    || (b == "" && (rest == [] || (rest[0] != '\n' && rest[0] != '\r')))
  }

  /** Front matter goes: three dashes and a line break, any text without a closing line, then
      a line break, three dashes and an optional line end. */
  lemma FrontMatterGoes(source: string, open: string, text: string, brk: string, end: string, rest: string)
    requires (open == "---\n" || open == "---\r\n") && Break(brk) && LineEnd(end, rest)
    requires WithoutMark(source) == open + text + (brk + "---" + end) + rest
    requires forall k :: |open| <= k < |open| + |text| ==> !ClosesAt(WithoutMark(source), k)
    ensures StripFrontmatter(source) == rest
  {
    var s, j := WithoutMark(source), |open| + |text|;
    var e := j + |brk| + 3;
    Pieces(s, open, text, brk + "---" + end, rest);
    OpensAt(s, open);
    ClosesWith(s, j, brk, end);
    TailGoes(s, e, end, rest);
    StripsAt(source, s, |open|, j, e);
  }

  lemma Pieces(s: string, a: string, b: string, c: string, d: string)
    requires s == a + b + c + d
    ensures |s| == |a| + |b| + |c| + |d| && s[|a| + |b| + |c|..] == d
    ensures forall k :: 0 <= k < |a| ==> s[k] == a[k]
    ensures forall k :: 0 <= k < |c| ==> s[|a| + |b| + k] == c[k]
  {
  }

  /** The closing piece, seen from where it stands. */
  lemma ClosesWith(s: string, j: nat, brk: string, end: string)
    requires Break(brk) && j + |brk| + 3 + |end| <= |s|
    requires forall k :: 0 <= k < |brk + "---" + end| ==> s[j + k] == (brk + "---" + end)[k]
    ensures ClosesAt(s, j) && AfterBreak(s, j) == Some(j + |brk|)
    ensures forall k :: 0 <= k < |end| ==> s[j + |brk| + 3 + k] == end[k]
  {
    var close, n := brk + "---" + end, |brk|;
    assert s[j + 0] == close[0] == brk[0];
    assert n == 2 ==> s[j + 1] == close[1] == brk[1];
    assert close[n] == '-' && close[n + 1] == '-' && close[n + 2] == '-';
    assert s[j + n] == close[n] && s[j + (n + 1)] == close[n + 1] && s[j + (n + 2)] == close[n + 2];
    forall k | 0 <= k < |end| ensures s[j + n + 3 + k] == end[k] {
      assert close[n + 3 + k] == end[k] && s[j + (n + 3 + k)] == close[n + 3 + k];
    }
  }

  lemma OpensAt(s: string, open: string)
    requires open == "---\n" || open == "---\r\n"
    requires |open| <= |s| && forall k :: 0 <= k < |open| ==> s[k] == open[k]
    ensures DashesAt(s, 0) && AfterBreak(s, 3) == Some(|open|)
  {
    DashesHere(s, 0);
  }

  lemma StripsAt(source: string, s: string, open: nat, j: nat, e: nat)
    requires s == WithoutMark(source) && DashesAt(s, 0) && AfterBreak(s, 3) == Some(open) && open <= j
    requires ClosesAt(s, j) && forall k :: open <= k < j ==> !ClosesAt(s, k)
    requires AfterBreak(s, j) == Some(e - 3) && 3 <= e <= |s|
    ensures StripFrontmatter(source) == AfterLineEnd(s, e)
  {
    FirstClosing(s, open, j);
    assert ClosingFence(s, open) == Some(e);
  }

  lemma TailGoes(s: string, e: nat, end: string, rest: string)
    requires e + |end| <= |s| && s[e + |end|..] == rest && LineEnd(end, rest)
    requires forall k :: 0 <= k < |end| ==> s[e + k] == end[k]
    ensures AfterLineEnd(s, e) == rest
  {
    assert rest != [] ==> s[e + |end|] == rest[0];
    assert end != [] ==> s[e + 0] == end[0];
    assert |end| == 2 ==> s[e + 1] == end[1];
  }

  /** Text that does not open with three dashes and a line break, or has no closing line, stays. */
  lemma OtherTextStays(source: string)
    requires var s := WithoutMark(source);
             || !("---\n" <= s || "---\r\n" <= s)
             || forall j :: (if "---\n" <= s then 4 else 5) <= j ==> !ClosesAt(s, j)
    ensures StripFrontmatter(source) == WithoutMark(source)
  {
    var s := WithoutMark(source);
    if DashesAt(s, 0) && AfterBreak(s, 3).Some? {
      var open := AfterBreak(s, 3).value;
      assert s[..3] == "---";
      if open == 4 { assert s[..4] == "---\n"; } else { assert s[..5] == "---\r\n"; }
      assert "---\n" <= s ==> s[3] == '\n';
      ClosingFenceMeaning(s, open);
    }
  }

  lemma {:induction false} LinesFitSource(s: string)
    ensures |Join(SplitLines(s), '\n')| <= |s|
  {
    if s != [] {
      var b := AfterBreak(s, 0);
      if b.Some? {
        var rest := SplitLines(s[b.value..]);
        LinesFitSource(s[b.value..]);
        assert ([[]] + rest)[1..] == rest;
      } else {
        var rest := SplitLines(s[1..]);
        LinesFitSource(s[1..]);
        var lines := [[s[0]] + rest[0]] + rest[1..];
        if |rest| > 1 {
          assert lines[1..] == rest[1..];
          assert Join(lines, '\n') == ([s[0]] + rest[0]) + ['\n'] + Join(rest[1..], '\n');
        }
      }
    }
  }

  lemma SliceFits(lines: seq<string>, i: nat, j: nat)
    requires i <= j <= |lines|
    ensures |Join(lines[i..j], '\n')| <= |Join(lines, '\n')|
  {
    var a, b, c := lines[..i], lines[i..j], lines[j..];
    if b != [] {
      assert lines == a + (b + c);
      if c != [] { JoinAppend(b, c, '\n'); } else { assert b + c == b; }
      if a != [] { JoinAppend(a, b + c, '\n'); } else { assert a + (b + c) == b + c; }
    }
  }

  // ---- line kinds -----------------------------------------------------------------

  predicate BlockFence(line: string) { StartsWith(line, ":::") }
  predicate CodeFence(line: string) { StartsWith(line, "```") || StartsWith(line, "~~~") }
  predicate Marker(line: string) {
    || StartsWith(line, "|")
    || (|line| >= 2 && line[0] in {'>', '*', '+', '-', '|'} && ScriptSpace(line[1]))
  }

  /** A stripped line that can be part of a paragraph. */
  predicate Plain(line: string) {
    line != [] && !StartsWith(line, "#") && !BlockFence(line) && !CodeFence(line) && !Marker(line)
  }

  // ---- the reference: blocks, then a choice among them ---------------------------------

  datatype Block = Paragraph(text: seq<string>) | Custom(body: seq<string>)

  predicate Starts(line: string, a: char, b: char, c: char) {
    |line| >= 3 && line[0] == a && line[1] == b && line[2] == c
  }

  /** The line kinds by their first characters. */
  lemma PlainMeaning(line: string)
    ensures BlockFence(line) <==> Starts(line, ':', ':', ':')
    ensures CodeFence(line) <==> Starts(line, '`', '`', '`') || Starts(line, '~', '~', '~')
    ensures Marker(line) <==>
              line != [] && (line[0] == '|' || (|line| >= 2 && ScriptSpace(line[1]) &&
                                                (line[0] == '>' || line[0] == '*' || line[0] == '+' || line[0] == '-')))
    ensures Plain(line) <==> line != [] && line[0] != '#' && !BlockFence(line) && !CodeFence(line) && !Marker(line)
  {
    StartsThree(line, ":::");
    StartsThree(line, "```");
    StartsThree(line, "~~~");
    assert StartsWith(line, "#") <==> line != [] && line[0] == '#' by { StartsOne(line, "#"); }
    assert StartsWith(line, "|") <==> line != [] && line[0] == '|' by { StartsOne(line, "|"); }
  }

  lemma StartsThree(line: string, fence: string)
    requires |fence| == 3
    ensures StartsWith(line, fence) <==> Starts(line, fence[0], fence[1], fence[2])
  {
    if |line| >= 3 { assert line[..3] == [line[0], line[1], line[2]] && fence == [fence[0], fence[1], fence[2]]; }
  }

  lemma StartsOne(line: string, mark: string)
    requires |mark| == 1
    ensures StartsWith(line, mark) <==> line != [] && line[0] == mark[0]
  {
    if line != [] { assert line[..1] == [line[0]] && mark == [mark[0]]; }
  }

  /** The first line whose stripped form satisfies `stop`, or the end. */
  function Find(lines: seq<string>, stop: string -> bool): (n: nat)
    ensures n <= |lines| && (n < |lines| ==> stop(Stripped(lines[n])))
    ensures forall k :: 0 <= k < n ==> !stop(Stripped(lines[k]))
  {
    if lines == [] || stop(Stripped(lines[0])) then 0 else 1 + Find(lines[1..], stop)
  }

  function AfterLine(lines: seq<string>, n: nat): seq<string> { if n < |lines| then lines[n + 1..] else [] }

  function StrippedLines(lines: seq<string>): seq<string> {
    seq(|lines|, i requires 0 <= i < |lines| => Stripped(lines[i]))
  }

  /** How the scanner treats a stripped line. */
  datatype Kind = Skipped | Opening | Code(fence: string) | Marked | Text

  function KindOf(line: string): Kind {
    if line == [] || StartsWith(line, "#") then Skipped
    else if BlockFence(line) then Opening
    else if CodeFence(line) then Code(if StartsWith(line, "```") then "```" else "~~~")
    else if Marker(line) then Marked
    else Text
  }

  /** The stripped lines that end what a line of this kind began. */
  function Stops(kind: Kind): string -> bool {
    match kind
    case Skipped => _ => true
    case Opening => line => line == ":::"
    case Code(fence) => line => StartsWith(line, fence)
    case Marked => line => line == []
    case Text => line => !Plain(line)
  }

  /** A closing fence is passed over, any other stopping line is read again. */
  function Behind(kind: Kind, rest: seq<string>, n: nat): seq<string>
    requires n <= |rest|
  {
    if kind.Opening? || kind.Code? then AfterLine(rest, n) else rest[n..]
  }

  /** The block that a line and the `body` behind it make, if any. */
  function BlockOf(kind: Kind, line: string, body: seq<string>): seq<Block> {
    match kind
    case Opening => [Custom(body)]
    case Text => [Paragraph([line] + StrippedLines(body))]
    case Skipped => []
    case Code(_) => []
    case Marked => []
  }

  /** Headings, blank lines, fenced code and marked lines leave no block. */
  function Blocks(lines: seq<string>): seq<Block>
    decreases |lines|
  {
    if lines == [] then []
    else
      var line, rest := Stripped(lines[0]), lines[1..];
      var kind := KindOf(line);
      var n := Find(rest, Stops(kind));
      BlockOf(kind, line, rest[..n]) + Blocks(Behind(kind, rest, n))
  }

  ghost predicate Below(blocks: seq<Block>, bound: nat) {
    forall b :: b in blocks && b.Custom? ==> |Join(b.body, '\n')| < bound
  }

  lemma BelowMono(blocks: seq<Block>, small: nat, large: nat)
    requires Below(blocks, small) && small <= large
    ensures Below(blocks, large)
  {
  }

  /** Block bodies are shorter than the lines they come from. */
  lemma {:induction false} BlocksAreShorter(lines: seq<string>)
    ensures Below(Blocks(lines), |Join(lines, '\n')|)
    decreases |lines|
  {
    if lines != [] {
      var line, rest := Stripped(lines[0]), lines[1..];
      var kind := KindOf(line);
      var n := Find(rest, Stops(kind));
      var behind := Behind(kind, rest, n);
      TailIsShorter(lines, n);
      BlocksAreShorter(behind);
      BelowMono(Blocks(behind), |Join(behind, '\n')|, |Join(lines, '\n')|);
      assert kind.Opening? ==> lines[0] != [];
    }
  }

  lemma TailIsShorter(lines: seq<string>, n: nat)
    requires lines != [] && n <= |lines| - 1
    ensures var rest := lines[1..];
            && |Join(rest[n..], '\n')| <= |Join(lines, '\n')|
            && |Join(AfterLine(rest, n), '\n')| <= |Join(lines, '\n')|
            && (lines[0] != [] ==> |Join(rest[..n], '\n')| < |Join(lines, '\n')|)
  {
    var rest := lines[1..];
    assert rest[n..] == lines[n + 1..|lines|];
    SliceFits(lines, n + 1, |lines|);
    if n < |rest| {
      assert AfterLine(rest, n) == lines[n + 2..|lines|];
      SliceFits(lines, n + 2, |lines|);
    }
    if lines[0] != [] { BodyIsShorter(lines, n); }
  }

  lemma BodyIsShorter(lines: seq<string>, n: nat)
    requires lines != [] && n <= |lines| - 1 && lines[0] != []
    ensures |Join(lines[1..][..n], '\n')| < |Join(lines, '\n')|
  {
    var head := lines[0..n + 1];
    assert lines[1..][..n] == head[1..] && head[0] == lines[0];
    SliceFits(lines, 0, n + 1);
  }

  datatype Choice = Useful(text: string) | Short(text: string)

  /** The first useful candidate, else the first that is not empty. */
  function Choose(inline: string -> string, blocks: seq<Block>, bound: nat): Choice
    requires Below(blocks, bound)
    decreases bound, |blocks|, 0
  {
    if blocks == [] then Short([])
    else
      var first := Candidate(inline, blocks[0], bound);
      var rest := Choose(inline, blocks[1..], bound);
      if first.Useful? || (rest.Short? && first.text != []) then first else rest
  }

  /** A block's own description; it is useful from 24 characters on. */
  function Candidate(inline: string -> string, b: Block, bound: nat): Choice
    requires b.Custom? ==> |Join(b.body, '\n')| < bound
    decreases bound, 0, 0
  {
    match b
    case Paragraph(text) =>
      var t := inline(Join(text, ' '));
      if |t| >= MIN_USEFUL_DESCRIPTION_LENGTH then Useful(TruncateDescription(t)) else Short(t)
    case Custom(body) =>
      var d := Describe(inline, Join(body, '\n'));
      if |d| >= MIN_USEFUL_DESCRIPTION_LENGTH then Useful(d) else Short(d)
  }

  /** A text is useful from 24 characters on: a paragraph by its own text, a custom block by its
      shortened description. */
  lemma UsefulFrom24(inline: string -> string, b: Block, bound: nat)
    requires b.Custom? ==> |Join(b.body, '\n')| < bound
    ensures Candidate(inline, b, bound).Useful? <==>
              match b
              case Paragraph(text) => |inline(Join(text, ' '))| >= 24
              case Custom(body) => |Describe(inline, Join(body, '\n'))| >= 24
  {
  }

  function Describe(inline: string -> string, source: string): string
    decreases |source|
  {
    var lines := SplitLines(StripFrontmatter(source));
    SourceBlocks(source);
    Choose(inline, Blocks(lines), |source|).text
  }

  lemma SourceBlocks(source: string)
    ensures Below(Blocks(SplitLines(StripFrontmatter(source))), |source|)
  {
    var lines := SplitLines(StripFrontmatter(source));
    LinesFitSource(StripFrontmatter(source));
    BlocksAreShorter(lines);
    BelowMono(Blocks(lines), |Join(lines, '\n')|, |source|);
  }

  // ---- the scanner ---------------------------------------------------------------------

  lemma FindIs(lines: seq<string>, stop: string -> bool, n: nat)
    requires n <= |lines| && (n < |lines| ==> stop(Stripped(lines[n])))
    requires forall k :: 0 <= k < n ==> !stop(Stripped(lines[k]))
    ensures Find(lines, stop) == n
  {
  }

  /** What the scanner still returns when it holds a short fallback. */
  function Settle(fallback: string, rest: Choice): string {
    if rest.Useful? || fallback == [] then rest.text else fallback
  }

  /** One inner loop: on from `start` to the first line that stops it. */
  method SkipTo(lines: seq<string>, start: nat, stop: string -> bool) returns (index: nat)
    requires start <= |lines|
    ensures start <= index <= |lines| && index == start + Find(lines[start..], stop)
  {
    index := start;
    while index < |lines| && !stop(Stripped(lines[index]))
      invariant start <= index <= |lines|
      invariant forall k :: 0 <= k < index - start ==> !stop(Stripped(lines[start..][k]))
    {
      index := index + 1;
    }
    FindIs(lines[start..], stop, index - start);
  }

  function PastLine(lines: seq<string>, k: nat): nat { if k < |lines| then k + 1 else k }

  /** Where the scan goes on after the inner loop stopped at `k`. */
  function Onward(kind: Kind, lines: seq<string>, k: nat): nat {
    if kind.Opening? || kind.Code? then PastLine(lines, k) else k
  }

  /** The blocks from `index` on are the one begun there and those from where the scan goes
      on; `k` is where the inner loop stops. */
  lemma BlocksAt(lines: seq<string>, index: nat, k: nat)
    requires index < |lines|
    requires k == index + 1 + Find(lines[index + 1..], Stops(KindOf(Stripped(lines[index]))))
    ensures var line := Stripped(lines[index]);
            Blocks(lines[index..]) ==
              BlockOf(KindOf(line), line, lines[index + 1..k]) + Blocks(lines[Onward(KindOf(line), lines, k)..])
  {
    var rest, n := lines[index + 1..], k - (index + 1);
    assert lines[index..][1..] == rest;
    BlocksUnfold(lines[index..], rest, n);
    SlicesOfRest(lines, index + 1, k);
  }

  lemma BlocksUnfold(lines: seq<string>, rest: seq<string>, n: nat)
    requires lines != [] && rest == lines[1..] && n == Find(rest, Stops(KindOf(Stripped(lines[0]))))
    ensures var line := Stripped(lines[0]);
            Blocks(lines) == BlockOf(KindOf(line), line, rest[..n]) + Blocks(Behind(KindOf(line), rest, n))
  {
  }

  lemma SlicesOfRest(lines: seq<string>, from: nat, k: nat)
    requires from <= k <= |lines|
    ensures var rest, n := lines[from..], k - from;
            lines[from..k] == rest[..n] && lines[k..] == rest[n..] && lines[PastLine(lines, k)..] == AfterLine(rest, n)
  {
  }

  /** A block at the head of the remaining lines either settles the answer or leaves it to
      the lines behind it, with a new fallback if there was none. */
  lemma BlockSettles(inline: string -> string, b: Block, tail: seq<Block>, bound: nat, fallback: string)
    requires Below([b] + tail, bound)
    ensures Below(tail, bound) && (b.Custom? ==> |Join(b.body, '\n')| < bound)
    ensures var first := Candidate(inline, b, bound);
            Settle(fallback, Choose(inline, [b] + tail, bound)) ==
              if first.Useful? then first.text
              else Settle(if fallback == [] then first.text else fallback, Choose(inline, tail, bound))
  {
    var here := [b] + tail;
    assert here[0] == b && here[1..] == tail && b in here;
    assert forall c :: c in tail ==> c in here;
  }

  /** A candidate text is the answer, becomes the fallback, or changes nothing. */
  method WeighCustom(
    inline: string -> string, body: seq<string>, fallback: string, ghost tail: seq<Block>, ghost bound: nat)
    returns (fallback': string, found: Option<string>)
    requires |fallback| < MIN_USEFUL_DESCRIPTION_LENGTH && Below([Custom(body)] + tail, bound)
    ensures |fallback'| < MIN_USEFUL_DESCRIPTION_LENGTH && Below(tail, bound)
    ensures Settle(fallback, Choose(inline, [Custom(body)] + tail, bound)) ==
              if found.Some? then found.value else Settle(fallback', Choose(inline, tail, bound))
    decreases bound, 0
  {
    BlockSettles(inline, Custom(body), tail, bound, fallback);
    fallback', found := fallback, None;
    var inner := ExtractDescription(inline, Join(body, '\n'));
    if |inner| >= MIN_USEFUL_DESCRIPTION_LENGTH {
      found := Some(inner);
    } else if fallback == [] {
      fallback' := inner;
    }
  }

  method WeighParagraph(
    inline: string -> string, text: seq<string>, fallback: string, ghost tail: seq<Block>, ghost bound: nat)
    returns (fallback': string, found: Option<string>)
    requires |fallback| < MIN_USEFUL_DESCRIPTION_LENGTH && Below([Paragraph(text)] + tail, bound)
    ensures |fallback'| < MIN_USEFUL_DESCRIPTION_LENGTH && Below(tail, bound)
    ensures Settle(fallback, Choose(inline, [Paragraph(text)] + tail, bound)) ==
              if found.Some? then found.value else Settle(fallback', Choose(inline, tail, bound))
  {
    BlockSettles(inline, Paragraph(text), tail, bound, fallback);
    fallback', found := fallback, None;
    var paragraph := inline(Join(text, ' '));
    if |paragraph| >= MIN_USEFUL_DESCRIPTION_LENGTH {
      found := Some(TruncateDescription(paragraph));
    } else if fallback == [] {
      fallback' := paragraph;
    }
  }

  /** One turn of the scanner's loop: either the answer, or the next index and fallback
      with the answer still to be found among the lines from there. */
  method ScanBlock(inline: string -> string, lines: seq<string>, index: nat, fallback: string, ghost bound: nat)
    returns (next: nat, fallback': string, found: Option<string>)
    requires index < |lines| && |fallback| < MIN_USEFUL_DESCRIPTION_LENGTH && Below(Blocks(lines[index..]), bound)
    ensures index < next <= |lines| && |fallback'| < MIN_USEFUL_DESCRIPTION_LENGTH
    ensures Below(Blocks(lines[next..]), bound)
    ensures Settle(fallback, Choose(inline, Blocks(lines[index..]), bound)) ==
              if found.Some? then found.value else Settle(fallback', Choose(inline, Blocks(lines[next..]), bound))
    decreases bound, 1
  {
    fallback', found := fallback, None;
    var line := Stripped(lines[index]);
    var kind := KindOf(line);
    var close := SkipTo(lines, index + 1, Stops(kind));
    next := Onward(kind, lines, close);
    BlocksAt(lines, index, close);
    ghost var tail := Blocks(lines[next..]);
    match kind
    case Opening => fallback', found := WeighCustom(inline, lines[index + 1..close], fallback, tail, bound);
    case Text =>
      var text := [line] + StrippedLines(lines[index + 1..close]);
      fallback', found := WeighParagraph(inline, text, fallback, tail, bound);
    case _ => assert [] + tail == tail;
  }

  /** The single pass with an index and a fallback gives the reference's choice, and it
      ends on every source: the index rises in each loop and the source of each nested
      call is shorter. */
  method ExtractDescription(inline: string -> string, source: string) returns (d: string)
    ensures d == Describe(inline, source)
    decreases |source|, 2
  {
    var lines := SplitLines(StripFrontmatter(source));
    SourceBlocks(source);
    var shortFallback: string := [];
    var index := 0;
    assert lines[0..] == lines;
    while index < |lines|
      invariant 0 <= index <= |lines| && |shortFallback| < MIN_USEFUL_DESCRIPTION_LENGTH
      invariant Below(Blocks(lines[index..]), |source|)
      invariant Describe(inline, source) == Settle(shortFallback, Choose(inline, Blocks(lines[index..]), |source|))
      decreases |lines| - index
    {
      var found;
      index, shortFallback, found := ScanBlock(inline, lines, index, shortFallback, |source|);
      if found.Some? {
        return found.value;
      }
    }
    assert lines[index..] == [];
    d := if shortFallback == [] then [] else TruncateDescription(shortFallback);
  }
}
