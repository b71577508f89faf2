/** Long output as Discord messages: cut at lines, with code fences closed and reopened. */
module Delivery {
  import opened Encoding

  const CHUNK_LIMIT: nat := 1900
  const MAX_CHUNKS: nat := 7
  const LF: CodeUnit := 0x0A

  /** The line that opens or closes a code block. */
  const MARK: Text := [0x60, 0x60, 0x60]

  /** What `\s` matches. */
  predicate Blank(c: CodeUnit) {
    || 0x09 <= c <= 0x0D || c == 0x20 || c == 0xA0 || c == 0x1680 || 0x2000 <= c <= 0x200A
    || c == 0x2028 || c == 0x2029 || c == 0x202F || c == 0x205F || c == 0x3000 || c == 0xFEFF
  }

  /** A fence line: three backticks after any white space. */
  predicate Fence(line: Text) {
    if line == [] then false
    else if Blank(line[0]) then Fence(line[1..])
    else |line| >= 3 && line[..3] == MARK
  }

  // ------------------------------------------------------------------------ pieces

  /** A line cut into pieces of `budget` code units; a short line is one piece. */
  function Cut(line: Text, budget: nat): (r: seq<Text>)
    requires budget > 0
    ensures |r| >= 1
    decreases |line|
  {
    if |line| <= budget then [line] else [line[..budget]] + Cut(line[budget..], budget)
  }

  function Pieces(lines: seq<Text>, budget: nat): seq<Text>
    requires budget > 0
  {
    if lines == [] then []
    else Pieces(lines[..|lines| - 1], budget) + Cut(lines[|lines| - 1], budget)
  }

  predicate PieceOk(piece: Text, budget: nat) {
    |piece| <= budget && LF !in piece
  }

  lemma {:induction false} CutOk(line: Text, budget: nat)
    requires budget > 0 && LF !in line
    ensures forall i | 0 <= i < |Cut(line, budget)| :: PieceOk(Cut(line, budget)[i], budget)
    ensures Flat(Cut(line, budget)) == line
    decreases |line|
  {
    if |line| > budget {
      CutOk(line[budget..], budget);
      var rest := Cut(line[budget..], budget);
      FlatPrepend(line[..budget], rest);
      assert line == line[..budget] + line[budget..];
    } else {
      assert [line][..0] == [];
      assert Flat([line]) == Flat([]) + line;
    }
  }

  lemma {:induction false} PiecesOk(lines: seq<Text>, budget: nat)
    requires budget > 0 && forall i | 0 <= i < |lines| :: LF !in lines[i]
    ensures forall i | 0 <= i < |Pieces(lines, budget)| :: PieceOk(Pieces(lines, budget)[i], budget)
    ensures Flat(Pieces(lines, budget)) == Flat(lines)
  {
    hide PieceOk;
    if lines != [] {
      var n := |lines| - 1;
      PiecesOk(lines[..n], budget);
      CutOk(lines[n], budget);
      FlatAppend(Pieces(lines[..n], budget), Cut(lines[n], budget));
    }
  }

  /** All parts run together. */
  function Flat(parts: seq<Text>): Text {
    if parts == [] then [] else Flat(parts[..|parts| - 1]) + parts[|parts| - 1]
  }

  lemma {:induction false} FlatAppend(a: seq<Text>, b: seq<Text>)
    ensures Flat(a + b) == Flat(a) + Flat(b)
    decreases |b|
  {
    if b == [] {
      assert a + b == a;
    } else {
      var n := |b| - 1;
      FlatAppend(a, b[..n]);
      assert (a + b)[..|a + b| - 1] == a + b[..n];
    }
  }

  lemma FlatPrepend(x: Text, rest: seq<Text>)
    ensures Flat([x] + rest) == x + Flat(rest)
  {
    FlatAppend([x], rest);
    assert [x][..0] == [];
    assert Flat([x]) == Flat([]) + x;
  }

  function WithoutLf(text: Text): Text {
    if text == [] then [] else (if text[0] == LF then [] else [text[0]]) + WithoutLf(text[1..])
  }

  lemma {:induction false} FlatSplit(text: Text)
    ensures Flat(Split(text, LF)) == WithoutLf(text)
  {
    if text == [] {
      FlatPrepend([], []);
      assert [[]] + [] == Split(text, LF);
    } else {
      var rest := Split(text[1..], LF);
      FlatSplit(text[1..]);
      if text[0] == LF {
        FlatPrepend([], rest);
      } else {
        assert rest == [rest[0]] + rest[1..];
        FlatPrepend(rest[0], rest[1..]);
        FlatPrepend([text[0]] + rest[0], rest[1..]);
      }
    }
  }

  // ------------------------------------------------------------------------ layout

  /** One message: its lines, whether it reopens a code block and whether it closes one. */
  datatype Part = Part(open: bool, lines: seq<Text>, close: bool)

  function Marks(b: bool): seq<Text> {
    if b then [MARK] else []
  }

  function AllLines(p: Part): seq<Text> {
    Marks(p.open) + p.lines + Marks(p.close)
  }

  function Render(p: Part): Text {
    Join(AllLines(p), LF)
  }

  /** The splitter between two lines. */
  datatype State = State(done: seq<Part>, open: bool, lines: seq<Text>, inFence: bool) {
    predicate Started() { open || lines != [] }
    function CurrentLines(): seq<Text> { Marks(open) + lines }
    function Current(): Text { Join(CurrentLines(), LF) }
  }

  const START := State([], false, [], false)

  function Flush(s: State): State {
    State(s.done + [Part(s.open, s.lines, s.inFence)], s.inFence, [], s.inFence)
  }

  /** Whether the next line would make the message too long. */
  predicate Overflows(s: State, line: Text, limit: nat) {
    s.Started() && |s.Current()| + 1 + |line| + (if s.inFence then 4 else 0) > limit
  }

  /** An empty line at the very start of a message is lost. */
  function Append(s: State, line: Text): State {
    s.(lines := if !s.Started() && line == [] then [] else s.lines + [line], inFence := s.inFence != Fence(line))
  }

  function Step(s: State, line: Text, limit: nat): State {
    Append(if Overflows(s, line, limit) then Flush(s) else s, line)
  }

  function Fold(lines: seq<Text>, limit: nat): State {
    if lines == [] then START
    else Step(Fold(lines[..|lines| - 1], limit), lines[|lines| - 1], limit)
  }

  function Finish(s: State): seq<Part> {
    if s.Started() then s.done + [Part(s.open, s.lines, false)] else s.done
  }

  function PiecesOf(text: Text, limit: nat): seq<Text>
    requires limit > 8
  {
    Pieces(Split(text, LF), limit - 8)
  }

  function Layout(text: Text, limit: nat): seq<Part>
    requires limit > 8
  {
    Finish(Fold(PiecesOf(text, limit), limit))
  }

  function Rendered(parts: seq<Part>): (r: seq<Text>)
    ensures |r| == |parts| && forall i | 0 <= i < |r| :: r[i] == Render(parts[i])
  {
    seq(|parts|, i requires 0 <= i < |parts| => Render(parts[i]))
  }

  /** `splitForDiscord`. */
  function Chunks(text: Text, limit: nat): seq<Text>
    requires limit > 8
  {
    Rendered(Layout(text, limit))
  }

  // ------------------------------------------------------------------------ length

  lemma {:induction false} JoinSnoc(parts: seq<Text>, last: Text, sep: CodeUnit)
    ensures Join(parts + [last], sep) == if parts == [] then last else Join(parts, sep) + [sep] + last
    decreases |parts|
  {
    if parts != [] {
      assert (parts + [last])[1..] == parts[1..] + [last];
      JoinSnoc(parts[1..], last, sep);
    }
  }

  ghost predicate Sized(s: State, limit: nat) {
    && |s.Current()| <= limit
    && forall i | 0 <= i < |s.done| :: |Render(s.done[i])| <= limit + 4
  }

  lemma AppendLength(s: State, line: Text)
    ensures |Append(s, line).Current()| == if s.Started() then |s.Current()| + 1 + |line| else |line|
  {
    hide Fence;
    JoinSnoc(s.CurrentLines(), line, LF);
    assert s.CurrentLines() + [line] == Marks(s.open) + (s.lines + [line]);
  }

  lemma FlushedLength(s: State)
    requires s.Started()
    ensures |Render(Part(s.open, s.lines, s.inFence))| == |s.Current()| + (if s.inFence then 4 else 0)
    ensures |Flush(s).Current()| == (if s.inFence then 3 else 0)
  {
    if s.inFence {
      JoinSnoc(s.CurrentLines(), MARK, LF);
    } else {
      assert s.CurrentLines() + [] == s.CurrentLines();
    }
  }

  lemma StepSized(s: State, line: Text, limit: nat)
    requires limit > 8 && Sized(s, limit) && |line| <= limit - 8
    ensures Sized(Step(s, line, limit), limit)
  {
    hide Fence, Join;
    if Overflows(s, line, limit) {
      FlushedLength(s);
      AppendLength(Flush(s), line);
    } else {
      AppendLength(s, line);
    }
  }

  lemma {:induction false} FoldSized(lines: seq<Text>, limit: nat)
    requires limit > 8 && forall i | 0 <= i < |lines| :: |lines[i]| <= limit - 8
    ensures Sized(Fold(lines, limit), limit)
  {
    hide Step;
    if lines == [] {
      assert START.CurrentLines() == [];
    } else {
      FoldSized(lines[..|lines| - 1], limit);
      StepSized(Fold(lines[..|lines| - 1], limit), lines[|lines| - 1], limit);
    }
  }

  lemma TextPieces(text: Text, limit: nat)
    requires limit > 8
    ensures forall i | 0 <= i < |PiecesOf(text, limit)| :: PieceOk(PiecesOf(text, limit)[i], limit - 8)
    ensures Flat(PiecesOf(text, limit)) == WithoutLf(text)
  {
    SplitParts(text, LF);
    PiecesOk(Split(text, LF), limit - 8);
    FlatSplit(text);
  }

  /** No chunk is longer than the limit and one closing fence. */
  lemma ChunkLength(text: Text, limit: nat)
    requires limit > 8
    ensures forall i | 0 <= i < |Chunks(text, limit)| :: |Chunks(text, limit)[i]| <= limit + 4
  {
    hide Fold, PiecesOf, Join;
    TextPieces(text, limit);
    var s := Fold(PiecesOf(text, limit), limit);
    FoldSized(PiecesOf(text, limit), limit);
    assert Marks(s.open) + s.lines + [] == s.CurrentLines();
  }

  // ------------------------------------------------------------------------ fences

  function Fences(lines: seq<Text>): nat {
    if lines == [] then 0 else Fences(lines[..|lines| - 1]) + (if Fence(lines[|lines| - 1]) then 1 else 0)
  }

  lemma {:induction false} FencesAppend(a: seq<Text>, b: seq<Text>)
    ensures Fences(a + b) == Fences(a) + Fences(b)
    decreases |b|
  {
    hide Fence;
    if b == [] {
      assert a + b == a;
    } else {
      FencesAppend(a, b[..|b| - 1]);
      assert (a + b)[..|a + b| - 1] == a + b[..|b| - 1];
    }
  }

  lemma FencesMarks(b: bool)
    ensures Fences(Marks(b)) == if b then 1 else 0
  {
    assert [MARK][..0] == [];
    assert Fences([]) == 0;
    assert Fence(MARK);
  }

  lemma FencesOne(line: Text)
    ensures Fences([line]) == if Fence(line) then 1 else 0
  {
    assert [line][..0] == [];
    assert Fences([]) == 0;
  }

  predicate Odd(n: nat) { n % 2 == 1 }

  /** Inside a code block the open message has an odd number of fence lines, and finished ones are even. */
  ghost predicate Balanced(s: State) {
    && (Odd(Fences(s.CurrentLines())) <==> s.inFence)
    && (s.inFence ==> s.Started())
    && forall i | 0 <= i < |s.done| :: !Odd(Fences(AllLines(s.done[i])))
  }

  lemma FlushBalanced(s: State)
    requires Balanced(s)
    ensures Balanced(Flush(s))
  {
    hide Fences;
    FencesMarks(s.inFence);
    FencesAppend(s.CurrentLines(), Marks(s.inFence));
    assert Flush(s).CurrentLines() == Marks(s.inFence);
  }

  lemma AppendBalanced(s: State, line: Text)
    requires Balanced(s)
    ensures Balanced(Append(s, line))
  {
    hide Fences;
    FencesOne(line);
    FencesAppend(s.CurrentLines(), [line]);
    assert s.CurrentLines() + [line] == Marks(s.open) + (s.lines + [line]);
  }

  lemma {:induction false} FoldBalanced(lines: seq<Text>, limit: nat)
    ensures Balanced(Fold(lines, limit))
  {
    hide Balanced, Overflows, Flush, Append;
    if lines == [] {
      StartBalanced();
    } else {
      var s := Fold(lines[..|lines| - 1], limit);
      FoldBalanced(lines[..|lines| - 1], limit);
      FlushBalanced(s);
      AppendBalanced(s, lines[|lines| - 1]);
      AppendBalanced(Flush(s), lines[|lines| - 1]);
    }
  }

  lemma StartBalanced()
    ensures Balanced(START)
  {
    assert START.CurrentLines() == [];
    assert Fences([]) == 0;
  }

  /** Every line the splitter holds is free of line feeds. */
  ghost predicate LfFree(lines: seq<Text>) {
    forall i | 0 <= i < |lines| :: LF !in lines[i]
  }

  ghost predicate Clean(s: State) {
    LfFree(s.lines) && forall i | 0 <= i < |s.done| :: LfFree(s.done[i].lines)
  }

  lemma {:induction false} FoldClean(lines: seq<Text>, limit: nat)
    requires LfFree(lines)
    ensures Clean(Fold(lines, limit))
  {
    hide Fence, Overflows;
    if lines != [] { FoldClean(lines[..|lines| - 1], limit); }
  }

  /** The fence lines that a reader of a message sees. */
  function FenceLines(chunk: Text): nat {
    Fences(Split(chunk, LF))
  }

  lemma RenderedFences(p: Part)
    requires LfFree(p.lines) && AllLines(p) != []
    ensures FenceLines(Render(p)) == Fences(AllLines(p))
  {
    hide Fences, Split, Join;
    SplitJoin(AllLines(p), LF);
  }

  lemma {:induction false} InFenceParity(lines: seq<Text>, limit: nat)
    ensures Fold(lines, limit).inFence <==> Odd(Fences(lines))
  {
    hide Fence, Overflows;
    if lines != [] { InFenceParity(lines[..|lines| - 1], limit); }
  }

  /**
    * Every message but the last shows its code blocks complete, and the last one does exactly
    * when the text has an even number of fence lines itself.
    */
  lemma FencesPaired(text: Text, limit: nat)
    requires limit > 8
    ensures forall i | 0 <= i < |Chunks(text, limit)| - 1 :: !Odd(FenceLines(Chunks(text, limit)[i]))
    ensures var chunks := Chunks(text, limit);
            chunks != [] ==> (Odd(FenceLines(chunks[|chunks| - 1])) <==> Odd(Fences(PiecesOf(text, limit))))
  {
    hide Fold, Fences, FenceLines, Render, PiecesOf, PieceOk;
    var pieces := PiecesOf(text, limit);
    PiecesLfFree(text, limit);
    var s := Fold(pieces, limit);
    FoldBalanced(pieces, limit);
    FoldClean(pieces, limit);
    FoldFilled(pieces, limit);
    InFenceParity(pieces, limit);
    var last := Part(s.open, s.lines, false);
    if s.Started() {
      assert AllLines(last) == s.CurrentLines();
      RenderedFences(last);
    } else if s.done != [] {
      RenderedFences(s.done[|s.done| - 1]);
    }
    forall i | 0 <= i < |Chunks(text, limit)| - 1 ensures !Odd(FenceLines(Chunks(text, limit)[i])) {
      assert Layout(text, limit)[i] == s.done[i];
      RenderedFences(s.done[i]);
    }
  }

  lemma PiecesLfFree(text: Text, limit: nat)
    requires limit > 8
    ensures LfFree(PiecesOf(text, limit))
  {
    hide PiecesOf;
    TextPieces(text, limit);
  }

  // ---------------------------------------------------------------- nothing is lost

  /** Messages begin with text or with a reopened block, and a block is reopened exactly where it was closed. */
  ghost predicate Filled(s: State) {
    && (!s.open && s.lines != [] ==> s.lines[0] != [])
    && (forall i | 0 <= i < |s.done| :: s.done[i].open || (s.done[i].lines != [] && s.done[i].lines[0] != []))
    && (s.done != [] ==> !s.done[0].open)
    && s.open == (s.done != [] && s.done[|s.done| - 1].close)
    && (forall i, j | 0 <= i && j == i + 1 && j < |s.done| :: s.done[j].open == s.done[i].close)
  }

  lemma StepFilled(s: State, line: Text, limit: nat)
    requires Filled(s)
    ensures Filled(Step(s, line, limit))
  {
    hide Fence;
  }

  lemma {:induction false} FoldFilled(lines: seq<Text>, limit: nat)
    ensures Filled(Fold(lines, limit))
  {
    hide Step;
    if lines != [] {
      FoldFilled(lines[..|lines| - 1], limit);
      StepFilled(Fold(lines[..|lines| - 1], limit), lines[|lines| - 1], limit);
    }
  }

  function NonEmpty(lines: seq<Text>): seq<Text> {
    if lines == [] then []
    else NonEmpty(lines[..|lines| - 1]) + (if lines[|lines| - 1] == [] then [] else [lines[|lines| - 1]])
  }

  lemma {:induction false} NonEmptyAppend(a: seq<Text>, b: seq<Text>)
    ensures NonEmpty(a + b) == NonEmpty(a) + NonEmpty(b)
    decreases |b|
  {
    if b == [] {
      assert a + b == a;
    } else {
      NonEmptyAppend(a, b[..|b| - 1]);
      assert (a + b)[..|a + b| - 1] == a + b[..|b| - 1];
    }
  }

  lemma {:induction false} FlatNonEmpty(lines: seq<Text>)
    ensures Flat(NonEmpty(lines)) == Flat(lines)
  {
    if lines != [] {
      var n := |lines| - 1;
      FlatNonEmpty(lines[..n]);
      var kept := NonEmpty(lines[..n]);
      if lines[n] == [] {
        assert kept + [] == kept;
      } else {
        assert (kept + [lines[n]])[..|kept|] == kept;
      }
    }
  }

  /** The lines of all messages, one message after the other, without the fences put in. */
  function Content(parts: seq<Part>): seq<Text> {
    if parts == [] then [] else Content(parts[..|parts| - 1]) + parts[|parts| - 1].lines
  }

  lemma ContentSnoc(parts: seq<Part>, p: Part)
    ensures Content(parts + [p]) == Content(parts) + p.lines
  {
    assert (parts + [p])[..|parts|] == parts;
  }

  function Seen(s: State): seq<Text> {
    Content(s.done) + s.lines
  }

  lemma StepSeen(s: State, line: Text, limit: nat)
    ensures NonEmpty(Seen(Step(s, line, limit))) == NonEmpty(Seen(s) + [line])
  {
    hide Fence, Content, Overflows;
    var t := if Overflows(s, line, limit) then Flush(s) else s;
    assert Seen(t) == Seen(s) by {
      ContentSnoc(s.done, Part(s.open, s.lines, s.inFence));
    }
    if !t.Started() && line == [] {
      NonEmptyAppend(Seen(t), [line]);
      NonEmptyOne(line);
      assert Append(t, line).lines == t.lines;
    } else {
      assert Seen(Append(t, line)) == Seen(t) + [line];
    }
  }

  lemma NonEmptyOne(line: Text)
    ensures NonEmpty([line]) == if line == [] then [] else [line]
  {
    assert [line][..0] == [];
    assert NonEmpty([]) == [];
  }

  lemma {:induction false} FoldSeen(lines: seq<Text>, limit: nat)
    ensures NonEmpty(Seen(Fold(lines, limit))) == NonEmpty(lines)
  {
    hide Step, Seen, NonEmpty;
    if lines == [] {
      StartSeen();
    } else {
      var n := |lines| - 1;
      var s := Fold(lines[..n], limit);
      FoldSeen(lines[..n], limit);
      StepSeen(s, lines[n], limit);
      NonEmptyAppend(Seen(s), [lines[n]]);
      NonEmptyAppend(lines[..n], [lines[n]]);
      assert lines == lines[..n] + [lines[n]];
    }
  }

  lemma StartSeen()
    ensures Seen(START) == []
  {
    assert Content([]) == [];
  }

  /** All non-empty pieces of the text are sent, once each and in order; only line breaks go missing. */
  lemma PiecesInOrder(text: Text, limit: nat)
    requires limit > 8
    ensures NonEmpty(Content(Layout(text, limit))) == NonEmpty(PiecesOf(text, limit))
    ensures Flat(Content(Layout(text, limit))) == WithoutLf(text)
  {
    hide Fold, NonEmpty, Content, PiecesOf, Flat, WithoutLf;
    var s := Fold(PiecesOf(text, limit), limit);
    FoldSeen(PiecesOf(text, limit), limit);
    ContentSnoc(s.done, Part(s.open, s.lines, false));
    if !s.Started() { assert Content(s.done) + [] == Content(s.done); }
    TextPieces(text, limit);
    FlatNonEmpty(Content(Layout(text, limit)));
    FlatNonEmpty(PiecesOf(text, limit));
  }

  /** Messages are never empty, and none is sent only when there is nothing but line breaks. */
  lemma NothingEmpty(text: Text, limit: nat)
    requires limit > 8
    ensures forall i | 0 <= i < |Chunks(text, limit)| :: Chunks(text, limit)[i] != []
    ensures Chunks(text, limit) == [] <==> WithoutLf(text) == []
  {
    hide Layout, Flat, WithoutLf, Join, Content;
    var parts := Layout(text, limit);
    LayoutShape(text, limit);
    PiecesInOrder(text, limit);
    forall i | 0 <= i < |parts| ensures Render(parts[i]) != [] {
      JoinNotEmpty(AllLines(parts[i]));
    }
    if parts == [] {
      FlatNothing();
    } else {
      FirstNotEmpty(parts);
    }
  }

  /** Where messages begin and end: with text, or between two halves of a code block. */
  lemma LayoutShape(text: Text, limit: nat)
    requires limit > 8
    ensures var parts := Layout(text, limit);
            && (forall i | 0 <= i < |parts| :: parts[i].open || (parts[i].lines != [] && parts[i].lines[0] != []))
            && (parts != [] ==> !parts[0].open && !parts[|parts| - 1].close)
            && (forall i, j | 0 <= i && j == i + 1 && j < |parts| :: parts[j].open == parts[i].close)
  {
    hide Fold, PiecesOf;
    var s := Fold(PiecesOf(text, limit), limit);
    FoldFilled(PiecesOf(text, limit), limit);
    FoldBalanced(PiecesOf(text, limit), limit);
    LastNotClosed(s);
    hide Fences, Balanced;
  }

  /** A block still open is in the last message. */
  lemma LastNotClosed(s: State)
    requires Balanced(s) && Filled(s)
    ensures s.inFence ==> s.Started()
    ensures !s.Started() && s.done != [] ==> !s.done[|s.done| - 1].close
  {
    hide Fences, Fence;
  }

  lemma FlatNothing()
    ensures Flat(Content([])) == []
  {}

  lemma JoinNotEmpty(lines: seq<Text>)
    requires lines != [] && lines[0] != []
    ensures Join(lines, LF) != []
  {}

  lemma {:induction false} FirstNotEmpty(parts: seq<Part>)
    requires parts != [] && parts[0].lines != [] && parts[0].lines[0] != []
    ensures Flat(Content(parts)) != []
  {
    var n := |parts| - 1;
    FlatAppend(Content(parts[..n]), parts[n].lines);
    if n > 0 {
      FirstNotEmpty(parts[..n]);
    } else {
      var lines := parts[0].lines;
      assert lines == [lines[0]] + lines[1..];
      FlatPrepend(lines[0], lines[1..]);
      assert Content(parts[..0]) == [];
    }
  }

  // ------------------------------------------------------------------ the bound is met

  function Repeat(c: CodeUnit, n: nat): (r: Text)
    ensures |r| == n && forall i | 0 <= i < n :: r[i] == c
  {
    seq(n, _ => c)
  }

  const OPENER: Text := [0x60, 0x60, 0x60, 0x6A, 0x73, 0x6F, 0x6E]

  /** A fence opener that fills a message: the closing fence takes it four over the limit. */
  lemma BoundIsMet(limit: nat)
    requires limit >= 15
    ensures var text := Join([Repeat(0x78, limit - 8), OPENER, [0x79]], LF);
            var chunks := Chunks(text, limit);
            chunks != [] && |chunks[0]| == limit + 4
  {
    hide Fold, Join, Split, Render, Pieces;
    var pieces := [Repeat(0x78, limit - 8), OPENER, [0x79]];
    SplitJoin(pieces, LF);
    PiecesShort(pieces, limit - 8);
    FullMessage(limit);
  }

  lemma {:induction false} PiecesShort(lines: seq<Text>, budget: nat)
    requires budget > 0 && forall i | 0 <= i < |lines| :: |lines[i]| <= budget
    ensures Pieces(lines, budget) == lines
  {
    if lines != [] { PiecesShort(lines[..|lines| - 1], budget); }
  }

  lemma FullMessage(limit: nat)
    requires limit >= 15
    ensures var done := Fold([Repeat(0x78, limit - 8), OPENER, [0x79]], limit).done;
            |done| == 1 && |Render(done[0])| == limit + 4
  {
    hide Fence, Fold, Join;
    var x := Repeat(0x78, limit - 8);
    var pieces := [x, OPENER, [0x79]];
    assert pieces == [] + [x] + [OPENER] + [[0x79]];
    FenceOrNot(x);
    FoldSnoc([], x, limit);
    FoldSnoc([] + [x], OPENER, limit);
    FoldSnoc([] + [x] + [OPENER], [0x79], limit);
    var s1 := Append(START, x);
    assert s1 == State([], false, [x], false);
    AppendLength(START, x);
    var s2 := Append(s1, OPENER);
    assert s2 == State([], false, [x, OPENER], true);
    AppendLength(s1, OPENER);
    FlushedLength(s2);
  }

  lemma FenceOrNot(x: Text)
    requires |x| >= 3 && x[0] == 0x78
    ensures !Fence(x) && Fence(OPENER)
  {
    assert x[..3][0] == 0x78;
  }

  lemma FoldSnoc(lines: seq<Text>, line: Text, limit: nat)
    ensures Fold(lines + [line], limit) == Step(Fold(lines, limit), line, limit)
    ensures Fold([], limit) == START
  {
    hide Step;
    assert (lines + [line])[..|lines|] == lines;
  }

  // ------------------------------------------------------------------- the program

  /** The first loop: lines, and slices of long lines. */
  method CutLines(text: Text, budget: nat) returns (lines: seq<Text>)
    requires budget > 0
    ensures lines == Pieces(Split(text, LF), budget)
  {
    hide Cut, Split;
    lines := [];
    var all := Split(text, LF);
    for n := 0 to |all|
      invariant lines == Pieces(all[..n], budget)
    {
      var line := all[n];
      assert all[..n + 1][..n] == all[..n];
      if |line| <= budget {
        CutUnfolds(line, budget);
        lines := lines + [line];
      } else {
        var slices := Slices(line, budget);
        lines := lines + slices;
      }
    }
    assert all[..|all|] == all;
  }

  lemma CutUnfolds(line: Text, budget: nat)
    requires budget > 0
    ensures Cut(line, budget) == if |line| <= budget then [line] else [line[..budget]] + Cut(line[budget..], budget)
  {}

  method Slices(line: Text, budget: nat) returns (slices: seq<Text>)
    requires 0 < budget < |line|
    ensures slices == Cut(line, budget)
  {
    slices := [];
    hide Cut;
    var i := 0;
    assert line[0..] == line && [] + Cut(line, budget) == Cut(line, budget);
    while i < |line|
      invariant 0 <= i
      invariant if i < |line| then slices + Cut(line[i..], budget) == Cut(line, budget) else slices == Cut(line, budget)
      decreases |line| - i
    {
      var end := if i + budget <= |line| then i + budget else |line|;
      CutUnfolds(line[i..], budget);
      assert line[i..][..end - i] == line[i..end];
      if i + budget < |line| {
        assert line[i..][budget..] == line[i + budget..];
        assert slices + ([line[i..end]] + Cut(line[i + budget..], budget)) == (slices + [line[i..end]]) + Cut(line[i + budget..], budget);
      } else {
        assert line[i..] == line[i..end];
      }
      slices := slices + [line[i..end]];
      i := i + budget;
    }
  }

  lemma StartedIsText(s: State)
    requires Filled(s)
    ensures s.Started() <==> s.Current() != []
  {
    if s.Started() { JoinNotEmpty(s.CurrentLines()); }
  }

  lemma FlushText(s: State)
    requires s.Started()
    ensures Rendered(Flush(s).done) == Rendered(s.done) + [if s.inFence then s.Current() + [LF] + MARK else s.Current()]
    ensures Flush(s).Current() == if s.inFence then MARK else []
  {
    var p := Part(s.open, s.lines, s.inFence);
    if s.inFence {
      JoinSnoc(s.CurrentLines(), MARK, LF);
    } else {
      assert AllLines(p) == s.CurrentLines();
    }
    assert Flush(s).CurrentLines() == Marks(s.inFence);
  }

  lemma AppendText(s: State, line: Text)
    ensures Append(s, line).Current() == if s.Started() then s.Current() + [LF] + line else line
  {
    hide Fence;
    JoinSnoc(s.CurrentLines(), line, LF);
    assert s.CurrentLines() + [line] == Marks(s.open) + (s.lines + [line]);
  }

  /** The three variables of the loop hold this state. */
  ghost predicate Holds(s: State, chunks: seq<Text>, current: Text, inFence: bool) {
    Filled(s) && current == s.Current() && inFence == s.inFence && chunks == Rendered(s.done)
  }

  /** The loop's work on one line. */
  method TakeLine(line: Text, limit: nat, chunks: seq<Text>, current: Text, inFence: bool, ghost s: State)
    returns (chunks': seq<Text>, current': Text, inFence': bool)
    requires Holds(s, chunks, current, inFence)
    ensures Holds(Step(s, line, limit), chunks', current', inFence')
  {
    hide Fence, Render, Filled, Join, Rendered;
    chunks', current', inFence' := chunks, current, inFence;
    StepFilled(s, line, limit);
    StartedIsText(s);
    var projected := if current != [] then |current| + 1 + |line| else |line|;
    var reserve := if inFence then 4 else 0;
    ghost var t := if Overflows(s, line, limit) then Flush(s) else s;
    if current != [] && projected + reserve > limit {
      FlushText(s);
      chunks' := chunks + [if inFence then current + [LF] + MARK else current];
      current' := if inFence then MARK else [];
    }
    AppendText(t, line);
    assert t.Started() <==> current' != [];
    current' := if current' != [] then current' + [LF] + line else line;
    if Fence(line) {
      inFence' := !inFence;
    }
  }

  /** `splitForDiscord`. */
  method SplitForDiscord(text: Text, limit: nat) returns (chunks: seq<Text>)
    requires limit > 8
    ensures chunks == Chunks(text, limit)
  {
    hide Fence, Render, Split, Pieces, Filled, Join, Step, Fold, Rendered;
    var lines := CutLines(text, limit - 8);
    chunks := [];
    var current: Text, inFence := [], false;
    ghost var s := START;
    FoldFilled([], limit);
    FoldSnoc([], [], limit);
    StartText();
    assert lines[..0] == [];
    for n := 0 to |lines|
      invariant s == Fold(lines[..n], limit) && Holds(s, chunks, current, inFence)
    {
      assert lines[..n + 1] == lines[..n] + [lines[n]];
      FoldSnoc(lines[..n], lines[n], limit);
      chunks, current, inFence := TakeLine(lines[n], limit, chunks, current, inFence, s);
      s := Step(s, lines[n], limit);
    }
    assert lines[..|lines|] == lines;
    StartedIsText(s);
    if current != [] {
      LastText(s);
      chunks := chunks + [current];
    }
  }

  lemma StartText()
    ensures START.Current() == [] && Rendered(START.done) == []
  {
    assert START.CurrentLines() == [];
  }

  lemma LastText(s: State)
    requires s.Started()
    ensures Rendered(Finish(s)) == Rendered(s.done) + [s.Current()]
  {
    assert AllLines(Part(s.open, s.lines, false)) == s.CurrentLines();
  }

  // ---------------------------------------------------------------------- labelling

  function Digit(n: nat): (c: CodeUnit)
    requires n <= 9
  {
    0x30 + n
  }

  /** The label of one part of several; a single part has none. */
  function PartLabel(i: nat, n: nat): (t: Text)
    requires i < n <= 9
    ensures |t| == if n > 1 then 13 else 0
    ensures n > 1 ==> t[7] == 0x31 + i && t[9] == 0x30 + n && t[12] == LF
  {
    var slash: CodeUnit := 0x2F;
    if n <= 1 then [] else Ascii("_(Part ") + [Digit(i + 1), slash, Digit(n)] + Ascii(")_") + [LF]
  }

  datatype Delivery = Messages(contents: seq<Text>) | Attachment(content: Text, file: Text)

  ghost predicate Labelled(contents: seq<Text>, chunks: seq<Text>) {
    && |contents| == |chunks| <= MAX_CHUNKS
    && forall i | 0 <= i < |chunks| :: contents[i] == PartLabel(i, |chunks|) + chunks[i]
  }

  /** `deliverResult`: every message fits, and is sent in order. */
  method Deliver(header: Text, text: Text, note: Text) returns (d: Delivery)
    ensures d.Messages? ==> forall i | 0 <= i < |d.contents| :: |d.contents[i]| <= 1917
    ensures var body := header + [LF] + text;
            && (d.Attachment? <==> |body| > CHUNK_LIMIT && |Chunks(body, CHUNK_LIMIT)| > MAX_CHUNKS)
            && (d.Attachment? ==> d == Attachment(header + note, text))
            && (d.Messages? && |body| <= CHUNK_LIMIT ==> d.contents == [body])
            && (d.Messages? && |body| > CHUNK_LIMIT ==> Labelled(d.contents, Chunks(body, CHUNK_LIMIT)))
  {
    hide Chunks, PartLabel;
    var body := header + [LF] + text;
    if |body| <= CHUNK_LIMIT {
      return Messages([body]);
    }
    var chunks := SplitForDiscord(body, CHUNK_LIMIT);
    ChunkLength(body, CHUNK_LIMIT);
    if |chunks| <= MAX_CHUNKS {
      var contents: seq<Text> := [];
      for i := 0 to |chunks|
        invariant |contents| == i
        invariant forall j | 0 <= j < i :: contents[j] == PartLabel(j, |chunks|) + chunks[j]
      {
        contents := contents + [PartLabel(i, |chunks|) + chunks[i]];
      }
      return Messages(contents);
    }
    return Attachment(header + note, text);
  }
}
