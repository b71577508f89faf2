/** Which layouts the splitter gives: messages filled as far as they go, and blank lines lost only before text. */
module DeliveryLayout {
  import opened Encoding
  import opened Delivery

  // ------------------------------------------------------------------------- pieces

  /** A fence line read off its positions. */
  ghost predicate FenceAt(line: Text, k: nat) {
    k + 3 <= |line| && line[k..k + 3] == MARK && forall j | 0 <= j < k :: Blank(line[j])
  }

  lemma FenceAtNext(line: Text, k: nat)
    requires line != [] && Blank(line[0])
    ensures !FenceAt(line, 0) && (FenceAt(line, k + 1) <==> FenceAt(line[1..], k))
  {
    if |line| >= 3 { assert line[0..3][0] == line[0]; }
    var rest := line[1..];
    if k + 3 <= |rest| { assert line[k + 1..k + 4] == rest[k..k + 3]; }
    assert forall j | 0 < j < |line| :: line[j] == rest[j - 1];
    if FenceAt(rest, k) {
      assert forall j | 0 <= j < k + 1 :: Blank(line[j]);
    }
    if FenceAt(line, k + 1) {
      assert forall j | 0 <= j < k :: rest[j] == line[j + 1];
    }
  }

  lemma {:induction false} FenceExactly(line: Text)
    ensures Fence(line) <==> exists k: nat :: FenceAt(line, k)
  {
    hide Blank;
    if line != [] && Blank(line[0]) {
      FenceExactly(line[1..]);
      hide Fence, FenceAt;
      FenceUnfolds(line);
      FenceAtNext(line, 0);
      if Fence(line) {
        var k: nat :| FenceAt(line[1..], k);
        FenceAtNext(line, k);
      }
      if k: nat :| FenceAt(line, k) {
        assert k > 0;
        FenceAtNext(line, k - 1);
      }
    } else if Fence(line) {
      assert FenceAt(line, 0);
    }
  }

  lemma FenceUnfolds(line: Text)
    requires line != [] && Blank(line[0])
    ensures Fence(line) == Fence(line[1..])
  {
    hide Blank;
  }

  /** A line is cut as late as possible: every piece but the last is full, and only an empty line has an empty piece. */
  ghost predicate CutLate(line: Text, budget: nat, pieces: seq<Text>) {
    && |pieces| > 0 && Flat(pieces) == line
    && (forall i | 0 <= i < |pieces| - 1 :: |pieces[i]| == budget)
    && |pieces[|pieces| - 1]| <= budget && (|pieces| > 1 ==> pieces[|pieces| - 1] != [])
  }

  lemma {:induction false} CutExactly(line: Text, budget: nat, pieces: seq<Text>)
    requires budget > 0
    ensures CutLate(line, budget, pieces) <==> pieces == Cut(line, budget)
    decreases |line|
  {
    if pieces != [] { FlatPrepend(pieces[0], pieces[1..]); assert pieces == [pieces[0]] + pieces[1..]; }
    if |line| <= budget {
      CutShort(line, budget, pieces);
    } else {
      var rest := line[budget..];
      CutExactly(rest, budget, Cut(rest, budget));
      CutUnfolds(line, budget);
      FlatPrepend(line[..budget], Cut(rest, budget));
      hide Cut, Flat;
      assert line == line[..budget] + rest;
      if CutLate(line, budget, pieces) {
        FlatNothingMore(pieces[0]);
        assert |pieces| > 1;
        assert CutLate(rest, budget, pieces[1..]);
        CutExactly(rest, budget, pieces[1..]);
      }
    }
  }

  lemma FlatNothingMore(x: Text)
    ensures Flat([x]) == x && Flat([]) == []
  {
    assert [x][..0] == [];
  }

  lemma CutShort(line: Text, budget: nat, pieces: seq<Text>)
    requires |line| <= budget && budget > 0
    ensures CutLate(line, budget, pieces) <==> pieces == [line]
  {
    FlatNothingMore(line);
    if |pieces| == 1 {
      FlatNothingMore(pieces[0]);
      assert pieces == [pieces[0]];
    } else if |pieces| > 1 {
      FlatEnds(pieces);
    }
  }

  lemma FlatEnds(pieces: seq<Text>)
    requires |pieces| > 1
    ensures |Flat(pieces)| >= |pieces[0]| + |pieces[|pieces| - 1]|
  {
    var n := |pieces| - 1;
    FlatPrepend(pieces[0], pieces[1..n]);
    assert pieces[..n] == [pieces[0]] + pieces[1..n];
  }

  /** The pieces of one line among the pieces of all lines. */
  ghost predicate Grouped(lines: seq<Text>, budget: nat, groups: seq<seq<Text>>) {
    |groups| == |lines| && forall i | 0 <= i < |lines| :: CutLate(lines[i], budget, groups[i])
  }

  function Together(groups: seq<seq<Text>>): seq<Text> {
    if groups == [] then [] else Together(groups[..|groups| - 1]) + groups[|groups| - 1]
  }

  /** The pieces are those of every line in turn, empty lines included. */
  lemma {:induction false} PiecesExactly(lines: seq<Text>, budget: nat, groups: seq<seq<Text>>)
    requires budget > 0 && Grouped(lines, budget, groups)
    ensures Together(groups) == Pieces(lines, budget)
  {
    hide CutLate;
    if lines != [] {
      var n := |lines| - 1;
      CutExactly(lines[n], budget, groups[n]);
      PiecesExactly(lines[..n], budget, groups[..n]);
    }
  }

  // --------------------------------------------------------------------------- rows

  /** The message so far, and whether a line still has room under the limit and the closing fence. */
  predicate Room(open: bool, before: seq<Text>, line: Text, limit: nat) {
    var lines := Marks(open) + before;
    |Join(lines, LF)| + 1 + |line| + (if Odd(Fences(lines)) then 4 else 0) <= limit
  }

  /** A message with the blank lines lost before it: it begins with text or a reopened block, and every line had room. */
  ghost predicate RowOk(row: Part, pad: nat, limit: nat) {
    && (row.open ==> pad == 0 && row.lines != [])
    && (!row.open && row.lines != [] ==> row.lines[0] != [])
    && forall k | (if row.open then 0 else 1) <= k < |row.lines| :: Room(row.open, row.lines[..k], row.lines[k], limit)
  }

  /** A message ends only when the next line has no room, closing the block it is in for the next message to reopen. */
  ghost predicate LinkOk(row: Part, next: Part, pad: nat, limit: nat) {
    && row.lines != [] && next.open == row.close && (row.close <==> Odd(Fences(Marks(row.open) + row.lines)))
    && (pad > 0 || next.lines != [])
    && !Room(row.open, row.lines, if pad > 0 then [] else next.lines[0], limit)
  }

  function Blanks(n: nat): seq<Text> {
    seq(n, _ => [])
  }

  function Spread(rows: seq<Part>, pads: seq<nat>): seq<Text>
    requires |rows| == |pads|
  {
    if rows == [] then []
    else Spread(rows[..|rows| - 1], pads[..|rows| - 1]) + Blanks(pads[|rows| - 1]) + rows[|rows| - 1].lines
  }

  /** Messages laid out one after the other. */
  ghost predicate Follow(rows: seq<Part>, pads: seq<nat>, limit: nat) {
    && |rows| == |pads| && (rows != [] ==> !rows[0].open)
    && (forall i | 0 <= i < |rows| :: RowOk(rows[i], pads[i], limit))
    && (forall i, j | 0 <= i && j == i + 1 && j < |rows| :: LinkOk(rows[i], rows[j], pads[j], limit))
  }

  /** The pieces laid out in these rows, the last of which nothing closes. */
  ghost predicate Laid(rows: seq<Part>, pads: seq<nat>, pieces: seq<Text>, limit: nat) {
    && Follow(rows, pads, limit) && rows != [] && !rows[|rows| - 1].close
    && Spread(rows, pads) == pieces
  }

  /** A last row without lines is no message. */
  function Visible(rows: seq<Part>): seq<Part> {
    if rows != [] && rows[|rows| - 1].lines == [] then rows[..|rows| - 1] else rows
  }

  // ----------------------------------------------------------------- one line more

  lemma SpreadSnoc(rows: seq<Part>, pads: seq<nat>, row: Part, pad: nat)
    requires |rows| == |pads|
    ensures Spread(rows + [row], pads + [pad]) == Spread(rows, pads) + Blanks(pad) + row.lines
  {
    assert (rows + [row])[..|rows|] == rows && (pads + [pad])[..|rows|] == pads;
  }

  ghost predicate LastOk(rows: seq<Part>, row: Part, pad: nat, limit: nat) {
    RowOk(row, pad, limit) && if rows == [] then !row.open else LinkOk(rows[|rows| - 1], row, pad, limit)
  }

  lemma FollowSnoc(rows: seq<Part>, pads: seq<nat>, row: Part, pad: nat, limit: nat)
    requires |rows| == |pads|
    ensures Follow(rows + [row], pads + [pad], limit) <==> Follow(rows, pads, limit) && LastOk(rows, row, pad, limit)
  {
    hide RowOk, LinkOk;
    var n := |rows|;
    var all, padding := rows + [row], pads + [pad];
    if Follow(all, padding, limit) {
      assert forall i | 0 <= i < n :: rows[i] == all[i] && pads[i] == padding[i];
      assert RowOk(all[n], padding[n], limit);
      if n > 0 { assert LinkOk(all[n - 1], all[n], padding[n], limit); }
    }
  }

  /** One line more in the last message. */
  lemma LineMore(rows: seq<Part>, row: Part, pad: nat, line: Text, limit: nat)
    requires row.open ==> row.lines != []
    requires row.lines == [] ==> rows == [] || pad > 0
    ensures LastOk(rows, row.(lines := row.lines + [line]), pad, limit) <==>
            && LastOk(rows, row, pad, limit)
            && if row.lines == [] then line != [] else Room(row.open, row.lines, line, limit)
  {
    hide Room, RowOk;
    RowPrefix(row, pad, line, limit);
  }

  lemma RowPrefix(row: Part, pad: nat, line: Text, limit: nat)
    requires row.open ==> row.lines != []
    ensures RowOk(row.(lines := row.lines + [line]), pad, limit) <==>
            && RowOk(row, pad, limit)
            && if row.lines == [] then line != [] else Room(row.open, row.lines, line, limit)
  {
    hide Room;
    var more := row.lines + [line];
    var n := |row.lines|;
    assert more[n] == line && more[..n] == row.lines;
    assert forall k | 0 <= k < n :: more[k] == row.lines[k] && more[..k] == row.lines[..k];
    if RowOk(row.(lines := more), pad, limit) {
      forall k | (if row.open then 0 else 1) <= k < n ensures Room(row.open, row.lines[..k], row.lines[k], limit) {
        assert Room(row.open, more[..k], more[k], limit);
      }
      if n > 0 { assert Room(row.open, more[..n], more[n], limit); }
    }
  }

  /** A message ended, and the line that had no room. */
  function Begun(row: Part, line: Text): Part {
    Part(row.close, if row.close || line != [] then [line] else [], false)
  }

  function BlankPad(row: Part, line: Text): nat {
    if row.close || line != [] then 0 else 1
  }

  predicate ClosesRight(row: Part) {
    row.close <==> Odd(Fences(Marks(row.open) + row.lines))
  }

  lemma RoomAfterMark(line: Text, limit: nat)
    requires limit > 8 && |line| <= limit - 8
    ensures Room(true, [], line, limit)
  {
    assert Marks(true) + [] == [MARK];
    FencesMarks(true);
    hide Fences;
  }

  /** The message after one that closes as it should. */
  lemma RowMore(rows: seq<Part>, row: Part, pad: nat, line: Text, limit: nat)
    requires limit > 8 && |line| <= limit - 8 && ClosesRight(row)
    ensures LastOk(rows + [row], Begun(row, line), BlankPad(row, line), limit) <==>
            row.lines != [] && !Room(row.open, row.lines, line, limit)
  {
    RoomAfterMark(line, limit);
    hide Room, Fences;
    var next := Begun(row, line);
    assert next.lines != [] ==> next.lines[..0] == [];
  }

  /** The close mark of a message matters only to the one after it. */
  lemma CloseIsFree(rows: seq<Part>, row: Part, close: bool, pad: nat, limit: nat)
    ensures LastOk(rows, row.(close := close), pad, limit) <==> LastOk(rows, row, pad, limit)
  {
    hide Room, Fences;
  }

  // --------------------------------------------------------------- the splitter's rows

  function CurrentRow(s: State): Part {
    Part(s.open, s.lines, false)
  }


  function Ended(row: Part): Part {
    row.(close := Odd(Fences(Marks(row.open) + row.lines)))
  }

  predicate EndsRow(row: Part, line: Text, limit: nat) {
    row.lines != [] && !Room(row.open, row.lines, line, limit)
  }

  /** What one step does to the rows: the line begins a message, or is lost, or goes on the last message. */
  lemma StepRows(s: State, line: Text, limit: nat)
    requires Balanced(s) && (s.open ==> s.lines != [])
    ensures var row, t := CurrentRow(s), Step(s, line, limit);
            if EndsRow(row, line, limit) then t.done == s.done + [Ended(row)] && CurrentRow(t) == Begun(Ended(row), line)
            else if row.lines == [] && line == [] then t.done == s.done && CurrentRow(t) == row
            else t.done == s.done && CurrentRow(t) == row.(lines := s.lines + [line])
  {
    hide Fence, Fences, Join;
  }

  /** These pieces are laid out in these rows, of which the last goes on. */
  ghost predicate LaidLast(rows: seq<Part>, pads: seq<nat>, row: Part, pad: nat, pieces: seq<Text>, limit: nat) {
    && |rows| == |pads| && Follow(rows, pads, limit) && LastOk(rows, row, pad, limit) && !row.close
    && pieces == Spread(rows, pads) + Blanks(pad) + row.lines
  }

  lemma LaidExactly(rows: seq<Part>, pads: seq<nat>, row: Part, pad: nat, pieces: seq<Text>, limit: nat)
    requires |rows| == |pads|
    ensures Laid(rows + [row], pads + [pad], pieces, limit) <==> LaidLast(rows, pads, row, pad, pieces, limit)
  {
    FollowSnoc(rows, pads, row, pad, limit);
    SpreadSnoc(rows, pads, row, pad);
    hide Follow, LastOk, Spread;
  }

  /** What a last row says of itself. */
  lemma LastRow(rows: seq<Part>, pads: seq<nat>, row: Part, pad: nat, pieces: seq<Text>, limit: nat)
    requires LaidLast(rows, pads, row, pad, pieces, limit)
    ensures (row.open ==> row.lines != [] && pad == 0) && (row.lines == [] ==> rows == [] || pad > 0)
    ensures row.lines != [] && !row.open ==> row.lines[0] != []
    ensures if rows == [] then !row.open
            else var d := |rows| - 1; rows[d] == Ended(rows[d].(close := false)) && row.open == rows[d].close
  {
    hide Room, Follow, Spread, Fences;
  }

  lemma LineLaid(rows: seq<Part>, pads: seq<nat>, row: Part, pad: nat, pieces: seq<Text>, line: Text, limit: nat)
    requires (row.open ==> row.lines != []) && (row.lines == [] ==> rows == [] || pad > 0)
    ensures LaidLast(rows, pads, row.(lines := row.lines + [line]), pad, pieces + [line], limit) <==>
            && LaidLast(rows, pads, row, pad, pieces, limit)
            && !EndsRow(row, line, limit) && (row.lines == [] ==> line != [])
  {
    LineMore(rows, row, pad, line, limit);
    hide Room, Follow, Spread, LastOk, Blanks;
    if |rows| == |pads| {
      var before := Spread(rows, pads) + Blanks(pad);
      assert before + (row.lines + [line]) == (before + row.lines) + [line];
      SameLast(pieces, before + row.lines, line);
    }
  }

  lemma SameLast(a: seq<Text>, b: seq<Text>, last: Text)
    ensures a + [last] == b + [last] <==> a == b
  {
    if a + [last] == b + [last] {
      assert a == (a + [last])[..|a|] && b == (b + [last])[..|b|];
    }
  }

  lemma BlankLaid(rows: seq<Part>, pads: seq<nat>, row: Part, pad: nat, pieces: seq<Text>, limit: nat)
    requires row.lines == [] && (rows == [] || pad > 0) && !row.open
    ensures LaidLast(rows, pads, row, pad + 1, pieces + [[]], limit) <==> LaidLast(rows, pads, row, pad, pieces, limit)
  {
    hide Room, Fences, Follow, Spread;
    assert LastOk(rows, row, pad + 1, limit) <==> LastOk(rows, row, pad, limit);
    hide LastOk;
    if |rows| == |pads| {
      var before := Spread(rows, pads);
      assert Blanks(pad + 1) == Blanks(pad) + [[]];
      assert before + Blanks(pad + 1) + [] == (before + Blanks(pad)) + [[]];
      assert before + Blanks(pad) + [] == before + Blanks(pad);
      SameLast(pieces, before + Blanks(pad), []);
    }
  }

  lemma RowLaid(rows: seq<Part>, pads: seq<nat>, row: Part, pad: nat, pieces: seq<Text>, line: Text, limit: nat)
    requires |rows| == |pads| && !row.close && limit > 8 && |line| <= limit - 8
    ensures LaidLast(rows + [Ended(row)], pads + [pad], Begun(Ended(row), line), BlankPad(Ended(row), line), pieces + [line], limit) <==>
            LaidLast(rows, pads, row, pad, pieces, limit) && EndsRow(row, line, limit)
  {
    var ended := Ended(row);
    RowLinks(rows, pads, row, pad, line, limit);
    SpreadSnoc(rows, pads, ended, pad);
    assert ended.lines == row.lines;
    BegunLines(ended, line);
    var next, before := Begun(ended, line), Spread(rows + [ended], pads + [pad]);
    hide Room, Follow, Spread, LastOk, Blanks, Begun, BlankPad, Ended, EndsRow;
    assert before + Blanks(BlankPad(ended, line)) + next.lines == before + [line];
    SameLast(pieces, before, line);
  }

  lemma RowLinks(rows: seq<Part>, pads: seq<nat>, row: Part, pad: nat, line: Text, limit: nat)
    requires |rows| == |pads| && !row.close && limit > 8 && |line| <= limit - 8
    ensures var ended := Ended(row);
            Follow(rows + [ended], pads + [pad], limit) && LastOk(rows + [ended], Begun(ended, line), BlankPad(ended, line), limit) <==>
            Follow(rows, pads, limit) && LastOk(rows, row, pad, limit) && EndsRow(row, line, limit)
  {
    var ended := Ended(row);
    assert ClosesRight(ended) && ended.lines == row.lines && ended.open == row.open;
    assert row.(close := ended.close) == ended;
    hide Room, Follow, LastOk, Begun, BlankPad, Ended, ClosesRight;
    RowMore(rows, ended, pad, line, limit);
    FollowSnoc(rows, pads, ended, pad, limit);
    CloseIsFree(rows, row, ended.close, pad, limit);
  }

  lemma BegunLines(row: Part, line: Text)
    ensures Blanks(BlankPad(row, line)) + Begun(row, line).lines == [line] && !Begun(row, line).close
  {}

  /** A step keeps the rows in order. */
  lemma StepLaid(s: State, pads: seq<nat>, pad: nat, pieces: seq<Text>, line: Text, limit: nat) returns (pads': seq<nat>, pad': nat)
    requires limit > 8 && |line| <= limit - 8 && Balanced(s)
    requires LaidLast(s.done, pads, CurrentRow(s), pad, pieces, limit)
    ensures var t := Step(s, line, limit); LaidLast(t.done, pads', CurrentRow(t), pad', pieces + [line], limit)
  {
    var row := CurrentRow(s);
    LastRow(s.done, pads, row, pad, pieces, limit);
    StepRows(s, line, limit);
    assert |pads| == |s.done|;
    hide *;
    pads', pad' := pads, pad;
    if EndsRow(row, line, limit) {
      RowLaid(s.done, pads, row, pad, pieces, line, limit);
      pads', pad' := pads + [pad], BlankPad(Ended(row), line);
    } else if row.lines == [] && line == [] {
      BlankLaid(s.done, pads, row, pad, pieces, limit);
      pad' := pad + 1;
    } else {
      LineLaid(s.done, pads, row, pad, pieces, line, limit);
    }
  }

  ghost predicate Short(pieces: seq<Text>, limit: nat) {
    limit > 8 && forall i | 0 <= i < |pieces| :: |pieces[i]| <= limit - 8
  }

  lemma {:induction false} FoldLaid(pieces: seq<Text>, limit: nat) returns (pads: seq<nat>, pad: nat)
    requires Short(pieces, limit)
    ensures var s := Fold(pieces, limit); LaidLast(s.done, pads, CurrentRow(s), pad, pieces, limit)
  {
    hide Step, LaidLast;
    if pieces == [] {
      pads, pad := [], 0;
      NothingLaid(limit);
    } else {
      var n := |pieces| - 1;
      pads, pad := FoldLaid(pieces[..n], limit);
      FoldBalanced(pieces[..n], limit);
      pads, pad := StepLaid(Fold(pieces[..n], limit), pads, pad, pieces[..n], pieces[n], limit);
      assert pieces == pieces[..n] + [pieces[n]];
    }
  }

  lemma NothingLaid(limit: nat)
    ensures LaidLast([], [], CurrentRow(START), 0, [], limit)
  {}

  // ------------------------------------------------------------------- no other rows

  /** Where the splitter is: the messages done, and the one under way. */
  ghost predicate AtRows(s: State, rows: seq<Part>, row: Part) {
    s.done == rows && CurrentRow(s) == row
  }

  /** Pieces are laid out in one way only: the splitter's. */
  lemma {:induction false} OnlyRows(rows: seq<Part>, pads: seq<nat>, row: Part, pad: nat, pieces: seq<Text>, limit: nat)
    requires Short(pieces, limit) && LaidLast(rows, pads, row, pad, pieces, limit)
    ensures AtRows(Fold(pieces, limit), rows, row)
    decreases |pieces|, 2
  {
    LastRow(rows, pads, row, pad, pieces, limit);
    var n := |row.lines|;
    if n == 0 && pad == 0 {
      NothingSpread(rows, pads, row, pad, pieces, limit);
    } else if n > 1 || (n == 1 && !row.open && (rows == [] || pad > 0)) {
      WithoutLine(rows, pads, row, pad, pieces, limit);
    } else if rows == [] || pad > 1 {
      WithoutBlank(rows, pads, row, pad, pieces, limit);
    } else {
      WithoutRow(rows, pads, row, pad, pieces, limit);
    }
  }

  lemma LinesBack(lines: seq<Text>)
    requires lines != []
    ensures lines[..|lines| - 1] + [lines[|lines| - 1]] == lines
    ensures |lines| > 1 ==> lines[..|lines| - 1] != []
  {}

  lemma WithoutLine(rows: seq<Part>, pads: seq<nat>, row: Part, pad: nat, pieces: seq<Text>, limit: nat)
    requires Short(pieces, limit) && LaidLast(rows, pads, row, pad, pieces, limit)
    requires |row.lines| > 1 || (|row.lines| == 1 && !row.open && (rows == [] || pad > 0))
    ensures AtRows(Fold(pieces, limit), rows, row)
    decreases |pieces|, 1
  {
    hide *;
    SomethingSpread(rows, pads, row, pad, pieces, limit);
    LastRow(rows, pads, row, pad, pieces, limit);
    var n := |row.lines| - 1;
    var before, line := pieces[..|pieces| - 1], row.lines[n];
    var less := row.(lines := row.lines[..n]);
    LinesBack(row.lines);
    assert row.(lines := less.lines + [line]) == row;
    assert pieces == before + [line];
    LineAdded(rows, pads, less, pad, before, line, limit);
  }

  lemma WithoutBlank(rows: seq<Part>, pads: seq<nat>, row: Part, pad: nat, pieces: seq<Text>, limit: nat)
    requires Short(pieces, limit) && LaidLast(rows, pads, row, pad, pieces, limit)
    requires row.lines == [] && pad > 0 && (rows == [] || pad > 1)
    ensures AtRows(Fold(pieces, limit), rows, row)
    decreases |pieces|, 1
  {
    SomethingSpread(rows, pads, row, pad, pieces, limit);
    LastRow(rows, pads, row, pad, pieces, limit);
    assert !EndsRow(row, [], limit);
    hide *;
    var before := pieces[..|pieces| - 1];
    BlankLaid(rows, pads, row, pad - 1, before, limit);
    OnlyRows(rows, pads, row, pad - 1, before, limit);
    StepIs(before, [], rows, row, limit);
  }

  lemma RowsBack(rows: seq<Part>, pads: seq<nat>)
    requires rows != [] && |rows| == |pads|
    ensures var d := |rows| - 1; rows[..d] + [rows[d]] == rows && pads[..d] + [pads[d]] == pads
  {}

  lemma WithoutRow(rows: seq<Part>, pads: seq<nat>, row: Part, pad: nat, pieces: seq<Text>, limit: nat)
    requires Short(pieces, limit) && LaidLast(rows, pads, row, pad, pieces, limit) && rows != []
    requires if |row.lines| == 1 then row.open || pad == 0 else row.lines == [] && pad == 1
    ensures AtRows(Fold(pieces, limit), rows, row)
    decreases |pieces|, 1
  {
    hide *;
    SomethingSpread(rows, pads, row, pad, pieces, limit);
    LastRow(rows, pads, row, pad, pieces, limit);
    var m, d := |pieces| - 1, |rows| - 1;
    var before, line, prev := pieces[..m], pieces[m], rows[d].(close := false);
    var rows', pads' := rows[..d], pads[..d];
    BegunBack(row, rows[d], pad, line);
    assert Ended(prev) == rows[d];
    RowsBack(rows, pads);
    assert rows' + [Ended(prev)] == rows && pads' + [pads[d]] == pads;
    assert pieces == before + [line];
    RowAdded(rows', pads', prev, pads[d], before, line, limit);
  }

  lemma LineAdded(rows: seq<Part>, pads: seq<nat>, row: Part, pad: nat, before: seq<Text>, line: Text, limit: nat)
    requires (row.open ==> row.lines != []) && (row.lines == [] ==> rows == [] || pad > 0)
    requires Short(before, limit) && LaidLast(rows, pads, row.(lines := row.lines + [line]), pad, before + [line], limit)
    ensures AtRows(Fold(before + [line], limit), rows, row.(lines := row.lines + [line]))
    decreases |before| + 1, 0
  {
    hide *;
    LineLaid(rows, pads, row, pad, before, line, limit);
    OnlyRows(rows, pads, row, pad, before, limit);
    StepIs(before, line, rows, row, limit);
  }

  lemma RowAdded(rows: seq<Part>, pads: seq<nat>, row: Part, pad: nat, before: seq<Text>, line: Text, limit: nat)
    requires |rows| == |pads| && !row.close && limit > 8 && |line| <= limit - 8 && Short(before, limit)
    requires LaidLast(rows + [Ended(row)], pads + [pad], Begun(Ended(row), line), BlankPad(Ended(row), line), before + [line], limit)
    ensures AtRows(Fold(before + [line], limit), rows + [Ended(row)], Begun(Ended(row), line))
    decreases |before| + 1, 0
  {
    hide *;
    RowLaid(rows, pads, row, pad, before, line, limit);
    LastRow(rows, pads, row, pad, before, limit);
    OnlyRows(rows, pads, row, pad, before, limit);
    StepIs(before, line, rows, row, limit);
  }

  lemma NothingSpread(rows: seq<Part>, pads: seq<nat>, row: Part, pad: nat, pieces: seq<Text>, limit: nat)
    requires LaidLast(rows, pads, row, pad, pieces, limit) && row.lines == [] && pad == 0
    ensures AtRows(Fold(pieces, limit), rows, row)
  {
    LastRow(rows, pads, row, pad, pieces, limit);
    hide Room, Follow, LastOk;
    assert rows == [] && pads == [];
    assert pieces == [];
  }

  lemma SomethingSpread(rows: seq<Part>, pads: seq<nat>, row: Part, pad: nat, pieces: seq<Text>, limit: nat)
    requires Short(pieces, limit) && LaidLast(rows, pads, row, pad, pieces, limit) && (row.lines != [] || pad > 0)
    ensures |rows| == |pads| && !row.close && limit > 8
    ensures pieces != [] && pieces[|pieces| - 1] == if row.lines != [] then row.lines[|row.lines| - 1] else []
    ensures |pieces[|pieces| - 1]| <= limit - 8
    ensures Short(pieces[..|pieces| - 1], limit) && pieces == pieces[..|pieces| - 1] + [pieces[|pieces| - 1]]
  {
    hide Room, Follow, LastOk, Spread;
  }

  /** A message that has only its first line, or only a blank one lost, began when the one before it ended. */
  lemma BegunBack(row: Part, prev: Part, pad: nat, line: Text)
    requires !row.close && row.open == prev.close && (row.open ==> row.lines != [] && pad == 0)
    requires if row.lines == [] then pad == 1 && line == [] else |row.lines| == 1 && row.lines[0] == line && (row.open || (pad == 0 && line != []))
    ensures row == Begun(prev, line) && pad == BlankPad(prev, line)
  {}

  lemma StepIs(before: seq<Text>, line: Text, rows: seq<Part>, row: Part, limit: nat)
    requires AtRows(Fold(before, limit), rows, row) && (row.open ==> row.lines != [])
    ensures var t := Fold(before + [line], limit);
            if EndsRow(row, line, limit) then AtRows(t, rows + [Ended(row)], Begun(Ended(row), line))
            else if row.lines == [] && line == [] then AtRows(t, rows, row)
            else AtRows(t, rows, row.(lines := row.lines + [line]))
  {
    FoldSnoc(before, line, limit);
    FoldBalanced(before, limit);
    StepRows(Fold(before, limit), line, limit);
    hide Balanced, EndsRow, Step, Begun, Ended, Fold;
  }

  // ---------------------------------------------------------------------- the layout

  ghost predicate LaidOut(parts: seq<Part>, pieces: seq<Text>, limit: nat) {
    exists rows, pads :: Laid(rows, pads, pieces, limit) && parts == Visible(rows)
  }

  /** The rows of a text, as the splitter leaves them. */
  function RowsOf(text: Text, limit: nat): seq<Part>
    requires limit > 8
  {
    var s := Fold(PiecesOf(text, limit), limit);
    s.done + [CurrentRow(s)]
  }

  lemma RowsLaid(text: Text, limit: nat) returns (pads: seq<nat>)
    requires limit > 8
    ensures Short(PiecesOf(text, limit), limit) && Laid(RowsOf(text, limit), pads, PiecesOf(text, limit), limit)
    ensures Layout(text, limit) == Visible(RowsOf(text, limit))
  {
    hide Fold, PiecesOf, Laid, Follow, RowOk, LinkOk, Finish, Visible;
    TextPieces(text, limit);
    var pieces := PiecesOf(text, limit);
    var s := Fold(pieces, limit);
    var padding, pad := FoldLaid(pieces, limit);
    LaidExactly(s.done, padding, CurrentRow(s), pad, pieces, limit);
    VisibleRows(s, pad, limit);
    pads := padding + [pad];
  }

  /**
    * The layout is the one in which every message takes lines for as long as the next one fits
    * with the fence it may need, and blank lines are lost only where a message would begin with them.
    */
  lemma LayoutExactly(text: Text, limit: nat, parts: seq<Part>)
    requires limit > 8
    ensures parts == Layout(text, limit) <==> LaidOut(parts, PiecesOf(text, limit), limit)
  {
    hide Fold, PiecesOf, Laid, Layout, Visible, RowsOf, Short;
    var pads := RowsLaid(text, limit);
    assert parts == Layout(text, limit) ==> LaidOut(parts, PiecesOf(text, limit), limit);
    forall rows, padding | Laid(rows, padding, PiecesOf(text, limit), limit) ensures rows == RowsOf(text, limit) {
      OnlyLaid(rows, padding, text, limit);
    }
  }

  lemma VisibleRows(s: State, pad: nat, limit: nat)
    requires LastOk(s.done, CurrentRow(s), pad, limit)
    ensures Finish(s) == Visible(s.done + [CurrentRow(s)])
  {
    hide Room, Fences;
  }

  lemma OnlyLaid(rows: seq<Part>, pads: seq<nat>, text: Text, limit: nat)
    requires limit > 8 && Short(PiecesOf(text, limit), limit) && Laid(rows, pads, PiecesOf(text, limit), limit)
    ensures rows == RowsOf(text, limit)
  {
    hide Fold, Spread, RowOk, LinkOk, PiecesOf, Short;
    var n := |rows| - 1;
    var pieces := PiecesOf(text, limit);
    assert rows == rows[..n] + [rows[n]] && pads == pads[..n] + [pads[n]];
    LaidExactly(rows[..n], pads[..n], rows[n], pads[n], pieces, limit);
    OnlyRows(rows[..n], pads[..n], rows[n], pads[n], pieces, limit);
  }
}
