// The text console (src/kernel/console.c): a screen of 25 rows that scrolls, refining a tape that
// never does.
module Console {
  import opened Words
  import Strings

  const CRT_ROWS: nat := 25
  const CRT_COLS: nat := 80
  const CRT_SIZE: nat := 2000

  type Cell = c: nat | c < 0x1_0000

  const BLANK: Cell := 0x0720

  // ----- the tape

  // Everything ever written, row after row, with the cursor and the first row still on the screen.
  // Cells that were never reached are blank.
  datatype Tape = Tape(cells: seq<Cell>, cursor: nat, top: nat)

  function At(t: Tape, k: nat): Cell {
    if k < |t.cells| then t.cells[k] else BLANK
  }

  function FirstCell(t: Tape): nat {
    t.top * CRT_COLS
  }

  // The cursor is on the screen, and nothing has been written below it.
  ghost predicate OnScreen(t: Tape) {
    FirstCell(t) <= t.cursor < FirstCell(t) + CRT_SIZE && |t.cells| <= FirstCell(t) + CRT_SIZE
  }

  function Window(t: Tape): (w: seq<Cell>)
    ensures |w| == CRT_SIZE && forall k :: 0 <= k < CRT_SIZE ==> w[k] == At(t, FirstCell(t) + k)
  {
    seq<Cell>(CRT_SIZE, k requires 0 <= k < CRT_SIZE => At(t, FirstCell(t) + k))
  }

  function Write(t: Tape, k: nat, x: Cell): (t': Tape)
    ensures At(t', k) == x && forall j: nat :: j != k ==> At(t', j) == At(t, j)
    ensures t'.cursor == t.cursor && t'.top == t.top
  {
    var gap := if k < |t.cells| then 0 else k + 1 - |t.cells|;
    var cells := t.cells + seq<Cell>(gap, _ => BLANK);
    t.(cells := cells[k := x])
  }

  // The window moves down just far enough to show the row of the cursor, and never up.
  function Follow(t: Tape): Tape {
    var row := t.cursor / CRT_COLS;
    if row < t.top + CRT_ROWS then t else t.(top := row + 1 - CRT_ROWS)
  }

  // A character without attribute bits gets white on black.
  function Attributed(c: Word): Word {
    if c < 0x100 then 0x0700 + c else c
  }

  // The characters that cga_putc has no case for.
  predicate IsGlyph(c: Word) {
    c % 0x100 !in {8, 9, 10, 13}
  }

  // One character other than a tab.
  function Step(t: Tape, c: Word): Tape {
    var a, ch := Attributed(c), c % 0x100;
    if ch == 8 then
      if t.cursor <= FirstCell(t) then t
      else Write(t, t.cursor - 1, (a - ch + 0x20) % TWO16).(cursor := t.cursor - 1)
    else if ch == 10 then Follow(t.(cursor := (t.cursor / CRT_COLS + 1) * CRT_COLS))
    else if ch == 13 then t.(cursor := t.cursor / CRT_COLS * CRT_COLS)
    else Follow(Write(t, t.cursor, a % TWO16).(cursor := t.cursor + 1))
  }

  function Space(t: Tape): Tape {
    Step(t, 0x20)
  }

  // A tab is five plain spaces.
  function Put(t: Tape, c: Word): Tape {
    if c % 0x100 == 9 then Space(Space(Space(Space(Space(t))))) else Step(t, c)
  }

  function Feed(t: Tape, cs: seq<Word>): Tape {
    if cs == [] then t else Put(Feed(t, cs[..|cs| - 1]), cs[|cs| - 1])
  }

  // ----- the screen

  lemma AndLow(x: Word)
    ensures And(x, 0xFF) == x % 0x100
  {
    Pow2Values();
    AndMask(x, 8);
  }

  lemma AndHigh(x: Word)
    ensures And(x, 0xFFFF_FF00) == x - x % 0x100
  {
    hide And, Shl, Shr, Pow2;
    ShlIsMul(0xFF_FFFF, 8);
    AndShifted(x, 0xFF_FFFF, 8);
    ShrIsDiv(x, 8);
    Pow2Values();
    Pow2Add(8, 16);
    AndMask(x / 0x100, 24);
    ShlIsMul(x / 0x100, 8);
    assert x / 0x100 % 0x100_0000 == x / 0x100;
  }

  lemma OrAttribute(x: nat, y: nat)
    requires y < 0x100
    ensures Or(y, 0x100 * x) == 0x100 * x + y == Or(0x100 * x, y)
  {
    hide Or;
    Pow2Values();
    ShlIsMul(x, 8);
    OrDisjoint(x, 8, y);
  }

  // The masks of cga_putc.
  lemma AttributeBits(c: Word)
    ensures And(c, 0xFFFF_FF00) == 0 <==> c < 0x100
    ensures c < 0x100 ==> Or(c, 0x0700) == Attributed(c)
    ensures And(Attributed(c), 0xFF) == c % 0x100
    ensures Or(And(Attributed(c), 0xFFFF_FF00), 0x20) == Attributed(c) - c % 0x100 + 0x20
  {
    hide And, Or;
    var a := Attributed(c);
    AndHigh(c);
    AndLow(a);
    AndHigh(a);
    if c < 0x100 {
      OrAttribute(7, c);
    }
    OrAttribute(a / 0x100, 0x20);
  }

  lemma SpaceIsStep(t: Tape)
    ensures Put(t, 0x20) == Space(t)
  {
    hide Step;
  }

  lemma GlyphStep(t: Tape, c: Word)
    requires IsGlyph(c)
    ensures Put(t, c) == Follow(Write(t, t.cursor, Attributed(c) % TWO16).(cursor := t.cursor + 1))
  {
  }

  lemma MoveInWindow(t: Tape, cursor: nat)
    ensures Window(t.(cursor := cursor)) == Window(t)
  {
  }

  lemma WriteInWindow(t: Tape, k: nat, x: Cell, cursor: nat)
    requires FirstCell(t) <= k < FirstCell(t) + CRT_SIZE
    ensures Window(Write(t, k, x).(cursor := cursor)) == Window(t)[k - FirstCell(t) := x]
    ensures |Write(t, k, x).cells| == if k < |t.cells| then |t.cells| else k + 1
  {
  }

  // One row below the screen, the window moves down by that row.
  lemma FollowRow(t: Tape)
    requires FirstCell(t) <= t.cursor < FirstCell(t) + CRT_SIZE + CRT_COLS && |t.cells| <= FirstCell(t) + CRT_SIZE
    ensures OnScreen(Follow(t))
    ensures t.cursor < FirstCell(t) + CRT_SIZE ==> Follow(t) == t
    ensures t.cursor >= FirstCell(t) + CRT_SIZE ==>
              && Follow(t) == t.(top := t.top + 1)
              && Window(Follow(t)) == Window(t)[CRT_COLS..] + seq<Cell>(CRT_COLS, _ => BLANK)
  {
    var row := t.cursor / CRT_COLS;
    assert t.top <= row <= t.top + CRT_ROWS;
  }

  // The cells as the bytes that memmove copies, low half first.
  function Half(c: Cell, i: nat): Strings.byte {
    if i == 0 then c % 0x100 else c / 0x100
  }

  function Bytes(cells: seq<Cell>): (b: seq<Strings.byte>)
    ensures |b| == 2 * |cells|
  {
    seq<Strings.byte>(2 * |cells|, i requires 0 <= i < 2 * |cells| => Half(cells[i / 2], i % 2))
  }

  lemma ByteAt(cells: seq<Cell>, k: nat, half: nat)
    requires k < |cells| && half < 2
    ensures Bytes(cells)[2 * k + half] == Half(cells[k], half)
  {
    assert (2 * k + half) / 2 == k;
  }

  // Moving cells down by whole cells is moving their bytes down.
  lemma BytesMove(cells: seq<Cell>, dst: nat, src: nat, len: nat)
    requires dst <= src && src + len <= |cells|
    ensures Strings.CopiedForward(Bytes(cells), 2 * dst, 2 * src, 2 * len)
            == Bytes(Strings.CopiedForward(cells, dst, src, len))
  {
    hide Strings.CopiedForward, Bytes, Strings.Moved;
    Strings.ForwardMoves(cells, dst, src, len);
    Strings.ForwardMoves(Bytes(cells), 2 * dst, 2 * src, 2 * len);
    var moved, bytes := Strings.Moved(cells, dst, src, len), Strings.Moved(Bytes(cells), 2 * dst, 2 * src, 2 * len);
    forall i | 0 <= i < |bytes|
      ensures bytes[i] == Bytes(moved)[i]
    {
      MovedByte(cells, dst, src, len, i / 2, i % 2);
    }
    assert bytes == Bytes(moved);
  }

  lemma MovedByte(cells: seq<Cell>, dst: nat, src: nat, len: nat, k: nat, half: nat)
    requires dst <= src && src + len <= |cells| && k < |cells| && half < 2
    ensures Strings.Moved(Bytes(cells), 2 * dst, 2 * src, 2 * len)[2 * k + half]
            == Bytes(Strings.Moved(cells, dst, src, len))[2 * k + half]
  {
    hide Half, Bytes;
    var k' := if dst <= k < dst + len then k - dst + src else k;
    assert Strings.Moved(cells, dst, src, len)[k] == cells[k'];
    assert Strings.Moved(Bytes(cells), 2 * dst, 2 * src, 2 * len)[2 * k + half] == Bytes(cells)[2 * k' + half];
    ByteAt(cells, k', half);
    ByteAt(Strings.Moved(cells, dst, src, len), k, half);
  }

  // Columns on the screen are columns on the tape.
  lemma Columns(t: Tape, pos: nat)
    requires t.cursor == FirstCell(t) + pos
    ensures t.cursor / CRT_COLS * CRT_COLS == FirstCell(t) + (pos - pos % CRT_COLS)
    ensures (t.cursor / CRT_COLS + 1) * CRT_COLS == FirstCell(t) + (pos + CRT_COLS - (pos + CRT_COLS) % CRT_COLS)
  {
  }

  lemma RowStep(t: Tape, c: Word, pos: nat)
    requires OnScreen(t) && (c % 0x100 == 10 || c % 0x100 == 13)
    requires pos == t.cursor - FirstCell(t) + (if c % 0x100 == 10 then CRT_COLS else 0)
    ensures Follow(t.(cursor := FirstCell(t) + (pos - pos % CRT_COLS))) == Step(t, c)
  {
    Columns(t, t.cursor - FirstCell(t));
  }

  class Console {
    const buffer: array<Cell>
    var pos: nat
    ghost var tape: Tape

    ghost predicate Valid()
      reads this, buffer
    {
      && buffer.Length == CRT_SIZE
      && OnScreen(tape) && pos == tape.cursor - FirstCell(tape)
      && buffer[..] == Window(tape)
    }

    // The same, but the cursor may be on the row below the screen.
    ghost predicate Below()
      reads this, buffer
    {
      && buffer.Length == CRT_SIZE && |tape.cells| <= FirstCell(tape) + CRT_SIZE
      && FirstCell(tape) <= tape.cursor < FirstCell(tape) + CRT_SIZE + CRT_COLS && pos == tape.cursor - FirstCell(tape)
      && buffer[..] == Window(tape)
    }

    // init_cga: the screen and the cursor as they are found.
    constructor (buffer: array<Cell>, pos: nat)
      requires buffer.Length == CRT_SIZE && pos < CRT_SIZE
      ensures Valid() && this.buffer == buffer && tape == Tape(buffer[..], pos, 0)
    {
      this.buffer, this.pos, tape := buffer, pos, Tape(buffer[..], pos, 0);
    }

    method CgaPutc(c: Word)
      requires Valid()
      modifies this`pos, this`tape, buffer
      ensures Valid() && tape == Put(old(tape), c)
      decreases if c % 0x100 == 9 then 1 else 0, 1
    {
      hide And, Or, Window, Write, Follow, Space, Step;
      AttributeBits(c);
      var a := c;
      if And(c, 0xFFFF_FF00) == 0 {
        a := Or(c, 0x0700);
      }
      var ch := And(a, 0xFF);
      if ch == 8 {
        Backspace(a, c);
      } else if ch == 10 || ch == 13 {
        NextRow(ch, c);
      } else if ch == 9 {
        Tab(c);
      } else {
        Glyph(a, c);
      }
      FollowRow(tape);
      KeepOnScreen();
    }

    // The end of cga_putc.
    method KeepOnScreen()
      requires Below()
      modifies this`pos, this`tape, buffer
      ensures Valid() && tape == Follow(old(tape))
    {
      hide Window, Follow;
      FollowRow(tape);
      if pos >= CRT_SIZE {
        Scroll();
        tape := Follow(tape);
      }
    }

    // The default case.
    method Glyph(a: Word, ghost c: Word)
      requires Valid() && a == Attributed(c) && IsGlyph(c)
      modifies this`pos, this`tape, buffer
      ensures Below() && Follow(tape) == Put(old(tape), c)
    {
      hide Window, Write, Follow, Step;
      WriteInWindow(tape, tape.cursor, a % TWO16, tape.cursor + 1);
      GlyphStep(tape, c);
      buffer[pos] := a % TWO16;
      pos := pos + 1;
      tape := Write(tape, tape.cursor, a % TWO16).(cursor := tape.cursor + 1);
    }

    // The '\b' case.
    method Backspace(a: Word, ghost c: Word)
      requires Valid() && a == Attributed(c) && c % 0x100 == 8
      modifies this`pos, this`tape, buffer
      ensures Valid() && tape == Step(old(tape), c)
    {
      hide And, Or, Window, Write;
      AttributeBits(c);
      if pos > 0 {
        pos := pos - 1;
        buffer[pos] := Or(And(a, 0xFFFF_FF00), 0x20) % TWO16;
        WriteInWindow(tape, tape.cursor - 1, buffer[pos], tape.cursor - 1);
        tape := Write(tape, tape.cursor - 1, buffer[pos]).(cursor := tape.cursor - 1);
      }
    }

    // The '\t' case.
    method Tab(ghost c: Word)
      requires Valid() && c % 0x100 == 9
      modifies this`pos, this`tape, buffer
      ensures Valid() && tape == Put(old(tape), c)
      decreases 1, 0
    {
      hide Window, OnScreen, Space, Step;
      SpaceIsStep(tape);
      ConsolePutc(0x20);
      SpaceIsStep(tape);
      ConsolePutc(0x20);
      SpaceIsStep(tape);
      ConsolePutc(0x20);
      SpaceIsStep(tape);
      ConsolePutc(0x20);
      SpaceIsStep(tape);
      ConsolePutc(0x20);
    }

    // The '\n' case, falling through to '\r'.
    method NextRow(ch: nat, ghost c: Word)
      requires Valid() && ch == c % 0x100 && (ch == 10 || ch == 13)
      modifies this`pos, this`tape
      ensures Below() && Follow(tape) == Step(old(tape), c)
    {
      hide Window, Follow, Step;
      if ch == 10 {
        pos := pos + CRT_COLS;
      }
      RowStep(tape, c, pos);
      pos := pos - pos % CRT_COLS;
      MoveInWindow(tape, FirstCell(tape) + pos);
      tape := tape.(cursor := FirstCell(tape) + pos);
    }

    method Scroll()
      requires CRT_SIZE == buffer.Length <= pos
      modifies this`pos, buffer
      ensures pos == old(pos) - CRT_COLS
      ensures buffer[..] == old(buffer[CRT_COLS..]) + seq<Cell>(CRT_COLS, _ => BLANK)
    {
      Strings.Memmove(buffer, 0, CRT_COLS, CRT_SIZE - CRT_COLS);
      for i := CRT_SIZE - CRT_COLS to CRT_SIZE
        invariant pos == old(pos) && buffer[..CRT_SIZE - CRT_COLS] == old(buffer[CRT_COLS..])
        invariant forall k :: CRT_SIZE - CRT_COLS <= k < i ==> buffer[k] == BLANK
      {
        buffer[i] := BLANK;
      }
      pos := pos - CRT_COLS;
    }

    method ConsolePutc(c: Word)
      requires Valid()
      modifies this`pos, this`tape, buffer
      ensures Valid() && tape == Put(old(tape), c)
      decreases if c % 0x100 == 9 then 1 else 0, 2
    {
      CgaPutc(c);
    }

    method PutText(cs: seq<Word>)
      requires Valid()
      modifies this`pos, this`tape, buffer
      ensures Valid() && tape == Feed(old(tape), cs)
    {
      hide Put, Window, OnScreen;
      for i := 0 to |cs|
        invariant Valid() && tape == Feed(old(tape), cs[..i])
      {
        ConsolePutc(cs[i]);
        assert cs[..i + 1][..i] == cs[..i];
      }
      assert cs[..|cs|] == cs;
    }
  }

  // ----- what a stream of characters does

  // t comes after s: the window never moves up, and the rows above it are kept as they were.
  ghost predicate Extends(s: Tape, t: Tape) {
    && OnScreen(t) && s.top <= t.top
    && forall k: nat :: k < FirstCell(s) ==> At(t, k) == At(s, k)
  }

  // How far the cells of s, its cursor, or the cursor of t have come.
  function Reach(s: Tape, t: Tape): nat {
    var c := if s.cursor > t.cursor then s.cursor else t.cursor;
    if |s.cells| > c then |s.cells| else c
  }

  lemma FollowKeeps(s: Tape, t: Tape)
    requires OnScreen(s) && t.top == s.top && |t.cells| <= FirstCell(s) + CRT_SIZE
    requires FirstCell(s) <= t.cursor < FirstCell(s) + CRT_SIZE + CRT_COLS
    requires forall k: nat :: k < FirstCell(s) ==> At(t, k) == At(s, k)
    ensures Extends(s, Follow(t)) && Follow(t).cells == t.cells && Follow(t).cursor == t.cursor
  {
    hide Window;
    FollowRow(t);
  }

  lemma StepExtends(t: Tape, c: Word)
    requires OnScreen(t)
    ensures Extends(t, Step(t, c)) && |Step(t, c).cells| <= Reach(t, Step(t, c))
  {
    hide Follow;
    var ch := c % 0x100;
    Columns(t, t.cursor - FirstCell(t));
    if ch == 10 {
      FollowKeeps(t, t.(cursor := (t.cursor / CRT_COLS + 1) * CRT_COLS));
    } else if ch != 8 && ch != 13 {
      FollowKeeps(t, Write(t, t.cursor, Attributed(c) % TWO16).(cursor := t.cursor + 1));
    }
  }

  lemma ExtendsTransitive(s: Tape, t: Tape, u: Tape)
    requires Extends(s, t) && Extends(t, u)
    ensures Extends(s, u)
  {
  }

  lemma SpaceMoves(t: Tape)
    requires OnScreen(t)
    ensures Extends(t, Space(t)) && Space(t).cursor == t.cursor + 1 && |Space(t).cells| <= Reach(t, Space(t))
  {
    StepExtends(t, 0x20);
  }

  lemma PutExtends(t: Tape, c: Word)
    requires OnScreen(t)
    ensures Extends(t, Put(t, c)) && |Put(t, c).cells| <= Reach(t, Put(t, c))
  {
    hide OnScreen, Extends, Step, Space;
    if c % 0x100 == 9 {
      var t1 := Space(t);
      var t2 := Space(t1);
      var t3 := Space(t2);
      var t4 := Space(t3);
      TwoSpaces(t);
      TwoSpaces(t2);
      SpaceMoves(t4);
      ExtendsTransitive(t, t2, t4);
      ExtendsTransitive(t, t4, Space(t4));
    } else {
      StepExtends(t, c);
    }
  }

  lemma TwoSpaces(t: Tape)
    requires OnScreen(t)
    ensures var u := Space(Space(t));
            Extends(t, u) && OnScreen(u) && u.cursor == t.cursor + 2 && |u.cells| <= Reach(t, u)
  {
    SpaceMoves(t);
    SpaceMoves(Space(t));
    ExtendsTransitive(t, Space(t), Space(Space(t)));
  }

  // Over every stream: the cursor stays on the screen, the window only moves down, and what has
  // scrolled out of it is never touched again.
  lemma {:induction false} FeedExtends(t: Tape, cs: seq<Word>)
    requires OnScreen(t)
    ensures Extends(t, Feed(t, cs))
  {
    hide Put, OnScreen, At;
    if cs != [] {
      var u := Feed(t, cs[..|cs| - 1]);
      FeedExtends(t, cs[..|cs| - 1]);
      PutExtends(u, cs[|cs| - 1]);
      ExtendsTransitive(t, u, Feed(t, cs));
    }
  }

  lemma FeedOnScreen(t: Tape, cs: seq<Word>)
    requires OnScreen(t)
    ensures OnScreen(Feed(t, cs))
  {
    FeedExtends(t, cs);
  }

  // The highest cell that the cursor reaches in the course of a stream.
  function HighWater(t: Tape, cs: seq<Word>): nat {
    if cs == [] then Reach(t, t)
    else
      var w, n := HighWater(t, cs[..|cs| - 1]), Feed(t, cs).cursor;
      if w > n then w else n
  }

  // The screen is blank beyond what the cursor has reached.
  lemma {:induction false} BlankBeyond(t: Tape, cs: seq<Word>, k: nat)
    requires OnScreen(t) && HighWater(t, cs) <= FirstCell(Feed(t, cs)) + k && k < CRT_SIZE
    ensures Window(Feed(t, cs))[k] == BLANK
  {
    CellsBelowHighWater(t, cs);
  }

  lemma {:induction false} CellsBelowHighWater(t: Tape, cs: seq<Word>)
    requires OnScreen(t)
    ensures |Feed(t, cs).cells| <= HighWater(t, cs)
  {
    hide Put, OnScreen, At, Extends;
    if cs != [] {
      var u := Feed(t, cs[..|cs| - 1]);
      CellsBelowHighWater(t, cs[..|cs| - 1]);
      FeedOnScreen(t, cs[..|cs| - 1]);
      PutExtends(u, cs[|cs| - 1]);
    }
  }

  lemma {:induction false} FeedAppend(t: Tape, cs: seq<Word>, ds: seq<Word>)
    ensures Feed(t, cs + ds) == Feed(Feed(t, cs), ds)
  {
    hide Put;
    if ds == [] {
      assert cs + ds == cs;
    } else {
      assert (cs + ds)[..|cs + ds| - 1] == cs + ds[..|ds| - 1];
      FeedAppend(t, cs, ds[..|ds| - 1]);
    }
  }

  // ----- text

  lemma GlyphLands(t: Tape, c: Word)
    requires OnScreen(t) && IsGlyph(c)
    ensures var u := Put(t, c);
            && Extends(t, u) && u.cursor == t.cursor + 1
            && (u.top == t.top || u.cursor == FirstCell(u) + CRT_SIZE - CRT_COLS)
            && At(u, t.cursor) == Attributed(c) % TWO16
            && forall k: nat :: k != t.cursor ==> At(u, k) == At(t, k)
  {
    hide Follow, Window;
    GlyphStep(t, c);
    PutExtends(t, c);
    FollowRow(Write(t, t.cursor, Attributed(c) % TWO16).(cursor := t.cursor + 1));
  }

  // Text lands in consecutive cells, across rows and scrolls, and nowhere else.
  lemma {:induction false} TextLands(t: Tape, cs: seq<Word>)
    requires OnScreen(t) && forall i :: 0 <= i < |cs| ==> IsGlyph(cs[i])
    ensures var u := Feed(t, cs);
            && OnScreen(u) && u.cursor == t.cursor + |cs|
            && (forall i :: 0 <= i < |cs| ==> At(u, t.cursor + i) == Attributed(cs[i]) % TWO16)
            && forall k: nat :: k < t.cursor || k >= t.cursor + |cs| ==> At(u, k) == At(t, k)
  {
    hide Put, At, Attributed;
    if cs != [] {
      var n := |cs| - 1;
      TextLands(t, cs[..n]);
      GlyphLands(Feed(t, cs[..n]), cs[n]);
    }
  }

  // ----- the special characters

  // A tab writes five blanks, whatever its attribute.
  lemma TabMoves(t: Tape, c: Word)
    requires OnScreen(t) && c % 0x100 == 9
    ensures var u := Put(t, c);
            && Extends(t, u) && u.cursor == t.cursor + 5
            && (forall k: nat :: t.cursor <= k < t.cursor + 5 ==> At(u, k) == 0x0720)
            && forall k: nat :: k < t.cursor || k >= t.cursor + 5 ==> At(u, k) == At(t, k)
  {
    hide At, Space, Step, OnScreen, Feed;
    var spaces: seq<Word> := [0x20, 0x20, 0x20, 0x20, 0x20];
    PutExtends(t, c);
    SpacesFeed(t, spaces, 5);
    TextLands(t, spaces);
    assert Put(t, c) == Feed(t, spaces);
    forall k: nat | t.cursor <= k < t.cursor + 5
      ensures At(Put(t, c), k) == 0x0720
    {
      assert At(Feed(t, spaces), t.cursor + (k - t.cursor)) == Attributed(spaces[k - t.cursor]) % TWO16;
    }
  }

  lemma SpacesFeed(t: Tape, spaces: seq<Word>, n: nat)
    requires spaces == [0x20, 0x20, 0x20, 0x20, 0x20] && n == 5
    ensures Feed(t, spaces) == Space(Space(Space(Space(Space(t)))))
  {
    hide Step, Put;
    var t1 := Space(t);
    var t2 := Space(t1);
    var t3 := Space(t2);
    var t4 := Space(t3);
    SpaceIsStep(t);
    SpaceIsStep(t1);
    SpaceIsStep(t2);
    SpaceIsStep(t3);
    SpaceIsStep(t4);
    assert spaces[..4][..3] == spaces[..3] && spaces[..3][..2] == spaces[..2] && spaces[..2][..1] == spaces[..1];
    assert spaces[..1][..0] == [];
    assert Feed(t, spaces[..1]) == t1;
    assert Feed(t, spaces[..2]) == t2;
    assert Feed(t, spaces[..3]) == t3;
    assert Feed(t, spaces[..4]) == t4;
  }

  // A carriage return goes to the first of the 80 columns of its row, a newline to that of the next.
  lemma ReturnMoves(t: Tape, c: Word)
    requires OnScreen(t) && (c % 0x100 == 13 || c % 0x100 == 10)
    ensures var u := Put(t, c);
            && Extends(t, u) && u.cells == t.cells
            && u.cursor == t.cursor - t.cursor % 80 + (if c % 0x100 == 10 then 80 else 0)
  {
    PutExtends(t, c);
    FollowKeeps(t, t.(cursor := (t.cursor / CRT_COLS + 1) * CRT_COLS));
    hide Follow;
  }

  // A character of text writes itself, white on black unless it carries an attribute of its own.
  lemma GlyphWrites(t: Tape, c: Word)
    requires OnScreen(t) && c % 0x100 !in {8, 9, 10, 13}
    ensures var u := Put(t, c);
            && u.cursor == t.cursor + 1
            && At(u, t.cursor) == if c < 0x100 then 0x0700 + c else c % 0x1_0000
  {
    GlyphLands(t, c);
    hide Put, At;
  }

  // A backspace writes a space with its own attribute over the cell before the cursor.
  lemma BackspaceWrites(t: Tape, c: Word)
    requires OnScreen(t) && c % 0x100 == 8 && t.cursor > FirstCell(t)
    ensures var u := Put(t, c);
            && Extends(t, u) && u.cursor == t.cursor - 1
            && At(u, u.cursor) == (if c < 0x100 then 0x0720 else (c + 0x18) % 0x1_0000)
            && forall k: nat :: k != u.cursor ==> At(u, k) == At(t, k)
  {
    PutExtends(t, c);
    hide Follow, Window;
    assert Put(t, c) == Step(t, c);
  }

  // A backspace blanks the cell before the cursor, unless that has scrolled away.
  lemma BackspaceLands(t: Tape)
    requires OnScreen(t)
    ensures var u := Put(t, 8);
            if t.cursor == FirstCell(t) then u == t
            else
              && Extends(t, u) && u.top == t.top && u.cursor == t.cursor - 1
              && At(u, u.cursor) == BLANK
              && forall k: nat :: k != u.cursor ==> At(u, k) == At(t, k)
  {
    hide Follow, Window;
    assert Put(t, 8) == Step(t, 8);
  }

  // A glyph and then a backspace, even across a scroll, blank one cell and change nothing else.
  lemma BackspaceErases(t: Tape, c: Word)
    requires OnScreen(t) && IsGlyph(c)
    ensures var u := Put(Put(t, c), 8);
            && OnScreen(u) && u.cursor == t.cursor && At(u, t.cursor) == BLANK
            && forall k: nat :: k != t.cursor ==> At(u, k) == At(t, k)
  {
    GlyphLands(t, c);
    BackspaceLands(Put(t, c));
  }
}
