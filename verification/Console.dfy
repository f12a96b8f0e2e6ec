/** The console of src/console.c: the keyboard ring buffer and the text cursor. */
module Console {
  import opened Bits
  import opened Words
  import opened Screen

  const CONSOLE_BUFFER_SIZE: int := 512

  type schar = x: int | -128 <= x < 128

  /** Storing a key code in a signed char. */
  function SignedChar(k: byte): schar {
    if k < 128 then k else k - 256
  }

  // ----- the input ring

  /** The stored characters of a ring read at `r` and written at `w`, oldest first. */
  function Pending(buf: seq<schar>, r: nat, w: nat): (q: seq<schar>)
    requires |buf| == CONSOLE_BUFFER_SIZE && r < |buf| && w < |buf|
    ensures |q| < CONSOLE_BUFFER_SIZE
  {
    if r <= w then buf[r..w] else buf[r..] + buf[..w]
  }

  function Advance(pos: nat): (r: nat) {
    if pos + 1 == CONSOLE_BUFFER_SIZE then 0 else pos + 1
  }

  /** What survives of the characters `p` put into an empty ring: each time the ring fills up
      the write position meets the read position and everything stored is forgotten. */
  function Kept(p: seq<schar>): (q: seq<schar>)
    ensures |q| == |p| % CONSOLE_BUFFER_SIZE
  {
    p[|p| - |p| % CONSOLE_BUFFER_SIZE..]
  }

  /** The characters of a poll: codes up to the keyboard's -1, without the zero codes. */
  function Arrived(keys: seq<byte>): (q: seq<schar>) {
    if keys == [] then []
    else Arrived(keys[..|keys| - 1]) + if keys[|keys| - 1] == 0 then [] else [SignedChar(keys[|keys| - 1])]
  }

  /** Every code but 0 arrives, in order, codes from 128 on as negative characters. */
  lemma {:induction false} ArrivedInOrder(a: seq<byte>, b: seq<byte>, k: byte)
    ensures Arrived(a + b) == Arrived(a) + Arrived(b) && Arrived([]) == [] == Arrived([0])
    ensures k != 0 ==> Arrived([k]) == [if k < 128 then k else k - 256]
    decreases |b|
  {
    assert [k][..0] == [0][..0] == [];
    if b == [] {
      assert a + b == a && Arrived(a) + [] == Arrived(a);
    } else {
      var n := |b| - 1;
      ArrivedInOrder(a, b[..n], k);
      assert (a + b)[..|a + b| - 1] == a + b[..n];
    }
  }

  lemma PushKeeps(buf: seq<schar>, r: nat, w: nat, p: seq<schar>, x: schar)
    requires |buf| == CONSOLE_BUFFER_SIZE && r < |buf| && w < |buf|
    requires Pending(buf, r, w) == Kept(p)
    ensures Pending(buf[w := x], r, Advance(w)) == Kept(p + [x])
  {
    var q, after := Pending(buf, r, w), Pending(buf[w := x], r, Advance(w));
    if |q| == CONSOLE_BUFFER_SIZE - 1 {
      assert after == [] && |p + [x]| % CONSOLE_BUFFER_SIZE == 0;
    } else {
      assert after == q + [x];
      assert Kept(p + [x]) == q + [x];
    }
  }

  /** One key code of a poll. */
  lemma PollStep(buf: seq<schar>, r: nat, w: nat, q: seq<schar>, keys: seq<byte>, i: nat)
    requires |buf| == CONSOLE_BUFFER_SIZE && r < |buf| && w < |buf| && i < |keys|
    requires Pending(buf, r, w) == Kept(q + Arrived(keys[..i]))
    ensures keys[i] == 0 ==> Pending(buf, r, w) == Kept(q + Arrived(keys[..i + 1]))
    ensures keys[i] != 0 ==> Pending(buf[w := SignedChar(keys[i])], r, Advance(w)) == Kept(q + Arrived(keys[..i + 1]))
  {
    hide Pending, Kept;
    var p := q + Arrived(keys[..i]);
    assert keys[..i + 1][..i] == keys[..i];
    if keys[i] != 0 {
      assert q + Arrived(keys[..i + 1]) == p + [SignedChar(keys[i])];
      PushKeeps(buf, r, w, p, SignedChar(keys[i]));
    } else {
      assert q + Arrived(keys[..i + 1]) == p;
    }
  }

  lemma EmptyPoll(buf: seq<schar>, r: nat, w: nat, keys: seq<byte>)
    requires |buf| == CONSOLE_BUFFER_SIZE && r < |buf| && w < |buf|
    ensures Pending(buf, r, w) == Kept(Pending(buf, r, w) + Arrived(keys[..0]))
  {
    assert Pending(buf, r, w) + [] == Pending(buf, r, w);
  }

  lemma PopTakesOldest(buf: seq<schar>, r: nat, w: nat)
    requires |buf| == CONSOLE_BUFFER_SIZE && r < |buf| && w < |buf|
    ensures Pending(buf, r, w) == [] <==> r == w
    ensures r != w ==> Pending(buf, r, w) == [buf[r]] + Pending(buf, Advance(r), w)
  {}

  // ----- runs of reads

  /** What GetChar returns, and what it leaves, when `keys` arrive while `q` is pending. */
  function Read(q: seq<schar>, keys: seq<byte>): (r: (schar, seq<schar>)) {
    var all := Kept(q + Arrived(keys));
    if all == [] then (0, []) else (all[0], all[1..])
  }

  /** The characters returned by successive reads, without the zeros of empty reads. */
  function Returned(q: seq<schar>, polls: seq<seq<byte>>): seq<schar>
    decreases |polls|
  {
    if polls == [] then [] else Taken(q, polls[0]) + Returned(Read(q, polls[0]).1, polls[1..])
  }

  function LeftOver(q: seq<schar>, polls: seq<seq<byte>>): seq<schar>
    decreases |polls|
  {
    if polls == [] then q else LeftOver(Read(q, polls[0]).1, polls[1..])
  }

  function AllArrived(polls: seq<seq<byte>>): seq<schar> {
    if polls == [] then [] else Arrived(polls[0]) + AllArrived(polls[1..])
  }

  /** No poll ever finds more than 511 characters outstanding. */
  predicate NeverFull(q: seq<schar>, polls: seq<seq<byte>>)
    decreases |polls|
  {
    polls == [] ||
    (|q + Arrived(polls[0])| < CONSOLE_BUFFER_SIZE && NeverFull(Read(q, polls[0]).1, polls[1..]))
  }

  /** The character a read returns, if it returns one. */
  function Taken(q: seq<schar>, keys: seq<byte>): seq<schar> {
    if Kept(q + Arrived(keys)) == [] then [] else [Read(q, keys).0]
  }

  lemma KeptSize(p: seq<schar>)
    ensures |p| < CONSOLE_BUFFER_SIZE ==> Kept(p) == p
    ensures |p| >= CONSOLE_BUFFER_SIZE ==> |Kept(p)| < |p|
  {
    if |p| < CONSOLE_BUFFER_SIZE {
      assert |p| % CONSOLE_BUFFER_SIZE == |p|;
    }
  }

  lemma ReadSplits(q: seq<schar>, keys: seq<byte>)
    ensures Taken(q, keys) + Read(q, keys).1 == Kept(q + Arrived(keys))
    ensures |q + Arrived(keys)| < CONSOLE_BUFFER_SIZE ==> Kept(q + Arrived(keys)) == q + Arrived(keys)
    ensures |q + Arrived(keys)| >= CONSOLE_BUFFER_SIZE ==> |Kept(q + Arrived(keys))| < |q| + |Arrived(keys)|
  {
    hide Kept, Arrived;
    KeptSize(q + Arrived(keys));
  }

  lemma {:induction false} NothingGained(q: seq<schar>, polls: seq<seq<byte>>)
    ensures |Returned(q, polls)| + |LeftOver(q, polls)| <= |q| + |AllArrived(polls)|
    ensures !NeverFull(q, polls) ==> |Returned(q, polls)| + |LeftOver(q, polls)| < |q| + |AllArrived(polls)|
    decreases |polls|
  {
    hide Read, Kept, Arrived, Taken;
    if polls != [] {
      ReadSplits(q, polls[0]);
      assert |Taken(q, polls[0])| + |Read(q, polls[0]).1| == |Kept(q + Arrived(polls[0]))|;
      NothingGained(Read(q, polls[0]).1, polls[1..]);
    }
  }

  lemma {:induction false} NothingLost(q: seq<schar>, polls: seq<seq<byte>>)
    requires NeverFull(q, polls)
    ensures Returned(q, polls) + LeftOver(q, polls) == q + AllArrived(polls)
    decreases |polls|
  {
    hide Read, Kept, Arrived, Taken;
    if polls == [] {
      assert AllArrived(polls) == [] && q + [] == q && [] + q == q;
    } else {
      var taken, rest := Taken(q, polls[0]), Read(q, polls[0]).1;
      ReadSplits(q, polls[0]);
      NothingLost(rest, polls[1..]);
      calc {
        Returned(q, polls) + LeftOver(q, polls);
        taken + (Returned(rest, polls[1..]) + LeftOver(rest, polls[1..]));
        taken + (rest + AllArrived(polls[1..]));
        (taken + rest) + AllArrived(polls[1..]);
        q + Arrived(polls[0]) + AllArrived(polls[1..]);
        q + AllArrived(polls);
      }
    }
  }

  /** Every typed character is read, once and in order, if and only if no poll overflows. */
  lemma FifoIff(q: seq<schar>, polls: seq<seq<byte>>)
    ensures Returned(q, polls) + LeftOver(q, polls) == q + AllArrived(polls) <==> NeverFull(q, polls)
  {
    if NeverFull(q, polls) {
      NothingLost(q, polls);
    } else {
      NothingGained(q, polls);
      assert |Returned(q, polls) + LeftOver(q, polls)| < |q + AllArrived(polls)|;
    }
  }

  class InputBuffer {
    const buf: array<schar>
    var readPos: nat
    var writePos: nat

    ghost predicate Valid()
      reads this
    {
      buf.Length == CONSOLE_BUFFER_SIZE && readPos < CONSOLE_BUFFER_SIZE && writePos < CONSOLE_BUFFER_SIZE
    }

    ghost function Contents(): (q: seq<schar>)
      reads this, buf
      requires Valid()
    {
      Pending(buf[..], readPos, writePos)
    }

    constructor ()
      ensures Valid() && fresh(buf) && Contents() == []
    {
      buf := new schar[CONSOLE_BUFFER_SIZE](_ => 0);
      readPos, writePos := 0, 0;
    }

    /** GetChar; `keys` are the codes the keyboard yields before it reports -1. */
    method GetChar(keys: seq<byte>) returns (ch: schar)
      requires Valid()
      modifies this, buf
      ensures Valid()
      ensures (ch, Contents()) == Read(old(Contents()), keys)
    {
      hide Pending, Kept, Arrived;
      ghost var q := Contents();
      EmptyPoll(buf[..], readPos, writePos, keys);
      var i := 0;
      while i < |keys|
        invariant 0 <= i <= |keys| && Valid()
        invariant Contents() == Kept(q + Arrived(keys[..i]))
      {
        PollStep(buf[..], readPos, writePos, q, keys, i);
        if keys[i] != 0 {
          buf[writePos] := SignedChar(keys[i]);
          writePos := writePos + 1;
          if writePos == CONSOLE_BUFFER_SIZE {
            writePos := 0;
          }
        }
        i := i + 1;
      }
      assert keys[..i] == keys;
      PopTakesOldest(buf[..], readPos, writePos);
      if readPos != writePos {
        ch := buf[readPos];
        readPos := readPos + 1;
        if readPos == CONSOLE_BUFFER_SIZE {
          readPos := 0;
        }
        return;
      }
      return 0;
    }
  }

  // ----- the text cursor

  /** The next cell on an endless roll of 80-column lines: a newline goes to the next line's
      start, a backspace back one cell within the line. */
  function NextCell(cell: nat, c: byte): nat {
    if c == NEWLINE then cell - cell % CHAR_COLS + CHAR_COLS
    else if c == BACKSPACE then (if cell % CHAR_COLS == 0 then cell else cell - 1)
    else cell + 1
  }

  function EndCell(cell: nat, text: seq<byte>): nat {
    if text == [] then cell else NextCell(EndCell(cell, text[..|text| - 1]), text[|text| - 1])
  }

  /** The roll after one character at `cell`: a newline draws nothing, a backspace clears the cell
      it goes back to, any other character is put where it stands. */
  function Put(roll: map<nat, Glyph>, cell: nat, c: byte, color: nat): map<nat, Glyph> {
    if c == NEWLINE then roll
    else if c == BACKSPACE then Draw(roll, NextCell(cell, c), c, color)
    else Draw(roll, cell, c, color)
  }

  function PutAll(roll: map<nat, Glyph>, cell: nat, text: seq<byte>, color: nat): map<nat, Glyph> {
    if text == [] then roll
    else
      var t := text[..|text| - 1];
      Put(PutAll(roll, cell, t, color), EndCell(cell, t), text[|text| - 1], color)
  }

  /** Plain text stands on the roll as it was written. */
  lemma {:induction false} PlainText(roll: map<nat, Glyph>, cell: nat, text: seq<byte>, color: nat, k: nat)
    requires forall i :: 0 <= i < |text| ==> text[i] < 128 && text[i] != NEWLINE && text[i] != BACKSPACE
    requires k < |text|
    ensures EndCell(cell, text) == cell + |text|
    ensures cell + k in PutAll(roll, cell, text, color)
            && PutAll(roll, cell, text, color)[cell + k] == Glyph(text[k], color)
  {
    var t := text[..|text| - 1];
    PlainEnd(cell, t);
    PlainEnd(cell, text);
    if k < |t| {
      PlainText(roll, cell, t, color, k);
    }
  }

  lemma {:induction false} PlainEnd(cell: nat, text: seq<byte>)
    requires forall i :: 0 <= i < |text| ==> text[i] != NEWLINE && text[i] != BACKSPACE
    ensures EndCell(cell, text) == cell + |text|
  {
    if text != [] {
      PlainEnd(cell, text[..|text| - 1]);
    }
  }

  /** And a screen that shows it has each character's ink in the text's colour, on the clear
      colour, if the character's line is among the 60 from line `top` on. */
  lemma PlainTextPixels(buf: seq<byte>, roll: map<nat, Glyph>, cell: nat, text: seq<byte>, color: nat, k: nat,
                        top: nat, font: Font, clear: nat, line: nat, b: nat)
    requires forall i :: 0 <= i < |text| ==> text[i] < 128 && text[i] != NEWLINE && text[i] != BACKSPACE
    requires Shows(buf, PutAll(roll, cell, text, color), top, font, clear) && k < |text| && line < 8 && b < 8
    requires 80 * top <= cell + k < 80 * (top + 60)
    ensures |buf| == 153600 && IsFont(font)
    ensures var at := cell + k - 80 * top;
            var place := (at / 80 * 8 + line) * 80 + at % 80;
            && place < 38400
            && PixelColor(buf, place, b)
               == if Bit(font.mirror[font.glyphs[text[k] * 8 + line]], b) == 1 then color % 16 else clear % 16
  {
    hide PutAll, Bit, PixelColor;
    PlainText(roll, cell, text, color, k);
    var at := cell + k - 80 * top;
    assert 80 * (top + at / 80) + at % 80 == cell + k;
    ShownPixels(buf, PutAll(roll, cell, text, color), top, font, clear, at / 80, at % 80, line, b);
  }

  /** How often the screen has scrolled when the cursor is at `cell`: as little as it must. */
  function ScrollsFor(cell: nat): (n: nat) {
    if cell / CHAR_COLS < CHAR_ROWS then 0 else cell / CHAR_COLS - (CHAR_ROWS - 1)
  }

  /** That is, the least number of lines that leaves the cursor's line among the 60 shown. */
  lemma ScrollsLeast(cell: nat, n: nat)
    ensures cell / 80 < ScrollsFor(cell) + 60
    ensures cell / 80 < n + 60 ==> ScrollsFor(cell) <= n
  {}

  /** A newline goes to the first cell of the next line. A backspace takes back the character
      before it, cell and roll, if and only if that was not put in the last column. */
  lemma NewlineAndBackspace(roll: map<nat, Glyph>, cell: nat, c: byte, color: nat)
    requires Behind(roll, cell) && c != 8 && c != 10
    ensures NextCell(cell, 10) % 80 == 0 && cell < NextCell(cell, 10) <= cell + 80
    ensures NextCell(NextCell(cell, c), 8) == cell
              && Put(Put(roll, cell, c, color), NextCell(cell, c), 8, color) == roll
            <==> cell % 80 != 79
  {
    assert cell == 80 * (cell / 80) + cell % 80;
    assert (cell + 1) % 80 == 0 <==> cell % 80 == 79;
    if c < 128 {
      assert roll[cell := Glyph(c, color)] - {cell} == roll;
    } else {
      assert roll - {cell} == roll;
    }
  }

  lemma ScrollsOnce(cell: nat, c: byte)
    ensures ScrollsFor(cell) <= ScrollsFor(NextCell(cell, c)) <= ScrollsFor(cell) + 1
    ensures NextCell(cell, c) / CHAR_COLS == cell / CHAR_COLS + if LeavesLine(cell, c) then 1 else 0
    ensures LeavesLine(cell, c) ==> NextCell(cell, c) % CHAR_COLS == 0
  {
    assert cell == CHAR_COLS * (cell / CHAR_COLS) + cell % CHAR_COLS;
  }

  predicate LeavesLine(cell: nat, c: byte) {
    c == NEWLINE || (c != BACKSPACE && cell % CHAR_COLS == CHAR_COLS - 1)
  }

  /** The cells before the cursor are the only ones drawn on. */
  ghost predicate Behind(roll: map<nat, Glyph>, cell: nat) { forall k :: k in roll ==> k < cell }

  lemma PutStaysBehind(roll: map<nat, Glyph>, cell: nat, c: byte, color: nat)
    requires Behind(roll, cell)
    ensures Behind(Put(roll, cell, c, color), NextCell(cell, c))
  {}

  class Cursor {
    const screen: ScreenBuffer
    const font: Font
    var row: int
    var col: int
    ghost var scrolls: nat
    ghost var roll: map<nat, Glyph>

    constructor (screen: ScreenBuffer, font: Font)
      requires screen.Valid() && IsFont(font) && Blank(screen.screenBuf[..], screen.lastClearColor)
      ensures Valid() && this.screen == screen && this.font == font && Cell() == 0 && roll == map[]
    {
      this.screen, this.font := screen, font;
      row, col := 0, 0;
      scrolls, roll := 0, map[];
      new;
      BlankShows(screen.screenBuf[..], font, screen.lastClearColor);
    }

    ghost predicate OnScreen()
      reads this
    {
      screen.Valid() && IsFont(font) && 0 <= row < CHAR_ROWS && 0 <= col < CHAR_COLS
    }

    /** The screen shows the last 60 lines of the roll up to the cursor's line, and the cells from
        the cursor on are empty. */
    ghost predicate Valid()
      reads this, screen, screen.screenBuf
    {
      && OnScreen()
      && scrolls == ScrollsFor(Cell()) && Behind(roll, Cell())
      && Shows(screen.screenBuf[..], roll, scrolls, font, screen.lastClearColor)
    }

    /** The cursor's cell on the roll of lines. */
    ghost function Cell(): (cell: nat)
      reads this
      requires OnScreen()
    {
      CHAR_COLS * (scrolls + row) + col
    }

    /** The screen was scrolled by `n` text rows. */
    twostate predicate ScreenMoved(n: int)
      reads this, screen, screen.screenBuf
    {
      && (n == 0 ==> screen.screenBuf[..] == old(screen.screenBuf[..]))
      && (n == 1 ==> Scrolled(old(screen.screenBuf[..]), screen.screenBuf[..], CHAR_SIZE, screen.lastClearColor))
    }

    method MoveCursor(dRow: int, dCol: int)
      requires screen.Valid() && IsFont(font) && 0 <= row < CHAR_ROWS && 0 <= col
      modifies this`row, this`col, this`scrolls, screen.screenBuf
      ensures OnScreen()
      ensures col == if old(col) + dCol < 0 || old(col) + dCol >= CHAR_COLS then 0 else old(col) + dCol
      ensures var to := old(row) + dRow;
              var r := if to < 0 then 0 else if to >= CHAR_ROWS then CHAR_ROWS - 1 else to;
              var wraps := old(col) + dCol >= CHAR_COLS;
              && row == (if wraps && r + 1 < CHAR_ROWS then r + 1 else r)
              && scrolls == old(scrolls) + (if to >= CHAR_ROWS then 1 else 0)
                            + (if wraps && r + 1 == CHAR_ROWS then 1 else 0)
      ensures ScreenMoved(scrolls - old(scrolls))
      decreases if col + dCol >= CHAR_COLS then 1 else 0
    {
      hide Scrolled;
      row := row + dRow;
      if row < 0 {
        row := 0;
      }
      if row >= CHAR_ROWS {
        row := CHAR_ROWS - 1;
        screen.ScrollScreen(CHAR_SIZE);
        scrolls := scrolls + 1;
      }
      col := col + dCol;
      if col < 0 {
        col := 0;
      }
      if col >= CHAR_COLS {
        MoveCursor(1, -col);
      }
    }

    /** MoveCursor as PutChar uses it: by at most one line, which is then still empty; the screen
        shows the same roll, from one line further on if it had to scroll. */
    method Follow(dRow: int, dCol: int, ghost c: byte, ghost cell: nat)
      requires OnScreen() && Cell() == cell && scrolls == ScrollsFor(cell) && Behind(roll, cell + 1)
      requires Shows(screen.screenBuf[..], roll, scrolls, font, screen.lastClearColor)
      requires (c == NEWLINE && dRow == 1 && dCol == -col) || (c == BACKSPACE && dRow == 0 && dCol == -1)
               || (c != NEWLINE && c != BACKSPACE && dRow == 0 && dCol == 1)
      modifies this`row, this`col, this`scrolls, screen.screenBuf
      ensures OnScreen() && Cell() == NextCell(cell, c) && scrolls == ScrollsFor(Cell())
      ensures Shows(screen.screenBuf[..], roll, scrolls, font, screen.lastClearColor)
    {
      hide Scrolled, Shows;
      assert cell / CHAR_COLS == scrolls + row && cell % CHAR_COLS == col;
      ScrollsOnce(cell, c);
      ghost var buf, top := screen.screenBuf[..], scrolls;
      MoveCursor(dRow, dCol);
      assert Cell() == NextCell(cell, c) && scrolls == ScrollsFor(Cell());
      if scrolls == top + 1 {
        assert row == CHAR_ROWS - 1 && col == 0;
        ScrollShows(buf, screen.screenBuf[..], roll, top, font, screen.lastClearColor);
      }
    }

    /** PutChar puts one character on the roll, and the screen keeps showing its last lines. */
    method PutChar(c: byte, color: nat)
      requires Valid()
      modifies this`row, this`col, this`scrolls, this`roll, screen.screenBuf
      ensures Valid() && Cell() == NextCell(old(Cell()), c) && roll == Put(old(roll), old(Cell()), c, color)
    {
      hide Shows, DrawnAt;
      ghost var cell := Cell();
      PutStaysBehind(roll, cell, c, color);
      if c == NEWLINE {
        Follow(1, -col, c, cell);
      } else if c == BACKSPACE {
        Follow(0, -1, c, cell);
        DrawOnRoll(c, color);
      } else {
        DrawOnRoll(c, color);
        Follow(0, 1, c, cell);
      }
    }

    /** DrawCharAt at the cursor. */
    method DrawOnRoll(c: byte, color: nat)
      requires OnScreen() && Shows(screen.screenBuf[..], roll, scrolls, font, screen.lastClearColor)
      requires c != NEWLINE && (c != BACKSPACE ==> Cell() !in roll)
      modifies this`roll, screen.screenBuf
      ensures roll == Draw(old(roll), Cell(), c, color)
      ensures Shows(screen.screenBuf[..], roll, scrolls, font, screen.lastClearColor)
    {
      hide Shows, DrawnAt;
      ghost var buf := screen.screenBuf[..];
      screen.DrawCharAt(c, row, col, font, color);
      DrawShows(buf, screen.screenBuf[..], roll, scrolls, font, screen.lastClearColor, c, row, col, color);
      roll := Draw(roll, CHAR_COLS * (scrolls + row) + col, c, color);
    }

    /** PutStr lays the text out on the roll, and the screen buffer shows the roll's last 60 lines. */
    method PutStr(text: seq<byte>, color: nat)
      requires Valid()
      modifies this`row, this`col, this`scrolls, this`roll, screen.screenBuf
      ensures Valid() && Cell() == EndCell(old(Cell()), text) && roll == PutAll(old(roll), old(Cell()), text, color)
      ensures Shows(screen.screenBuf[..], roll, ScrollsFor(Cell()), font, screen.lastClearColor)
    {
      hide Shows;
      var i := 0;
      while i < |text|
        invariant 0 <= i <= |text| && Valid()
        invariant Cell() == EndCell(old(Cell()), text[..i])
        invariant roll == PutAll(old(roll), old(Cell()), text[..i], color)
      {
        assert text[..i + 1][..i] == text[..i];
        PutChar(text[i], color);
        i := i + 1;
      }
      assert text[..i] == text;
    }

    /** ResetCursor; after ClearScreen the screen shows an empty roll. */
    method ResetCursor()
      requires screen.Valid() && IsFont(font)
      modifies this
      ensures row == col == 0
      ensures Blank(screen.screenBuf[..], screen.lastClearColor) ==> Valid() && Cell() == 0 && roll == map[]
    {
      row, col := 0, 0;
      scrolls, roll := 0, map[];
      if Blank(screen.screenBuf[..], screen.lastClearColor) {
        BlankShows(screen.screenBuf[..], font, screen.lastClearColor);
      }
    }
  }
}
