/** The text screen: 80 columns and 25 rows of character and colour bytes, as a window onto a
    terminal that never scrolls. */
module Terminal {
  import opened Bytes

  const WIDTH: nat := 80
  const HEIGHT: nat := 25
  const DEFAULT_COLOR: byte := 7
  const NEWLINE: byte := 0x0A
  const TAB: byte := 0x09
  const RETURN: byte := 0x0D
  const SPACE: byte := 0x20

  // ----- the endless terminal

  /** Characters by row and column, and the cursor; rows are never given up. */
  datatype Paper = Paper(cells: map<(nat, nat), byte>, x: nat, row: nat)

  const FRESH: Paper := Paper(map[], 0, 0)

  predicate PaperOk(p: Paper) {
    p.x < WIDTH
  }

  function CellAt(p: Paper, row: nat, x: nat): byte {
    if (row, x) in p.cells then p.cells[(row, x)] else 0
  }

  /** The cursor after a character in column x: at the end of a line it wraps. */
  function Right(p: Paper): Paper {
    if p.x + 1 >= WIDTH then p.(x := 0, row := p.row + 1) else p.(x := p.x + 1)
  }

  function Put(p: Paper, c: byte): Paper {
    Right(p.(cells := p.cells[(p.row, p.x) := c]))
  }

  function PutSpaces(p: Paper, n: nat): Paper
    decreases n
  {
    if n == 0 then p else PutSpaces(Put(p, SPACE), n - 1)
  }

  /** How many spaces a tab writes. Its loop looks at the column again after every space, so it
      never gets to the next multiple of four, or runs past it. */
  function TabSpaces(x: nat): nat {
    if x % 4 < 2 then 2 else if x % 4 == 2 then 1 else 3
  }

  function Write(p: Paper, c: byte): Paper {
    if c == NEWLINE then p.(x := 0, row := p.row + 1)
    else if c == TAB then PutSpaces(p, TabSpaces(p.x))
    else if c == RETURN then p.(x := 0)
    else Put(p, c)
  }

  function WriteAll(p: Paper, s: seq<byte>): Paper
    decreases |s|
  {
    if s == [] then p else WriteAll(Write(p, s[0]), s[1..])
  }

  // ----- facts about it

  lemma {:induction false} SpacesKeep(p: Paper, n: nat)
    requires PaperOk(p)
    ensures PaperOk(PutSpaces(p, n)) && p.row <= PutSpaces(p, n).row
    ensures forall r: nat, x: nat | r < p.row :: CellAt(PutSpaces(p, n), r, x) == CellAt(p, r, x)
    decreases n
  {
    if n > 0 { SpacesKeep(Put(p, SPACE), n - 1); }
  }

  /** The cursor stays in its 80 columns and never goes up; rows above it are final. */
  lemma WriteKeeps(p: Paper, c: byte)
    requires PaperOk(p)
    ensures PaperOk(Write(p, c)) && p.row <= Write(p, c).row
    ensures forall r: nat, x: nat | r < p.row :: CellAt(Write(p, c), r, x) == CellAt(p, r, x)
  {
    if c == TAB { SpacesKeep(p, TabSpaces(p.x)); }
  }

  lemma {:induction false} RowsAboveAreFinal(p: Paper, s: seq<byte>)
    requires PaperOk(p)
    ensures PaperOk(WriteAll(p, s)) && p.row <= WriteAll(p, s).row
    ensures forall r: nat, x: nat | r < p.row :: CellAt(WriteAll(p, s), r, x) == CellAt(p, r, x)
    decreases |s|
  {
    if s != [] {
      WriteKeeps(p, s[0]);
      RowsAboveAreFinal(Write(p, s[0]), s[1..]);
    }
  }

  predicate Visible(c: byte) {
    c != NEWLINE && c != TAB && c != RETURN
  }

  /** The cell that the k-th character from the top left corner goes to. */
  function Nth(p: Paper, k: nat): byte {
    CellAt(p, k / WIDTH, k % WIDTH)
  }

  function Position(p: Paper): nat {
    p.row * WIDTH + p.x
  }

  lemma PutFillsCell(p: Paper, c: byte)
    requires PaperOk(p)
    ensures PaperOk(Put(p, c)) && Position(Put(p, c)) == Position(p) + 1 && Nth(Put(p, c), Position(p)) == c
    ensures forall k | 0 <= k < Position(p) :: Nth(Put(p, c), k) == Nth(p, k)
  {
    var o := Position(p);
    assert o / WIDTH == p.row && o % WIDTH == p.x;
  }

  /** Text without control characters fills the lines one after the other. */
  lemma {:induction false} TextFillsLines(p: Paper, s: seq<byte>)
    requires PaperOk(p) && forall i | 0 <= i < |s| :: Visible(s[i])
    ensures var q, o := WriteAll(p, s), Position(p);
            && PaperOk(q) && Position(q) == o + |s|
            && (forall k | o <= k < o + |s| :: Nth(q, k) == s[k - o])
            && (forall k | 0 <= k < o :: Nth(q, k) == Nth(p, k))
    decreases |s|
  {
    if s != [] {
      PutFillsCell(p, s[0]);
      var p1, q, o := Put(p, s[0]), WriteAll(p, s), Position(p);
      assert q == WriteAll(p1, s[1..]);
      hide Put, Nth, Position, WriteAll, PaperOk;
      TextFillsLines(p1, s[1..]);
      forall k | o <= k < o + |s| ensures Nth(q, k) == s[k - o] {
        if k > o { assert s[1..][k - o - 1] == s[k - o]; }
      }
    }
  }

  /** After m spaces from column x the tab goes on. */
  predicate GoesOn(x: nat, m: nat) {
    m < 4 - (x + m) % 4
  }

  /** A tab writes the first number of spaces that is not below the distance to the next multiple of
      four from the column then reached; so it never ends on such a multiple, unless it wrapped. */
  lemma TabStops(x: nat)
    requires x < WIDTH
    ensures !GoesOn(x, TabSpaces(x)) && forall m | 0 <= m < TabSpaces(x) :: GoesOn(x, m)
    ensures (x + TabSpaces(x)) % 4 != 0 && 1 <= TabSpaces(x) <= 3
  {
    assert GoesOn(x, 0) && (TabSpaces(x) > 1 ==> GoesOn(x, 1)) && (TabSpaces(x) > 2 ==> GoesOn(x, 2));
  }

  // ----- lines

  lemma {:induction false} WriteAllMore(p: Paper, s: seq<byte>, t: seq<byte>)
    ensures WriteAll(p, s + t) == WriteAll(WriteAll(p, s), t)
    decreases |s|
  {
    if s == [] {
      assert s + t == t;
    } else {
      assert (s + t)[1..] == s[1..] + t;
      WriteAllMore(Write(p, s[0]), s[1..], t);
    }
  }

  /** Text that fits the rest of its row. */
  predicate FitsRow(p: Paper, s: seq<byte>) {
    p.x + |s| < WIDTH && forall i | 0 <= i < |s| :: Visible(s[i])
  }

  /** A row after text has been written into it from the cursor on. */
  function CellAfter(p: Paper, s: seq<byte>, row: nat, x: nat): byte {
    if row == p.row && p.x <= x < p.x + |s| then s[x - p.x] else CellAt(p, row, x)
  }

  lemma {:induction false} TextInRow(p: Paper, s: seq<byte>, row: nat, x: nat)
    requires FitsRow(p, s)
    ensures var q := WriteAll(p, s);
            q.row == p.row && q.x == p.x + |s| && CellAt(q, row, x) == CellAfter(p, s, row, x)
    decreases |s|
  {
    if s != [] { TextInRow(Put(p, s[0]), s[1..], row, x); }
  }

  /** Lines, each with its newline. */
  function LinesText(lines: seq<seq<byte>>): seq<byte> {
    if lines == [] then [] else lines[0] + ([NEWLINE] + LinesText(lines[1..]))
  }

  predicate PlainLine(s: seq<byte>) {
    |s| < WIDTH && forall i | 0 <= i < |s| :: Visible(s[i])
  }

  /** The next row, after a line. */
  function AfterLine(p: Paper, s: seq<byte>): Paper {
    var q := WriteAll(p, s);
    q.(x := 0, row := q.row + 1)
  }

  lemma OneLine(p: Paper, s: seq<byte>, rest: seq<byte>)
    ensures WriteAll(p, s + ([NEWLINE] + rest)) == WriteAll(AfterLine(p, s), rest)
  {
    WriteAllMore(p, s, [NEWLINE] + rest);
    assert ([NEWLINE] + rest)[1..] == rest;
  }

  lemma {:induction false} LinesDown(p: Paper, lines: seq<seq<byte>>)
    requires p.x == 0 && forall k | 0 <= k < |lines| :: PlainLine(lines[k])
    ensures WriteAll(p, LinesText(lines)).row == p.row + |lines| && WriteAll(p, LinesText(lines)).x == 0
    decreases |lines|
  {
    if lines != [] {
      OneLine(p, lines[0], LinesText(lines[1..]));
      TextInRow(p, lines[0], 0, 0);
      LinesDown(AfterLine(p, lines[0]), lines[1..]);
    }
  }

  /** Each line lands on a row of its own, from the left, and leaves the rest of that row as it was. */
  lemma {:induction false} LinesLand(p: Paper, lines: seq<seq<byte>>, i: nat, x: nat)
    requires p.x == 0 && i < |lines| && forall k | 0 <= k < |lines| :: PlainLine(lines[k])
    ensures CellAt(WriteAll(p, LinesText(lines)), p.row + i, x)
            == if x < |lines[i]| then lines[i][x] else CellAt(p, p.row + i, x)
    decreases |lines|
  {
    hide CellAt;
    var r := AfterLine(p, lines[0]);
    OneLine(p, lines[0], LinesText(lines[1..]));
    TextInRow(p, lines[0], p.row + i, x);
    SameCells(p, lines[0], p.row + i, x);
    if i > 0 {
      LinesLand(r, lines[1..], i - 1, x);
    } else {
      RowAboveKept(r, LinesText(lines[1..]), p.row, x);
    }
  }

  lemma SameCells(p: Paper, s: seq<byte>, row: nat, x: nat)
    ensures CellAt(AfterLine(p, s), row, x) == CellAt(WriteAll(p, s), row, x)
  {
  }

  lemma RowAboveKept(r: Paper, s: seq<byte>, row: nat, x: nat)
    requires PaperOk(r) && row < r.row
    ensures CellAt(WriteAll(r, s), row, x) == CellAt(r, row, x)
  {
    RowsAboveAreFinal(r, s);
  }

  /** After a carriage return the row is written again from its first column. */
  lemma Overstrike(p: Paper, a: seq<byte>, b: seq<byte>, x: nat)
    requires FitsRow(p, a) && PlainLine(b)
    ensures var q := WriteAll(p, a + ([RETURN] + b));
            && q.row == p.row && q.x == |b|
            && CellAt(q, p.row, x)
               == if x < |b| then b[x] else if p.x <= x < p.x + |a| then a[x - p.x] else CellAt(p, p.row, x)
  {
    var r := WriteAll(p, a);
    BackToLeft(p, a, b);
    TextInRow(p, a, p.row, x);
    TextInRow(r.(x := 0), b, p.row, x);
    hide WriteAll;
  }

  lemma BackToLeft(p: Paper, a: seq<byte>, b: seq<byte>)
    ensures WriteAll(p, a + ([RETURN] + b)) == WriteAll(WriteAll(p, a).(x := 0), b)
  {
    WriteAllMore(p, a, [RETURN] + b);
    assert ([RETURN] + b)[1..] == b;
  }

  // ----- the window

  /** Offset of a cell's character in the screen buffer; its colour follows. */
  function Offset(row: nat, x: nat): nat {
    2 * (row * WIDTH + x)
  }

  const BYTES: nat := 4000

  function Char(b: seq<byte>, row: nat, x: nat): byte
    requires |b| == BYTES && row < HEIGHT && x < WIDTH
  {
    b[Offset(row, x)]
  }

  function Color(b: seq<byte>, row: nat, x: nat): byte
    requires |b| == BYTES && row < HEIGHT && x < WIDTH
  {
    b[Offset(row, x) + 1]
  }

  /** The buffer shows the rows from top on, in the default colour. */
  ghost predicate Shows(b: seq<byte>, p: Paper, top: nat) {
    && |b| == BYTES
    && forall row: nat, x: nat | row < HEIGHT && x < WIDTH ::
         Char(b, row, x) == CellAt(p, top + row, x) && Color(b, row, x) == DEFAULT_COLOR
  }

  /** Nothing has been written from a row on. */
  ghost predicate NothingFrom(p: Paper, from: nat) {
    forall row: nat, x: nat | row >= from :: CellAt(p, row, x) == 0
  }

  /** The screen of a paper on which the window has moved down top rows. */
  ghost predicate IsScreen(b: seq<byte>, x: nat, y: nat, p: Paper, top: nat) {
    && Shows(b, p, top) && PaperOk(p) && NothingFrom(p, p.row + 1)
    && x == p.x && y + top == p.row
  }

  /** The number of scrolls it takes to keep a row in sight. */
  function Top(row: nat): nat {
    if row < HEIGHT then 0 else row - HEIGHT + 1
  }

  function BlankByte(k: nat): byte {
    if k % 2 == 0 then 0 else DEFAULT_COLOR
  }

  /** A screen buffer moved up by some rows, with blank rows at the bottom. */
  ghost predicate Scrolled(b: seq<byte>, b': seq<byte>, lines: nat) {
    && |b| == |b'| == BYTES && lines <= HEIGHT
    && (forall k | 0 <= k < Offset(HEIGHT - lines, 0) :: b'[k] == b[k + Offset(lines, 0)])
    && (forall k | Offset(HEIGHT - lines, 0) <= k < BYTES :: b'[k] == BlankByte(k))
  }

  lemma ScrolledShows(b: seq<byte>, b': seq<byte>, p: Paper, top: nat)
    requires Shows(b, p, top) && Scrolled(b, b', 1) && NothingFrom(p, top + HEIGHT)
    ensures Shows(b', p, top + 1)
  {
    forall row: nat, x: nat | row < HEIGHT && x < WIDTH
      ensures Char(b', row, x) == CellAt(p, top + 1 + row, x) && Color(b', row, x) == DEFAULT_COLOR
    {
      ScrolledCell(b, b', row, x);
      if row + 1 < HEIGHT {
        assert Char(b, row + 1, x) == CellAt(p, top + (row + 1), x);
      } else {
        assert CellAt(p, top + HEIGHT, x) == 0;
      }
    }
  }

  lemma ScrolledCell(b: seq<byte>, b': seq<byte>, row: nat, x: nat)
    requires Scrolled(b, b', 1) && row < HEIGHT && x < WIDTH
    ensures row + 1 < HEIGHT ==> Char(b', row, x) == Char(b, row + 1, x) && Color(b', row, x) == Color(b, row + 1, x)
    ensures row + 1 == HEIGHT ==> Char(b', row, x) == 0 && Color(b', row, x) == DEFAULT_COLOR
  {
    if row + 1 < HEIGHT {
      assert Offset(row, x) + Offset(1, 0) == Offset(row + 1, x);
    }
  }

  /** What a character other than a tab leaves unwritten. */
  lemma WriteNothing(p: Paper, c: byte)
    requires PaperOk(p) && c != TAB && NothingFrom(p, p.row + 1)
    ensures var q := Write(p, c);
            && p.row <= q.row <= p.row + 1 && PaperOk(q) && NothingFrom(q, p.row + 1) && NothingFrom(q, q.row + 1)
  {
    var q := Write(p, c);
    forall row: nat, x: nat | row > p.row ensures CellAt(q, row, x) == 0 {
      assert CellAt(p, row, x) == 0;
    }
  }

  lemma MoveShows(b: seq<byte>, p: Paper, top: nat, c: byte)
    requires Shows(b, p, top) && (c == NEWLINE || c == RETURN)
    ensures Shows(b, Write(p, c), top)
  {
    assert forall row: nat, x: nat :: CellAt(Write(p, c), row, x) == CellAt(p, row, x);
  }

  lemma PutShows(b: seq<byte>, p: Paper, top: nat, y: nat, c: byte)
    requires Shows(b, p, top) && PaperOk(p) && p.row == top + y && y < HEIGHT
    ensures Shows(b[Offset(y, p.x) := c], Put(p, c), top)
  {
    var b', p' := b[Offset(y, p.x) := c], Put(p, c);
    forall row: nat, x: nat | row < HEIGHT && x < WIDTH
      ensures Char(b', row, x) == CellAt(p', top + row, x) && Color(b', row, x) == DEFAULT_COLOR
    {
      assert Offset(row, x) == Offset(y, p.x) <==> row == y && x == p.x;
      assert Color(b, row, x) == DEFAULT_COLOR && Char(b, row, x) == CellAt(p, top + row, x);
    }
  }

  lemma BufferSize(b: seq<byte>, p: Paper, top: nat)
    requires Shows(b, p, top)
    ensures |b| == BYTES
  {
  }

  class Screen {
    const buffer: array<byte>
    var x: nat
    var y: int
    ghost var paper: Paper
    ghost var scrolls: nat

    /** The cursor is on the screen, and the screen is the window onto the paper that the
        number of scrolls tells. */
    ghost predicate Valid()
      reads this, buffer
    {
      && x < WIDTH && 0 <= y < HEIGHT && scrolls == Top(paper.row)
      && IsScreen(buffer[..], x, y, paper, scrolls)
    }

    constructor ()
      ensures Valid() && fresh(buffer) && paper == FRESH && scrolls == 0
    {
      buffer := new byte[BYTES](k requires 0 <= k < BYTES => BlankByte(k));
      x, y, paper, scrolls := 0, 0, FRESH, 0;
    }

    /** VGA_putchr */
    method PutChr(col: nat, row: nat, c: byte)
      requires buffer.Length == BYTES && col < WIDTH && row < HEIGHT
      modifies buffer
      ensures buffer[..] == old(buffer[..])[Offset(row, col) := c]
    {
      buffer[Offset(row, col)] := c;
    }

    /** VGA_clrscr */
    method Clear()
      requires buffer.Length == BYTES
      modifies this, buffer
      ensures Valid() && paper == FRESH && scrolls == 0
    {
      var row := 0;
      while row < HEIGHT
        invariant row <= HEIGHT && forall k | 0 <= k < Offset(row, 0) :: buffer[k] == BlankByte(k)
        modifies buffer
      {
        ClearRow(row);
        row := row + 1;
      }
      x, y, paper, scrolls := 0, 0, FRESH, 0;
    }

    /** The inner loop of VGA_clrscr, and of the second half of VGA_scrollback. */
    method ClearRow(row: nat)
      requires buffer.Length == BYTES && row < HEIGHT
      modifies buffer
      ensures forall k | Offset(row, 0) <= k < Offset(row + 1, 0) :: buffer[k] == BlankByte(k)
      ensures forall k | 0 <= k < BYTES && !(Offset(row, 0) <= k < Offset(row + 1, 0)) :: buffer[k] == old(buffer[k])
    {
      var col := 0;
      while col < WIDTH
        invariant col <= WIDTH
        invariant forall k | Offset(row, 0) <= k < Offset(row, col) :: buffer[k] == BlankByte(k)
        invariant forall k | 0 <= k < BYTES && !(Offset(row, 0) <= k < Offset(row, col)) :: buffer[k] == old(buffer[k])
      {
        buffer[Offset(row, col)] := 0;
        buffer[Offset(row, col) + 1] := DEFAULT_COLOR;
        col := col + 1;
      }
    }

    /** The inner loop of the first half of VGA_scrollback. */
    method CopyRow(row: nat, lines: nat)
      requires buffer.Length == BYTES && lines <= row < HEIGHT
      modifies buffer
      ensures forall k | Offset(row - lines, 0) <= k < Offset(row - lines + 1, 0) ::
                buffer[k] == old(buffer[k + Offset(lines, 0)])
      ensures forall k | 0 <= k < BYTES && !(Offset(row - lines, 0) <= k < Offset(row - lines + 1, 0)) ::
                buffer[k] == old(buffer[k])
    {
      ghost var b := buffer[..];
      var col := 0;
      while col < WIDTH
        invariant col <= WIDTH
        invariant forall k | Offset(row - lines, 0) <= k < Offset(row - lines, col) ::
                    buffer[k] == b[k + Offset(lines, 0)]
        invariant forall k | 0 <= k < BYTES && !(Offset(row - lines, 0) <= k < Offset(row - lines, col)) ::
                    buffer[k] == b[k]
      {
        buffer[Offset(row - lines, col)] := buffer[Offset(row, col)];
        buffer[Offset(row - lines, col) + 1] := buffer[Offset(row, col) + 1];
        col := col + 1;
      }
    }

    /** VGA_scrollback */
    method Scrollback(lines: nat)
      requires buffer.Length == BYTES && lines <= HEIGHT
      modifies `y, buffer
      ensures Scrolled(old(buffer[..]), buffer[..], lines) && y == old(y) - lines
    {
      ghost var b := buffer[..];
      var row := lines;
      while row < HEIGHT
        invariant lines <= row <= HEIGHT
        invariant forall k | 0 <= k < Offset(row - lines, 0) :: buffer[k] == b[k + Offset(lines, 0)]
        invariant forall k | Offset(row - lines, 0) <= k < BYTES :: buffer[k] == b[k]
        modifies buffer
      {
        CopyRow(row, lines);
        row := row + 1;
      }
      row := HEIGHT - lines;
      while row < HEIGHT
        invariant HEIGHT - lines <= row <= HEIGHT
        invariant forall k | 0 <= k < Offset(HEIGHT - lines, 0) :: buffer[k] == b[k + Offset(lines, 0)]
        invariant forall k | Offset(HEIGHT - lines, 0) <= k < Offset(row, 0) :: buffer[k] == BlankByte(k)
        modifies buffer
      {
        ClearRow(row);
        row := row + 1;
      }
      y := y - lines;
    }

    /** VGA_putc: the window moves over the paper so that the cursor stays on it. */
    method Putc(c: byte)
      requires Valid()
      modifies this, buffer
      ensures Valid() && paper == Write(old(paper), c)
      decreases if c == TAB then 1 else 0
    {
      hide Shows, Scrolled, NothingFrom, PutSpaces;
      if c != TAB { WriteNothing(paper, c); }
      if c == NEWLINE {
        MoveShows(buffer[..], paper, scrolls, c);
        x, y, paper := 0, y + 1, Write(paper, c);
      } else if c == TAB {
        Tab();
      } else if c == RETURN {
        MoveShows(buffer[..], paper, scrolls, c);
        x, paper := 0, Write(paper, c);
      } else {
        PutShows(buffer[..], paper, scrolls, y, c);
        BufferSize(buffer[..], paper, scrolls);
        PutChr(x, y, c);
        x, paper := x + 1, Write(paper, c);
      }
      if x >= WIDTH {
        y, x := y + 1, 0;
      }
      if y >= HEIGHT {
        BufferSize(buffer[..], paper, scrolls);
        ghost var b := buffer[..];
        Scrollback(1);
        ScrolledShows(b, buffer[..], paper, scrolls);
        scrolls := scrolls + 1;
      }
    }

    /** The tab branch: a space as long as the column asks for one. */
    method Tab()
      requires Valid()
      modifies this, buffer
      ensures Valid() && paper == PutSpaces(old(paper), TabSpaces(old(paper).x))
      decreases 1, 0
    {
      ghost var x0, n := x, TabSpaces(x);
      var i := 0;
      while i < 4 - x % 4
        invariant Valid() && i <= n && x == (if x0 + i >= WIDTH then x0 + i - WIDTH else x0 + i)
        invariant PutSpaces(paper, n - i) == PutSpaces(old(paper), n)
        decreases n - i
      {
        Putc(SPACE);
        i := i + 1;
      }
    }

    /** Printing a string, as fputs does, character by character. */
    method Print(s: seq<byte>)
      requires Valid()
      modifies this, buffer
      ensures Valid() && paper == WriteAll(old(paper), s)
    {
      ghost var p := paper;
      var i := 0;
      while i < |s|
        invariant Valid() && i <= |s| && WriteAll(paper, s[i..]) == WriteAll(p, s)
      {
        assert s[i..][1..] == s[i + 1..];
        Putc(s[i]);
        i := i + 1;
      }
    }
  }
}
