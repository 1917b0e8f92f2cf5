/** The shell's line editor: a fixed buffer and two counters that stand for the text on either
    side of the cursor. */
module LineEditor {
  import opened Bytes
  import opened KeyRing
  import opened Tokens

  const ENTER: byte := 0x0A
  const BACKSPACE: byte := 0x08
  const KEY_UP: byte := 0x01
  const KEY_DOWN: byte := 0x02
  const KEY_LEFT: byte := 0x03
  const KEY_RIGHT: byte := 0x04
  const CAPACITY: nat := BUFFER_SIZE - 1

  /** The text left of the cursor, and the text from the cursor on. */
  datatype Zipper = Zipper(left: seq<byte>, right: seq<byte>)

  const BLANK_LINE: Zipper := Zipper([], [])

  function Text(z: Zipper): seq<byte> {
    z.left + z.right
  }

  predicate Ordinary(c: byte) {
    c !in {0, ENTER, BACKSPACE, KEY_UP, KEY_DOWN, KEY_LEFT, KEY_RIGHT}
  }

  predicate ZipperOk(z: Zipper) {
    |z.left| + |z.right| <= CAPACITY && NoZero(Text(z))
  }

  /** What a key does to the line. Enter starts a new one. */
  function Key(z: Zipper, c: byte): (z': Zipper)
    requires ZipperOk(z)
  {
    if c == ENTER then BLANK_LINE
    else if c == BACKSPACE then
      if z.left == [] then z else Zipper(z.left[..|z.left| - 1], z.right)
    else if c == KEY_LEFT then
      if z.left == [] then z else Zipper(z.left[..|z.left| - 1], [z.left[|z.left| - 1]] + z.right)
    else if c == KEY_RIGHT then
      if z.right == [] then z else Zipper(z.left + [z.right[0]], z.right[1..])
    else if c == 0 || c == KEY_UP || c == KEY_DOWN || |Text(z)| == CAPACITY then z
    else Zipper(z.left + [c], z.right)
  }

  lemma KeyKeeps(z: Zipper, c: byte)
    requires ZipperOk(z)
    ensures ZipperOk(Key(z, c))
  {
    var t, t' := Text(z), Text(Key(z, c));
    forall i | 0 <= i < |t'| ensures t'[i] != 0 {
      assert t'[i] == c || t'[i] in t;
    }
  }

  /** The line and the commands after some keys: Enter hands over a line that is not empty. */
  datatype Session = Session(line: Zipper, commands: seq<seq<byte>>)

  function Typed(s: Session, c: byte): Session
    requires ZipperOk(s.line)
  {
    Session(Key(s.line, c), if c == ENTER && Text(s.line) != [] then s.commands + [Text(s.line)] else s.commands)
  }

  function AllTyped(s: Session, keys: seq<byte>): (s': Session)
    requires ZipperOk(s.line)
    ensures ZipperOk(s'.line)
    decreases |keys|
  {
    if keys == [] then s
    else
      KeyKeeps(s.line, keys[0]);
      AllTyped(Typed(s, keys[0]), keys[1..])
  }

  // ----- what editing means

  /** An ordinary key puts its character at the cursor, if there is room; Backspace takes the one before
      the cursor out; neither touches the rest, and any other key leaves the text alone. */
  lemma KeyEditsText(z: Zipper, c: byte)
    requires ZipperOk(z)
    ensures var p, t := |z.left|, Text(z);
            && (Ordinary(c) && |t| < CAPACITY ==> Text(Key(z, c)) == t[..p] + [c] + t[p..])
            && (Ordinary(c) && |t| == CAPACITY ==> Key(z, c) == z)
            && (c == BACKSPACE && p > 0 ==> Text(Key(z, c)) == t[..p - 1] + t[p..])
            && (!Ordinary(c) && c != BACKSPACE && c != ENTER ==> Text(Key(z, c)) == t)
            && (c == BACKSPACE && p == 0 ==> Key(z, c) == z)
            && (!Ordinary(c) && c !in {BACKSPACE, ENTER, KEY_LEFT, KEY_RIGHT} ==> Key(z, c) == z)
  {
    var p, t := |z.left|, Text(z);
    assert t[..p] == z.left && t[p..] == z.right;
  }

  lemma BackspaceUndoes(z: Zipper, c: byte)
    requires ZipperOk(z) && Ordinary(c) && |Text(z)| < CAPACITY
    ensures ZipperOk(Key(z, c)) && Key(Key(z, c), BACKSPACE) == z
  {
    KeyKeeps(z, c);
    assert (z.left + [c])[..|z.left|] == z.left;
  }

  lemma LeftAndRightUndo(z: Zipper)
    requires ZipperOk(z)
    ensures ZipperOk(Key(z, KEY_LEFT)) && (z.left != [] ==> Key(Key(z, KEY_LEFT), KEY_RIGHT) == z)
    ensures ZipperOk(Key(z, KEY_RIGHT)) && (z.right != [] ==> Key(Key(z, KEY_RIGHT), KEY_LEFT) == z)
  {
    KeyKeeps(z, KEY_LEFT);
    KeyKeeps(z, KEY_RIGHT);
    if z.left != [] {
      var n := |z.left| - 1;
      assert z.left == z.left[..n] + [z.left[n]];
      assert ([z.left[n]] + z.right)[1..] == z.right;
    }
    if z.right != [] {
      assert (z.left + [z.right[0]])[..|z.left|] == z.left;
      assert z.right == [z.right[0]] + z.right[1..];
    }
  }

  /** Typing a text puts it in front of the cursor. */
  lemma {:induction false} TypeText(s: Session, text: seq<byte>)
    requires ZipperOk(s.line) && |Text(s.line)| + |text| <= CAPACITY && forall i | 0 <= i < |text| :: Ordinary(text[i])
    ensures AllTyped(s, text) == Session(Zipper(s.line.left + text, s.line.right), s.commands)
    decreases |text|
  {
    if text == [] {
      assert s.line.left + [] == s.line.left;
    } else {
      KeyKeeps(s.line, text[0]);
      TypeText(Typed(s, text[0]), text[1..]);
      assert s.line.left + [text[0]] + text[1..] == s.line.left + text;
    }
  }

  lemma {:induction false} TypeMore(s: Session, a: seq<byte>, b: seq<byte>)
    requires ZipperOk(s.line)
    ensures AllTyped(s, a + b) == AllTyped(AllTyped(s, a), b)
    decreases |a|
  {
    if a == [] {
      assert a + b == b;
    } else {
      KeyKeeps(s.line, a[0]);
      assert (a + b)[1..] == a[1..] + b;
      TypeMore(Typed(s, a[0]), a[1..], b);
    }
  }

  /** A line that is typed and entered reaches the shell as it was typed. */
  lemma EnteredAsTyped(commands: seq<seq<byte>>, text: seq<byte>)
    requires 0 < |text| <= CAPACITY && forall i | 0 <= i < |text| :: Ordinary(text[i])
    ensures AllTyped(Session(BLANK_LINE, commands), text + [ENTER]) == Session(BLANK_LINE, commands + [text])
  {
    var s, t := Session(BLANK_LINE, commands), Session(Zipper(text, []), commands);
    assert [] + text == text && text + [] == text;
    TypeMore(s, text, [ENTER]);
    TypeText(s, text);
    assert ZipperOk(t.line);
    assert Typed(t, ENTER) == Session(BLANK_LINE, commands + [text]);
    TypedFirst(t, ENTER, []);
    hide Key, Typed, ZipperOk;
    assert [ENTER] + [] == [ENTER];
  }

  // ----- Enter, wherever the cursor is

  predicate AllOrdinary(text: seq<byte>) {
    forall i | 0 <= i < |text| :: Ordinary(text[i])
  }

  /** Keys that only move the cursor. */
  predicate Moves(keys: seq<byte>) {
    forall i | 0 <= i < |keys| :: keys[i] == KEY_LEFT || keys[i] == KEY_RIGHT
  }

  function Lefts(k: nat): (keys: seq<byte>)
    ensures |keys| == k && Moves(keys)
  {
    seq<byte>(k, _ => KEY_LEFT)
  }

  /** Moving leaves the text alone. */
  lemma {:induction false} MovesKeepText(s: Session, keys: seq<byte>)
    requires ZipperOk(s.line) && Moves(keys)
    ensures Text(AllTyped(s, keys).line) == Text(s.line) && AllTyped(s, keys).commands == s.commands
    decreases |keys|
  {
    if keys != [] {
      KeyKeeps(s.line, keys[0]);
      KeyEditsText(s.line, keys[0]);
      MovesKeepText(Typed(s, keys[0]), keys[1..]);
    }
  }

  /** k steps to the left. */
  lemma {:induction false} LeftsMove(s: Session, k: nat)
    requires ZipperOk(s.line) && k <= |s.line.left|
    ensures var z, n := s.line, |s.line.left| - k;
            AllTyped(s, Lefts(k)) == Session(Zipper(z.left[..n], z.left[n..] + z.right), s.commands)
    decreases k
  {
    var z := s.line;
    if k == 0 {
      assert z.left[..|z.left|] == z.left && z.left[|z.left|..] + z.right == z.right;
    } else {
      OneLeft(s, k);
      TwoHalves(z.left, z.right, k);
      var t := Typed(s, KEY_LEFT);
      hide Key, Lefts, Text;
      LeftsMove(t, k - 1);
    }
  }

  lemma OneLeft(s: Session, k: nat)
    requires ZipperOk(s.line) && 0 < k <= |s.line.left|
    ensures var z, n := s.line, |s.line.left| - 1;
            && Typed(s, KEY_LEFT) == Session(Zipper(z.left[..n], [z.left[n]] + z.right), s.commands)
            && ZipperOk(Typed(s, KEY_LEFT).line) && AllTyped(s, Lefts(k)) == AllTyped(Typed(s, KEY_LEFT), Lefts(k - 1))
  {
    KeyKeeps(s.line, KEY_LEFT);
    assert Lefts(k)[1..] == Lefts(k - 1);
  }

  lemma TwoHalves(l: seq<byte>, r: seq<byte>, k: nat)
    requires 0 < k <= |l|
    ensures var m, n := l[..|l| - 1], |l| - k;
            m[..n] == l[..n] && m[n..] + ([l[|l| - 1]] + r) == l[n..] + r
  {
    var n := |l| - k;
    assert l[n..] == l[..|l| - 1][n..] + [l[|l| - 1]];
    Regroup(l[..|l| - 1][n..], [l[|l| - 1]], r);
  }

  /** Enter hands over the whole text, if there is any, from wherever the cursor is. */
  lemma EnterTakesAll(s: Session, moves: seq<byte>)
    requires ZipperOk(s.line) && Moves(moves)
    ensures AllTyped(s, moves + [ENTER])
         == Session(BLANK_LINE, s.commands + if Text(s.line) == [] then [] else [Text(s.line)])
  {
    TypeMore(s, moves, [ENTER]);
    MovesKeepText(s, moves);
    var t := AllTyped(s, moves);
    TypedFirst(t, ENTER, []);
    assert [ENTER] + [] == [ENTER];
    assert s.commands + [] == s.commands;
    hide AllTyped;
  }

  /** A text that is typed. */
  lemma TypeFresh(commands: seq<seq<byte>>, text: seq<byte>)
    requires |text| <= CAPACITY && AllOrdinary(text)
    ensures AllTyped(Session(BLANK_LINE, commands), text) == Session(Zipper(text, []), commands)
    ensures ZipperOk(Zipper(text, [])) && Text(Zipper(text, [])) == text
  {
    TypeText(Session(BLANK_LINE, commands), text);
    assert [] + text == text && text + [] == text;
    hide AllTyped;
  }

  /** Typed, and entered after any movements. */
  lemma EnteredFromAnywhere(commands: seq<seq<byte>>, text: seq<byte>, moves: seq<byte>)
    requires 0 < |text| <= CAPACITY && AllOrdinary(text) && Moves(moves)
    ensures AllTyped(Session(BLANK_LINE, commands), text + moves + [ENTER]) == Session(BLANK_LINE, commands + [text])
  {
    hide AllTyped, Text, AllOrdinary, Moves, ZipperOk;
    TypeFresh(commands, text);
    Regroup(text, moves, [ENTER]);
    BlankIsOk();
    TypeMore(Session(BLANK_LINE, commands), text, moves + [ENTER]);
    EnterTakesAll(Session(Zipper(text, []), commands), moves);
  }

  lemma BlankIsOk()
    ensures ZipperOk(BLANK_LINE)
  {
  }

  /** Typed, then k steps back. */
  lemma AtCursor(commands: seq<seq<byte>>, text: seq<byte>, k: nat, rest: seq<byte>)
    requires AllOrdinary(text) && k <= |text| <= CAPACITY
    ensures var t := Zipper(text[..|text| - k], text[|text| - k..]);
            && ZipperOk(t) && Text(t) == text
            && AllTyped(Session(BLANK_LINE, commands), text + (Lefts(k) + rest)) == AllTyped(Session(t, commands), rest)
  {
    hide AllTyped, Lefts, AllOrdinary;
    TypeFresh(commands, text);
    TypeMore(Session(BLANK_LINE, commands), text, Lefts(k) + rest);
    TypeMore(Session(Zipper(text, []), commands), Lefts(k), rest);
    LeftsMove(Session(Zipper(text, []), commands), k);
    HalvesOfText(text, |text| - k);
  }

  lemma HalvesOfText(text: seq<byte>, n: nat)
    requires n <= |text| && ZipperOk(Zipper(text, [])) && Text(Zipper(text, [])) == text
    ensures text[n..] + [] == text[n..]
    ensures var t := Zipper(text[..n], text[n..]); ZipperOk(t) && Text(t) == text
  {
  }

  /** Typed, then k steps back, and more text typed there: the text that is entered has it there. */
  lemma EnteredWithInsertion(commands: seq<seq<byte>>, text: seq<byte>, k: nat, more: seq<byte>, moves: seq<byte>)
    requires AllOrdinary(text) && AllOrdinary(more) && k <= |text| && 0 < |text| + |more| <= CAPACITY && Moves(moves)
    ensures AllTyped(Session(BLANK_LINE, commands), text + (Lefts(k) + (more + (moves + [ENTER]))))
         == Session(BLANK_LINE, commands + [text[..|text| - k] + more + text[|text| - k..]])
  {
    hide AllTyped, Lefts, Moves, ZipperOk;
    AtCursor(commands, text, k, more + (moves + [ENTER]));
    var t := Session(Zipper(text[..|text| - k], text[|text| - k..]), commands);
    TypeMore(t, more, moves + [ENTER]);
    TypeText(t, more);
    EnterTakesAll(AllTyped(t, more), moves);
    var whole := text[..|text| - k] + more + text[|text| - k..];
    assert |whole| == |text| + |more|;
  }

  /** Typed, then k steps back, and Backspace: the text that is entered lacks the character that was
      before the cursor. */
  lemma EnteredWithErasure(commands: seq<seq<byte>>, text: seq<byte>, k: nat, moves: seq<byte>)
    requires AllOrdinary(text) && k < |text| <= CAPACITY && Moves(moves)
    ensures var rest := text[..|text| - k - 1] + text[|text| - k..];
            AllTyped(Session(BLANK_LINE, commands), text + (Lefts(k) + ([BACKSPACE] + (moves + [ENTER]))))
            == Session(BLANK_LINE, commands + if rest == [] then [] else [rest])
  {
    hide AllTyped, Lefts, Moves, ZipperOk, AllOrdinary, Typed;
    AtCursor(commands, text, k, [BACKSPACE] + (moves + [ENTER]));
    var t := Session(Zipper(text[..|text| - k], text[|text| - k..]), commands);
    TypedFirst(t, BACKSPACE, moves + [ENTER]);
    EnterTakesAll(Typed(t, BACKSPACE), moves);
    BackspaceAt(text, |text| - k, commands);
  }

  lemma BackspaceAt(text: seq<byte>, n: nat, commands: seq<seq<byte>>)
    requires 0 < n <= |text| && ZipperOk(Zipper(text[..n], text[n..]))
    ensures Typed(Session(Zipper(text[..n], text[n..]), commands), BACKSPACE)
         == Session(Zipper(text[..n - 1], text[n..]), commands)
  {
    assert text[..n][..n - 1] == text[..n - 1];
  }

  // ----- the buffer

  class Editor {
    const buffer: array<byte>
    var length: nat
    var cursor: nat
    var commands: seq<seq<byte>>

    /** The cursor is in the text, the text fits, and behind it there are only zeros. */
    ghost predicate Valid()
      reads this, buffer
    {
      buffer.Length == BUFFER_SIZE && IsLine(buffer[..], length, cursor)
    }

    ghost function Line(): Zipper
      requires Valid()
      reads this, buffer
    {
      Zipper(buffer[..cursor], buffer[cursor..length])
    }

    ghost function State(): Session
      requires Valid()
      reads this, buffer
    {
      Session(Line(), commands)
    }

    /** shell_init */
    constructor ()
      ensures Valid() && fresh(buffer) && State() == Session(BLANK_LINE, [])
    {
      buffer := new byte[BUFFER_SIZE](_ => 0);
      length, cursor, commands := 0, 0, [];
    }

    /** shell_move_cursor_left */
    method MoveLeft()
      requires Valid()
      modifies `cursor
      ensures Valid() && State() == Typed(old(State()), KEY_LEFT)
    {
      if cursor > 0 {
        SplitsMove(buffer[..], length, cursor - 1);
        cursor := cursor - 1;
      }
    }

    /** shell_move_cursor_right */
    method MoveRight()
      requires Valid()
      modifies `cursor
      ensures Valid() && State() == Typed(old(State()), KEY_RIGHT)
    {
      if cursor < length {
        SplitsMove(buffer[..], length, cursor);
        cursor := cursor + 1;
      }
    }

    /** The Backspace branch of shell_run. */
    method Erase()
      requires Valid()
      modifies `length, `cursor, buffer
      ensures Valid() && State() == Typed(old(State()), BACKSPACE)
    {
      if cursor > 0 && length > 0 {
        ghost var b := buffer[..];
        ShiftDown(cursor - 1, length - 1);
        length, cursor := length - 1, cursor - 1;
        buffer[length] := 0;
        Erased(b, buffer[..], length, cursor);
      }
    }

    /** Moves the characters behind lo, up to hi, one place down. */
    method ShiftDown(lo: nat, hi: nat)
      requires lo <= hi < BUFFER_SIZE == buffer.Length
      modifies buffer
      ensures forall k | 0 <= k < BUFFER_SIZE :: buffer[k] == old(buffer[if lo <= k < hi then k + 1 else k])
    {
      var i := lo;
      while i < hi
        invariant lo <= i <= hi
        invariant forall k | 0 <= k < BUFFER_SIZE :: buffer[k] == old(buffer[if lo <= k < i then k + 1 else k])
      {
        buffer[i] := buffer[i + 1];
        i := i + 1;
      }
    }

    /** The two branches of shell_run that insert a character. */
    method Insert(c: byte)
      requires Valid() && Ordinary(c)
      modifies `length, `cursor, buffer
      ensures Valid() && State() == Typed(old(State()), c)
    {
      if length < BUFFER_SIZE - 1 {
        ghost var b := buffer[..];
        ShiftUp(cursor, length);
        buffer[cursor] := c;
        Inserted(b, buffer[..], length, cursor, c);
        length, cursor := length + 1, cursor + 1;
      }
    }

    /** Moves the characters from lo on, up to hi, one place up. */
    method ShiftUp(lo: nat, hi: nat)
      requires lo <= hi < BUFFER_SIZE == buffer.Length
      modifies buffer
      ensures forall k | 0 <= k < BUFFER_SIZE :: buffer[k] == old(buffer[if lo < k <= hi then k - 1 else k])
    {
      var i := hi;
      while i > lo
        invariant lo <= i <= hi
        invariant forall k | 0 <= k < BUFFER_SIZE :: buffer[k] == old(buffer[if i < k <= hi then k - 1 else k])
      {
        buffer[i] := buffer[i - 1];
        i := i - 1;
      }
    }

    /** The Enter branch of shell_run. Processing the command is not part of this model. */
    method Submit()
      requires Valid()
      modifies this, buffer
      ensures Valid() && State() == Typed(old(State()), ENTER)
    {
      buffer[length] := 0;
      assert buffer[..length] == Text(old(Line()));
      if length > 0 {
        commands := commands + [buffer[..length]];
      }
      forall k | 0 <= k < BUFFER_SIZE {
        buffer[k] := 0;
      }
      length, cursor := 0, 0;
    }

    /** One pass of the loop of shell_run. */
    method HandleKey(c: byte)
      requires Valid()
      modifies this, buffer
      ensures Valid() && State() == Typed(old(State()), c)
    {
      hide IsLine;
      if c == ENTER {
        Submit();
      } else if c == BACKSPACE {
        Erase();
      } else if c == KEY_UP {
      } else if c == KEY_DOWN {
      } else if c == KEY_LEFT {
        MoveLeft();
      } else if c == KEY_RIGHT {
        MoveRight();
      } else if 32 <= c <= 126 {
        Insert(c);
      } else if c != 0 {
        Insert(c);
      }
    }

    lemma LineOk()
      requires Valid()
      ensures ZipperOk(Line()) && Text(Line()) == buffer[..length]
    {
    }

    /** shell_run: takes all waiting characters, in order. */
    method Run(keys: KeyBuffer)
      requires Valid() && keys.Valid() && keys.data != buffer
      modifies this, buffer, keys`tail
      ensures Valid() && keys.Valid() && keys.Waiting() == []
      ensures ZipperOk(old(Line())) && State() == AllTyped(old(State()), old(keys.Waiting()))
    {
      LineOk();
      ghost var s, q := State(), keys.Waiting();
      var ok, c := keys.PopKey();
      while ok
        invariant Valid() && keys.Valid() && ZipperOk(Line())
        invariant AllTyped(s, q) == AllTyped(State(), if ok then [c] + keys.Waiting() else keys.Waiting())
        invariant !ok ==> keys.Waiting() == []
        decreases |keys.Waiting()|, ok
      {
        ghost var t, w := State(), keys.Waiting();
        HandleKey(c);
        LineOk();
        TypedFirst(t, c, w);
        ok, c := keys.PopKey();
      }
    }
  }

  lemma TypedFirst(s: Session, c: byte, w: seq<byte>)
    requires ZipperOk(s.line)
    ensures ZipperOk(Typed(s, c).line) && AllTyped(s, [c] + w) == AllTyped(Typed(s, c), w)
  {
    KeyKeeps(s.line, c);
    assert ([c] + w)[1..] == w;
  }

  /** Moving the cursor over the character at k. */
  lemma SplitsMove(b: seq<byte>, length: nat, k: nat)
    requires k < length <= |b|
    ensures b[..k + 1] == b[..k] + [b[k]] && b[k..length] == [b[k]] + b[k + 1..length]
  {
  }

  lemma Erased(b: seq<byte>, b': seq<byte>, length: nat, cursor: nat)
    requires |b| == |b'| == BUFFER_SIZE && IsLine(b, length + 1, cursor + 1)
    requires forall k | cursor <= k < length :: b'[k] == b[k + 1]
    requires forall k | 0 <= k < BUFFER_SIZE && !(cursor <= k < length) && k != length :: b'[k] == b[k]
    requires b'[length] == 0
    ensures IsLine(b', length, cursor)
    ensures b'[..cursor] == b[..cursor + 1][..cursor] && b'[cursor..length] == b[cursor + 1..length + 1]
  {
  }

  lemma Inserted(b: seq<byte>, b': seq<byte>, length: nat, cursor: nat, c: byte)
    requires |b| == |b'| == BUFFER_SIZE && IsLine(b, length, cursor) && length < BUFFER_SIZE - 1 && c != 0
    requires forall k | cursor < k <= length :: b'[k] == b[k - 1]
    requires forall k | 0 <= k < BUFFER_SIZE && !(cursor < k <= length) && k != cursor :: b'[k] == b[k]
    requires b'[cursor] == c
    ensures IsLine(b', length + 1, cursor + 1)
    ensures b'[..cursor + 1] == b[..cursor] + [c] && b'[cursor + 1..length + 1] == b[cursor..length]
  {
    var l, r := b'[cursor + 1..length + 1], b[cursor..length];
    forall k | 0 <= k < |r| ensures l[k] == r[k] {
      assert l[k] == b'[cursor + 1 + k] == b[cursor + k];
    }
  }

  predicate IsLine(b: seq<byte>, length: nat, cursor: nat) {
    && cursor <= length < |b|
    && (forall k | 0 <= k < length :: b[k] != 0)
    && forall k | length <= k < |b| :: b[k] == 0
  }
}
