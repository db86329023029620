/**
 * The text console (console/console.cpp): a window of 25 rows of 80 cells that scrolls, and the
 * terminal without end that it shows the bottom of.
 */
module Console {

  const BLANK: nat := 0x0720   // what scrolling brings in
  const CLEARED: nat := 0x0700 // what cls writes

  /** The window: its cells row by row, and the cursor. */
  datatype Screen = Screen(data: seq<nat>, x: nat, y: nat)

  predicate OnScreen(s: Screen) {
    |s.data| == 2000 && s.x < 80 && s.y < 25
  }

  /** A terminal that only ever grows at the bottom. */
  datatype Terminal = Terminal(cells: seq<nat>, x: nat, y: nat)

  predicate OnTerminal(t: Terminal) {
    |t.cells| % 80 == 0 && t.x < 80 && 80 * t.y + 80 <= |t.cells|
  }

  function Cells(n: nat, v: nat): seq<nat> {
    seq(n, _ => v)
  }

  /** The low byte of the argument is the character, the next one its color, gray when that is 0. */
  function CharOf(c: int): nat {
    c % 256
  }

  function AttributeOf(c: int): nat {
    if c / 256 % 256 == 0 then 7 else c / 256 % 256
  }

  function CellOf(c: int): nat {
    CharOf(c) + 256 * AttributeOf(c)
  }

  /** The column after a character, 80 for past the edge. */
  function Column(x: nat, ch: nat): nat {
    if ch == 8 then (if x == 0 then 0 else x - 1)       // backspace
    else if ch == 9 then (x + 8) / 8 * 8                // tab
    else if ch == 13 || ch == 10 then 0                 // return, newline
    else if ch >= 32 then x + 1
    else x
  }

  predicate NewLine(x: nat, ch: nat) {
    ch == 10 || Column(x, ch) >= 80
  }

  function Wrapped(x: nat): nat {
    if x >= 80 then 0 else x
  }

  function Written(cells: seq<nat>, at: nat, c: int): seq<nat>
    requires at < |cells|
  {
    if CharOf(c) >= 32 then cells[at := CellOf(c)] else cells
  }

  /** putchar on the window: a newline on the last row pushes the first one out. */
  function Put(s: Screen, c: int): Screen
    requires OnScreen(s)
  {
    var ch := CharOf(c);
    var data := Written(s.data, 80 * s.y + s.x, c);
    var x := Wrapped(Column(s.x, ch));
    if !NewLine(s.x, ch) then Screen(data, x, s.y)
    else if s.y + 1 < 25 then Screen(data, x, s.y + 1)
    else Screen(data[80..] + Cells(80, BLANK), x, 24)
  }

  /** The same character on the terminal: a newline on the last row adds one. */
  function Type(t: Terminal, c: int): Terminal
    requires OnTerminal(t)
  {
    var ch := CharOf(c);
    var cells := Written(t.cells, 80 * t.y + t.x, c);
    var x := Wrapped(Column(t.x, ch));
    if !NewLine(t.x, ch) then Terminal(cells, x, t.y)
    else Terminal(if 80 * (t.y + 2) <= |cells| then cells else cells + Cells(80, BLANK), x, t.y + 1)
  }

  /** The window holds the last 25 rows, with the cursor where the terminal has it. */
  ghost predicate Shows(s: Screen, t: Terminal) {
    && OnScreen(s) && OnTerminal(t) && |t.cells| >= 2000
    && s.data == t.cells[|t.cells| - 2000..]
    && s.x == t.x && 80 * s.y == 80 * t.y - (|t.cells| - 2000)
  }

  lemma ColumnLimit(x: nat, ch: nat)
    requires x < 80
    ensures Wrapped(Column(x, ch)) < 80
  {
  }

  lemma WriteShows(data: seq<nat>, cells: seq<nat>, at: nat, c: int)
    requires |data| == 2000 && |cells| >= 2000 && data == cells[|cells| - 2000..] && at < 2000
    ensures Written(data, at, c) == Written(cells, |cells| - 2000 + at, c)[|cells| - 2000..]
  {
  }

  lemma WrittenLength(cells: seq<nat>, at: nat, c: int)
    requires at < |cells|
    ensures |Written(cells, at, c)| == |cells|
  {
  }

  lemma CellsLength(n: nat, v: nat)
    ensures |Cells(n, v)| == n
  {
  }

  lemma GrowShows(data: seq<nat>, cells: seq<nat>)
    requires |data| == 2000 && |cells| >= 2000 && data == cells[|cells| - 2000..]
    ensures var longer := cells + Cells(80, BLANK);
      data[80..] + Cells(80, BLANK) == longer[|longer| - 2000..]
  {
  }

  lemma PutShows(s: Screen, t: Terminal, c: int)
    requires Shows(s, t)
    ensures Shows(Put(s, c), Type(t, c))
  {
    hide Written, Column, CharOf, Cells;
    ColumnLimit(s.x, CharOf(c));
    WrittenLength(s.data, 80 * s.y + s.x, c);
    WrittenLength(t.cells, 80 * t.y + t.x, c);
    CellsLength(80, BLANK);
    WriteShows(s.data, t.cells, 80 * s.y + s.x, c);
    GrowShows(Written(s.data, 80 * s.y + s.x, c), Written(t.cells, 80 * t.y + t.x, c));
  }

  function PutAll(s: Screen, cs: seq<int>): (s': Screen)
    requires OnScreen(s)
    ensures OnScreen(s')
    decreases |cs|
  {
    if cs == [] then s else
      ColumnLimit(s.x, CharOf(cs[0]));
      PutAll(Put(s, cs[0]), cs[1..])
  }

  function TypeAll(t: Terminal, cs: seq<int>): (t': Terminal)
    requires OnTerminal(t)
    ensures OnTerminal(t')
    decreases |cs|
  {
    if cs == [] then t else
      TypeStaysOn(t, cs[0]);
      TypeAll(Type(t, cs[0]), cs[1..])
  }

  lemma TypeStaysOn(t: Terminal, c: int)
    requires OnTerminal(t)
    ensures OnTerminal(Type(t, c))
  {
    ColumnLimit(t.x, CharOf(c));
  }

  const START: Screen := Screen(Cells(2000, CLEARED), 0, 0)

  /** After any characters on a cleared screen, the window is the last 25 rows of the terminal. */
  lemma {:induction false} ScreenShowsTerminal(s: Screen, t: Terminal, cs: seq<int>)
    requires Shows(s, t)
    ensures Shows(PutAll(s, cs), TypeAll(t, cs))
    decreases |cs|
  {
    if cs != [] {
      PutShows(s, t, cs[0]);
      ScreenShowsTerminal(Put(s, cs[0]), Type(t, cs[0]), cs[1..]);
    }
  }

  /** Nothing a terminal holds above the cursor's row is ever written again. */
  lemma {:induction false} HistoryStays(t: Terminal, cs: seq<int>, k: nat)
    requires OnTerminal(t) && k < 80 * t.y
    ensures k < |TypeAll(t, cs).cells| && TypeAll(t, cs).cells[k] == t.cells[k]
    decreases |cs|
  {
    if cs != [] {
      TypeStaysOn(t, cs[0]);
      HistoryStays(Type(t, cs[0]), cs[1..], k);
    }
  }

  // ---------- what the characters do ----------

  predicate Printable(c: int) {
    c % 256 >= 32
  }

  /** The cell shows the low byte of the argument in the color of the next one, in gray if that is 0. */
  predicate ShowsChar(cell: nat, c: int) {
    cell % 256 == c % 256 && cell / 256 == if c / 256 % 256 == 0 then 7 else c / 256 % 256
  }

  /** The cursor is at the start of the next row, which is there or comes in blank. */
  predicate OnNextRow(t: Terminal, u: Terminal) {
    && u.x == 0 && u.y == t.y + 1
    && |u.cells| == (if 80 * (t.y + 2) <= |t.cells| then |t.cells| else |t.cells| + 80)
    && forall k :: |t.cells| <= k < |u.cells| ==> u.cells[k] == 0x0720
  }

  /** No cell that there was has changed. */
  predicate KeepsCells(t: Terminal, u: Terminal) {
    |t.cells| <= |u.cells| && u.cells[..|t.cells|] == t.cells
  }

  lemma TypePrintable(t: Terminal, c: int)
    requires OnTerminal(t) && Printable(c)
    ensures var u, at := Type(t, c), 80 * t.y + t.x;
      && |t.cells| <= |u.cells| && ShowsChar(u.cells[at], c)
      && (forall k :: 0 <= k < |t.cells| && k != at ==> u.cells[k] == t.cells[k])
      && if t.x < 79 then u.x == t.x + 1 && u.y == t.y && |u.cells| == |t.cells| else OnNextRow(t, u)
  {
  }

  /**
   * Text that fits the row stands in it from the cursor on, one character a cell, and the
   * cursor behind it.
   */
  lemma {:induction false} TypedText(t: Terminal, cs: seq<int>)
    requires OnTerminal(t) && t.x + |cs| < 80 && forall k :: 0 <= k < |cs| ==> Printable(cs[k])
    ensures var u, at := TypeAll(t, cs), 80 * t.y + t.x;
      && u.x == t.x + |cs| && u.y == t.y && |u.cells| == |t.cells|
      && (forall k :: 0 <= k < |cs| ==> ShowsChar(u.cells[at + k], cs[k]))
      && forall k :: 0 <= k < |t.cells| && !(at <= k < at + |cs|) ==> u.cells[k] == t.cells[k]
    decreases |cs|
  {
    hide Type, ShowsChar, Printable;
    if cs != [] {
      var t1, rest := Type(t, cs[0]), cs[1..];
      TypePrintable(t, cs[0]);
      TypeStaysOn(t, cs[0]);
      TypedText(t1, rest);
      var u, at := TypeAll(t1, rest), 80 * t.y + t.x;
      forall k | 0 <= k < |cs| ensures ShowsChar(u.cells[at + k], cs[k]) {
        if k > 0 {
          assert rest[k - 1] == cs[k];
          assert ShowsChar(u.cells[at + 1 + (k - 1)], rest[k - 1]);
        }
      }
    }
  }

  /** The last column wraps to the next row. */
  lemma LastColumnWraps(t: Terminal, c: int)
    requires OnTerminal(t) && t.x == 79 && Printable(c)
    ensures OnNextRow(t, Type(t, c)) && ShowsChar(Type(t, c).cells[80 * t.y + 79], c)
  {
    TypePrintable(t, c);
  }

  /**
   * A tab goes to the next multiple of 8, or to the next row; backspace goes one column back,
   * but not beyond the first; return and newline go to the first column of this row and of the
   * next; no other control character does anything, and none writes a cell.
   */
  lemma ControlCharacters(t: Terminal, c: int)
    requires OnTerminal(t) && !Printable(c)
    ensures var u, ch := Type(t, c), c % 256;
      && KeepsCells(t, u)
      && (ch == 9 && t.x < 72 ==> u == t.(x := u.x) && u.x % 8 == 0 && t.x < u.x <= t.x + 8)
      && (ch == 9 && t.x >= 72 ==> OnNextRow(t, u))
      && (ch == 8 ==> u == if t.x == 0 then t else t.(x := t.x - 1))
      && (ch == 13 ==> u == t.(x := 0))
      && (ch == 10 ==> OnNextRow(t, u))
      && (ch !in {8, 9, 10, 13} ==> u == t)
  {
  }

  /** Backspace takes the cursor back to where the character was written. */
  lemma BackspaceUndoes(t: Terminal, c: int)
    requires OnTerminal(t) && t.x < 79 && Printable(c)
    ensures OnTerminal(Type(t, c)) && Type(Type(t, c), 8) == Type(t, c).(x := t.x)
  {
    hide Type;
    TypeStaysOn(t, c);
    TypePrintable(t, c);
    ControlCharacters(Type(t, c), 8);
  }

  /** Every window shows some terminal. */
  lemma WindowIsTerminal(s: Screen)
    requires OnScreen(s)
    ensures Shows(s, Terminal(s.data, s.x, s.y))
  {
  }

  class Tty {
    var xpos: nat
    var ypos: nat
    const data: array<nat>

    function View(): Screen
      reads this, data
    {
      Screen(data[..], xpos, ypos)
    }

    ghost predicate Valid()
      reads this, data
    {
      OnScreen(View())
    }

    /** init_video: the cleared window shows a terminal of 25 cleared rows. */
    constructor ()
      ensures Valid() && View() == START && fresh(data)
      ensures Shows(View(), Terminal(Cells(2000, CLEARED), 0, 0))
    {
      data := new nat[2000](_ => CLEARED);
      xpos, ypos := 0, 0;
    }

    method Cls()
      requires Valid()
      modifies this, data
      ensures Valid() && View() == START
      ensures xpos == 0 && ypos == 0 && forall k :: 0 <= k < 2000 ==> data[k] == 0x0700
    {
      FillWords(0, CLEARED, 2000);
      xpos, ypos := 0, 0;
      assert data[..] == Cells(2000, CLEARED);
    }

    /** memsetw on the cells of the window. */
    method FillWords(from: nat, v: nat, count: nat)
      requires from + count <= data.Length
      modifies data
      ensures data[..] == old(data[..from]) + Cells(count, v) + old(data[from + count..])
    {
      var i := 0;
      while i < count
        invariant 0 <= i <= count
        invariant data[..] == old(data[..from]) + Cells(i, v) + old(data[from + i..])
      {
        data[from + i] := v;
        i := i + 1;
      }
    }

    /** scroll: moves all rows but the first up, when the cursor has left the last one. */
    method Scroll()
      requires data.Length == 2000 && ypos <= 25
      modifies `ypos, data
      ensures if old(ypos) >= 25 then ypos == 24 && data[..] == old(data[80..]) + Cells(80, BLANK)
              else ypos == old(ypos) && data[..] == old(data[..])
    {
      if ypos >= 25 {
        var i := 0;
        while i < 80 * 24
          invariant 0 <= i <= 80 * 24
          invariant forall k :: 0 <= k < i ==> data[k] == old(data[k + 80])
          invariant forall k :: i <= k < 2000 ==> data[k] == old(data[k])
        {
          data[i] := data[i + 80];
          i := i + 1;
        }
        assert data[..1920] == old(data[80..]);
        FillWords(80 * 24, BLANK, 80);
        ypos := 24;
      }
    }

    /** Every cell write is inside the window, and so is the cursor on return. */
    method Putchar(c: int, ghost t: Terminal)
      requires Valid()
      modifies this, data
      ensures Valid() && View() == Put(old(View()), c)
      ensures Shows(old(View()), t) ==> Shows(View(), Type(t, c))
    {
      if Shows(View(), t) {
        PutShows(View(), t, c);
      }
      var attribute := c / 256 % 256;
      var ch := c % 256;
      if attribute == 0 {
        attribute := 7;
      }
      if ch == 8 {
        if xpos != 0 {
          xpos := xpos - 1;
        }
      } else if ch == 9 {
        xpos := (xpos + 8) / 8 * 8;
      } else if ch == 13 {
        xpos := 0;
      } else if ch == 10 {
        xpos := 0;
        ypos := ypos + 1;
      } else if ch >= 32 {
        data[ypos * 80 + xpos] := ch + 256 * attribute;
        xpos := xpos + 1;
      }
      if xpos >= 80 {
        xpos := 0;
        ypos := ypos + 1;
      }
      Scroll();
    }
  }
}
