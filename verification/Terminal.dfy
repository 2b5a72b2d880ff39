/** The 80 by 25 text terminal: a window onto an unbounded transcript, kept by copying rows in place. */
module Terminal {
  const WIDTH: nat := 80
  const HEIGHT: nat := 25

  type Color = nat
  /** Light cyan on black. */
  const DEFAULT_COLOR: Color := 0x0B

  datatype Cell = Cell(character: char, color: Color)

  /** A row of the transcript: what was written, from the left edge on, and the colour of the blank cells behind it. */
  datatype Row = Row(cells: seq<Cell>, fill: Color) {
    function At(x: nat): Cell {
      if x < |cells| then cells[x] else Cell(' ', fill)
    }
  }

  datatype Input = Put(c: char) | Switch(color: Color)

  /** Everything written so far, wrapped at the screen's width; nothing is ever lost from it. */
  datatype Transcript = Transcript(rows: seq<Row>, color: Color) {
    ghost predicate Ok() {
      rows != [] && (forall i :: 0 <= i < |rows| ==> |rows[i].cells| <= WIDTH) && |Last().cells| < WIDTH
    }

    function Last(): Row
      requires rows != []
    {
      rows[|rows| - 1]
    }

    /** The first row on the screen: the top, or the one that keeps the last row in view. */
    function Top(): nat {
      if |rows| <= HEIGHT then 0 else |rows| - HEIGHT
    }

    /** The cell at a row and column; rows not begun yet are blank. */
    function At(r: nat, x: nat): Cell {
      if r < |rows| then rows[r].At(x) else Cell(' ', DEFAULT_COLOR)
    }

    /** A character is added to the last row. */
    function Write(c: char): Transcript
      requires rows != []
    {
      this.(rows := rows[|rows| - 1 := Row(Last().cells + [Cell(c, color)], Last().fill)])
    }

    /** A row is begun; rows that scroll in are blank in the current colour. */
    function Break(): Transcript {
      this.(rows := rows + [Row([], if |rows| < HEIGHT then DEFAULT_COLOR else color)])
    }

    function Next(e: Input): Transcript
      requires rows != []
    {
      match e
      case Switch(c) => this.(color := c)
      case Put(c) =>
        if c == '\n' then Break()
        else var w := Write(c); if |w.Last().cells| == WIDTH then w.Break() else w
    }
  }

  const Blank: Transcript := Transcript([Row([], DEFAULT_COLOR)], DEFAULT_COLOR)

  /** The transcript of a sequence of inputs. */
  function Written(events: seq<Input>): (t: Transcript)
    ensures t.rows != []
  {
    if events == [] then Blank else Written(events[..|events| - 1]).Next(events[|events| - 1])
  }

  /** Screen cell `i` shows the transcript. */
  ghost predicate Shows(t: Transcript, screen: seq<Cell>) {
    |screen| == WIDTH * HEIGHT && forall i :: 0 <= i < WIDTH * HEIGHT ==> screen[i] == t.At(t.Top() + i / WIDTH, i % WIDTH)
  }

  class VgaTerminal {
    const buffer: array<Cell>
    var currentX: nat
    var currentY: nat
    var color: Color
    ghost var text: Transcript

    /** The screen is a window of 25 rows onto the transcript and the cursor stands behind its last character. */
    ghost predicate Valid()
      reads this, buffer
    {
      text.Ok() && Shows(text, buffer[..]) && color == text.color &&
      currentX == |text.Last().cells| && currentY == |text.rows| - 1 - text.Top()
    }

    /** `VgaTerminalInit`. */
    constructor (buffer: array<Cell>)
      requires buffer.Length == WIDTH * HEIGHT
      modifies buffer
      ensures Valid() && text == Blank && this.buffer == buffer
    {
      this.buffer := buffer;
      currentX, currentY := 0, 0;
      color := DEFAULT_COLOR;
      text := Blank;
      new;
      Clear();
    }

    /** The clearing loops of `VgaTerminalInit`. */
    method Clear()
      requires buffer.Length == WIDTH * HEIGHT
      modifies buffer
      ensures forall i :: 0 <= i < WIDTH * HEIGHT ==> buffer[i] == Cell(' ', color)
    {
      for y := 0 to HEIGHT
        invariant forall i :: 0 <= i < y * WIDTH ==> buffer[i] == Cell(' ', color)
      {
        for x := 0 to WIDTH
          invariant forall i :: 0 <= i < y * WIDTH + x ==> buffer[i] == Cell(' ', color)
        {
          buffer[y * WIDTH + x] := Cell(' ', color);
        }
      }
    }

    /** `Scroll`: every row moves up by one, in place, and the last one is blanked. */
    method Scroll()
      requires buffer.Length == WIDTH * HEIGHT && currentY > 0
      modifies buffer, this`currentY
      ensures currentY == old(currentY) - 1
      ensures forall i :: 0 <= i < WIDTH * HEIGHT ==>
        buffer[i] == if i < WIDTH * (HEIGHT - 1) then old(buffer[i + WIDTH]) else Cell(' ', color)
    {
      for y := 1 to HEIGHT
        modifies buffer
        invariant forall i :: 0 <= i < WIDTH * HEIGHT ==> buffer[i] == if i < (y - 1) * WIDTH then old(buffer[i + WIDTH]) else old(buffer[i])
      {
        for x := 0 to WIDTH
          modifies buffer
          invariant forall i :: 0 <= i < WIDTH * HEIGHT ==>
            buffer[i] == if i < (y - 1) * WIDTH + x then old(buffer[i + WIDTH]) else old(buffer[i])
        {
          var entry := buffer[y * WIDTH + x];
          buffer[(y - 1) * WIDTH + x] := entry;
        }
      }
      for x := 0 to WIDTH
        modifies buffer
        invariant forall i :: 0 <= i < WIDTH * HEIGHT ==>
          buffer[i] ==
            if i < WIDTH * (HEIGHT - 1) then old(buffer[i + WIDTH])
            else if i < WIDTH * (HEIGHT - 1) + x then Cell(' ', color) else old(buffer[i])
      {
        buffer[(HEIGHT - 1) * WIDTH + x] := Cell(' ', color);
      }
      currentY := currentY - 1;
    }

    /** `AdvanceCursor`, to the next column or to the next row. Going past the bottom scrolls: a row is begun. */
    method AdvanceCursor(n: nat)
      requires text.rows != [] && Shows(text, buffer[..]) && color == text.color && 0 < n && currentX + n <= WIDTH
      requires currentX < WIDTH && currentY == |text.rows| - 1 - text.Top()
      requires currentX + n < WIDTH ==> |text.Last().cells| == currentX + n
      modifies buffer, this
      ensures text == old(if currentX + n < WIDTH then text else text.Break()) && color == old(color)
      ensures Shows(text, buffer[..]) && currentX == |text.Last().cells| && currentY == |text.rows| - 1 - text.Top()
    {
      var value := currentX + n;
      var lines := value / WIDTH;
      var newX := value % WIDTH;
      ghost var before, screen := text, buffer[..];
      while currentY + lines >= HEIGHT
        invariant currentY < HEIGHT && lines <= 1
        invariant currentX == old(currentX) && color == old(color) && text == before
        invariant (currentY == old(currentY) && buffer[..] == screen) ||
                  (lines == 1 && old(currentY) == HEIGHT - 1 && currentY == HEIGHT - 2 && Shows(before.Break(), buffer[..]))
        decreases currentY
      {
        Scroll();
        ScrollShows(before, screen, buffer[..]);
      }
      if lines == 1 {
        BreakShows(before, screen);
        text := before.Break();
      }
      currentX, currentY := newX, currentY + lines;
    }

    /** `VgaTerminalPut`. */
    method PutChar(c: char)
      requires Valid()
      modifies buffer, this
      ensures Valid() && text == old(text).Next(Put(c))
    {
      if c == '\n' {
        AdvanceCursor(WIDTH - currentX);
      } else {
        ghost var before, screen := text, buffer[..];
        buffer[currentY * WIDTH + currentX] := Cell(c, color);
        text := text.Write(c);
        WriteShows(before, screen, c, buffer[..]);
        AdvanceCursor(1);
      }
    }

    /** `VgaTerminalSwitchColorScheme`. */
    method SwitchColorScheme(c: Color)
      requires Valid()
      modifies this
      ensures Valid() && text == old(text).Next(Switch(c))
    {
      color := c;
      text := text.(color := c);
    }
  }

  lemma WriteShows(t: Transcript, screen: seq<Cell>, c: char, after: seq<Cell>)
    requires t.Ok() && Shows(t, screen)
    requires var at := (|t.rows| - 1 - t.Top()) * WIDTH + |t.Last().cells|; at < |screen| && after == screen[at := Cell(c, t.color)]
    ensures Shows(t.Write(c), after)
  {
  }

  lemma ScrollShows(t: Transcript, screen: seq<Cell>, after: seq<Cell>)
    requires t.rows != [] && |t.rows| >= HEIGHT && Shows(t, screen) && |after| == WIDTH * HEIGHT
    requires forall i :: 0 <= i < WIDTH * HEIGHT ==> after[i] == if i < WIDTH * (HEIGHT - 1) then screen[i + WIDTH] else Cell(' ', t.color)
    ensures Shows(t.Break(), after)
  {
  }

  lemma BreakShows(t: Transcript, screen: seq<Cell>)
    requires t.rows != [] && Shows(t, screen)
    ensures |t.rows| < HEIGHT ==> Shows(t.Break(), screen)
  {
  }

  // ----- Every run

  /** Any inputs, from a cleared screen: the screen is the window onto the transcript of all of them. */
  method Replay(terminal: VgaTerminal, events: seq<Input>)
    requires terminal.Valid() && terminal.text == Blank
    modifies terminal, terminal.buffer
    ensures terminal.Valid() && terminal.text == Written(events)
  {
    assert events[..0] == [];
    for i := 0 to |events|
      invariant terminal.Valid() && terminal.text == Written(events[..i])
    {
      assert events[..i + 1][..i] == events[..i];
      match events[i]
      case Put(c) => terminal.PutChar(c);
      case Switch(c) => terminal.SwitchColorScheme(c);
    }
    assert events[..|events|] == events;
  }

  /** The colour in force after the inputs: the last one switched to, at first light cyan on black. */
  function ColorAfter(events: seq<Input>): Color {
    if events == [] then 0x0B
    else if events[|events| - 1].Switch? then events[|events| - 1].color
    else ColorAfter(events[..|events| - 1])
  }

  lemma {:induction false} ColorInForce(events: seq<Input>)
    ensures Written(events).color == ColorAfter(events)
  {
    if events != [] {
      ColorInForce(events[..|events| - 1]);
    }
  }

  /** The characters printed, in order and in colour. */
  function Printed(events: seq<Input>): seq<Cell> {
    if events == [] then []
    else
      var front, e := events[..|events| - 1], events[|events| - 1];
      if e.Put? && e.c != '\n' then Printed(front) + [Cell(e.c, ColorAfter(front))] else Printed(front)
  }

  function Newlines(events: seq<Input>): nat {
    if events == [] then 0 else Newlines(events[..|events| - 1]) + if events[|events| - 1] == Put('\n') then 1 else 0
  }

  /** All cells of the transcript, row by row. */
  function Flatten(rows: seq<Row>): seq<Cell> {
    if rows == [] then [] else Flatten(rows[..|rows| - 1]) + rows[|rows| - 1].cells
  }

  function FullRows(rows: seq<Row>): nat {
    if rows == [] then 0 else FullRows(rows[..|rows| - 1]) + if |rows[|rows| - 1].cells| == WIDTH then 1 else 0
  }

  lemma FlattenWrite(t: Transcript, c: char)
    requires t.rows != []
    ensures Flatten(t.Write(c).rows) == Flatten(t.rows) + [Cell(c, t.color)]
    ensures |t.Last().cells| < WIDTH ==>
      FullRows(t.Write(c).rows) == FullRows(t.rows) + if |t.Last().cells| + 1 == WIDTH then 1 else 0
  {
    var n := |t.rows| - 1;
    assert t.Write(c).rows[..n] == t.rows[..n];
  }

  lemma FlattenBreak(t: Transcript)
    ensures Flatten(t.Break().rows) == Flatten(t.rows) && FullRows(t.Break().rows) == FullRows(t.rows)
  {
    assert t.Break().rows[..|t.rows|] == t.rows;
  }

  /** One input adds its character, or a row, and nothing else. */
  lemma NextIsLossless(t: Transcript, e: Input)
    requires t.Ok()
    ensures var n := t.Next(e);
      && n.Ok()
      && Flatten(n.rows) == Flatten(t.rows) + (if e.Put? && e.c != '\n' then [Cell(e.c, t.color)] else [])
      && |n.rows| - FullRows(n.rows) == |t.rows| - FullRows(t.rows) + if e == Put('\n') then 1 else 0
  {
    hide Flatten, FullRows;
    if e.Put? {
      if e.c == '\n' {
        FlattenBreak(t);
      } else {
        FlattenWrite(t, e.c);
        FlattenBreak(t.Write(e.c));
      }
    }
  }

  /** The transcript holds exactly what was printed, in order, and breaks rows only at newlines and at the right edge. */
  lemma {:induction false} TranscriptIsLossless(events: seq<Input>)
    ensures Written(events).Ok()
    ensures Flatten(Written(events).rows) == Printed(events)
    ensures |Written(events).rows| == 1 + Newlines(events) + FullRows(Written(events).rows)
  {
    if events == [] {
      assert Blank.rows[..0] == [];
    } else {
      hide Transcript.Next, Transcript.Ok, Flatten, FullRows;
      var front, e := events[..|events| - 1], events[|events| - 1];
      TranscriptIsLossless(front);
      NextIsLossless(Written(front), e);
      ColorInForce(front);
    }
  }

  // ----- Where each character is

  /** Row and column the next character goes to, counted from the first row ever written. */
  function PlaceAfter(events: seq<Input>): (nat, nat) {
    if events == [] then (0, 0)
    else
      var (row, column) := PlaceAfter(events[..|events| - 1]);
      match events[|events| - 1]
      case Switch(_) => (row, column)
      case Put(c) => if c == '\n' || column == 79 then (row + 1, 0) else (row, column + 1)
  }

  lemma NextMovesPlace(t: Transcript, e: Input)
    requires t.Ok()
    ensures var n := t.Next(e); var column := |t.Last().cells|;
      && n.Ok()
      && if e.Switch? then |n.rows| == |t.rows| && |n.Last().cells| == column
         else if e.c == '\n' || column == 79 then |n.rows| == |t.rows| + 1 && |n.Last().cells| == 0
         else |n.rows| == |t.rows| && |n.Last().cells| == column + 1
  {
  }

  /** The transcript ends where the next character goes. */
  lemma {:induction false} EndsAtPlace(events: seq<Input>)
    ensures Written(events).Ok()
    ensures PlaceAfter(events) == (|Written(events).rows| - 1, |Written(events).Last().cells|)
  {
    if events != [] {
      EndsAtPlace(events[..|events| - 1]);
      NextMovesPlace(Written(events[..|events| - 1]), events[|events| - 1]);
      hide Transcript.Next, Transcript.Ok, Transcript.Last;
    }
  }

  lemma NextKeepsCell(t: Transcript, e: Input, r: nat, x: nat)
    requires t.Ok() && r < |t.rows| && x < |t.rows[r].cells|
    ensures var n := t.Next(e); r < |n.rows| && x < |n.rows[r].cells| && n.At(r, x) == t.At(r, x)
  {
  }

  /** Every character stays, in its colour, at the place it was written to. */
  lemma {:induction false} CharacterStays(events: seq<Input>, i: nat)
    requires i < |events| && events[i].Put? && events[i].c != '\n'
    ensures var (row, column) := PlaceAfter(events[..i]);
      && row < |Written(events).rows| && column < |Written(events).rows[row].cells|
      && Written(events).At(row, column) == Cell(events[i].c, ColorAfter(events[..i]))
  {
    var front := events[..|events| - 1];
    EndsAtPlace(front);
    if i == |events| - 1 {
      ColorInForce(front);
    } else {
      assert front[..i] == events[..i];
      CharacterStays(front, i);
      var (row, column) := PlaceAfter(front[..i]);
      NextKeepsCell(Written(front), events[|events| - 1], row, column);
    }
  }

  /** The screen shows the last 25 rows: a row at most 24 above the last is there, all of its 80 columns. */
  lemma LastRowsAreShown(t: Transcript, screen: seq<Cell>, r: nat, x: nat)
    requires Shows(t, screen) && |t.rows| - 25 <= r < |t.rows| && x < 80
    ensures |screen| == 2000
    ensures screen[80 * (if |t.rows| <= 25 then r else r - (|t.rows| - 25)) + x] == t.rows[r].At(x)
  {
    var y := if |t.rows| <= 25 then r else r - (|t.rows| - 25);
    assert (80 * y + x) / 80 == y && (80 * y + x) % 80 == x;
  }

  /** So a character is on the screen until 25 rows have been begun behind its own. */
  lemma CharacterIsOnScreen(events: seq<Input>, i: nat, screen: seq<Cell>)
    requires Shows(Written(events), screen) && i < |events| && events[i].Put? && events[i].c != '\n'
    requires PlaceAfter(events).0 < PlaceAfter(events[..i]).0 + 25
    ensures var (row, column) := PlaceAfter(events[..i]);
      var top := if PlaceAfter(events).0 < 25 then 0 else PlaceAfter(events).0 - 24;
      && |screen| == 2000 && top <= row && 80 * (row - top) + column < 2000
      && screen[80 * (row - top) + column] == Cell(events[i].c, ColorAfter(events[..i]))
  {
    hide Shows, Written, PlaceAfter, ColorAfter;
    var (row, column) := PlaceAfter(events[..i]);
    CharacterStays(events, i);
    EndsAtPlace(events);
    EndsAtPlace(events[..i]);
    LastRowsAreShown(Written(events), screen, row, column);
    hide Row.At;
  }
}
