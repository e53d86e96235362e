// The input path of the serial terminal: the receive handler echoes and queues what is typed, and
// `_fgets` edits the queued bytes a second time. What each of them does to a line is specified here.

module Terminal {
  import opened Words

  const BACKSPACE: Byte := 8
  const NEWLINE: Byte := 10
  const RETURN: Byte := 13
  const SPACE: Byte := 32
  const DELETE: Byte := 127

  // ---------- The receive handler

  datatype Driver = Driver(counter: int, echo: bool, buffer: seq<Byte>, output: seq<Byte>)

  /** The byte the handler queues for a typed one. */
  function Queued(b: Byte): Byte {
    if b == DELETE then BACKSPACE else if b == RETURN then NEWLINE else b
  }

  function Echoed(d: Driver, bytes: seq<Byte>): seq<Byte> {
    if d.echo then d.output + bytes else d.output
  }

  /** A C string of one character; a zero byte makes it empty. */
  function CString(b: Byte): seq<Byte> {
    if b == 0 then [] else [b]
  }

  function Handle(d: Driver, b: Byte): Driver {
    if b == DELETE then
      if d.counter > 0 then
        Driver(d.counter - 1, d.echo, d.buffer + [BACKSPACE], Echoed(d, [BACKSPACE, SPACE, BACKSPACE]))
      else d.(buffer := d.buffer + [BACKSPACE])
    else if b == NEWLINE || b == RETURN then
      Driver(0, d.echo, d.buffer + [NEWLINE], Echoed(d, [NEWLINE]))
    else
      Driver(d.counter + 1, d.echo, d.buffer + [b], Echoed(d, CString(b)))
  }

  // ---------- The screen

  /** The rows above, and the row the cursor is in. */
  datatype Screen = Screen(rows: seq<seq<Byte>>, row: seq<Byte>, col: nat)

  /** A terminal that shows every byte but backspace, newline and zero in one cell. */
  function Show(s: Screen, b: Byte): Screen {
    if b == BACKSPACE then s.(col := if s.col > 0 then s.col - 1 else 0)
    else if b == NEWLINE then Screen(s.rows + [s.row], [], 0)
    else if b == 0 then s
    else Screen(s.rows, if s.col < |s.row| then s.row[s.col := b] else s.row + [b], s.col + 1)
  }

  function ShowAll(s: Screen, bytes: seq<Byte>): Screen
    decreases |bytes|
  {
    if bytes == [] then s else ShowAll(Show(s, bytes[0]), bytes[1..])
  }

  // ---------- The line editor

  datatype Reader = Reader(lines: seq<seq<Byte>>, line: seq<Byte>)

  /** A line is a stack: backspace pops, newline hands it over, anything else is pushed. */
  function Edit(r: Reader, b: Byte): Reader {
    if b == BACKSPACE then if r.line == [] then r else r.(line := r.line[..|r.line| - 1])
    else if b == NEWLINE then Reader(r.lines + [r.line], [])
    else r.(line := r.line + [b])
  }

  function EditAll(r: Reader, bytes: seq<Byte>): Reader
    decreases |bytes|
  {
    if bytes == [] then r else EditAll(Edit(r, bytes[0]), bytes[1..])
  }

  // ---------- The reader

  datatype Outcome =
    | Line(text: seq<Byte>, rest: seq<Byte>)  // the C string stored, and the bytes not read
    | Starved(line: seq<Byte>)                // still waiting for input
    | Overrun                                 // a store past the end of the buffer

  /** `_fgets` with `line` stored, `n` left of its count, and a buffer of `size` bytes. */
  function ReadLine(input: seq<Byte>, line: seq<Byte>, n: int, size: nat): Outcome
    decreases |input|
  {
    if input == [] then Starved(line)
    else if input[0] == BACKSPACE then
      if line == [] then ReadLine(input[1..], line, n, size)
      else ReadLine(input[1..], line[..|line| - 1], n + 1, size)
    else if |line| >= size then Overrun
    else if input[0] == NEWLINE || n - 1 == 1 then Line(line, input[1..])
    else ReadLine(input[1..], line + [input[0]], n - 1, size)
  }

  /** The lines that calls of `_fgets` with count `n` return until the input is used up. */
  function ReadLines(input: seq<Byte>, n: int, size: nat): seq<seq<Byte>>
    decreases |input|
  {
    var o := ReadLine(input, [], n, size);
    if o.Line? && |o.rest| < |input| then [o.text] + ReadLines(o.rest, n, size) else []
  }
}

// The driver and the reader as they run.

module TerminalDriver {
  import opened Words
  import opened Terminal

  /** Copying the front of what is left of a queue over the next byte. */
  lemma OneMoreCopied(queue: seq<Byte>, data: seq<Byte>, n: nat)
    requires n < |queue| && n < |data|
    ensures queue[n..][0] == queue[n] && queue[n..][1..] == queue[n + 1..]
    ensures (queue[..n] + data[n..])[n := queue[n]] == queue[..n + 1] + data[n + 1..]
  {
  }

  class UsartDriver {
    var readedBeforeNewline: int
    var echo: bool
    var buffer: seq<Byte>  // the FIFO, never full here
    var output: seq<Byte>  // everything written to the line

    function View(): Driver
      reads this
    {
      Driver(readedBeforeNewline, echo, buffer, output)
    }

    constructor ()
      ensures View() == Driver(0, true, [], [])
    {
      readedBeforeNewline, echo, buffer, output := 0, true, [], [];
    }

    method SetEcho(enable: bool)
      modifies this`echo
      ensures View() == old(View()).(echo := enable)
    {
      echo := enable;
    }

    /** The receive handler. */
    method OnData(byte: Byte)
      modifies this
      ensures View() == Handle(old(View()), byte)
    {
      var c := byte;
      if c == 127 {
        if readedBeforeNewline > 0 {
          if echo {
            output := output + [BACKSPACE, SPACE, BACKSPACE];
          }
          readedBeforeNewline := readedBeforeNewline - 1;
        }
        buffer := buffer + [BACKSPACE];
        return;
      } else if c == NEWLINE || c == RETURN {
        c := NEWLINE;
        readedBeforeNewline := -1;
      }
      if echo {
        output := output + CString(c);
      }
      buffer := buffer + [c];
      readedBeforeNewline := readedBeforeNewline + 1;
    }

    /** Takes as many bytes as are queued and fit. */
    method Read(data: array<Byte>) returns (length: nat)
      modifies this`buffer, data
      ensures length == if data.Length < |old(buffer)| then data.Length else |old(buffer)|
      ensures data[..] == old(buffer)[..length] + old(data[..])[length..]
      ensures buffer == old(buffer)[length..]
    {
      length := 0;
      var lengthToRead := if data.Length < |buffer| then data.Length else |buffer|;
      while length < lengthToRead
        invariant length <= lengthToRead && buffer == old(buffer)[length..]
        invariant data[..] == old(buffer)[..length] + old(data[..])[length..]
      {
        OneMoreCopied(old(buffer), old(data[..]), length);
        data[length] := buffer[0];
        buffer := buffer[1..];
        length := length + 1;
      }
    }
  }

  /** What the next byte does to reading a line. */
  lemma ReadStep(input: seq<Byte>, line: seq<Byte>, n: int, size: nat)
    requires input != []
    ensures ReadLine(input, line, n, size) ==
      if input[0] == BACKSPACE then
        if line == [] then ReadLine(input[1..], line, n, size)
        else ReadLine(input[1..], line[..|line| - 1], n + 1, size)
      else if |line| >= size then Overrun
      else if input[0] == NEWLINE || n - 1 == 1 then Line(line, input[1..])
      else ReadLine(input[1..], line + [input[0]], n - 1, size)
  {
  }

  lemma ReadNothing(line: seq<Byte>, n: int, size: nat)
    ensures ReadLine([], line, n, size) == Starved(line)
  {
  }

  /**
   * Reads bytes, one per successful `read`, into the buffer until a newline or until the count is
   * used up; `input` is what those reads deliver.
   */
  method Fgets(buffer: array<Byte>, size: int, input: seq<Byte>) returns (o: Outcome)
    modifies buffer
    ensures o == ReadLine(input, [], size, buffer.Length)
    ensures o.Line? ==> |o.text| < buffer.Length && buffer[..|o.text| + 1] == o.text + [0]
    ensures forall i :: 0 <= i < buffer.Length && i + 1 >= size && size >= 2 ==> buffer[i] == old(buffer[i])
  {
    hide ReadLine;
    var readed := -1;
    var n := size;
    var at := 0;
    var c: Byte := 0;
    ghost var line: seq<Byte> := [];
    while c != NEWLINE
      invariant 0 <= at <= |input| && -1 <= readed < buffer.Length && line == buffer[..readed + 1]
      invariant readed + 1 + n == size && (size >= 2 ==> n >= 2)
      invariant c != NEWLINE ==> ReadLine(input, [], size, buffer.Length) == ReadLine(input[at..], line, n, buffer.Length)
      invariant c == NEWLINE ==>
        readed >= 0 && ReadLine(input, [], size, buffer.Length) == Line(line[..readed], input[at..])
      invariant forall i :: 0 <= i < buffer.Length && i + 1 >= size && size >= 2 ==> buffer[i] == old(buffer[i])
      decreases c != NEWLINE, |input| - at
    {
      if at == |input| {
        ReadNothing(line, n, buffer.Length);
        return Starved(buffer[..readed + 1]);
      }
      ReadStep(input[at..], line, n, buffer.Length);
      assert input[at..][0] == input[at] && input[at..][1..] == input[at + 1..];
      c := input[at];
      at := at + 1;
      if c == BACKSPACE {
        if readed >= 0 {
          readed := readed - 1;
          n := n + 1;
          line := line[..readed + 1];
        }
        continue;
      }
      if readed + 1 == buffer.Length {
        return Overrun;
      }
      readed := readed + 1;
      buffer[readed] := c;
      line := line + [c];
      n := n - 1;
      if n == 1 {
        break;
      }
    }
    o := Line(buffer[..readed], input[at..]);
    buffer[readed] := 0;
  }
}
