/** The terminal client (client/src/main.rs): the message log and input box of
 *  `run_app`, and the arithmetic of `ui` that decides what is shown. */
module Client {
  import opened Io
  import opened Text

  /** Size of the client's zero-initialised read buffer. */
  const BufferSize: nat := 512
  /** Keys edit the input only while it is shorter than this many bytes. */
  const MaxInputBytes: nat := 100
  /** Logged when sending the input fails. */
  const NotSentNotice: string := "Сообщение не отправленно :("

  /** The frames one read delivers: the buffer trimmed, stripped of NUL
   *  padding, split on "^", empty pieces dropped. */
  function Received(buf: string): (frames: seq<string>)
    ensures forall i :: 0 <= i < |frames| ==> frames[i] != [] && '^' !in frames[i] && Nul !in frames[i]
  {
    var text := Remove(Trim(buf), Nul);
    PiecesAvoid(text, '^', Nul);
    Pieces(text, '^')
  }

  /** A read of nothing (the buffer is all padding) logs nothing. */
  lemma ReceivedNothing(n: nat)
    ensures Received(Zeros(n)) == []
  {
    if n > 0 {
      assert Zeros(n) == [] + Zeros(n);
      TrimPadded([], n);
    }
    RemoveZeros(n);
    assert Split([], '^') == [[]];
  }

  /** What a server writes is what the client logs: delimited frames that
   *  neither start with whitespace nor contain NUL come out one log entry
   *  each, in order, whether or not padding follows them. */
  lemma {:induction false} ReceivedFrames(frames: seq<string>, n: nat)
    requires forall i :: 0 <= i < |frames| ==> frames[i] != [] && '^' !in frames[i] && Nul !in frames[i]
    requires frames != [] ==> !IsWhitespace(frames[0][0])
    ensures Received(Encode(frames, '^') + Zeros(n)) == frames
  {
    var e := Encode(frames, '^');
    EncodeAvoids(frames, '^', Nul);
    if frames != [] {
      assert e[0] == e[..|frames[0]|][0] == frames[0][0];
    }
    CleanPadded(e, n);
    PiecesEncode(frames, '^');
  }

  /** A character that is neither the separator nor in any frame is not in the encoding. */
  lemma {:induction false} EncodeAvoids(frames: seq<string>, sep: char, c: char)
    requires c != sep && forall i :: 0 <= i < |frames| ==> c !in frames[i]
    ensures c !in Encode(frames, sep)
  {
    if frames != [] {
      EncodeAvoids(frames[1..], sep, c);
      assert Encode(frames, sep) == frames[0] + [sep] + Encode(frames[1..], sep);
    }
  }

  /** The `tui_input` input box: its text and cursor position (in characters). */
  datatype Input = Input(value: string, cursor: nat)

  /** `Input::default()`, and what `reset` leaves. */
  const EmptyInput: Input := Input([], 0)

  /** A key press. For keys other than Enter and Esc, `edited` is the input the
   *  `tui_input` library would make of the current one. */
  datatype Key = Enter | Esc | Other(edited: Input)

  /** The client's state: the input box, the message log and the read buffer. */
  class App {
    var input: Input
    var messages: seq<string>
    const buf: array<char>

    /** Between reads the whole buffer is padding. */
    ghost predicate Valid()
      reads this, buf
    {
      buf.Length == BufferSize && forall i :: 0 <= i < BufferSize ==> buf[i] == Nul
    }

    constructor ()
      ensures Valid() && fresh(buf)
      ensures input == EmptyInput && messages == []
    {
      input := EmptyInput;
      messages := [];
      buf := new char[BufferSize](_ => Nul);
    }

    /** A key press. Enter sends the input (`sent`); on success the input is
     *  reset, on failure it is kept and a notice is logged. Esc ends the loop
     *  without writing anything. Other keys edit the input while it is short. */
    method HandleKey(key: Key, sendOk: bool) returns (exit: bool, sent: Option<string>)
      modifies this
      ensures exit <==> key.Esc?
      ensures sent == if key.Enter? then Some(old(input.value)) else None
      ensures key.Enter? && sendOk ==> input == EmptyInput && messages == old(messages)
      ensures key.Enter? && !sendOk ==> input == old(input) && messages == old(messages) + [NotSentNotice]
      ensures key.Esc? ==> input == old(input) && messages == old(messages)
      ensures key.Other? ==> messages == old(messages)
      ensures key.Other? ==> input == if ByteLen(old(input.value)) < MaxInputBytes then key.edited else old(input)
    {
      exit, sent := false, None;
      match key
      case Enter =>
        sent := Some(input.value);
        if sendOk {
          input := EmptyInput;
        } else {
          messages := messages + [NotSentNotice];
        }
      case Esc =>
        exit := true;
      case Other(edited) =>
        if ByteLen(input.value) < MaxInputBytes {
          input := edited;
        }
    }

    /** The read at the end of each iteration. A successful read (even of zero
     *  bytes) logs the frames in the buffer and zeroes it; WouldBlock logs
     *  nothing; any other error logs its description. */
    method Receive(read: ReadOutcome)
      requires Valid()
      requires read.Bytes? ==> |read.data| <= BufferSize
      modifies this, buf
      ensures Valid() && input == old(input)
      ensures messages == old(messages) + match read
        case Bytes(data) => Received(data + Zeros(BufferSize - |data|))
        case WouldBlock => []
        case Failed(debug) => [debug]
    {
      match read
      case Bytes(data) =>
        Fill(data);
        var parts := Split(Remove(Trim(buf[..]), Nul), '^');
        Log(parts);
        Clear();
      case WouldBlock =>
      case Failed(debug) =>
        messages := messages + [debug];
    }

    /** The read puts `data` at the front of the zeroed buffer. */
    method Fill(data: string)
      requires Valid() && |data| <= BufferSize
      modifies buf
      ensures buf[..] == data + Zeros(BufferSize - |data|)
    {
      forall i | 0 <= i < |data| {
        buf[i] := data[i];
      }
      ghost var filled := data + Zeros(BufferSize - |data|);
      assert forall j :: 0 <= j < BufferSize ==> buf[j] == filled[j];
    }

    /** `for rawdt in msg.split("^") { if rawdt.len() > 0 { push } }`. */
    method Log(parts: seq<string>)
      modifies this
      ensures messages == old(messages) + NonEmpty(parts) && input == old(input)
    {
      var k := 0;
      while k < |parts|
        invariant 0 <= k <= |parts| && input == old(input)
        invariant messages == old(messages) + NonEmpty(parts[..k])
      {
        NonEmptySnoc(parts, k);
        if |parts[k]| > 0 {
          messages := messages + [parts[k]];
        }
        k := k + 1;
      }
      assert parts[..k] == parts;
    }

    /** `buf.iter_mut().for_each(|x| *x = 0)`. */
    method Clear()
      requires buf.Length == BufferSize
      modifies buf
      ensures Valid()
    {
      var i := 0;
      while i < buf.Length
        invariant 0 <= i <= buf.Length
        invariant forall j :: 0 <= j < i ==> buf[j] == Nul
      {
        buf[i] := Nul;
        i := i + 1;
      }
    }

    /** One iteration of the loop of `run_app` (drawing aside): the key polled,
     *  if any, then the read. Esc returns before reading. */
    method Tick(key: Option<Key>, sendOk: bool, read: ReadOutcome) returns (exit: bool, sent: Option<string>)
      requires Valid()
      requires read.Bytes? ==> |read.data| <= BufferSize
      modifies this, buf
      ensures Valid()
      ensures exit <==> key == Some(Esc)
      ensures sent == if key == Some(Enter) then Some(old(input.value)) else None
      ensures exit ==> messages == old(messages) && input == old(input)
      ensures !exit ==> input == KeyInput(old(input), key, sendOk)
      ensures !exit ==> messages == old(messages) + KeyLog(key, sendOk) + match read
        case Bytes(data) => Received(data + Zeros(BufferSize - |data|))
        case WouldBlock => []
        case Failed(debug) => [debug]
    {
      exit, sent := false, None;
      if key.Some? {
        exit, sent := HandleKey(key.value, sendOk);
        if exit {
          return;
        }
      }
      ghost var logged := messages;
      assert logged == old(messages) + KeyLog(key, sendOk);
      Receive(read);
    }
  }

  /** The input after a key press other than Esc: reset by a successful send,
   *  replaced by the edit while it is under the byte limit, otherwise kept. */
  function KeyInput(input: Input, key: Option<Key>, sendOk: bool): Input
  {
    match key
    case Some(Enter) => if sendOk then EmptyInput else input
    case Some(Other(edited)) => if ByteLen(input.value) < MaxInputBytes then edited else input
    case _ => input
  }

  /** What a key press adds to the log: the notice of a failed send. */
  function KeyLog(key: Option<Key>, sendOk: bool): seq<string>
  {
    if key == Some(Enter) && !sendOk then [NotSentNotice] else []
  }

  /** Unsigned 16-bit terminal coordinates. */
  newtype u16 = x: int | 0 <= x < 0x1_0000

  function Min(a: int, b: int): int { if a < b then a else b }
  function Max(a: int, b: int): int { if a < b then b else a }

  /** `cursor as u16`: the cursor position truncated to 16 bits. */
  function CursorU16(cursor: nat): (c: u16)
    ensures c as int == cursor % 0x1_0000
    ensures cursor < 0x1_0000 ==> c as int == cursor
  {
    (cursor % 0x1_0000) as u16
  }

  /** `area.max(3) - 3`: the columns left for text after two for the borders
   *  and one for the cursor; an area narrower than 3 leaves none, without
   *  underflow. */
  function InputWidth(area: u16): (width: u16)
    ensures width <= area
    ensures area >= 3 ==> width as int + 3 == area as int
    ensures area < 3 ==> width == 0
  {
    (Max(area as int, 3) - 3) as u16
  }

  /** `(cursor as u16).max(width) - width`: how far the text is scrolled so the
   *  cursor stays in the box; zero exactly when the cursor fits. */
  function Scroll(cursor: nat, width: u16): (scroll: u16)
    ensures scroll as int + Min(CursorU16(cursor) as int, width as int) == CursorU16(cursor) as int
    ensures scroll == 0 <==> CursorU16(cursor) <= width
  {
    (Max(CursorU16(cursor) as int, width as int) - width as int) as u16
  }

  /** `(cursor as u16).min(width)`: the cursor's column inside the box. */
  function CursorColumn(cursor: nat, width: u16): (column: u16)
    ensures column <= width && column <= CursorU16(cursor)
    ensures column as int + Scroll(cursor, width) as int == CursorU16(cursor) as int
  {
    Min(CursorU16(cursor) as int, width as int) as u16
  }

  /** The messages shown in a list `height` rows high: the last
   *  `min(len, height)` of them, in their original order. */
  function Visible(messages: seq<string>, height: u16): (shown: seq<string>)
    ensures |shown| == Min(|messages|, height as int)
    ensures shown == messages[|messages| - |shown|..]
  {
    if |messages| > height as int then messages[|messages| - height as int..] else messages[..]
  }
}
