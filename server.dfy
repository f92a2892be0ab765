/** The chat server (server/src/main.rs): the per-connection read step of
 *  `handle_client` and the fan-out loop of `main` over the `clients` vector. */
module Server {
  import opened Io
  import opened Text

  /** Size of the zero-initialised read buffer of every connection. */
  const BufferSize: nat := 512
  /** Texts of this many bytes or more are dropped unanswered. */
  const MaxTextBytes: nat := 100

  /** The command list that `/help` prints. */
  const HelpLines: seq<string> := ["/help - Помощь", "/name [nickname] - Сменить ник", "/whoami - Кто я?"]
  const HelpReply: string := "System: " + Join(HelpLines, " | ") + "^"
  const UnknownReply: string := "System: Неизвестная команда^"

  function WhoAmIReply(name: string): string { "System: Your name is " + name + "^" }
  function ChatLine(name: string, text: string): string { name + ": " + text + "^" }
  function RenameNotice(before: string, after: string): string { "Server: " + before + " changed to " + after + "^" }
  function ConnectNotice(name: string): string { "Server: " + name + " connected to chat!^" }

  /** The text of one read: the whole buffer trimmed, then stripped of NUL
   *  padding, then every `^` (the frame delimiter) escaped to `#`. */
  function Decode(buf: string): (text: string)
    ensures '^' !in text && Nul !in text
    ensures |text| <= |buf|
  {
    var t := Remove(Trim(buf), Nul);
    assert forall i :: 0 <= i < |t| ==> t[i] in t;
    Replace(t, '^', '#')
  }

  /** A read of `d` into the zeroed buffer: since the padding ends the buffer,
   *  only leading whitespace is trimmed; whitespace before the padding stays. */
  lemma DecodeRead(d: string, n: nat)
    requires n > 0 && Nul !in d
    ensures Decode(d + Zeros(n)) == Replace(TrimStart(d), '^', '#')
  {
    var t := TrimStart(d);
    assert Nul !in t;
    TrimPadded(d, n);
    StripPadding(t, n);
  }

  /** Text that needs no trimming or escaping arrives exactly as sent. */
  lemma DecodeClean(t: string, n: nat)
    requires n > 0 && Nul !in t && '^' !in t
    requires t == [] || !IsWhitespace(t[0])
    ensures Decode(t + Zeros(n)) == t
  {
    DecodeRead(t, n);
    assert TrimStart(t) == t;
  }

  /** One decoded text, classified the way `handle_client` dispatches it. */
  datatype Request =
    | Chat(text: string)          // does not start with '/'
    | Help                        // command word "help"
    | Rename(newName: string)     // command word "name" followed by a space
    | BareName                    // "/name" alone
    | WhoAmI                      // command word "whoami"
    | Unknown(word: string)       // any other command word, the empty one included

  /** The command word: the text after '/' up to the first space. */
  function CommandWord(text: string): string
    requires text != []
  {
    text[1..][..IndexOf(text[1..], ' ')]
  }

  /** The dispatch of a text: `split(" ")` of what follows '/', matched on the
   *  first piece; a rename takes the remaining pieces joined by " ". */
  function Parse(text: string): (r: Request)
    ensures r.Chat? <==> text == [] || text[0] != '/'
    ensures r.Chat? ==> r.text == text
  {
    if text == [] || text[0] != '/' then Chat(text)
    else
      var words := Split(text[1..], ' ');
      if words[0] == "help" then Help
      else if words[0] == "name" then
        if |words| > 1 then Rename(Join(words[1..], " ")) else BareName
      else if words[0] == "whoami" then WhoAmI
      else Unknown(words[0])
  }

  /** How a command is classified: by its command word alone, except that
   *  "name" is a rename exactly when a space follows it, and the new name is
   *  everything after "/name ", spaces included. */
  lemma ParseCommand(text: string)
    requires text != [] && text[0] == '/'
    ensures Parse(text).Help? <==> CommandWord(text) == "help"
    ensures Parse(text).WhoAmI? <==> CommandWord(text) == "whoami"
    ensures Parse(text).Rename? || Parse(text).BareName? <==> CommandWord(text) == "name"
    ensures Parse(text).Rename? <==> |text| >= 6 && text[..6] == "/name "
    ensures Parse(text).Rename? ==> Parse(text).newName == text[6..]
    ensures Parse(text).BareName? <==> text == "/name"
    ensures Parse(text).Unknown? <==> CommandWord(text) !in {"help", "name", "whoami"}
    ensures Parse(text).Unknown? ==> Parse(text).word == CommandWord(text)
  {
    SplitFirst(text[1..], ' ');
    if CommandWord(text) == "name" {
      NameCommand(text);
    } else {
      NotNameCommand(text);
    }
  }

  /** Facts about texts whose command word is "name". */
  lemma NameCommand(text: string)
    requires text != [] && text[0] == '/' && CommandWord(text) == "name"
    ensures IndexOf(text[1..], ' ') == 4
    ensures text[..5] == "/name"
    ensures IndexOf(text[1..], ' ') < |text[1..]| <==> |text| >= 6 && text[..6] == "/name "
    ensures IndexOf(text[1..], ' ') == |text[1..]| <==> text == "/name"
  {
    assert text == [text[0]] + text[1..];
    assert text[1..][..4] == "name";
  }

  /** A text whose command word is not "name" is neither "/name" nor starts with "/name ". */
  lemma NotNameCommand(text: string)
    requires text != [] && text[0] == '/' && CommandWord(text) != "name"
    ensures text != "/name"
    ensures !(|text| >= 6 && text[..6] == "/name ")
  {
    var rest := text[1..];
    if text == "/name" {
      IndexOfIs(rest, ' ', 4);
    }
    if |text| >= 6 && text[..6] == "/name " {
      assert rest[..4] == "name" && rest[4] == ' ';
      IndexOfIs(rest, ' ', 4);
    }
  }

  /** What a text does: nothing, a reply to its sender, or a message for every
   *  client; and the sender's name afterwards. */
  datatype Effect = Silent | Reply(text: string) | Broadcast(text: string)
  datatype Outcome = Outcome(effect: Effect, name: string)

  /** The reaction of `handle_client` to one decoded text from the connection
   *  called `name`: texts outside the length bounds are dropped, the rest
   *  parsed and dispatched. */
  function Respond(name: string, text: string): (out: Outcome)
    ensures !(0 < ByteLen(text) < MaxTextBytes) ==> out == Outcome(Silent, name)
    ensures out.name != name ==> |text| >= 6 && text[..6] == "/name " && out.name == text[6..]
    ensures out.effect.Broadcast? ==>
      out.effect.text == ChatLine(name, text) || out.effect.text == RenameNotice(name, out.name)
  {
    if !(0 < ByteLen(text) < MaxTextBytes) then Outcome(Silent, name)
    else
      var r := Parse(text);
      if r.Rename? then ParseCommand(text); Dispatch(name, r) else Dispatch(name, r)
  }

  /** The branch of the command match taken for a parsed request. */
  function Dispatch(name: string, r: Request): (out: Outcome)
    ensures out.name != name ==> r.Rename? && out.name == r.newName
    ensures out.effect.Broadcast? <==> r.Chat? || r.Rename?
  {
    match r
    case Chat(t) => Outcome(Broadcast(ChatLine(name, t)), name)
    case Help => Outcome(Reply(HelpReply), name)
    case Rename(newName) => Outcome(Broadcast(RenameNotice(name, newName)), newName)
    case BareName => Outcome(Silent, name)
    case WhoAmI => Outcome(Reply(WhoAmIReply(name)), name)
    case Unknown(_) => Outcome(Reply(UnknownReply), name)
  }

  /** A text of accepted length that does not start with '/' is broadcast as a
   *  chat line under the sender's name. */
  lemma RespondChat(name: string, text: string)
    requires 0 < ByteLen(text) < MaxTextBytes && text[0] != '/'
    ensures Respond(name, text) == Outcome(Broadcast(ChatLine(name, text)), name)
  {
  }

  /** "/name " followed by anything renames the connection to that rest and
   *  tells every client. */
  lemma RespondRename(name: string, text: string)
    requires 0 < ByteLen(text) < MaxTextBytes && |text| >= 6 && text[..6] == "/name "
    ensures Respond(name, text) == Outcome(Broadcast(RenameNotice(name, text[6..])), text[6..])
  {
    calc {
      Respond(name, text);
      Dispatch(name, Parse(text));
      { ParseRename(text); }
      Dispatch(name, Rename(text[6..]));
    }
  }

  /** A text starting with "/name " parses as a rename to the rest of it. */
  lemma ParseRename(text: string)
    requires |text| >= 6 && text[..6] == "/name "
    ensures Parse(text) == Rename(text[6..])
  {
    assert text[0] == text[..6][0];
    ParseCommand(text);
  }

  /** "/name" without an argument is ignored. */
  lemma RespondBareName(name: string)
    ensures Respond(name, "/name") == Outcome(Silent, name)
  {
    ParseCommand("/name");
  }

  /** "/help" (with any arguments) answers the sender with the command list. */
  lemma RespondHelp(name: string, text: string)
    requires 0 < ByteLen(text) < MaxTextBytes && text[0] == '/' && CommandWord(text) == "help"
    ensures Respond(name, text) == Outcome(Reply(HelpReply), name)
  {
    ParseCommand(text);
  }

  /** "/whoami" (with any arguments) answers the sender with their name. */
  lemma RespondWhoAmI(name: string, text: string)
    requires 0 < ByteLen(text) < MaxTextBytes && text[0] == '/' && CommandWord(text) == "whoami"
    ensures Respond(name, text) == Outcome(Reply(WhoAmIReply(name)), name)
  {
    ParseCommand(text);
  }

  /** Any other command word, the empty one included, is answered as unknown. */
  lemma RespondUnknown(name: string, text: string)
    requires 0 < ByteLen(text) < MaxTextBytes && text[0] == '/'
    requires CommandWord(text) !in {"help", "name", "whoami"}
    ensures Respond(name, text) == Outcome(Reply(UnknownReply), name)
  {
    ParseCommand(text);
  }

  /** A name free of the delimiter stays free of it, and everything a
   *  connection broadcasts is then exactly one frame. */
  lemma BroadcastIsOneFrame(name: string, text: string)
    requires '^' !in name && '^' !in text
    ensures '^' !in Respond(name, text).name
    ensures Respond(name, text).effect.Broadcast? ==>
      var b := Respond(name, text).effect.text;
      b[|b| - 1] == '^' && Pieces(b, '^') == [b[..|b| - 1]]
  {
    var out := Respond(name, text);
    if out.name != name {
      assert '^' !in text[6..] by {
        assert forall x :: x in text[6..] ==> x in text;
      }
    }
    if out.effect.Broadcast? {
      var body := if out.effect.text == ChatLine(name, text) then name + ": " + text
        else "Server: " + name + " changed to " + out.name;
      assert out.effect.text == body + "^";
      OneFrame(body);
    }
  }

  /** A delimiter-free body followed by the delimiter is one frame. */
  lemma OneFrame(body: string)
    requires body != [] && '^' !in body
    ensures Pieces(body + "^", '^') == [body]
  {
    assert Encode([body], '^') == body + "^";
    PiecesEncode([body], '^');
  }

  /** "/name " arriving with its trailing space (kept because the padding
   *  follows it) renames the connection to the empty string. */
  lemma TrailingSpaceRename(name: string)
    ensures Decode("/name " + Zeros(BufferSize - 6)) == "/name "
    ensures Respond(name, "/name ") == Outcome(Broadcast(RenameNotice(name, "")), "")
  {
    TrailingSpaceKept();
    RenameToEmpty(name);
  }

  /** The space before the padding survives decoding. */
  lemma TrailingSpaceKept()
    ensures Decode("/name " + Zeros(BufferSize - 6)) == "/name "
  {
    DecodeClean("/name ", BufferSize - 6);
  }

  /** "/name " is a rename to the empty name. */
  lemma RenameToEmpty(name: string)
    ensures Respond(name, "/name ") == Outcome(Broadcast(RenameNotice(name, "")), "")
  {
    var t := "/name ";
    assert ByteLen(t) == 6 by {
      assert forall i :: 0 <= i < |t| ==> t[i] < '\U{0080}';
    }
    RespondRename(name, t);
    assert t[6..] == [];
  }

  /** The sending side of the bounded mpsc channel, shared by every connection
   *  and drained by the server loop. */
  class Channel {
    var queue: seq<string>

    constructor ()
      ensures queue == []
    {
      queue := [];
    }

    /** `tx.send(msg)`. */
    method Send(msg: string)
      modifies this
      ensures queue == old(queue) + [msg]
    {
      queue := queue + [msg];
    }

    /** `rx.try_recv()`: the oldest queued message, if there is one. */
    method TryRecv() returns (m: Option<string>)
      modifies this
      ensures old(queue) == [] ==> m == None && queue == []
      ensures old(queue) != [] ==> m == Some(old(queue)[0]) && queue == old(queue)[1..]
    {
      if queue == [] {
        return None;
      }
      m := Some(queue[0]);
      queue := queue[1..];
    }
  }

  /** How one iteration of the read loop ended. */
  datatype StepResult =
    | Continue(effect: Effect)   // the loop goes on; `effect` is what the text caused
    | Closed                     // a zero-byte read: `Ok(())`
    | Errored                    // a read error or a failed reply write: `Err`

  /** The state `handle_client` keeps for one connection. */
  class Connection {
    var name: string
    const buf: array<char>
    const tx: Channel

    /** Between reads the whole buffer is padding. */
    ghost predicate Valid()
      reads this, buf
    {
      buf.Length == BufferSize && forall i :: 0 <= i < BufferSize ==> buf[i] == Nul
    }

    /** The connection starts named after its peer address and announces itself. */
    constructor (peer: string, tx: Channel)
      modifies tx
      ensures Valid() && fresh(buf)
      ensures name == peer && this.tx == tx
      ensures tx.queue == old(tx.queue) + [ConnectNotice(peer)]
    {
      name := peer;
      buf := new char[BufferSize](_ => Nul);
      this.tx := tx;
      new;
      tx.Send(ConnectNotice(peer));
    }

    /** The read puts `data` at the front of the zeroed buffer; the buffer is
     *  decoded and zeroed again. */
    method Consume(data: string) returns (text: string)
      requires Valid() && |data| <= BufferSize
      modifies buf
      ensures Valid()
      ensures text == Decode(data + Zeros(BufferSize - |data|))
    {
      forall i | 0 <= i < |data| {
        buf[i] := data[i];
      }
      ghost var filled := data + Zeros(BufferSize - |data|);
      assert forall j :: 0 <= j < BufferSize ==> buf[j] == filled[j];
      assert buf[..] == filled;
      text := Decode(buf[..]);
      Clear();
    }

    /** `buf.iter_mut().for_each(|x| *x = 0)`. */
    method Clear()
      requires buf.Length == BufferSize
      modifies buf
      ensures Valid()
    {
      var i := 0;
      while i < buf.Length
        invariant 0 <= i <= buf.Length
        invariant forall j :: 0 <= j < i ==> buf[j] == Nul
      {
        buf[i] := Nul;
        i := i + 1;
      }
    }

    /** One iteration of the read loop. `read` is what the read returned and
     *  `replySent` whether writing a reply back to this client succeeds. */
    method Step(read: ReadOutcome, replySent: bool) returns (r: StepResult)
      requires Valid()
      requires read.Bytes? ==> |read.data| <= BufferSize
      modifies this, buf, tx
      ensures Valid()
      ensures !read.Bytes? ==> r == Errored && name == old(name) && tx.queue == old(tx.queue)
      ensures read == Bytes([]) ==> r == Closed && name == old(name) && tx.queue == old(tx.queue)
      ensures read.Bytes? && read.data != [] ==>
        var out := Respond(old(name), Decode(read.data + Zeros(BufferSize - |read.data|)));
        && r == (if out.effect.Reply? && !replySent then Errored else Continue(out.effect))
        && name == out.name
        && tx.queue == old(tx.queue) + (if out.effect.Broadcast? then [out.effect.text] else [])
    {
      if !read.Bytes? {
        return Errored;
      }
      var data := read.data;
      if |data| == 0 {
        return Closed;
      }
      var text := Consume(data);
      var out := Respond(name, text);
      name := out.name;
      match out.effect
      case Reply(_) =>
        r := if replySent then Continue(out.effect) else Errored;
      case Broadcast(msg) =>
        tx.Send(msg);
        r := Continue(out.effect);
      case Silent =>
        r := Continue(out.effect);
    }
  }

  /** One entry of `clients`: the peer address, and in place of its socket
   *  everything the fan-out wrote to it (replies from `handle_client` go to
   *  the same socket but are not recorded here). */
  datatype Client = Client(addr: string, written: seq<string>)

  /** Frames as they go on the wire, each followed by the delimiter. */
  function Framed(frames: seq<string>): (w: seq<string>)
    ensures |w| == |frames|
    ensures forall i :: 0 <= i < |w| ==> w[i] == frames[i] + "^"
  {
    if frames == [] then [] else [frames[0] + "^"] + Framed(frames[1..])
  }

  /** What the fan-out of the first `n` pieces of a split message writes to
   *  client `j`: `piece + "^"` for every non-empty piece whose write
   *  `delivered(piece index, j)` succeeded. */
  function WritesTo(parts: seq<string>, n: nat, j: nat, delivered: (nat, nat) -> bool): seq<string>
    requires n <= |parts|
  {
    if n == 0 then [] else
      var last := if parts[n - 1] != [] && delivered(n - 1, j) then [parts[n - 1] + "^"] else [];
      WritesTo(parts, n - 1, j, delivered) + last
  }

  /** Everything the fan-out of message `msg` writes to client `j`. */
  function FanOut(msg: string, j: nat, delivered: (nat, nat) -> bool): seq<string>
  {
    WritesTo(Split(msg, '^'), |Split(msg, '^')|, j, delivered)
  }

  /** When every write to client `j` succeeds, it receives each non-empty
   *  piece once, in order, followed by the delimiter. */
  lemma {:induction false} WritesAllDelivered(parts: seq<string>, n: nat, j: nat, delivered: (nat, nat) -> bool)
    requires n <= |parts|
    requires forall k :: delivered(k, j)
    ensures WritesTo(parts, n, j, delivered) == Framed(NonEmpty(parts[..n]))
  {
    if n > 0 {
      assert delivered(n - 1, j);
      WritesAllDelivered(parts, n - 1, j, delivered);
      FramedSnoc(parts, n - 1);
    }
  }

  /** Framing the non-empty pieces of one more piece adds its frame, if any. */
  lemma FramedSnoc(parts: seq<string>, k: nat)
    requires k < |parts|
    ensures Framed(NonEmpty(parts[..k + 1])) ==
      Framed(NonEmpty(parts[..k])) + (if parts[k] == [] then [] else [parts[k] + "^"])
  {
    NonEmptySnoc(parts, k);
    var last := if parts[k] == [] then [] else [parts[k]];
    FramedConcat(NonEmpty(parts[..k]), last);
  }

  /** Framing distributes over concatenation. */
  lemma {:induction false} FramedConcat(a: seq<string>, b: seq<string>)
    ensures Framed(a + b) == Framed(a) + Framed(b)
  {
  }

  /** What client `j` receives depends only on its own writes: a failed write
   *  to another client does not stop or change the writes to `j`. */
  lemma {:induction false} WritesIgnoreOtherClients(parts: seq<string>, n: nat, j: nat, d1: (nat, nat) -> bool, d2: (nat, nat) -> bool)
    requires n <= |parts|
    requires forall k :: d1(k, j) == d2(k, j)
    ensures WritesTo(parts, n, j, d1) == WritesTo(parts, n, j, d2)
  {
    if n > 0 {
      WritesIgnoreOtherClients(parts, n - 1, j, d1, d2);
    }
  }

  /** A message that is one delimited frame is written exactly once to every
   *  client whose write succeeds. */
  lemma SingleFrameFanOut(body: string, j: nat, delivered: (nat, nat) -> bool)
    requires body != [] && '^' !in body
    ensures FanOut(body + "^", j, delivered) == if delivered(0, j) then [body + "^"] else []
  {
    var parts := Split(body + "^", '^');
    assert body + "^" == body + ['^'] + [];
    SplitAt(body, '^', []);
    assert Split([], '^') == [[]];
    assert parts == [body, []];
    assert WritesTo(parts, 1, j, delivered) == if delivered(0, j) then [body + "^"] else [];
  }

  /** An empty piece is written to no client. */
  lemma SkipEmpty(parts: seq<string>, k: nat, delivered: (nat, nat) -> bool)
    requires k < |parts| && parts[k] == []
    ensures forall j: nat :: WritesTo(parts, k + 1, j, delivered) == WritesTo(parts, k, j, delivered)
  {
    forall j: nat
      ensures WritesTo(parts, k + 1, j, delivered) == WritesTo(parts, k, j, delivered)
    {
      assert WritesTo(parts, k, j, delivered) + [] == WritesTo(parts, k, j, delivered);
    }
  }

  /** The `clients` registry together with the receiving end of the channel:
   *  the state of the server's main loop. */
  class Router {
    var clients: seq<Client>
    const rx: Channel

    constructor (rx: Channel)
      ensures clients == [] && this.rx == rx
    {
      clients := [];
      this.rx := rx;
    }

    /** Whether `after` is `before` with the fan-out of `msg` appended to each client. */
    ghost predicate FannedOut(before: seq<Client>, after: seq<Client>, msg: string, delivered: (nat, nat) -> bool)
    {
      && |after| == |before|
      && forall j :: 0 <= j < |after| ==>
           after[j] == before[j].(written := before[j].written + FanOut(msg, j, delivered))
    }

    /** The first half of the loop body: take at most one queued message and
     *  fan it out. */
    method Drain(delivered: (nat, nat) -> bool)
      modifies this, rx
      ensures old(rx.queue) == [] ==> rx.queue == [] && clients == old(clients)
      ensures old(rx.queue) != [] ==>
        rx.queue == old(rx.queue)[1..] && FannedOut(old(clients), clients, old(rx.queue)[0], delivered)
    {
      var received := rx.TryRecv();
      if received.Some? {
        Deliver(received.value, delivered);
      }
    }

    /** Each non-empty piece of `msg`, followed by "^", is written to every
     *  client in index order; a failed write is ignored. */
    method Deliver(msg: string, delivered: (nat, nat) -> bool)
      modifies this
      ensures FannedOut(old(clients), clients, msg, delivered)
    {
      var parts := Split(msg, '^');
      ghost var start := clients;
      var k := 0;
      while k < |parts|
        invariant 0 <= k <= |parts| && |clients| == |start|
        invariant forall j :: 0 <= j < |clients| ==>
          clients[j] == start[j].(written := start[j].written + WritesTo(parts, k, j, delivered))
      {
        if |parts[k]| > 0 {
          WriteAll(parts, k, delivered, start);
        } else {
          SkipEmpty(parts, k, delivered);
        }
        k := k + 1;
      }
      assert forall j :: 0 <= j < |clients| ==> FanOut(msg, j, delivered) == WritesTo(parts, k, j, delivered);
    }

    /** The inner loop: piece `k` of the message, followed by "^", is written
     *  to each client in index order, whether or not earlier writes failed. */
    method WriteAll(parts: seq<string>, k: nat, delivered: (nat, nat) -> bool, ghost start: seq<Client>)
      requires k < |parts| && parts[k] != []
      requires |clients| == |start|
      requires forall j :: 0 <= j < |clients| ==>
        clients[j] == start[j].(written := start[j].written + WritesTo(parts, k, j, delivered))
      modifies this
      ensures |clients| == |start|
      ensures forall j :: 0 <= j < |clients| ==>
        clients[j] == start[j].(written := start[j].written + WritesTo(parts, k + 1, j, delivered))
    {
      var i := 0;
      while i < |clients|
        invariant 0 <= i <= |clients| && |clients| == |start|
        invariant forall j :: 0 <= j < i ==>
          clients[j] == start[j].(written := start[j].written + WritesTo(parts, k + 1, j, delivered))
        invariant forall j :: i <= j < |clients| ==>
          clients[j] == start[j].(written := start[j].written + WritesTo(parts, k, j, delivered))
      {
        ghost var before := WritesTo(parts, k, i, delivered);
        assert WritesTo(parts, k + 1, i, delivered) == before + (if delivered(k, i) then [parts[k] + "^"] else []);
        if delivered(k, i) {
          clients := clients[i := clients[i].(written := clients[i].written + [parts[k] + "^"])];
          assert start[i].written + before + [parts[k] + "^"] == start[i].written + (before + [parts[k] + "^"]);
        } else {
          assert before + [] == before;
        }
        i := i + 1;
      }
    }

    /** The second half: an accepted connection is pushed onto `clients` and its
     *  read loop starts, named after the peer address. */
    method Accept(addr: string) returns (conn: Connection)
      modifies this, rx
      ensures clients == old(clients) + [Client(addr, [])]
      ensures fresh(conn) && fresh(conn.buf) && conn.Valid()
      ensures conn.name == addr && conn.tx == rx
      ensures rx.queue == old(rx.queue) + [ConnectNotice(addr)]
    {
      clients := clients + [Client(addr, [])];
      conn := new Connection(addr, rx);
    }

    /** One iteration of the main loop; `incoming` is the address of the
     *  connection `accept` returned, if any. Clients are only ever added. */
    method Tick(incoming: Option<string>, delivered: (nat, nat) -> bool) returns (conn: Option<Connection>)
      modifies this, rx
      ensures |clients| == |old(clients)| + (if incoming.Some? then 1 else 0)
      ensures forall j :: 0 <= j < |old(clients)| ==>
        clients[j] == old(clients[j]).(written := old(clients[j]).written
          + (if old(rx.queue) == [] then [] else FanOut(old(rx.queue)[0], j, delivered)))
      ensures incoming.Some? ==> clients[|old(clients)|] == Client(incoming.value, [])
      ensures conn.Some? <==> incoming.Some?
      ensures conn.Some? ==> fresh(conn.value) && conn.value.Valid() && conn.value.name == incoming.value
      ensures conn.Some? ==> conn.value.tx == rx
      ensures rx.queue == (if old(rx.queue) == [] then [] else old(rx.queue)[1..])
        + (if incoming.Some? then [ConnectNotice(incoming.value)] else [])
    {
      Drain(delivered);
      conn := None;
      if incoming.Some? {
        var c := Accept(incoming.value);
        conn := Some(c);
      }
    }
  }
}
