/** The two programs together: what one connection says, as every other
 *  client's log shows it. */
module Wire {
  import opened Text
  import Server
  import Client

  /** A chat text decoded by the server from any buffer is broadcast as one
   *  frame; the fan-out writes it once to each client whose write succeeds,
   *  and a client that reads it in one read logs exactly "<name>: <text>". */
  lemma ChatReachesClient(name: string, raw: string, j: nat, delivered: (nat, nat) -> bool)
    requires name != [] && !IsWhitespace(name[0]) && '^' !in name && Nul !in name
    requires var text := Server.Decode(raw);
      0 < ByteLen(text) < Server.MaxTextBytes && text[0] != '/' && |name| + |text| + 3 <= Client.BufferSize
    ensures Delivered(name, Server.Decode(raw), j, delivered)
  {
    var text := Server.Decode(raw);
    Server.RespondChat(name, text);
    ChatLineFannedOut(name, text, j, delivered);
    ChatLineLogged(name, text, Client.BufferSize - |Server.ChatLine(name, text)|);
  }

  /** `text` from the connection `name` is broadcast as one chat line, written
   *  to client `j` exactly when its write succeeds, and logged there as
   *  "<name>: <text>". */
  predicate Delivered(name: string, text: string, j: nat, delivered: (nat, nat) -> bool)
  {
    var line := Server.ChatLine(name, text);
    && |line| <= Client.BufferSize
    && Server.Respond(name, text) == Server.Outcome(Server.Broadcast(line), name)
    && Server.FanOut(line, j, delivered) == (if delivered(0, j) then [line] else [])
    && Client.Received(line + Zeros(Client.BufferSize - |line|)) == [name + ": " + text]
  }

  /** The line "<name>: <text>^" of a delimiter-free name and text is
   *  written once to every client whose write succeeds. */
  lemma ChatLineFannedOut(name: string, text: string, j: nat, delivered: (nat, nat) -> bool)
    requires name != [] && '^' !in name && '^' !in text
    ensures var line := Server.ChatLine(name, text);
      Server.FanOut(line, j, delivered) == if delivered(0, j) then [line] else []
  {
    Absent(name, ": " + text, '^');
    Server.SingleFrameFanOut(name + ": " + text, j, delivered);
  }

  /** A client that reads that line in one read logs "<name>: <text>". */
  lemma ChatLineLogged(name: string, text: string, n: nat)
    requires name != [] && !IsWhitespace(name[0]) && '^' !in name && Nul !in name
    requires '^' !in text && Nul !in text
    ensures Client.Received(Server.ChatLine(name, text) + Zeros(n)) == [name + ": " + text]
  {
    Absent(name, ": " + text, '^');
    Absent(name, ": " + text, Nul);
    OneLine(name + ": " + text, n);
  }

  /** A character in neither part is not in their concatenation. */
  lemma Absent(a: string, b: string, c: char)
    requires c !in a && c !in b
    ensures c !in a + b
  {
  }

  /** One delimited line, followed by any padding, is logged as one entry. */
  lemma OneLine(body: string, n: nat)
    requires body != [] && '^' !in body && Nul !in body && !IsWhitespace(body[0])
    ensures Client.Received(body + "^" + Zeros(n)) == [body]
  {
    assert Encode([body], '^') == body + "^";
    Client.ReceivedFrames([body], n);
  }
}
