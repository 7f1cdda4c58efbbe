/**
 * The chat server's per-connection logic (server/src/main.rs): the broadcast
 * pass with its two-phase eviction, the roster messages, the username
 * negotiation loop and the session life-cycle. Sessions are modelled one at a
 * time (no interleaving of threads); a peer's reads are a script. Whether the
 * server's writes to the peer succeed while it negotiates its name is the flag
 * `writable`; once it has joined, a write to a peer fails exactly when its
 * address is in `dead`.
 */
module Server {
  import opened Text
  import opened Wire
  import opened Registry
  import Json

  const Prompt := "Enter your username: "
  const EmptyNameMessage := "Username cannot be empty. Please try again.\n"
  const ReservedNameMessage := "Username 'System' is reserved. Please choose another.\n"
  const TakenNameMessage := "Username is already taken. Please choose another.\n"
  const ReservedUsername := "System"
  const ListCommand := "GET_USERS"
  /** The size of the buffer a username is read into. */
  const NameBufferSize := 32
  /** The size of the buffer chat text is read into. */
  const ReadBufferSize := 4096

  function JoinNotice(name: string): string { name + " has joined the chat\n" }
  function LeaveNotice(name: string): string { name + " has left the chat\n" }
  /** `format!("{}: {}", username, message)`: the chunk is relayed as read, newline or not. */
  function ChatLine(name: string, chunk: string): string { name + ": " + chunk }

  // ---------------------------------------------------------------------------
  // Broadcast engine

  /**
   * `broadcast_message`: write `message` to every registered peer (skipping the
   * sender unless `includeSender`), collecting the failures in `to_remove`, then
   * `shift_remove` each failure. A failing peer does not stop the pass and the
   * call always returns `Ok(())`.
   */
  method BroadcastMessage(reg: Registry, message: string, sender: Addr, includeSender: bool, dead: set<Addr>)
    requires reg.Valid()
    modifies reg
    ensures reg.Valid()
    ensures reg.Snapshot() == BroadcastStep(old(reg.Snapshot()), message, sender, includeSender, dead)
  {
    ghost var start := reg.entries;
    var toRemove := WriteAll(reg, message, sender, includeSender, dead);
    RemoveAll(reg, toRemove);
    FailuresMembers(start, sender, includeSender, dead);
    ghost var victims := Victims(sender, includeSender, dead);
    forall c | c in start ensures c.addr in AddrSet(toRemove) <==> c.addr in victims {
      var j :| 0 <= j < |start| && start[j] == c;
      assert Addrs(start)[j] == c.addr;
    }
    WithoutAgrees(start, AddrSet(toRemove), victims);
  }

  /** The write pass of `broadcast_message`: deliver to each targeted peer in order, collect the failures. */
  method WriteAll(reg: Registry, message: string, sender: Addr, includeSender: bool, dead: set<Addr>)
      returns (toRemove: seq<Addr>)
    requires reg.Valid()
    modifies reg
    ensures reg.Valid() && reg.entries == old(reg.entries)
    ensures toRemove == Failures(reg.entries, sender, includeSender, dead)
    ensures reg.outbox == old(reg.outbox) + Fanout(reg.entries, message, sender, includeSender, dead)
  {
    ghost var start := reg.entries;
    ghost var out0 := reg.outbox;
    toRemove := [];
    var i := 0;
    while i < |reg.entries|
      invariant 0 <= i <= |reg.entries| && reg.entries == start && reg.Valid()
      invariant toRemove == Failures(start[..i], sender, includeSender, dead)
      invariant reg.outbox == out0 + Fanout(start[..i], message, sender, includeSender, dead)
    {
      var c := reg.entries[i];
      assert start[..i + 1] == start[..i] + [c];
      FanoutSnoc(start[..i], c, message, sender, includeSender, dead);
      FailuresSnoc(start[..i], c, sender, includeSender, dead);
      ghost var sent := Fanout(start[..i], message, sender, includeSender, dead);
      if includeSender || c.addr != sender {
        if c.addr in dead {
          toRemove := toRemove + [c.addr];
        } else {
          reg.Deliver(c.addr, message);
          ConcatAssoc(out0, sent, [Delivery(c.addr, message)]);
        }
      }
      i := i + 1;
    }
    assert start[..i] == start;
  }

  /** The `for addr in to_remove { conn_map.shift_remove(&addr); }` pass. */
  method RemoveAll(reg: Registry, toRemove: seq<Addr>)
    requires reg.Valid()
    modifies reg
    ensures reg.Valid()
    ensures reg.entries == Without(old(reg.entries), AddrSet(toRemove))
    ensures reg.outbox == old(reg.outbox)
  {
    ghost var start := reg.entries;
    WithoutNone(start);
    assert AddrSet(toRemove[..0]) == {};
    var k := 0;
    while k < |toRemove|
      invariant 0 <= k <= |toRemove| && reg.Valid()
      invariant reg.entries == Without(start, AddrSet(toRemove[..k]))
      invariant reg.outbox == old(reg.outbox)
    {
      var a := toRemove[k];
      reg.ShiftRemove(a);
      WithoutTwice(start, AddrSet(toRemove[..k]), {a});
      assert toRemove[..k + 1] == toRemove[..k] + [a];
      AddrSetSnoc(toRemove[..k], a);
      k := k + 1;
    }
    assert toRemove[..k] == toRemove;
  }

  /** `broadcast_user_list`: the roster, in registry order, to every peer including the newest. */
  method BroadcastUserList(reg: Registry, dead: set<Addr>)
    requires reg.Valid()
    modifies reg
    ensures reg.Valid()
    ensures reg.Snapshot() == UserListStep(old(reg.Snapshot()), dead)
  {
    var line := "USER_LIST:" + Json.Encode(Usernames(reg.entries)) + "\n";
    BroadcastMessage(reg, line, Unspecified, true, dead);
  }

  /** What `handle_user_list_request` does, and whether its write succeeded. */
  function ReplyStep(s: State, addr: Addr, dead: set<Addr>): (State, bool) {
    if addr in dead then (s, false)
    else (State(s.entries, s.outbox + [Delivery(addr, RosterLine(s.entries))]), true)
  }

  /** `handle_user_list_request`: the roster to the requester alone; a failed write is an error. */
  method HandleUserListRequest(reg: Registry, addr: Addr, dead: set<Addr>) returns (ok: bool)
    requires reg.Valid()
    modifies reg
    ensures reg.Valid()
    ensures (reg.Snapshot(), ok) == ReplyStep(old(reg.Snapshot()), addr, dead)
  {
    var line := "USER_LIST:" + Json.Encode(Usernames(reg.entries)) + "\n";
    if addr in dead {
      return false;
    }
    reg.Deliver(addr, line);
    return true;
  }

  // ---------------------------------------------------------------------------
  // Username negotiation

  datatype Verdict = EmptyName | ReservedName | NameTaken | Available

  /** `conn_map.values().any(|client| client.username.eq_ignore_ascii_case(&username))`. */
  predicate Taken(names: seq<string>, name: string) {
    exists i :: 0 <= i < |names| && EqIgnoreAsciiCase(names[i], name)
  }

  /** The checks `get_username` makes of a trimmed name, in their order. */
  function Check(name: string, names: seq<string>): (v: Verdict)
    ensures v == EmptyName <==> name == []
    ensures v == ReservedName <==> name != [] && EqIgnoreAsciiCase(name, ReservedUsername)
    ensures v == NameTaken <==>
      name != [] && !EqIgnoreAsciiCase(name, ReservedUsername) && Taken(names, name)
    ensures v == Available <==>
      name != [] && !EqIgnoreAsciiCase(name, ReservedUsername) && !Taken(names, name)
  {
    if name == [] then EmptyName
    else if EqIgnoreAsciiCase(name, ReservedUsername) then ReservedName
    else if Taken(names, name) then NameTaken
    else Available
  }

  function Rejection(v: Verdict): string
    requires v != Available
  {
    match v
    case EmptyName => EmptyNameMessage
    case ReservedName => ReservedNameMessage
    case NameTaken => TakenNameMessage
  }

  datatype Negotiation = Accepted(name: string) | Aborted

  /**
   * The `get_username` loop: its result, the script left, and what it wrote to
   * the peer. `alive` says whether writes to the peer succeed. End of stream
   * ends the negotiation, as a read error does; the loop as written takes it
   * for an empty name instead and never ends (see `EndOfStreamSpins`).
   */
  function Negotiate(script: seq<ReadResult>, names: seq<string>, alive: bool): (seq<string>, Negotiation, seq<ReadResult>)
    decreases Size(script)
  {
    if !alive then ([], Aborted, script)
    else
      var (res, rest) := Read(script, NameBufferSize);
      if res.Failed? || res.data == [] then ([Prompt], Aborted, rest)
      else
        var name := Trim(res.data);
        var v := Check(name, names);
        if v == Available then ([Prompt], Accepted(name), rest)
        else
          var (sent, r, rest') := Negotiate(rest, names, alive);
          ([Prompt, Rejection(v)] + sent, r, rest')
  }

  /** The usernames `get_username` can return. */
  predicate Acceptable(name: string, names: seq<string>) {
    && name != []
    && Trim(name) == name
    && |name| <= NameBufferSize
    && !EqIgnoreAsciiCase(name, ReservedUsername)
    && !Taken(names, name)
  }

  /**
   * A negotiated name is trimmed, non-empty, not "System" in any ASCII case,
   * not an existing username in any ASCII case, and at most 32 characters long.
   */
  lemma {:induction false} NegotiatedNameAcceptable(script: seq<ReadResult>, names: seq<string>, alive: bool)
    ensures var (_, r, _) := Negotiate(script, names, alive);
      r.Accepted? ==> Acceptable(r.name, names)
    decreases Size(script)
  {
    if alive {
      var (res, rest) := Read(script, NameBufferSize);
      if res.Chunk? {
        var name := Trim(res.data);
        if Check(name, names) == Available {
          TrimIdempotent(res.data);
        } else {
          NegotiatedNameAcceptable(rest, names, alive);
        }
      }
    }
  }

  /** What a peer is sent while negotiating: prompts, each rejected name's reason followed by a new prompt. */
  predicate Transcript(sent: seq<string>)
    decreases |sent|
  {
    || sent == [Prompt]
    || (&& |sent| >= 3
        && sent[0] == Prompt
        && sent[1] in {EmptyNameMessage, ReservedNameMessage, TakenNameMessage}
        && Transcript(sent[2..]))
  }

  /**
   * The peer is prompted first and re-prompted after every rejection, and is
   * written nothing once its writes fail.
   */
  lemma {:induction false} NegotiationTranscript(script: seq<ReadResult>, names: seq<string>, alive: bool)
    ensures alive ==> Transcript(Negotiate(script, names, alive).0)
    ensures !alive ==> Negotiate(script, names, alive).0 == []
    decreases Size(script)
  {
    if alive {
      var (res, rest) := Read(script, NameBufferSize);
      if res.Chunk? && Check(Trim(res.data), names) != Available {
        NegotiationTranscript(rest, names, alive);
        var sent := Negotiate(rest, names, alive).0;
        var all := [Prompt, Rejection(Check(Trim(res.data), names))] + sent;
        assert all[2..] == sent;
        assert Transcript(sent) ==> |sent| >= 1;
      }
    }
  }

  /** One pass of the `get_username` loop: what it writes, its outcome if it leaves the loop, and the script left. */
  datatype Pass = Pass(written: seq<string>, outcome: Option<Negotiation>, rest: seq<ReadResult>)

  /**
   * One pass of the `get_username` loop as written. A `read` at end of stream
   * returns 0 bytes now and on every later call, so the script is not consumed,
   * and the 0 bytes are trimmed to an empty name.
   */
  function LoopPass(script: seq<ReadResult>, names: seq<string>, alive: bool): Pass {
    if !alive then Pass([], Some(Aborted), script)
    else
      var (res, rest) := Read(script, NameBufferSize);
      if res.Failed? then Pass([Prompt], Some(Aborted), rest)
      else
        var left := if res.data == [] then script else rest;
        var v := Check(Trim(res.data), names);
        if v == Available then Pass([Prompt], Some(Accepted(Trim(res.data))), left)
        else Pass([Prompt, Rejection(v)], None, left)
  }

  /**
   * At end of stream the loop as written goes round again having written the
   * prompt and the empty-name message, with the stream exactly as before: it
   * repeats them for as long as writes to the peer succeed.
   */
  lemma EndOfStreamSpins(script: seq<ReadResult>, names: seq<string>)
    requires script != [] && script[0] == Chunk([])
    ensures LoopPass(script, names, true) == Pass([Prompt, EmptyNameMessage], None, script)
  {
    assert Read(script, NameBufferSize).0 == Chunk([]);
    assert Trim([]) == [];
  }

  /**
   * Away from end of stream, `Negotiate` is the loop as written: each pass
   * writes the prompt and, for a refused name, the reason `Check` gives for
   * that very name, then the negotiation goes on from the rest of the stream.
   */
  lemma NegotiateFollowsPass(script: seq<ReadResult>, names: seq<string>, alive: bool)
    requires alive ==> Read(script, NameBufferSize).0 != Chunk([])
    ensures var p := LoopPass(script, names, alive);
      && (p.outcome.Some? ==> Negotiate(script, names, alive) == (p.written, p.outcome.value, p.rest))
      && (p.outcome.None? ==>
            var later := Negotiate(p.rest, names, alive);
            Negotiate(script, names, alive) == (p.written + later.0, later.1, later.2))
  {
  }

  /** End of stream ends the negotiation after the prompt, with nothing accepted. */
  lemma NegotiationEndsAtEndOfStream(script: seq<ReadResult>, names: seq<string>)
    requires Read(script, NameBufferSize).0 == Chunk([])
    ensures Negotiate(script, names, true) == ([Prompt], Aborted, Read(script, NameBufferSize).1)
  {
  }

  /**
   * The converse of `NegotiatedNameAcceptable`: a peer that sends an
   * acceptable name as its first read gets it, after one prompt.
   */
  lemma AcceptableNameNegotiated(name: string, names: seq<string>, rest: seq<ReadResult>)
    requires Acceptable(name, names)
    ensures Negotiate([Chunk(name)] + rest, names, true) == ([Prompt], Accepted(name), rest)
  {
    var script := [Chunk(name)] + rest;
    assert script[0] == Chunk(name) && script[1..] == rest;
    assert Read(script, NameBufferSize) == (Chunk(name), rest);
    assert Check(name, names) == Available;
  }

  lemma PairAsConcat<T>(a: T, b: T)
    ensures [a] + [b] == [a, b]
  {
  }

  /** `conn_map.values().any(..)`: whether a registered username equals `name` up to ASCII case. */
  method AnyTaken(entries: seq<Client>, name: string) returns (taken: bool)
    ensures taken <==> Taken(Usernames(entries), name)
  {
    taken := false;
    var j := 0;
    while j < |entries|
      invariant 0 <= j <= |entries|
      invariant taken <==> Taken(Usernames(entries[..j]), name)
    {
      assert Usernames(entries[..j + 1]) == Usernames(entries[..j]) + [entries[j].username];
      taken := taken || EqIgnoreAsciiCase(entries[j].username, name);
      j := j + 1;
    }
    assert entries[..j] == entries;
  }

  /**
   * `get_username`: prompt, read at most 32 bytes, trim, and re-prompt with the
   * reason until a name passes the checks; an I/O error or end of stream ends
   * the negotiation.
   */
  method GetUsername(reg: Registry, addr: Addr, script: seq<ReadResult>, writable: bool)
      returns (r: Negotiation, rest: seq<ReadResult>)
    requires reg.Valid()
    modifies reg
    ensures reg.Valid() && reg.entries == old(reg.entries)
    ensures r == Negotiate(script, Usernames(old(reg.entries)), writable).1
    ensures rest == Negotiate(script, Usernames(old(reg.entries)), writable).2
    ensures reg.outbox == old(reg.outbox) + ToPeer(addr, Negotiate(script, Usernames(old(reg.entries)), writable).0)
    ensures r.Accepted? ==> Acceptable(r.name, Usernames(reg.entries))
  {
    ghost var names := Usernames(reg.entries);
    ghost var alive := writable;
    ghost var goal := Negotiate(script, names, alive);
    ghost var out0 := reg.outbox;
    ghost var sent: seq<string> := [];
    NegotiatedNameAcceptable(script, names, alive);
    rest := script;
    while true
      invariant reg.Valid() && reg.entries == old(reg.entries)
      invariant reg.outbox == out0 + ToPeer(addr, sent)
      invariant goal.0 == sent + Negotiate(rest, names, alive).0
      invariant goal.1 == Negotiate(rest, names, alive).1
      invariant goal.2 == Negotiate(rest, names, alive).2
      decreases Size(rest)
    {
      if !writable {
        return Aborted, rest;
      }
      ghost var before := sent;
      reg.Deliver(addr, Prompt);
      ToPeerAppend(addr, sent, Prompt);
      ConcatAssoc(out0, ToPeer(addr, sent), [Delivery(addr, Prompt)]);
      sent := sent + [Prompt];
      var p := Read(rest, NameBufferSize);
      if p.0.Failed? || p.0.data == [] {
        return Aborted, p.1;
      }
      var name := Trim(p.0.data);
      var taken := AnyTaken(reg.entries, name);
      var v := if name == [] then EmptyName
               else if EqIgnoreAsciiCase(name, ReservedUsername) then ReservedName
               else if taken then NameTaken
               else Available;
      assert v == Check(name, names);
      if v == Available {
        return Accepted(name), p.1;
      }
      reg.Deliver(addr, Rejection(v));
      ToPeerAppend(addr, sent, Rejection(v));
      ConcatAssoc(out0, ToPeer(addr, sent), [Delivery(addr, Rejection(v))]);
      assert Negotiate(rest, names, alive).0 == [Prompt, Rejection(v)] + Negotiate(p.1, names, alive).0;
      ghost var later := Negotiate(p.1, names, alive).0;
      assert goal.0 == before + ([Prompt, Rejection(v)] + later);
      ConcatAssoc(before, [Prompt, Rejection(v)], later);
      ConcatAssoc(before, [Prompt], [Rejection(v)]);
      PairAsConcat(Prompt, Rejection(v));
      sent := sent + [Rejection(v)];
      rest := p.1;
    }
  }

  /** Payloads written to one peer, as deliveries. */
  function ToPeer(addr: Addr, payloads: seq<string>): (r: seq<Delivery>)
    ensures |r| == |payloads|
  {
    if payloads == [] then [] else [Delivery(addr, payloads[0])] + ToPeer(addr, payloads[1..])
  }

  lemma {:induction false} ToPeerAppend(addr: Addr, payloads: seq<string>, p: string)
    ensures ToPeer(addr, payloads + [p]) == ToPeer(addr, payloads) + [Delivery(addr, p)]
  {
    if payloads != [] {
      assert (payloads + [p])[1..] == payloads[1..] + [p];
      ToPeerAppend(addr, payloads[1..], p);
    }
  }

  // ---------------------------------------------------------------------------
  // Session life-cycle

  datatype SessionEnd =
    | Closed             // the peer closed the stream: `Ok(())`
    | NegotiationFailed  // an I/O error during `get_username`
    | ReadFailed         // a read error in the chat loop
    | ReplyFailed        // the private roster reply could not be written

  /** Insert the new client, announce it to the others, then send everyone the roster. */
  function JoinStep(s: State, addr: Addr, name: string, dead: set<Addr>): State
    requires Distinct(s.entries)
  {
    var joined := State(InsertEntry(s.entries, addr, name), s.outbox);
    UserListStep(BroadcastStep(joined, JoinNotice(name), addr, false, dead), dead)
  }

  /** One chunk of the read loop: `GET_USERS` gets a private reply, anything else is relayed. */
  function ChunkStep(s: State, addr: Addr, name: string, chunk: string, dead: set<Addr>): (State, bool) {
    if Trim(chunk) == ListCommand then ReplyStep(s, addr, dead)
    else (BroadcastStep(s, ChatLine(name, chunk), addr, false, dead), true)
  }

  /** Announce the departure to the others, then remove the client, then send the roster. */
  function LeaveStep(s: State, addr: Addr, name: string, dead: set<Addr>): State {
    var told := BroadcastStep(s, LeaveNotice(name), addr, false, dead);
    UserListStep(State(Without(told.entries, {addr}), told.outbox), dead)
  }

  /** The read loop of `handle_client` and what follows it. */
  function ReadLoop(s: State, addr: Addr, name: string, script: seq<ReadResult>, dead: set<Addr>): (State, SessionEnd)
    decreases Size(script)
  {
    var (res, rest) := Read(script, ReadBufferSize);
    match res
    case Failed(_) => (s, ReadFailed)
    case Chunk(data) =>
      if data == [] then (LeaveStep(s, addr, name, dead), Closed)
      else
        var (s', ok) := ChunkStep(s, addr, name, data, dead);
        if ok then ReadLoop(s', addr, name, rest, dead) else (s', ReplyFailed)
  }

  /** A whole `handle_client` session of the peer at `addr`. */
  function Session(s: State, addr: Addr, script: seq<ReadResult>, writable: bool, dead: set<Addr>): (State, SessionEnd)
    requires Distinct(s.entries)
  {
    var (sent, neg, rest) := Negotiate(script, Usernames(s.entries), writable);
    var s1 := State(s.entries, s.outbox + ToPeer(addr, sent));
    match neg
    case Aborted => (s1, NegotiationFailed)
    case Accepted(name) => ReadLoop(JoinStep(s1, addr, name, dead), addr, name, rest, dead)
  }

  // ---------------------------------------------------------------------------
  // Properties of a session

  /**
   * The registry's standing invariant: one entry per address, no empty or
   * reserved username, and no two clients whose names differ only in ASCII case.
   */
  predicate Registered(entries: seq<Client>) {
    && Distinct(entries)
    && (forall c :: c in entries ==> c.username != [] && !EqIgnoreAsciiCase(c.username, ReservedUsername))
    && (forall c, d :: c in entries && d in entries && c.addr != d.addr ==>
          !EqIgnoreAsciiCase(c.username, d.username))
  }

  lemma RegisteredWithout(entries: seq<Client>, gone: set<Addr>)
    requires Registered(entries)
    ensures Registered(Without(entries, gone))
  {
    WithoutMembers(entries, gone);
    WithoutDistinct(entries, gone);
  }

  lemma RegisteredInsert(entries: seq<Client>, addr: Addr, name: string)
    requires Registered(entries) && Acceptable(name, Usernames(entries))
    ensures Registered(InsertEntry(entries, addr, name))
  {
    var r := InsertEntry(entries, addr, name);
    forall d | d in entries ensures !EqIgnoreAsciiCase(name, d.username) {
      var k :| 0 <= k < |entries| && entries[k] == d;
      assert Usernames(entries)[k] == d.username;
      EqIgnoreAsciiCaseSymmetric(name, d.username);
    }
    forall c, d | c in r && d in r && c.addr != d.addr
      ensures !EqIgnoreAsciiCase(c.username, d.username)
    {
      EqIgnoreAsciiCaseSymmetric(c.username, d.username);
    }
  }

  lemma RegisteredBroadcast(s: State, message: string, sender: Addr, includeSender: bool, dead: set<Addr>)
    requires Registered(s.entries)
    ensures Registered(BroadcastStep(s, message, sender, includeSender, dead).entries)
  {
    RegisteredWithout(s.entries, Victims(sender, includeSender, dead));
  }

  lemma {:induction false} RegisteredReadLoop(s: State, addr: Addr, name: string, script: seq<ReadResult>, dead: set<Addr>)
    requires Registered(s.entries)
    ensures Registered(ReadLoop(s, addr, name, script, dead).0.entries)
    decreases Size(script)
  {
    var (res, rest) := Read(script, ReadBufferSize);
    if res.Chunk? {
      if res.data == [] {
        var told := BroadcastStep(s, LeaveNotice(name), addr, false, dead);
        RegisteredBroadcast(s, LeaveNotice(name), addr, false, dead);
        RegisteredWithout(told.entries, {addr});
        RegisteredBroadcast(State(Without(told.entries, {addr}), told.outbox), RosterLine(Without(told.entries, {addr})), Unspecified, true, dead);
      } else {
        var (s', ok) := ChunkStep(s, addr, name, res.data, dead);
        RegisteredBroadcast(s, ChatLine(name, res.data), addr, false, dead);
        if ok {
          RegisteredReadLoop(s', addr, name, rest, dead);
        }
      }
    }
  }

  /**
   * Every session keeps the registry's invariant: usernames stay unique up to
   * ASCII case, and none is empty or "System".
   */
  lemma NamesStayUnique(s: State, addr: Addr, script: seq<ReadResult>, writable: bool, dead: set<Addr>)
    requires Registered(s.entries)
    ensures Registered(Session(s, addr, script, writable, dead).0.entries)
  {
    var names := Usernames(s.entries);
    var (sent, neg, rest) := Negotiate(script, names, writable);
    if neg.Accepted? {
      NegotiatedNameAcceptable(script, names, writable);
      var s1 := State(s.entries, s.outbox + ToPeer(addr, sent));
      var joined := State(InsertEntry(s.entries, addr, neg.name), s1.outbox);
      RegisteredInsert(s.entries, addr, neg.name);
      RegisteredBroadcast(joined, JoinNotice(neg.name), addr, false, dead);
      var told := BroadcastStep(joined, JoinNotice(neg.name), addr, false, dead);
      RegisteredBroadcast(told, RosterLine(told.entries), Unspecified, true, dead);
      RegisteredReadLoop(JoinStep(s1, addr, neg.name, dead), addr, neg.name, rest, dead);
    }
  }

  /** A negotiation succeeds only over a connection the server can write to. */
  lemma AcceptedOnlyAlive(script: seq<ReadResult>, names: seq<string>, alive: bool)
    ensures Negotiate(script, names, alive).1.Accepted? ==> alive
  {
  }

  /**
   * Joining registers the client and announces it to every other live peer;
   * no peer other than the failing ones is lost.
   */
  lemma JoinAnnounces(s: State, addr: Addr, name: string, dead: set<Addr>)
    requires Distinct(s.entries) && addr !in dead
    ensures var t := JoinStep(s, addr, name, dead);
      && Client(addr, name) in t.entries
      && forall c :: c in s.entries && c.addr != addr && c.addr !in dead ==>
           c in t.entries && Delivery(c.addr, JoinNotice(name)) in t.outbox
  {
    var joined := State(InsertEntry(s.entries, addr, name), s.outbox);
    var told := BroadcastStep(joined, JoinNotice(name), addr, false, dead);
    var t := UserListStep(told, dead);
    BroadcastEvictsExactlyFailures(joined, JoinNotice(name), addr, false, dead);
    BroadcastEvictsExactlyFailures(told, RosterLine(told.entries), Unspecified, true, dead);
    BroadcastDeliveries(joined, JoinNotice(name), addr, false, dead);
    BroadcastDeliveries(told, RosterLine(told.entries), Unspecified, true, dead);
    forall c | c in s.entries && c.addr != addr && c.addr !in dead
      ensures c in t.entries && Delivery(c.addr, JoinNotice(name)) in t.outbox
    {
      assert c in joined.entries;
      assert Delivery(c.addr, JoinNotice(name)) in told.outbox[|joined.outbox|..];
      assert t.outbox[..|told.outbox|] == told.outbox;
    }
  }

  /**
   * Leaving announces the departure to every other live peer while the leaver
   * is still registered; those peers stay registered.
   */
  lemma LeaveAnnounces(s: State, addr: Addr, name: string, dead: set<Addr>)
    requires Distinct(s.entries)
    ensures var t := LeaveStep(s, addr, name, dead);
      forall c :: c in s.entries && c.addr != addr && c.addr !in dead ==>
        c in t.entries && Delivery(c.addr, LeaveNotice(name)) in t.outbox
  {
    var told := BroadcastStep(s, LeaveNotice(name), addr, false, dead);
    var gone := State(Without(told.entries, {addr}), told.outbox);
    var t := UserListStep(gone, dead);
    BroadcastEvictsExactlyFailures(s, LeaveNotice(name), addr, false, dead);
    BroadcastDeliveries(s, LeaveNotice(name), addr, false, dead);
    WithoutDistinct(told.entries, {addr});
    WithoutMembers(told.entries, {addr});
    WithoutMembers(gone.entries, dead);
    forall c | c in s.entries && c.addr != addr && c.addr !in dead
      ensures c in t.entries && Delivery(c.addr, LeaveNotice(name)) in t.outbox
    {
      assert Delivery(c.addr, LeaveNotice(name)) in told.outbox[|s.outbox|..];
      assert t.outbox == told.outbox + Fanout(gone.entries, RosterLine(gone.entries), Unspecified, true, dead);
    }
  }

  /** After leaving, no entry has the leaver's address. */
  lemma LeaveDeregisters(s: State, addr: Addr, name: string, dead: set<Addr>)
    ensures addr !in Addrs(LeaveStep(s, addr, name, dead).entries)
  {
    var told := BroadcastStep(s, LeaveNotice(name), addr, false, dead);
    var gone := Without(told.entries, {addr});
    AddrsWithout(told.entries, {addr}, addr);
    AddrsWithout(gone, dead, addr);
  }

  /**
   * Relaying a chunk, or answering `GET_USERS`, neither evicts nor registers
   * the peer being served.
   */
  lemma ChunkKeepsPeer(s: State, addr: Addr, name: string, chunk: string, dead: set<Addr>)
    ensures var (t, _) := ChunkStep(s, addr, name, chunk, dead);
      addr in Addrs(t.entries) <==> addr in Addrs(s.entries)
  {
    AddrsWithout(s.entries, Victims(addr, false, dead), addr);
  }

  /**
   * The read loop deregisters the peer when the peer closed the stream; on a
   * read error or a failed roster reply it ends with the peer registered
   * exactly when it was at the start, and a roster reply fails only to a peer
   * whose writes fail.
   */
  lemma {:induction false} ReadLoopOutcome(s: State, addr: Addr, name: string, script: seq<ReadResult>, dead: set<Addr>)
    requires Distinct(s.entries)
    ensures var (t, end) := ReadLoop(s, addr, name, script, dead);
      && end != NegotiationFailed
      && (end == Closed ==> addr !in Addrs(t.entries))
      && (end != Closed ==> (addr in Addrs(t.entries) <==> addr in Addrs(s.entries)))
      && (end == ReplyFailed ==> addr in dead)
    decreases Size(script)
  {
    var (res, rest) := Read(script, ReadBufferSize);
    if res.Chunk? {
      if res.data == [] {
        LeaveDeregisters(s, addr, name, dead);
      } else {
        var (s', ok) := ChunkStep(s, addr, name, res.data, dead);
        ChunkKeepsPeer(s, addr, name, res.data, dead);
        if ok {
          if Trim(res.data) != ListCommand {
            BroadcastEvictsExactlyFailures(s, ChatLine(name, res.data), addr, false, dead);
          }
          ReadLoopOutcome(s', addr, name, rest, dead);
        }
      }
    }
  }

  /**
   * Joining leaves the new peer registered exactly when writes to it succeed:
   * one whose writes fail is evicted by its own roster broadcast.
   */
  lemma JoinRegisters(s: State, addr: Addr, name: string, dead: set<Addr>)
    requires Distinct(s.entries)
    ensures addr in Addrs(JoinStep(s, addr, name, dead).entries) <==> addr !in dead
  {
    if addr !in dead {
      var j := JoinStep(s, addr, name, dead);
      JoinAnnounces(s, addr, name, dead);
      var k :| 0 <= k < |j.entries| && j.entries[k] == Client(addr, name);
      assert Addrs(j.entries)[k] == addr;
    } else {
      var joined := State(InsertEntry(s.entries, addr, name), s.outbox);
      var told := BroadcastStep(joined, JoinNotice(name), addr, false, dead);
      AddrsWithout(told.entries, Victims(Unspecified, true, dead), addr);
    }
  }

  /**
   * A session that ends because the peer closed the stream leaves no entry for
   * it; one cut short by a read error leaves its entry behind unless writes to
   * the peer fail, in which case its own join roster already evicted it; a
   * roster reply fails only to such a peer; a failed negotiation changes no
   * entry.
   */
  lemma SessionOutcome(s: State, addr: Addr, script: seq<ReadResult>, writable: bool, dead: set<Addr>)
    requires Distinct(s.entries)
    ensures var (t, end) := Session(s, addr, script, writable, dead);
      && (end == NegotiationFailed ==> t.entries == s.entries)
      && (end == Closed ==> addr !in Addrs(t.entries))
      && (end == ReadFailed ==> (addr in Addrs(t.entries) <==> addr !in dead))
      && (end == ReplyFailed ==> addr in dead && addr !in Addrs(t.entries))
  {
    var names := Usernames(s.entries);
    var (sent, neg, rest) := Negotiate(script, names, writable);
    if neg.Accepted? {
      var s1 := State(s.entries, s.outbox + ToPeer(addr, sent));
      var j := JoinStep(s1, addr, neg.name, dead);
      JoinRegisters(s1, addr, neg.name, dead);
      JoinDistinct(s1, addr, neg.name, dead);
      ReadLoopOutcome(j, addr, neg.name, rest, dead);
    }
  }

  lemma JoinDistinct(s: State, addr: Addr, name: string, dead: set<Addr>)
    requires Distinct(s.entries)
    ensures Distinct(JoinStep(s, addr, name, dead).entries)
  {
    var joined := State(InsertEntry(s.entries, addr, name), s.outbox);
    BroadcastEvictsExactlyFailures(joined, JoinNotice(name), addr, false, dead);
    var told := BroadcastStep(joined, JoinNotice(name), addr, false, dead);
    BroadcastEvictsExactlyFailures(told, RosterLine(told.entries), Unspecified, true, dead);
  }

  /**
   * `GET_USERS` (after trimming) is answered to the requester alone with the
   * current roster, is not relayed, and evicts nobody; any other chunk is
   * relayed as "name: chunk" to peers other than its sender.
   */
  lemma ChunkDeliveries(s: State, addr: Addr, name: string, chunk: string, dead: set<Addr>)
    ensures var (t, ok) := ChunkStep(s, addr, name, chunk, dead);
      && |t.outbox| >= |s.outbox| && t.outbox[..|s.outbox|] == s.outbox
      && (Trim(chunk) == ListCommand ==>
            && t.entries == s.entries
            && (ok <==> addr !in dead)
            && t.outbox[|s.outbox|..] == (if ok then [Delivery(addr, RosterLine(s.entries))] else []))
      && (Trim(chunk) != ListCommand ==>
            && ok
            && forall d :: d in t.outbox[|s.outbox|..] ==> d.payload == ChatLine(name, chunk) && d.to != addr)
  {
    if Trim(chunk) != ListCommand {
      BroadcastDeliveries(s, ChatLine(name, chunk), addr, false, dead);
    }
  }

  /**
   * `handle_client`: negotiate a name, register, announce, relay chunks until
   * the stream ends, then announce the departure, deregister and send the roster.
   * Errors (`?`) end the session on the spot.
   */
  method HandleClient(reg: Registry, addr: Addr, script: seq<ReadResult>, writable: bool, dead: set<Addr>)
      returns (end: SessionEnd)
    requires reg.Valid()
    modifies reg
    ensures reg.Valid()
    ensures (reg.Snapshot(), end) == Session(old(reg.Snapshot()), addr, script, writable, dead)
  {
    var neg, rest := GetUsername(reg, addr, script, writable);
    if neg.Aborted? {
      return NegotiationFailed;
    }
    Join(reg, addr, neg.name, dead);
    end := ChatLoop(reg, addr, neg.name, rest, dead);
  }

  /** The read loop of `handle_client` and, once the peer closes the stream, the clean-up. */
  method ChatLoop(reg: Registry, addr: Addr, name: string, script: seq<ReadResult>, dead: set<Addr>) returns (end: SessionEnd)
    requires reg.Valid()
    modifies reg
    ensures reg.Valid()
    ensures (reg.Snapshot(), end) == ReadLoop(old(reg.Snapshot()), addr, name, script, dead)
  {
    ghost var goal := ReadLoop(reg.Snapshot(), addr, name, script, dead);
    var rest := script;
    while true
      invariant reg.Valid()
      invariant goal == ReadLoop(reg.Snapshot(), addr, name, rest, dead)
      decreases Size(rest)
    {
      var p := Read(rest, ReadBufferSize);
      if p.0.Failed? {
        return ReadFailed;
      }
      if p.0.data == [] {
        break;
      }
      var ok := HandleChunk(reg, addr, name, p.0.data, dead);
      if !ok {
        return ReplyFailed;
      }
      rest := p.1;
    }
    Leave(reg, addr, name, dead);
    return Closed;
  }

  /** The registration steps of `handle_client` once a name is negotiated. */
  method Join(reg: Registry, addr: Addr, name: string, dead: set<Addr>)
    requires reg.Valid()
    modifies reg
    ensures reg.Valid()
    ensures reg.Snapshot() == JoinStep(old(reg.Snapshot()), addr, name, dead)
  {
    reg.Insert(addr, name);
    BroadcastMessage(reg, name + " has joined the chat\n", addr, false, dead);
    BroadcastUserList(reg, dead);
  }

  /** One pass of the read loop of `handle_client` over a non-empty chunk. */
  method HandleChunk(reg: Registry, addr: Addr, name: string, message: string, dead: set<Addr>) returns (ok: bool)
    requires reg.Valid()
    modifies reg
    ensures reg.Valid()
    ensures (reg.Snapshot(), ok) == ChunkStep(old(reg.Snapshot()), addr, name, message, dead)
  {
    if Trim(message) == ListCommand {
      ok := HandleUserListRequest(reg, addr, dead);
    } else {
      BroadcastMessage(reg, name + ": " + message, addr, false, dead);
      ok := true;
    }
  }

  /** The clean-up steps of `handle_client` once the peer has closed the stream. */
  method Leave(reg: Registry, addr: Addr, name: string, dead: set<Addr>)
    requires reg.Valid()
    modifies reg
    ensures reg.Valid()
    ensures reg.Snapshot() == LeaveStep(old(reg.Snapshot()), addr, name, dead)
  {
    BroadcastMessage(reg, name + " has left the chat\n", addr, false, dead);
    reg.ShiftRemove(addr);
    BroadcastUserList(reg, dead);
  }
}
