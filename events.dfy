/**
 * The client's reader thread (client/src/events.rs, `handle_server_messages`):
 * bytes from the server are appended to a buffer, complete lines are cut off
 * it, and each non-blank line becomes an event: a roster update when it is a
 * `USER_LIST:` line with a well-formed JSON payload, a chat message otherwise.
 * The channel to the UI thread is the returned sequence of events.
 */
module ClientEvents {
  import opened Text
  import opened Wire
  import Json

  datatype Event = ServerMessage(text: string) | UserListUpdate(users: seq<string>)

  const RosterPrefix := "USER_LIST:"
  const DisconnectedText := "Server disconnected"
  const ConnectionErrorText := "Connection error: "
  const ReadBufferSize := 4096

  /** The events one complete line (without its `\n`) produces. */
  function LineEvents(line: string): (r: seq<Event>)
    ensures |r| <= 1
    ensures Trim(line) == [] ==> r == []
    ensures r != [] && r[0].ServerMessage? ==> r[0].text == line + "\n" && !StartsWith(Trim(line), RosterPrefix)
    ensures r != [] && r[0].UserListUpdate? ==>
      StartsWith(Trim(line), RosterPrefix) && Json.Decode(Trim(line)[|RosterPrefix|..]) == Some(r[0].users)
    ensures Trim(line) != [] && !StartsWith(Trim(line), RosterPrefix) ==> r == [ServerMessage(line + "\n")]
    ensures StartsWith(Trim(line), RosterPrefix) ==> (r != [] <==> Json.Decode(Trim(line)[|RosterPrefix|..]).Some?)
  {
    var t := Trim(line);
    if t == [] then []
    else if StartsWith(t, RosterPrefix) then
      match Json.Decode(t[|RosterPrefix|..])
      case Some(users) => [UserListUpdate(users)]
      case None => []
    else [ServerMessage(line + "\n")]
  }

  function LinesEvents(lines: seq<string>): seq<Event> {
    if lines == [] then [] else LineEvents(lines[0]) + LinesEvents(lines[1..])
  }

  lemma {:induction false} LinesEventsAppend(x: seq<string>, y: seq<string>)
    ensures LinesEvents(x + y) == LinesEvents(x) + LinesEvents(y)
  {
    if x != [] {
      assert (x + y)[1..] == x[1..] + y;
      LinesEventsAppend(x[1..], y);
      ConcatAssoc(LineEvents(x[0]), LinesEvents(x[1..]), LinesEvents(y));
    } else {
      assert x + y == y;
    }
  }

  /** Each line followed by its `\n`. */
  function Unlines(lines: seq<string>): string {
    if lines == [] then [] else lines[0] + "\n" + Unlines(lines[1..])
  }

  /**
   * The `while let Some(pos) = buffer.find('\n')` loop: the complete lines of
   * `s`, in order, and the unterminated remainder kept in the buffer.
   */
  function SplitLines(s: string): (r: (seq<string>, string))
    ensures Unlines(r.0) + r.1 == s
    ensures '\n' !in r.1
    ensures forall i :: 0 <= i < |r.0| ==> '\n' !in r.0[i]
    decreases |s|
  {
    match Find(s, '\n')
    case None => ([], s)
    case Some(i) =>
      var (lines, tail) := SplitLines(s[i + 1..]);
      CutAt(s, i);
      ConcatAssoc(s[..i] + "\n", Unlines(lines), tail);
      var r := ([s[..i]] + lines, tail);
      assert forall k :: 1 <= k < |r.0| ==> r.0[k] == lines[k - 1];
      r
  }

  lemma CutAt(s: string, i: nat)
    requires i < |s| && s[i] == '\n'
    ensures s == s[..i] + "\n" + s[i + 1..]
  {
  }

  /** Splitting is unique: lines without `\n` and a tail without `\n` are what `SplitLines` finds. */
  lemma {:induction false} SplitLinesUnique(lines: seq<string>, tail: string)
    requires forall i :: 0 <= i < |lines| ==> '\n' !in lines[i]
    requires '\n' !in tail
    ensures SplitLines(Unlines(lines) + tail) == (lines, tail)
  {
    if lines != [] {
      var s := Unlines(lines) + tail;
      var l := lines[0];
      var more := Unlines(lines[1..]) + tail;
      ConcatAssoc(l + "\n", Unlines(lines[1..]), tail);
      ConcatAssoc(l, "\n", more);
      assert s == l + ("\n" + more);
      assert s[|l|] == '\n' && s[..|l|] == l && s[|l| + 1..] == more;
      assert Find(s, '\n') == Some(|l|);
      SplitLinesUnique(lines[1..], tail);
      assert [l] + lines[1..] == lines;
    } else {
      assert Unlines(lines) + tail == tail;
    }
  }

  /**
   * Appending more bytes to a buffer: the lines already complete stay as they
   * were, and splitting carries on from the old remainder.
   */
  lemma SplitLinesAppend(a: string, b: string)
    ensures SplitLines(a + b)
         == (SplitLines(a).0 + SplitLines(SplitLines(a).1 + b).0, SplitLines(SplitLines(a).1 + b).1)
  {
    var la, ta := SplitLines(a).0, SplitLines(a).1;
    var lb, tb := SplitLines(ta + b).0, SplitLines(ta + b).1;
    calc {
      Unlines(la + lb) + tb;
      == { UnlinesAppend(la, lb); }
      (Unlines(la) + Unlines(lb)) + tb;
      == { ConcatAssoc(Unlines(la), Unlines(lb), tb); }
      Unlines(la) + (ta + b);
      == { ConcatAssoc(Unlines(la), ta, b); }
      a + b;
    }
    forall i | 0 <= i < |la + lb| ensures '\n' !in (la + lb)[i] {
      if i < |la| { assert (la + lb)[i] == la[i]; } else { assert (la + lb)[i] == lb[i - |la|]; }
    }
    SplitLinesUnique(la + lb, tb);
  }

  lemma {:induction false} UnlinesAppend(x: seq<string>, y: seq<string>)
    ensures Unlines(x + y) == Unlines(x) + Unlines(y)
  {
    if x != [] {
      assert (x + y)[1..] == x[1..] + y;
      UnlinesAppend(x[1..], y);
      ConcatAssoc(x[0] + "\n", Unlines(x[1..]), Unlines(y));
    } else {
      assert x + y == y;
    }
  }

  /** The events of the reader thread, given what is buffered and the reads still to come. */
  function Feed(buffer: string, script: seq<ReadResult>): seq<Event>
    decreases Size(script)
  {
    var (res, rest) := Read(script, ReadBufferSize);
    match res
    case Failed(reason) => [ServerMessage(ConnectionErrorText + reason)]
    case Chunk(data) =>
      if data == [] then [ServerMessage(DisconnectedText)]
      else
        var (lines, tail) := SplitLines(buffer + data);
        LinesEvents(lines) + Feed(tail, rest)
  }

  /**
   * `handle_server_messages`: read up to 4096 bytes at a time, emit an event
   * per complete non-blank line, and stop with a final notice at end of stream
   * or on a read error.
   */
  method HandleServerMessages(script: seq<ReadResult>) returns (events: seq<Event>)
    ensures events == Feed([], script)
  {
    var buffer: string := [];
    var rest := script;
    events := [];
    while true
      invariant events + Feed(buffer, rest) == Feed([], script)
      decreases Size(rest)
    {
      var p := Read(rest, ReadBufferSize);
      if p.0.Failed? {
        events := events + [ServerMessage(ConnectionErrorText + p.0.reason)];
        return;
      }
      if p.0.data == [] {
        events := events + [ServerMessage(DisconnectedText)];
        return;
      }
      var more, tail := DrainLines(buffer + p.0.data);
      ConcatAssoc(events, more, Feed(tail, p.1));
      events, buffer, rest := events + more, tail, p.1;
    }
  }

  /** The inner `while let Some(pos) = buffer.find('\n')` loop: the events of the complete lines, and what stays buffered. */
  method DrainLines(start: string) returns (events: seq<Event>, buffer: string)
    ensures events == LinesEvents(SplitLines(start).0)
    ensures buffer == SplitLines(start).1
  {
    buffer := start;
    events := [];
    while Find(buffer, '\n').Some?
      invariant LinesEvents(SplitLines(start).0) == events + LinesEvents(SplitLines(buffer).0)
      invariant SplitLines(buffer).1 == SplitLines(start).1
      decreases |buffer|
    {
      var pos := Find(buffer, '\n').value;
      var line := buffer[..pos];
      assert SplitLines(buffer).0 == [line] + SplitLines(buffer[pos + 1..]).0;
      buffer := buffer[pos + 1..];
      ConcatAssoc(events, LineEvents(line), LinesEvents(SplitLines(buffer).0));
      events := events + LineEvents(line);
    }
    assert SplitLines(buffer).0 == [];
  }

  /** The script ends the stream cleanly: data only, then end of stream. */
  predicate CleanClose(script: seq<ReadResult>) {
    && script != []
    && script[|script| - 1] == Chunk([])
    && forall i :: 0 <= i < |script| - 1 ==> script[i].Chunk? && script[i].data != []
  }

  /**
   * The events depend only on the bytes the server sent, not on how the reads
   * cut them: framing by `\n` is independent of chunk boundaries. An
   * unterminated last line is never shown.
   */
  lemma {:induction false} FramingIgnoresChunking(buffer: string, script: seq<ReadResult>)
    requires CleanClose(script) && '\n' !in buffer
    ensures Feed(buffer, script)
         == LinesEvents(SplitLines(buffer + Bytes(script)).0) + [ServerMessage(DisconnectedText)]
    decreases Size(script)
  {
    var (res, rest) := Read(script, ReadBufferSize);
    if |script| == 1 {
      assert script == [Chunk([])];
      assert Bytes(script) == [] by { assert script[1..] == []; }
      assert buffer + Bytes(script) == buffer;
      assert Find(buffer, '\n') == None;
    } else {
      var d := res.data;
      assert script[0].Chunk? && script[0].data != [];
      assert rest[|rest| - 1] == script[|script| - 1];
      assert CleanClose(rest) by {
        if |script[0].data| <= ReadBufferSize {
          assert rest == script[1..];
        } else {
          assert rest == [Chunk(script[0].data[ReadBufferSize..])] + script[1..];
        }
      }
      var (la, ta) := SplitLines(buffer + d);
      FramingIgnoresChunking(ta, rest);
      SplitLinesAppend(buffer + d, Bytes(rest));
      var (lb, tb) := SplitLines(ta + Bytes(rest));
      ConcatAssoc(buffer, d, Bytes(rest));
      LinesEventsAppend(la, lb);
      ConcatAssoc(LinesEvents(la), LinesEvents(lb), [ServerMessage(DisconnectedText)]);
    }
  }
}
