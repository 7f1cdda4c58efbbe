/**
 * What the server writes, as the client reads it: the server's lines
 * (server/src/main.rs) pushed through the client's framing and line
 * classification (client/src/events.rs) and its message parsing
 * (client/src/app.rs).
 */
module Protocol {
  import opened Text
  import Registry
  import Server
  import Wire
  import Json
  import opened ClientEvents
  import ClientApp

  /** A line the client reads in one piece: no `\n` inside it. */
  lemma OneLine(line: string)
    requires '\n' !in line
    ensures SplitLines(line + "\n") == ([line], [])
    ensures LinesEvents([line]) == LineEvents(line)
  {
    SplitLinesUnique([line], []);
    assert [line][1..] == [];
    assert Unlines([line]) + [] == line + "\n";
  }

  /**
   * The roster the server broadcasts reaches every client as one roster
   * update carrying exactly the registered names, in registry order.
   */
  lemma RosterReachesClient(entries: seq<Registry.Client>)
    ensures var line := RosterPrefix + Json.Encode(Registry.Usernames(entries));
      && SplitLines(Registry.RosterLine(entries)) == ([line], [])
      && LinesEvents([line]) == [UserListUpdate(Registry.Usernames(entries))]
  {
    var names := Registry.Usernames(entries);
    var e := Json.Encode(names);
    assert '\n' !in e by {
      EncodedHasNoNewline(names);
    }
    Json.DecodeEncode(names);
    RosterPayloadParses(e, names);
  }

  lemma EncodedHasNoNewline(names: seq<string>)
    ensures '\n' !in Json.Encode(names)
  {
    Json.EncodeNoControl(names);
  }

  /**
   * A line made of the roster prefix and a payload that decodes to a list
   * of names is read as one roster update carrying those names.
   */
  lemma RosterPayloadParses(rest: string, names: seq<string>)
    requires rest != [] && !IsWhitespace(rest[|rest| - 1]) && '\n' !in rest
    requires Json.Decode(rest) == Some(names)
    ensures var line := RosterPrefix + rest;
      && SplitLines(line + "\n") == ([line], [])
      && LinesEvents([line]) == [UserListUpdate(names)]
  {
    var line := RosterPrefix + rest;
    assert LineEvents(line) == [UserListUpdate(names)] by {
      assert Trim(line) == line by {
        assert line[0] == 'U' && line[|line| - 1] == rest[|rest| - 1];
        TrimNoop(line);
      }
      assert line[..|RosterPrefix|] == RosterPrefix && line[|RosterPrefix|..] == rest;
    }
    assert '\n' !in line;
    OneLine(line);
  }

  lemma NotRosterLine(name: string, t: string)
    requires |name| < |t| && t[..|name|] == name && t[|name|] == ':' && ':' !in name
    requires name != "USER_LIST"
    ensures !StartsWith(t, RosterPrefix)
  {
    if |t| >= |RosterPrefix| {
      var k: nat;
      if |name| >= 10 {
        k := 9;
        assert t[k] == name[k];
      } else if |name| < 9 {
        k := |name|;
      } else {
        k :| k < 9 && name[k] != RosterPrefix[k];
        assert t[k] == name[k];
      }
      assert t[..|RosterPrefix|][k] != RosterPrefix[k];
    }
  }

  /**
   * A chat line (`name: text`) that a registered user's chunk `text\n`
   * becomes reaches every other client as one chat event, which the UI
   * shows under the sender's name with the text trimmed. Registered names
   * are trimmed and non-empty; the name must hold no colon and must not be
   * `USER_LIST` (see `RosterForgedByUserNamedUserList`).
   */
  lemma ChatLineReachesClient(name: string, text: string)
    requires name != [] && Trim(name) == name
    requires ':' !in name && '\n' !in name && name != "USER_LIST"
    requires '\n' !in text
    ensures SplitLines(Server.ChatLine(name, text + "\n")) == ([name + ": " + text], [])
    ensures LinesEvents([name + ": " + text]) == [ServerMessage(name + ": " + text + "\n")]
    ensures ClientApp.ParseServerMessage(name + ": " + text + "\n")
         == Some(ClientApp.Message(name, Trim(text)))
  {
    var line := name + ": " + text;
    assert Server.ChatLine(name, text + "\n") == line + "\n" by {
      ConcatAssoc(name + ": ", text, "\n");
    }
    assert '\n' !in line by {
      assert '\n' !in name + ": ";
    }
    OneLine(line);
    ChatLineIsChat(name, text);
    ChatLineParses(name, text);
  }

  /** A chat line from a registered user other than `USER_LIST` is classified as a chat message. */
  lemma ChatLineIsChat(name: string, text: string)
    requires name != [] && Trim(name) == name && ':' !in name && name != "USER_LIST"
    ensures LineEvents(name + ": " + text) == [ServerMessage(name + ": " + text + "\n")]
  {
    var line := name + ": " + text;
    var p, q := TrimSplit(text);
    var t := ChatTrimmed(name, text, p);
    ChatTrimmedShape(name, text, p);
    assert Trim(line) == t by {
      ChatLineTrim(name, text, p, q, []);
      assert line + [] == line;
    }
    NotRosterLine(name, t);
  }

  /** The UI splits a chat line back into the sender's name and the trimmed text. */
  lemma ChatLineParses(name: string, text: string)
    requires name != [] && Trim(name) == name && ':' !in name
    ensures ClientApp.ParseServerMessage(name + ": " + text + "\n") == Some(ClientApp.Message(name, Trim(text)))
  {
    var line := name + ": " + text;
    var p, q := TrimSplit(text);
    var t := ChatTrimmed(name, text, p);
    ChatTrimmedShape(name, text, p);
    assert Trim(line + "\n") == t by {
      ChatLineTrim(name, text, p, q, "\n");
    }
    ClientApp.ParseSplitsAtFirstColon(line + "\n", |name|);
    assert Trim(t[..|name|]) == name by {
      TrimNoop(name);
    }
    ChatContentTrim(name, text, p);
  }

  lemma ChatTrimmedShape(name: string, text: string, p: string)
    requires ':' !in name
    ensures var t := ChatTrimmed(name, text, p);
      |name| < |t| && t[..|name|] == name && t[|name|] == ':' && ':' !in t[..|name|]
  {
    var t := ChatTrimmed(name, text, p);
    assert t == name + (":" + (if Trim(text) == [] then [] else " " + p + Trim(text)));
  }

  /** The trimmed form of the chat line `name: text`: the name, the colon, and the text without its outer whitespace. */
  function ChatTrimmed(name: string, text: string, p: string): string {
    name + ":" + (if Trim(text) == [] then [] else " " + p + Trim(text))
  }

  /** What follows the colon of a trimmed chat line trims to the trimmed text. */
  lemma ChatContentTrim(name: string, text: string, p: string)
    requires AllWhitespace(p)
    ensures var t := ChatTrimmed(name, text, p); |name| < |t| && Trim(t[|name| + 1..]) == Trim(text)
  {
    var t := ChatTrimmed(name, text, p);
    var core := Trim(text);
    if core == [] {
      assert t[|name| + 1..] == [];
    } else {
      assert t[|name| + 1..] == (" " + p) + core + [];
      AllWhitespaceConcat(" ", p);
      TrimAround(" " + p, core, []);
    }
  }

  /** The client's `trim` of a chat line followed by whitespace `tail`. */
  lemma ChatLineTrim(name: string, text: string, p: string, q: string, tail: string)
    requires name != [] && Trim(name) == name
    requires text == p + Trim(text) + q && AllWhitespace(p) && AllWhitespace(q) && AllWhitespace(tail)
    ensures Trim(name + ": " + text + tail) == ChatTrimmed(name, text, p)
  {
    var head := name + ":";
    assert !IsWhitespace(head[0]) by {
      assert head[0] == name[0] == Trim(name)[0];
    }
    assert head[|head| - 1] == ':';
    if Trim(text) == [] {
      BlankChatLineTrim(head, name, text, p, q, tail);
    } else {
      FullChatLineTrim(head, name, text, p, q, tail);
    }
  }

  /** A chat line whose text is blank trims to the name and the colon. */
  lemma BlankChatLineTrim(head: string, name: string, text: string, p: string, q: string, tail: string)
    requires head == name + ":" && !IsWhitespace(head[0]) && Trim(text) == []
    requires text == p + Trim(text) + q && AllWhitespace(p) && AllWhitespace(q) && AllWhitespace(tail)
    ensures Trim(name + ": " + text + tail) == ChatTrimmed(name, text, p)
  {
    var w := " " + p + q + tail;
    assert AllWhitespace(w) by {
      AllWhitespaceConcat(" ", p);
      AllWhitespaceConcat(" " + p, q);
      AllWhitespaceConcat(" " + p + q, tail);
    }
    assert name + ": " + text + tail == [] + head + w by {
      assert text == p + q;
    }
    assert Trim([] + head + w) == head by {
      TrimAround([], head, w);
    }
  }

  /** A chat line whose text is not blank trims to the name, the colon, the space, the leading whitespace and the trimmed text. */
  lemma FullChatLineTrim(head: string, name: string, text: string, p: string, q: string, tail: string)
    requires head == name + ":" && !IsWhitespace(head[0]) && Trim(text) != []
    requires text == p + Trim(text) + q && AllWhitespace(p) && AllWhitespace(q) && AllWhitespace(tail)
    ensures Trim(name + ": " + text + tail) == ChatTrimmed(name, text, p)
  {
    var core := Trim(text);
    var line := name + ": " + text + tail;
    assert Trim(line) == head + ((" " + p) + core) by {
      assert line == head + " " + (p + core + q) + tail by {
        ColonSpace(name);
      }
      assert core != [] && !IsWhitespace(core[|core| - 1]);
      KeptAroundCore(line, head, p, core, q, tail);
    }
    assert ChatTrimmed(name, text, p) == head + ((" " + p) + core);
  }

  /** Whitespace after a non-blank core goes; the whitespace inside, between the head and the core, stays. */
  lemma KeptAroundCore(line: string, head: string, p: string, core: string, q: string, tail: string)
    requires line == head + " " + (p + core + q) + tail
    requires head != [] && !IsWhitespace(head[0]) && core != [] && !IsWhitespace(core[|core| - 1])
    requires AllWhitespace(q) && AllWhitespace(tail)
    ensures Trim(line) == head + ((" " + p) + core)
  {
    var t := head + ((" " + p) + core);
    assert !IsWhitespace(t[0]) && !IsWhitespace(t[|t| - 1]) by {
      Ends(head, (" " + p) + core);
      Ends(" " + p, core);
    }
    assert AllWhitespace(q + tail) by {
      AllWhitespaceConcat(q, tail);
    }
    assert line == [] + t + (q + tail) by {
      Regroup(head, " ", p, core, q, tail);
    }
    TrimAround([], t, q + tail);
  }

  lemma ColonSpace(name: string)
    ensures name + ": " == name + ":" + " "
  {
  }

  lemma Ends<T>(a: seq<T>, b: seq<T>)
    requires a != [] && b != []
    ensures (a + b)[0] == a[0] && (a + b)[|a + b| - 1] == b[|b| - 1]
  {
  }

  lemma Regroup<T>(h: seq<T>, x: seq<T>, p: seq<T>, c: seq<T>, q: seq<T>, t: seq<T>)
    ensures (h + x) + (p + c + q) + t == (h + ((x + p) + c)) + (q + t)
  {
  }

  /**
   * A join notice holds no colon when the name holds none, so the client
   * shows it as a message from "System".
   */
  lemma JoinNoticeShownAsSystem(name: string)
    requires name != [] && Trim(name) == name && ':' !in name && '\n' !in name
    ensures var join := name + " has joined the chat";
      && SplitLines(Server.JoinNotice(name)) == ([join], [])
      && LinesEvents([join]) == [ServerMessage(join + "\n")]
      && ClientApp.ParseServerMessage(join + "\n") == Some(ClientApp.Message(ClientApp.SystemAuthor, join))
  {
    assert Server.JoinNotice(name) == name + " has joined the chat" + "\n";
    assert !IsWhitespace(" has joined the chat"[|" has joined the chat"| - 1]);
    NoticeShownAsSystem(name, " has joined the chat");
  }

  /** The same for the leave notice. */
  lemma LeaveNoticeShownAsSystem(name: string)
    requires name != [] && Trim(name) == name && ':' !in name && '\n' !in name
    ensures var leave := name + " has left the chat";
      && SplitLines(Server.LeaveNotice(name)) == ([leave], [])
      && LinesEvents([leave]) == [ServerMessage(leave + "\n")]
      && ClientApp.ParseServerMessage(leave + "\n") == Some(ClientApp.Message(ClientApp.SystemAuthor, leave))
  {
    assert Server.LeaveNotice(name) == name + " has left the chat" + "\n";
    assert !IsWhitespace(" has left the chat"[|" has left the chat"| - 1]);
    NoticeShownAsSystem(name, " has left the chat");
  }

  lemma NoticeShownAsSystem(name: string, suffix: string)
    requires name != [] && Trim(name) == name && ':' !in name && '\n' !in name
    requires suffix != [] && !IsWhitespace(suffix[|suffix| - 1]) && ':' !in suffix && '\n' !in suffix
    ensures var x := name + suffix;
      && SplitLines(x + "\n") == ([x], [])
      && LinesEvents([x]) == [ServerMessage(x + "\n")]
      && ClientApp.ParseServerMessage(x + "\n") == Some(ClientApp.Message(ClientApp.SystemAuthor, x))
  {
    var x := name + suffix;
    assert !IsWhitespace(x[0]) by {
      assert x[0] == name[0] == Trim(name)[0];
    }
    assert x[|x| - 1] == suffix[|suffix| - 1];
    assert ':' !in x && '\n' !in x;
    PlainLineShownAsSystem(x);
  }

  lemma PlainLineShownAsSystem(x: string)
    requires x != [] && !IsWhitespace(x[0]) && !IsWhitespace(x[|x| - 1])
    requires ':' !in x && '\n' !in x
    ensures SplitLines(x + "\n") == ([x], [])
    ensures LinesEvents([x]) == [ServerMessage(x + "\n")]
    ensures ClientApp.ParseServerMessage(x + "\n") == Some(ClientApp.Message(ClientApp.SystemAuthor, x))
  {
    OneLine(x);
    assert LineEvents(x) == [ServerMessage(x + "\n")] by {
      TrimNoop(x);
      ColonFreeNotRoster(x);
    }
    assert Trim(x + "\n") == x by {
      TrimmedLine(x);
    }
    ClientApp.ParseWithoutColon(x + "\n");
  }

  lemma ColonFreeNotRoster(x: string)
    requires ':' !in x
    ensures !StartsWith(x, RosterPrefix)
  {
    if |x| >= |RosterPrefix| {
      assert x[..|RosterPrefix|][9] == x[9];
    }
  }

  /** The client's `trim` takes off the `\n` that ends a line and nothing else. */
  lemma TrimmedLine(x: string)
    requires x != [] && !IsWhitespace(x[0]) && !IsWhitespace(x[|x| - 1])
    ensures Trim(x + "\n") == x
  {
    assert [] + x + "\n" == x + "\n";
    TrimAround([], x, "\n");
  }

  /**
   * A chat line from a user named `USER_LIST` (a name registration accepts,
   * see `UserListNameAccepted`) whose text is a JSON array of strings reaches
   * every client as a roster update: such a user can replace the roster
   * other clients show.
   */
  lemma RosterForgedByUserNamedUserList(names: seq<string>)
    ensures var line := RosterPrefix + (" " + Json.Encode(names));
      && SplitLines(Server.ChatLine("USER_LIST", Json.Encode(names) + "\n")) == ([line], [])
      && LinesEvents([line]) == [UserListUpdate(names)]
  {
    var e := Json.Encode(names);
    var line := RosterPrefix + (" " + e);
    assert SplitLines(line + "\n") == ([line], []) && LinesEvents([line]) == [UserListUpdate(names)] by {
      assert '\n' !in " " + e by {
        EncodedHasNoNewline(names);
      }
      ForgedPayloadDecodes(names);
      RosterPayloadParses(" " + e, names);
    }
    ForgedLineText(e);
  }

  /** A space before an encoded list changes nothing for the decoder, and the payload still ends in `]`. */
  lemma ForgedPayloadDecodes(names: seq<string>)
    ensures var e := " " + Json.Encode(names);
      && e[|e| - 1] == ']'
      && Json.Decode(e) == Some(names)
  {
    var e := Json.Encode(names);
    Json.DecodeEncode(names);
    assert Json.SkipWs(" " + e) == Json.SkipWs(e) by {
      assert (" " + e)[1..] == e;
    }
  }

  /**
   * Registration does not refuse the name `USER_LIST`: unless a peer of that
   * name (in any ASCII case) is registered, a peer that sends it as its first
   * read gets it after one prompt.
   */
  lemma UserListNameAccepted(names: seq<string>, rest: seq<Wire.ReadResult>)
    requires !Server.Taken(names, "USER_LIST")
    ensures Server.Negotiate([Wire.Chunk("USER_LIST")] + rest, names, true) == ([Server.Prompt], Server.Accepted("USER_LIST"), rest)
  {
    UserListNameAcceptable(names);
    Server.AcceptableNameNegotiated("USER_LIST", names, rest);
  }

  lemma UserListNameAcceptable(names: seq<string>)
    requires !Server.Taken(names, "USER_LIST")
    ensures Server.Acceptable("USER_LIST", names)
  {
    var u := "USER_LIST";
    assert |u| == 9 && u[0] == 'U' && u[8] == 'T';
    AcceptableByShape(u, names);
  }

  /** A name with non-whitespace ends, a length other than that of "System", and not taken, is acceptable. */
  lemma AcceptableByShape(name: string, names: seq<string>)
    requires name != [] && !IsWhitespace(name[0]) && !IsWhitespace(name[|name| - 1])
    requires |name| <= Server.NameBufferSize && |name| != |Server.ReservedUsername|
    requires !Server.Taken(names, name)
    ensures Server.Acceptable(name, names)
  {
    TrimNoop(name);
  }

  /** The chat line of `USER_LIST` is the roster prefix followed by a space and the text. */
  lemma ForgedLineText(e: string)
    ensures Server.ChatLine("USER_LIST", e + "\n") == RosterPrefix + (" " + e) + "\n"
  {
  }
}
