/**
 * The roster payload: a JSON array of strings, as `serde_json::to_string`
 * writes a `Vec<String>` (compact, no spaces, the escapes of RFC 8259 with
 * lower-case hex) and as `serde_json::from_str::<Vec<String>>` reads one
 * (whitespace between tokens, every single-character escape and `\uXXXX`).
 */
module Json {
  import opened Text

  /** No character of `s` is a control character (below U+0020). */
  predicate NoControl(s: string) {
    forall i :: 0 <= i < |s| ==> s[i] >= ' '
  }

  function HexDigit(n: nat): (c: char)
    requires n < 16
    ensures c >= '0'
  {
    if n < 10 then ('0' as int + n) as char else ('a' as int + n - 10) as char
  }

  function HexValue(c: char): (r: Option<nat>)
    ensures r.Some? ==> r.value < 16
  {
    if '0' <= c <= '9' then Some(c as int - '0' as int)
    else if 'a' <= c <= 'f' then Some(c as int - 'a' as int + 10)
    else if 'A' <= c <= 'F' then Some(c as int - 'A' as int + 10)
    else None
  }

  /** The escape serde_json writes for one character of a string. */
  function EscapeChar(c: char): (r: string)
    ensures r != []
  {
    if c == '"' then ['\\', '"']
    else if c == '\\' then ['\\', '\\']
    else if c == '\U{8}' then ['\\', 'b']
    else if c == '\U{C}' then ['\\', 'f']
    else if c == '\n' then ['\\', 'n']
    else if c == '\r' then ['\\', 'r']
    else if c == '\t' then ['\\', 't']
    else if c < ' ' then ['\\', 'u', '0', '0', HexDigit(c as int / 16), HexDigit(c as int % 16)]
    else [c]
  }

  function Escape(s: string): (r: string)
    ensures |r| >= |s|
  {
    if s == [] then [] else EscapeChar(s[0]) + Escape(s[1..])
  }

  function Quote(s: string): (r: string)
    ensures |r| >= 2 && r[0] == '"'
  {
    "\"" + Escape(s) + "\""
  }

  function EncodeItems(names: seq<string>): (r: string)
    ensures names != [] ==> r != [] && r[0] == '"'
  {
    if names == [] then []
    else if |names| == 1 then Quote(names[0])
    else Quote(names[0]) + "," + EncodeItems(names[1..])
  }

  /** `serde_json::to_string(&names)`. */
  function Encode(names: seq<string>): (r: string)
    ensures |r| >= 2 && r[0] == '[' && r[|r| - 1] == ']'
  {
    "[" + EncodeItems(names) + "]"
  }

  lemma EscapeCharNoControl(c: char)
    ensures NoControl(EscapeChar(c))
  {
  }

  lemma {:induction false} EscapeNoControl(s: string)
    ensures NoControl(Escape(s))
  {
    if s != [] {
      EscapeCharNoControl(s[0]);
      EscapeNoControl(s[1..]);
    }
  }

  lemma {:induction false} EncodeItemsNoControl(names: seq<string>)
    ensures NoControl(EncodeItems(names))
  {
    if names != [] {
      EscapeNoControl(names[0]);
      if |names| > 1 {
        EncodeItemsNoControl(names[1..]);
      }
    }
  }

  /** The roster payload holds no control character, so no line break: it fits on one line. */
  lemma EncodeNoControl(names: seq<string>)
    ensures NoControl(Encode(names))
  {
    EncodeItemsNoControl(names);
  }

  predicate IsJsonWhitespace(c: char) {
    c == ' ' || c == '\t' || c == '\n' || c == '\r'
  }

  function SkipWs(s: string): (r: string)
    ensures |r| <= |s|
    ensures r == [] || !IsJsonWhitespace(r[0])
  {
    if s != [] && IsJsonWhitespace(s[0]) then SkipWs(s[1..]) else s
  }

  lemma SkipWsNoop(s: string)
    requires s == [] || !IsJsonWhitespace(s[0])
    ensures SkipWs(s) == s
  {
  }

  /** The character an escape sequence stands for, given the text after the backslash. */
  function Unescape(s: string): (r: Option<(char, string)>)
    ensures r.Some? ==> |r.value.1| < |s|
  {
    if s == [] then None
    else if s[0] == '"' || s[0] == '\\' || s[0] == '/' then Some((s[0], s[1..]))
    else if s[0] == 'b' then Some(('\U{8}', s[1..]))
    else if s[0] == 'f' then Some(('\U{C}', s[1..]))
    else if s[0] == 'n' then Some(('\n', s[1..]))
    else if s[0] == 'r' then Some(('\r', s[1..]))
    else if s[0] == 't' then Some(('\t', s[1..]))
    else if s[0] == 'u' && |s| >= 5 then
      match (HexValue(s[1]), HexValue(s[2]), HexValue(s[3]), HexValue(s[4]))
      case (Some(a), Some(b), Some(c), Some(d)) =>
        var v := ((a * 16 + b) * 16 + c) * 16 + d;
        if 0xD800 <= v <= 0xDFFF then None else Some((v as char, s[5..]))
      case _ => None
    else None
  }

  function Prepend(c: char, parsed: Option<(string, string)>): Option<(string, string)> {
    match parsed
    case None => None
    case Some((t, rest)) => Some(([c] + t, rest))
  }

  /** The contents of a string literal whose opening quote has been read, and the text after its closing quote. */
  function ParseStringBody(s: string): (r: Option<(string, string)>)
    ensures r.Some? ==> |r.value.1| < |s|
    decreases |s|
  {
    if s == [] then None
    else if s[0] == '"' then Some(([], s[1..]))
    else if s[0] == '\\' then
      match Unescape(s[1..])
      case None => None
      case Some((c, rest)) => Prepend(c, ParseStringBody(rest))
    else if s[0] < ' ' then None
    else Prepend(s[0], ParseStringBody(s[1..]))
  }

  function Cons(item: string, parsed: Option<(seq<string>, string)>): Option<(seq<string>, string)> {
    match parsed
    case None => None
    case Some((items, rest)) => Some(([item] + items, rest))
  }

  /** A non-empty list of string literals separated by commas and closed by `]`. */
  function ParseItems(s: string): (r: Option<(seq<string>, string)>)
    ensures r.Some? ==> |r.value.1| < |s|
    decreases |s|
  {
    if s == [] || s[0] != '"' then None
    else match ParseStringBody(s[1..])
      case None => None
      case Some((item, after)) =>
        var rest := SkipWs(after);
        if rest == [] then None
        else if rest[0] == ']' then Some(([item], rest[1..]))
        else if rest[0] == ',' then Cons(item, ParseItems(SkipWs(rest[1..])))
        else None
  }

  /** The elements of an array whose `[` has been read, and the text after its `]`. */
  function ParseElements(s: string): Option<(seq<string>, string)> {
    if s != [] && s[0] == ']' then Some(([], s[1..])) else ParseItems(s)
  }

  /** `serde_json::from_str::<Vec<String>>(s).ok()`: only whitespace may follow the array. */
  function Decode(s: string): Option<seq<string>> {
    var t := SkipWs(s);
    if t == [] || t[0] != '[' then None
    else match ParseElements(SkipWs(t[1..]))
      case None => None
      case Some((items, rest)) => if SkipWs(rest) == [] then Some(items) else None
  }

  lemma HexDigitValue(n: nat)
    requires n < 16
    ensures HexValue(HexDigit(n)) == Some(n)
  {
  }

  /** Reading back the escape of one character yields that character. */
  lemma EscapeCharParses(c: char, tail: string)
    ensures ParseStringBody(EscapeChar(c) + tail) == Prepend(c, ParseStringBody(tail))
  {
    var s := EscapeChar(c) + tail;
    if c < ' ' && c != '\U{8}' && c != '\U{C}' && c != '\n' && c != '\r' && c != '\t' {
      var hi, lo := c as int / 16, c as int % 16;
      HexDigitValue(hi);
      HexDigitValue(lo);
      assert s[1..] == ['u', '0', '0', HexDigit(hi), HexDigit(lo)] + tail;
      assert s[1..][5..] == tail;
      assert Unescape(s[1..]) == Some((c, tail));
    } else if |EscapeChar(c)| == 2 {
      assert s[1..] == [EscapeChar(c)[1]] + tail;
      assert s[1..][1..] == tail;
    } else {
      assert s[1..] == tail;
    }
  }

  /** The body of a quoted, escaped string parses back to the string itself. */
  lemma {:induction false} EscapeParses(t: string, rest: string)
    ensures ParseStringBody(Escape(t) + "\"" + rest) == Some((t, rest))
  {
    if t == [] {
      assert Escape(t) + "\"" + rest == "\"" + rest;
    } else {
      var tail := Escape(t[1..]) + "\"" + rest;
      assert Escape(t) + "\"" + rest == EscapeChar(t[0]) + tail;
      EscapeCharParses(t[0], tail);
      EscapeParses(t[1..], rest);
      assert [t[0]] + t[1..] == t;
    }
  }

  /** A quoted string followed by `tail`, with the opening quote taken off. */
  lemma QuoteThen(name: string, tail: string)
    ensures (Quote(name) + tail)[1..] == Escape(name) + "\"" + tail
  {
    var x := Escape(name);
    calc {
      Quote(name) + tail;
      ("\"" + x + "\"") + tail;
      == { ConcatAssoc("\"" + x, "\"", tail); }
      ("\"" + x) + ("\"" + tail);
      == { ConcatAssoc("\"", x, "\"" + tail); }
      "\"" + (x + ("\"" + tail));
      == { ConcatAssoc(x, "\"", tail); }
      "\"" + (x + "\"" + tail);
    }
  }

  lemma LastItemParses(name: string, rest: string)
    ensures ParseItems(Quote(name) + ("]" + rest)) == Some(([name], rest))
  {
    QuoteThen(name, "]" + rest);
    EscapeParses(name, "]" + rest);
    SkipWsNoop("]" + rest);
  }

  lemma NextItemParses(name: string, more: string)
    ensures ParseItems(Quote(name) + ("," + more)) == Cons(name, ParseItems(SkipWs(more)))
  {
    QuoteThen(name, "," + more);
    EscapeParses(name, "," + more);
    SkipWsNoop("," + more);
    assert ("," + more)[1..] == more;
  }

  lemma {:induction false} ItemsParse(names: seq<string>, rest: string)
    requires names != []
    ensures ParseItems(EncodeItems(names) + ("]" + rest)) == Some((names, rest))
  {
    var q := Quote(names[0]);
    if |names| == 1 {
      LastItemParses(names[0], rest);
      assert [names[0]] == names;
    } else {
      var e := EncodeItems(names[1..]);
      var more := e + ("]" + rest);
      assert EncodeItems(names) + ("]" + rest) == q + ("," + more) by {
        ConcatAssoc(q + ",", e, "]" + rest);
        ConcatAssoc(q, ",", more);
      }
      assert ParseItems(q + ("," + more)) == Cons(names[0], ParseItems(more)) by {
        NextItemParses(names[0], more);
        assert more[0] == e[0];
        SkipWsNoop(more);
      }
      ItemsParse(names[1..], rest);
      assert [names[0]] + names[1..] == names;
    }
  }

  /** The elements of an encoded array, once its `[` is read, parse back to the list. */
  lemma ElementsParse(names: seq<string>)
    ensures ParseElements(EncodeItems(names) + "]") == Some((names, []))
  {
    var u := EncodeItems(names) + "]";
    if names == [] {
      assert u == "]" && u[1..] == [];
    } else {
      assert u[0] == EncodeItems(names)[0] == '"';
      ItemsParse(names, []);
      assert "]" + [] == "]";
    }
  }

  /** serde_json reads back exactly the list it wrote. */
  lemma DecodeEncode(names: seq<string>)
    ensures Decode(Encode(names)) == Some(names)
  {
    var u := EncodeItems(names) + "]";
    var s := "[" + u;
    assert Encode(names) == s;
    assert s[0] == '[' && s[1..] == u;
    SkipWsNoop(s);
    assert u[0] == '"' || u[0] == ']';
    SkipWsNoop(u);
    ElementsParse(names);
    SkipWsNoop([]);
  }
}
