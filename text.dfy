/**
 * String helpers shared by the server and the client: the parts of Rust's
 * `str` API that the chat relay relies on (`trim`, `eq_ignore_ascii_case`,
 * `starts_with`, `find`). Strings are sequences of characters; the byte-level
 * UTF-8 view of the Rust code is not modelled.
 */
module Text {

  datatype Option<T> = None | Some(value: T)

  /** Concatenation is associative; stated once so that long chains of appends stay cheap. */
  lemma ConcatAssoc<T>(a: seq<T>, b: seq<T>, c: seq<T>)
    ensures a + (b + c) == (a + b) + c
  {
  }

  /** Rust's `char::is_whitespace`: the Unicode White_Space property. */
  predicate IsWhitespace(c: char) {
    || ('\t' <= c <= '\r')
    || c == ' '
    || c == '\U{85}'
    || c == '\U{A0}'
    || c == '\U{1680}'
    || ('\U{2000}' <= c <= '\U{200A}')
    || c == '\U{2028}'
    || c == '\U{2029}'
    || c == '\U{202F}'
    || c == '\U{205F}'
    || c == '\U{3000}'
  }

  /** `str::trim_start`: drops leading whitespace, keeps a suffix of `s`. */
  function TrimStart(s: string): (r: string)
    ensures |r| <= |s| && r == s[|s| - |r|..]
    ensures forall k :: 0 <= k < |s| - |r| ==> IsWhitespace(s[k])
    ensures r == [] || !IsWhitespace(r[0])
  {
    if s != [] && IsWhitespace(s[0]) then TrimStart(s[1..]) else s
  }

  /** `str::trim_end`: drops trailing whitespace, keeps a prefix of `s`. */
  function TrimEnd(s: string): (r: string)
    ensures |r| <= |s| && r == s[..|r|]
    ensures forall k :: |r| <= k < |s| ==> IsWhitespace(s[k])
    ensures r == [] || !IsWhitespace(r[|r| - 1])
  {
    if s != [] && IsWhitespace(s[|s| - 1]) then TrimEnd(s[..|s| - 1]) else s
  }

  predicate AllWhitespace(s: string) {
    forall k :: 0 <= k < |s| ==> IsWhitespace(s[k])
  }

  /** `str::trim`: the infix of `s` left after dropping whitespace at both ends. */
  function Trim(s: string): (r: string)
    ensures |r| <= |s|
    ensures r == [] || (!IsWhitespace(r[0]) && !IsWhitespace(r[|r| - 1]))
    ensures r == [] <==> AllWhitespace(s)
  {
    var t := TrimStart(s);
    var r := TrimEnd(t);
    assert r != [] ==> r[0] == t[0];
    assert r == [] ==> t == [];
    r
  }

  /** Trimming a string whose two ends are not whitespace changes nothing. */
  lemma TrimNoop(s: string)
    requires s != [] && !IsWhitespace(s[0]) && !IsWhitespace(s[|s| - 1])
    ensures Trim(s) == s
  {
  }

  /** `trim` is idempotent. */
  lemma TrimIdempotent(s: string)
    ensures Trim(Trim(s)) == Trim(s)
  {
    if Trim(s) != [] {
      TrimNoop(Trim(s));
    }
  }

  /** Rust's `u8::to_ascii_lowercase`, applied to a character. */
  function ToAsciiLower(c: char): (r: char)
    ensures 'A' <= c <= 'Z' ==> r as int == c as int + 32
    ensures !('A' <= c <= 'Z') ==> r == c
  {
    if 'A' <= c <= 'Z' then (c as int + 32) as char else c
  }

  /** `str::eq_ignore_ascii_case`: equal once ASCII letters are lower-cased. */
  predicate EqIgnoreAsciiCase(a: string, b: string) {
    |a| == |b| && forall i :: 0 <= i < |a| ==> ToAsciiLower(a[i]) == ToAsciiLower(b[i])
  }

  lemma EqIgnoreAsciiCaseSymmetric(a: string, b: string)
    ensures EqIgnoreAsciiCase(a, b) <==> EqIgnoreAsciiCase(b, a)
  {
  }

  /** `str::starts_with`. */
  predicate StartsWith(s: string, prefix: string) {
    |prefix| <= |s| && s[..|prefix|] == prefix
  }

  /** `str::find` for one character: the index of its first occurrence. */
  function Find(s: string, c: char): (r: Option<nat>)
    ensures r.None? <==> c !in s
    ensures r.Some? ==> r.value < |s| && s[r.value] == c && c !in s[..r.value]
  {
    if s == [] then None
    else if s[0] == c then Some(0)
    else match Find(s[1..], c)
      case None => None
      case Some(i) =>
        assert s[..i + 1] == [s[0]] + s[1..][..i];
        Some(i + 1)
  }
  /** `find` returns the first occurrence, whichever index it is. */
  lemma {:induction false} FindFirst(s: string, c: char, i: nat)
    requires i < |s| && s[i] == c && c !in s[..i]
    ensures Find(s, c) == Some(i)
  {
    if i > 0 {
      assert s[0] == s[..i][0];
      assert s[1..][..i - 1] == s[1..i] && s[1..i] == s[..i][1..];
      FindFirst(s[1..], c, i - 1);
    }
  }

  lemma AllWhitespaceConcat(a: string, b: string)
    requires AllWhitespace(a) && AllWhitespace(b)
    ensures AllWhitespace(a + b)
  {
    forall k | 0 <= k < |a + b| ensures IsWhitespace((a + b)[k]) {
      if k < |a| { assert (a + b)[k] == a[k]; } else { assert (a + b)[k] == b[k - |a|]; }
    }
  }

  lemma {:induction false} TrimStartSkips(p: string, s: string)
    requires AllWhitespace(p) && (s == [] || !IsWhitespace(s[0]))
    ensures TrimStart(p + s) == s
  {
    if p != [] {
      assert (p + s)[1..] == p[1..] + s;
      TrimStartSkips(p[1..], s);
    } else {
      assert p + s == s;
    }
  }

  lemma {:induction false} TrimEndSkips(s: string, q: string)
    requires AllWhitespace(q) && (s == [] || !IsWhitespace(s[|s| - 1]))
    ensures TrimEnd(s + q) == s
    decreases |q|
  {
    if q != [] {
      assert (s + q)[..|s + q| - 1] == s + q[..|q| - 1];
      TrimEndSkips(s, q[..|q| - 1]);
    } else {
      assert s + q == s;
    }
  }

  /** `trim` drops exactly the whitespace around a core whose two ends are not whitespace. */
  lemma TrimAround(p: string, core: string, q: string)
    requires AllWhitespace(p) && AllWhitespace(q)
    requires core == [] || (!IsWhitespace(core[0]) && !IsWhitespace(core[|core| - 1]))
    ensures Trim(p + core + q) == core
  {
    ConcatAssoc(p, core, q);
    if core == [] {
      assert p + core + q == p + q;
      assert forall k :: 0 <= k < |p + q| ==> IsWhitespace((p + q)[k]) by {
        forall k | 0 <= k < |p + q| ensures IsWhitespace((p + q)[k]) {
          if k < |p| { assert (p + q)[k] == p[k]; } else { assert (p + q)[k] == q[k - |p|]; }
        }
      }
    } else {
      TrimStartSkips(p, core + q);
      TrimEndSkips(core, q);
    }
  }

  /** Every string is its trimmed core with whitespace around it. */
  lemma TrimSplit(s: string) returns (p: string, q: string)
    ensures s == p + Trim(s) + q
    ensures AllWhitespace(p) && AllWhitespace(q)
  {
    p := TrimStartSplit(s);
    q := TrimEndSplit(TrimStart(s));
    ConcatAssoc(p, Trim(s), q);
  }

  lemma TrimStartSplit(s: string) returns (p: string)
    ensures s == p + TrimStart(s) && AllWhitespace(p)
  {
    var t := TrimStart(s);
    p := s[..|s| - |t|];
    assert s == p + t by {
      assert t == s[|s| - |t|..];
    }
    assert AllWhitespace(p) by {
      forall k | 0 <= k < |p| ensures IsWhitespace(p[k]) {
        assert p[k] == s[k];
      }
    }
  }

  lemma TrimEndSplit(s: string) returns (q: string)
    ensures s == TrimEnd(s) + q && AllWhitespace(q)
  {
    var r := TrimEnd(s);
    q := s[|r|..];
    assert s == r + q by {
      assert r == s[..|r|];
    }
    assert AllWhitespace(q) by {
      forall k | 0 <= k < |q| ensures IsWhitespace(q[k]) {
        assert q[k] == s[|r| + k];
      }
    }
  }
}
