/**
 * The server's connection registry (server/src/main.rs): an insertion-ordered
 * map (`IndexMap`) from peer address to the connected client's username,
 * together with a log of every payload the server has written and flushed to a
 * peer. The sockets themselves are not modelled: which peers' writes fail is an
 * oracle, the set `dead` of addresses whose `write_all` or `flush` fails.
 */
module Registry {
  import opened Text
  import Json

  /** A peer's socket address. */
  type Addr = nat

  /** `"0.0.0.0:0"`, the sender address `broadcast_user_list` passes (with `include_sender` set). */
  const Unspecified: Addr := 0

  /** One registry entry: the key and the username of its `Client` value. */
  datatype Client = Client(addr: Addr, username: string)

  /** A payload written and flushed to one peer. */
  datatype Delivery = Delivery(to: Addr, payload: string)

  /** The registry's entries in insertion order, and every delivery so far, in order. */
  datatype State = State(entries: seq<Client>, outbox: seq<Delivery>)

  function Addrs(entries: seq<Client>): (r: seq<Addr>)
    ensures |r| == |entries| && forall i :: 0 <= i < |r| ==> r[i] == entries[i].addr
  {
    if entries == [] then [] else [entries[0].addr] + Addrs(entries[1..])
  }

  /** `conn_map.values().map(|client| client.username.clone()).collect()`. */
  function Usernames(entries: seq<Client>): (r: seq<string>)
    ensures |r| == |entries| && forall i :: 0 <= i < |r| ==> r[i] == entries[i].username
  {
    if entries == [] then [] else [entries[0].username] + Usernames(entries[1..])
  }

  /** A map has at most one entry per key. */
  predicate Distinct(entries: seq<Client>) {
    forall i, j :: 0 <= i < j < |entries| ==> entries[i].addr != entries[j].addr
  }

  /** The position of `addr` in the registry (`IndexMap::get_index_of`). */
  function IndexOf(entries: seq<Client>, addr: Addr): (r: Option<nat>)
    ensures r.None? <==> addr !in Addrs(entries)
    ensures r.Some? ==> r.value < |entries| && entries[r.value].addr == addr
  {
    if entries == [] then None
    else if entries[0].addr == addr then Some(0)
    else match IndexOf(entries[1..], addr)
      case None => None
      case Some(i) => Some(i + 1)
  }

  /**
   * `IndexMap::insert`: a new key is appended at the end; an existing key keeps
   * its position and gets the new value.
   */
  function InsertEntry(entries: seq<Client>, addr: Addr, username: string): (r: seq<Client>)
    requires Distinct(entries)
    ensures Distinct(r)
    ensures Client(addr, username) in r
    ensures addr !in Addrs(entries) ==> r == entries + [Client(addr, username)]
    ensures addr in Addrs(entries) ==> |r| == |entries|
    ensures forall i :: 0 <= i < |entries| && entries[i].addr != addr ==> r[i] == entries[i]
    ensures forall c :: c in r ==> c == Client(addr, username) || (c in entries && c.addr != addr)
  {
    match IndexOf(entries, addr)
    case None =>
      AppendFresh(entries, Client(addr, username));
      entries + [Client(addr, username)]
    case Some(i) =>
      ReplaceAt(entries, i, Client(addr, username));
      entries[i := Client(addr, username)]
  }

  lemma AppendFresh(entries: seq<Client>, c: Client)
    requires Distinct(entries) && c.addr !in Addrs(entries)
    ensures Distinct(entries + [c])
    ensures forall x :: x in entries + [c] ==> x == c || (x in entries && x.addr != c.addr)
  {
    forall i | 0 <= i < |entries| ensures entries[i].addr != c.addr {
      assert Addrs(entries)[i] == entries[i].addr;
    }
  }

  lemma ReplaceAt(entries: seq<Client>, i: nat, c: Client)
    requires Distinct(entries) && i < |entries| && entries[i].addr == c.addr
    ensures Distinct(entries[i := c])
    ensures c in entries[i := c]
    ensures forall x :: x in entries[i := c] ==> x == c || (x in entries && x.addr != c.addr)
  {
    var r := entries[i := c];
    assert r[i] == c;
    forall x | x in r ensures x == c || (x in entries && x.addr != c.addr) {
      var k :| 0 <= k < |r| && r[k] == x;
      if k != i { assert r[k] == entries[k]; }
    }
  }

  /** The entries whose address is not in `gone`, in their original order. */
  function Without(entries: seq<Client>, gone: set<Addr>): (r: seq<Client>)
    ensures |r| <= |entries|
  {
    if entries == [] then []
    else (if entries[0].addr in gone then [] else [entries[0]]) + Without(entries[1..], gone)
  }

  /** Exactly the entries with an address outside `gone` survive. */
  lemma {:induction false} WithoutMembers(entries: seq<Client>, gone: set<Addr>)
    ensures forall c :: c in Without(entries, gone) <==> c in entries && c.addr !in gone
  {
    if entries != [] {
      WithoutMembers(entries[1..], gone);
      assert forall c :: c in entries <==> c == entries[0] || c in entries[1..];
    }
  }

  /** An address survives a removal exactly when it was registered and is not removed. */
  lemma AddrsWithout(entries: seq<Client>, gone: set<Addr>, a: Addr)
    ensures a in Addrs(Without(entries, gone)) <==> a in Addrs(entries) && a !in gone
  {
    var r := Without(entries, gone);
    WithoutMembers(entries, gone);
    if a in Addrs(r) {
      var k :| 0 <= k < |r| && Addrs(r)[k] == a;
      assert r[k] in entries;
      var j :| 0 <= j < |entries| && entries[j] == r[k];
      assert Addrs(entries)[j] == a;
    }
    if a in Addrs(entries) && a !in gone {
      var j :| 0 <= j < |entries| && Addrs(entries)[j] == a;
      assert entries[j] in r;
      var k :| 0 <= k < |r| && r[k] == entries[j];
      assert Addrs(r)[k] == a;
    }
  }

  /** Removing entries from a map leaves a map. */
  lemma {:induction false} WithoutDistinct(entries: seq<Client>, gone: set<Addr>)
    requires Distinct(entries)
    ensures Distinct(Without(entries, gone))
  {
    if entries != [] {
      var rest := Without(entries[1..], gone);
      WithoutDistinct(entries[1..], gone);
      WithoutMembers(entries[1..], gone);
      forall c | c in rest ensures c.addr != entries[0].addr {
        var k :| 0 <= k < |entries[1..]| && entries[1..][k] == c;
        assert entries[k + 1] == c;
      }
    }
  }

  /** `xs` is `ys` with some elements left out and the others in the same order. */
  predicate IsSubsequence<T(==)>(xs: seq<T>, ys: seq<T>)
    decreases |ys|
  {
    if xs == [] then true
    else if ys == [] then false
    else (xs[0] == ys[0] && IsSubsequence(xs[1..], ys[1..])) || IsSubsequence(xs, ys[1..])
  }

  /** Removing entries keeps the survivors' relative order (`shift_remove`, not `swap_remove`). */
  lemma {:induction false} WithoutIsSubsequence(entries: seq<Client>, gone: set<Addr>)
    ensures IsSubsequence(Without(entries, gone), entries)
  {
    if entries != [] {
      WithoutIsSubsequence(entries[1..], gone);
      var rest := Without(entries[1..], gone);
      if entries[0].addr in gone {
        assert Without(entries, gone) == rest;
      } else {
        assert Without(entries, gone) == [entries[0]] + rest;
        assert (Without(entries, gone))[1..] == rest;
      }
    }
  }

  /** Two removal sets that agree on the registered addresses remove the same entries. */
  lemma {:induction false} WithoutAgrees(entries: seq<Client>, a: set<Addr>, b: set<Addr>)
    requires forall c :: c in entries ==> (c.addr in a <==> c.addr in b)
    ensures Without(entries, a) == Without(entries, b)
  {
    if entries != [] {
      WithoutAgrees(entries[1..], a, b);
    }
  }

  /** Removing `a`, then `b`, is removing both. */
  lemma {:induction false} WithoutTwice(entries: seq<Client>, a: set<Addr>, b: set<Addr>)
    ensures Without(Without(entries, a), b) == Without(entries, a + b)
  {
    if entries != [] {
      var e, t := entries[0], entries[1..];
      WithoutTwice(t, a, b);
      var w := Without(entries, a);
      if e.addr in a {
        assert w == Without(t, a);
        assert Without(entries, a + b) == Without(t, a + b);
      } else {
        assert w == [e] + Without(t, a);
        assert w[0] == e && w[1..] == Without(t, a);
        assert Without(w, b) == (if e.addr in b then [] else [e]) + Without(Without(t, a), b);
        assert Without(entries, a + b) == (if e.addr in b then [] else [e]) + Without(t, a + b);
      }
    }
  }

  /** Removing no address changes nothing. */
  lemma {:induction false} WithoutNone(entries: seq<Client>)
    ensures Without(entries, {}) == entries
  {
    if entries != [] {
      WithoutNone(entries[1..]);
    }
  }

  /** Removing an address that is not registered changes nothing (removal is idempotent). */
  lemma {:induction false} WithoutAbsent(entries: seq<Client>, addr: Addr)
    requires addr !in Addrs(entries)
    ensures Without(entries, {addr}) == entries
  {
    if entries != [] {
      assert Addrs(entries) == [entries[0].addr] + Addrs(entries[1..]);
      WithoutAbsent(entries[1..], addr);
    }
  }

  /** `include_sender || *addr != sender_addr`: whether a broadcast writes to `c`. */
  predicate Targeted(c: Client, sender: Addr, includeSender: bool) {
    includeSender || c.addr != sender
  }

  /** The addresses a broadcast evicts, if registered: failing peers it writes to. */
  function Victims(sender: Addr, includeSender: bool, dead: set<Addr>): set<Addr> {
    if includeSender then dead else dead - {sender}
  }

  /** The deliveries of one broadcast pass over `entries`, in registry order. */
  function Fanout(entries: seq<Client>, message: string, sender: Addr, includeSender: bool, dead: set<Addr>): (r: seq<Delivery>)
    ensures |r| <= |entries|
  {
    if entries == [] then []
    else
      Fanout(entries[..|entries| - 1], message, sender, includeSender, dead)
        + (var c := entries[|entries| - 1];
           if Targeted(c, sender, includeSender) && c.addr !in dead then [Delivery(c.addr, message)] else [])
  }

  /** A broadcast pass writes `message` to registered, live peers only, never the sender unless asked to. */
  lemma {:induction false} FanoutSound(entries: seq<Client>, message: string, sender: Addr, includeSender: bool, dead: set<Addr>)
    ensures forall d :: d in Fanout(entries, message, sender, includeSender, dead) ==>
      && d.payload == message
      && d.to in Addrs(entries)
      && d.to !in dead
      && (includeSender || d.to != sender)
    decreases |entries|
  {
    if entries != [] {
      var init := entries[..|entries| - 1];
      var c := entries[|entries| - 1];
      assert entries == init + [c];
      FanoutSound(init, message, sender, includeSender, dead);
      FanoutSnoc(init, c, message, sender, includeSender, dead);
      assert Addrs(entries) == Addrs(init) + [c.addr];
    }
  }

  /** A broadcast pass writes `message` to every targeted live peer: a failure does not stop it. */
  lemma {:induction false} FanoutComplete(entries: seq<Client>, message: string, sender: Addr, includeSender: bool, dead: set<Addr>)
    ensures forall c :: c in entries && Targeted(c, sender, includeSender) && c.addr !in dead ==>
      Delivery(c.addr, message) in Fanout(entries, message, sender, includeSender, dead)
    decreases |entries|
  {
    if entries != [] {
      var init := entries[..|entries| - 1];
      var c := entries[|entries| - 1];
      assert entries == init + [c];
      FanoutComplete(init, message, sender, includeSender, dead);
      FanoutSnoc(init, c, message, sender, includeSender, dead);
      assert forall x :: x in entries ==> x in init || x == c;
    }
  }

  /** The `to_remove` list a broadcast pass collects over `entries`. */
  function Failures(entries: seq<Client>, sender: Addr, includeSender: bool, dead: set<Addr>): (r: seq<Addr>)
    ensures |r| <= |entries|
  {
    if entries == [] then []
    else
      Failures(entries[..|entries| - 1], sender, includeSender, dead)
        + (var c := entries[|entries| - 1];
           if Targeted(c, sender, includeSender) && c.addr in dead then [c.addr] else [])
  }

  /** `to_remove` lists exactly the registered addresses the pass failed to write to. */
  lemma {:induction false} FailuresMembers(entries: seq<Client>, sender: Addr, includeSender: bool, dead: set<Addr>)
    ensures forall a :: a in Failures(entries, sender, includeSender, dead) <==>
      a in Addrs(entries) && a in Victims(sender, includeSender, dead)
    decreases |entries|
  {
    if entries != [] {
      var init := entries[..|entries| - 1];
      var c := entries[|entries| - 1];
      assert entries == init + [c];
      FailuresMembers(init, sender, includeSender, dead);
      FailuresSnoc(init, c, sender, includeSender, dead);
      assert Addrs(entries) == Addrs(init) + [c.addr];
    }
  }

  /** `to_remove` names each address at most once. */
  lemma {:induction false} FailuresDistinct(entries: seq<Client>, sender: Addr, includeSender: bool, dead: set<Addr>)
    requires Distinct(entries)
    ensures var r := Failures(entries, sender, includeSender, dead);
      forall i, j :: 0 <= i < j < |r| ==> r[i] != r[j]
    decreases |entries|
  {
    if entries != [] {
      var init := entries[..|entries| - 1];
      var c := entries[|entries| - 1];
      assert entries == init + [c];
      FailuresDistinct(init, sender, includeSender, dead);
      FailuresSnoc(init, c, sender, includeSender, dead);
      var r := Failures(entries, sender, includeSender, dead);
      var ri := Failures(init, sender, includeSender, dead);
      if |r| > |ri| {
        FailuresMembers(init, sender, includeSender, dead);
        forall k | 0 <= k < |init| ensures Addrs(init)[k] != c.addr {
          assert init[k] == entries[k];
        }
        assert r == ri + [c.addr] && c.addr !in ri;
        forall i, j | 0 <= i < j < |r| ensures r[i] != r[j] {
          assert r[i] == ri[i] && r[i] in ri;
        }
      }
    }
  }

  /** One more entry visited by the broadcast pass. */
  lemma FanoutSnoc(entries: seq<Client>, c: Client, message: string, sender: Addr, includeSender: bool, dead: set<Addr>)
    ensures Fanout(entries + [c], message, sender, includeSender, dead)
         == Fanout(entries, message, sender, includeSender, dead)
            + (if Targeted(c, sender, includeSender) && c.addr !in dead then [Delivery(c.addr, message)] else [])
  {
    assert (entries + [c])[..|entries|] == entries;
  }

  lemma FailuresSnoc(entries: seq<Client>, c: Client, sender: Addr, includeSender: bool, dead: set<Addr>)
    ensures Failures(entries + [c], sender, includeSender, dead)
         == Failures(entries, sender, includeSender, dead)
            + (if Targeted(c, sender, includeSender) && c.addr in dead then [c.addr] else [])
  {
    assert (entries + [c])[..|entries|] == entries;
  }

  /** The addresses listed in `s`. */
  function AddrSet(s: seq<Addr>): set<Addr> {
    set a | a in s
  }

  lemma AddrSetSnoc(s: seq<Addr>, a: Addr)
    ensures AddrSet(s + [a]) == AddrSet(s) + {a}
  {
    assert forall x :: x in s + [a] <==> x in s || x == a;
  }

  /** What one call of `broadcast_message` does to the registry and the outbox. */
  function BroadcastStep(s: State, message: string, sender: Addr, includeSender: bool, dead: set<Addr>): State {
    State(Without(s.entries, Victims(sender, includeSender, dead)),
          s.outbox + Fanout(s.entries, message, sender, includeSender, dead))
  }

  /** `format!("USER_LIST:{}\n", serde_json::to_string(&user_list))`. */
  function RosterLine(entries: seq<Client>): string {
    "USER_LIST:" + Json.Encode(Usernames(entries)) + "\n"
  }

  /** What `broadcast_user_list` does. */
  function UserListStep(s: State, dead: set<Addr>): State {
    BroadcastStep(s, RosterLine(s.entries), Unspecified, true, dead)
  }

  /**
   * Exactly the targeted peers whose write fails are evicted; every other entry
   * stays, in the same relative order.
   */
  lemma BroadcastEvictsExactlyFailures(s: State, message: string, sender: Addr, includeSender: bool, dead: set<Addr>)
    requires Distinct(s.entries)
    ensures var after := BroadcastStep(s, message, sender, includeSender, dead).entries;
      && Distinct(after)
      && IsSubsequence(after, s.entries)
      && forall c :: c in s.entries ==>
           (c in after <==> !(Targeted(c, sender, includeSender) && c.addr in dead))
  {
    var gone := Victims(sender, includeSender, dead);
    WithoutIsSubsequence(s.entries, gone);
    WithoutDistinct(s.entries, gone);
    WithoutMembers(s.entries, gone);
  }

  /** A broadcast excluding the sender never writes to the sender, and a failure does not stop the pass. */
  lemma BroadcastDeliveries(s: State, message: string, sender: Addr, includeSender: bool, dead: set<Addr>)
    ensures var out := BroadcastStep(s, message, sender, includeSender, dead).outbox;
      && |out| >= |s.outbox|
      && out[..|s.outbox|] == s.outbox
      && (forall d :: d in out[|s.outbox|..] ==>
            d.payload == message && d.to !in dead && (includeSender || d.to != sender))
      && (forall c :: c in s.entries && Targeted(c, sender, includeSender) && c.addr !in dead ==>
            Delivery(c.addr, message) in out[|s.outbox|..])
  {
    var out := BroadcastStep(s, message, sender, includeSender, dead).outbox;
    FanoutSound(s.entries, message, sender, includeSender, dead);
    FanoutComplete(s.entries, message, sender, includeSender, dead);
    assert out[|s.outbox|..] == Fanout(s.entries, message, sender, includeSender, dead);
  }

  class Registry {
    var entries: seq<Client>
    var outbox: seq<Delivery>

    ghost predicate Valid()
      reads this
    {
      Distinct(entries)
    }

    function Snapshot(): State
      reads this
    {
      State(entries, outbox)
    }

    /** `IndexMap::new()`. */
    constructor ()
      ensures Valid() && entries == [] && outbox == []
    {
      entries, outbox := [], [];
    }

    /** `conn_map.insert(addr, Client { .. })`. */
    method Insert(addr: Addr, username: string)
      requires Valid()
      modifies this
      ensures Valid()
      ensures entries == InsertEntry(old(entries), addr, username)
      ensures outbox == old(outbox)
    {
      match IndexOf(entries, addr)
      case None =>
        entries := entries + [Client(addr, username)];
      case Some(i) =>
        entries := entries[i := Client(addr, username)];
    }

    /** `conn_map.shift_remove(&addr)`: removes the entry, if any, keeping the others' order. */
    method ShiftRemove(addr: Addr)
      requires Valid()
      modifies this
      ensures Valid()
      ensures entries == Without(old(entries), {addr})
      ensures outbox == old(outbox)
    {
      match IndexOf(entries, addr)
      case None =>
        WithoutAbsent(entries, addr);
      case Some(i) =>
        RemoveAtIsWithout(entries, i);
        entries := entries[..i] + entries[i + 1..];
    }

    /** A successful `write_all` and `flush` of `payload` to the peer at `to`. */
    method Deliver(to: Addr, payload: string)
      modifies this
      ensures entries == old(entries)
      ensures outbox == old(outbox) + [Delivery(to, payload)]
    {
      outbox := outbox + [Delivery(to, payload)];
    }
  }

  lemma {:induction false} WithoutConcat(x: seq<Client>, y: seq<Client>, gone: set<Addr>)
    ensures Without(x + y, gone) == Without(x, gone) + Without(y, gone)
  {
    if x != [] {
      WithoutConcat(x[1..], y, gone);
      assert (x + y)[0] == x[0] && (x + y)[1..] == x[1..] + y;
    } else {
      assert x + y == y;
    }
  }

  lemma WithoutMiddle(x: seq<Client>, e: Client, y: seq<Client>)
    requires e.addr !in Addrs(x) && e.addr !in Addrs(y)
    ensures Without(x + ([e] + y), {e.addr}) == x + y
  {
    var g := {e.addr};
    calc {
      Without(x + ([e] + y), g);
      == { WithoutConcat(x, [e] + y, g); }
      Without(x, g) + Without([e] + y, g);
      == { WithoutAbsent(x, e.addr); }
      x + Without([e] + y, g);
      == { WithoutRemovesHead(e, y); WithoutAbsent(y, e.addr); }
      x + y;
    }
  }

  lemma WithoutRemovesHead(e: Client, y: seq<Client>)
    ensures Without([e] + y, {e.addr}) == Without(y, {e.addr})
  {
    assert ([e] + y)[1..] == y;
  }

  lemma RemoveAtIsWithout(entries: seq<Client>, i: nat)
    requires Distinct(entries) && i < |entries|
    ensures Without(entries, {entries[i].addr}) == entries[..i] + entries[i + 1..]
  {
    var a := entries[i].addr;
    var x, y := entries[..i], entries[i + 1..];
    forall k | 0 <= k < |x| ensures Addrs(x)[k] != a {
      assert x[k] == entries[k];
    }
    forall k | 0 <= k < |y| ensures Addrs(y)[k] != a {
      assert y[k] == entries[i + 1 + k];
    }
    SplitAt(entries, i);
    WithoutMiddle(x, entries[i], y);
  }

  lemma SplitAt<T>(s: seq<T>, i: nat)
    requires i < |s|
    ensures s == s[..i] + ([s[i]] + s[i + 1..])
  {
    assert s[..i + 1] == s[..i] + [s[i]];
    assert s == s[..i + 1] + s[i + 1..];
  }
}
