/**
 * The first relay (src/main.rs): no usernames, no roster. Every chunk a peer
 * sends is relayed unchanged to every other connected peer. Connections live in
 * a `HashMap`, whose iteration order is unspecified: the broadcast pass visits
 * the peers in an arbitrary order, so its contract speaks of which deliveries
 * happen, not of their order.
 */
module Legacy {
  import opened Wire
  import opened Registry

  /** The bytes each `read` of a session returns, up to end of stream or the first error. */
  function Chunks(script: seq<ReadResult>, max: nat): (r: seq<string>)
    requires max > 0
    ensures forall i :: 0 <= i < |r| ==> 0 < |r[i]| <= max
    decreases Size(script)
  {
    var (res, rest) := Read(script, max);
    if res.Failed? || res.data == [] then [] else [res.data] + Chunks(rest, max)
  }

  function Flatten(chunks: seq<string>): string {
    if chunks == [] then [] else chunks[0] + Flatten(chunks[1..])
  }

  /** Relaying loses no byte and invents none: the chunks spell a prefix of what the peer sent. */
  lemma {:induction false} ChunksArePrefix(script: seq<ReadResult>, max: nat)
    requires max > 0
    ensures var f := Flatten(Chunks(script, max));
      |f| <= |Bytes(script)| && f == Bytes(script)[..|f|]
    decreases Size(script)
  {
    var (res, rest) := Read(script, max);
    if res.Chunk? && res.data != [] {
      ChunksArePrefix(rest, max);
      var tail := Flatten(Chunks(rest, max));
      assert Chunks(script, max) == [res.data] + Chunks(rest, max);
      assert ([res.data] + Chunks(rest, max))[1..] == Chunks(rest, max);
      assert Flatten(Chunks(script, max)) == res.data + tail;
      assert Bytes(script) == res.data + Bytes(rest);
      assert (res.data + Bytes(rest))[..|res.data| + |tail|] == res.data + Bytes(rest)[..|tail|];
    }
  }

  datatype LegacyEnd = Closed | ReadFailed

  class Relay {
    /** The keys of the connection map. */
    var peers: set<Addr>
    /** Every payload written and flushed to a peer, in order. */
    var outbox: seq<Delivery>

    /** `HashMap::new()`. */
    constructor ()
      ensures peers == {} && outbox == []
    {
      peers, outbox := {}, [];
    }

    /**
     * `broadcast_message`: write `message` to every peer but the sender, in
     * map order; evict each peer whose write or flush fails (`dead`).
     */
    method BroadcastMessage(message: string, sender: Addr, dead: set<Addr>)
      modifies this
      ensures peers == old(peers) - ((old(peers) - {sender}) * dead)
      ensures |outbox| >= |old(outbox)| && outbox[..|old(outbox)|] == old(outbox)
      ensures forall d :: d in outbox[|old(outbox)|..] <==>
        d.payload == message && d.to in old(peers) - {sender} - dead
      ensures var added := outbox[|old(outbox)|..];
        forall i, j :: 0 <= i < j < |added| ==> added[i].to != added[j].to
    {
      ghost var start := peers;
      ghost var added: seq<Delivery> := [];
      var remaining := peers;
      var toRemove: seq<Addr> := [];
      while remaining != {}
        invariant remaining <= start && peers == start
        invariant outbox == old(outbox) + added
        invariant forall d :: d in added <==>
          d.payload == message && d.to in start - remaining - {sender} - dead
        invariant forall i, j :: 0 <= i < j < |added| ==> added[i].to != added[j].to
        invariant forall a :: a in toRemove <==> a in (start - remaining - {sender}) * dead
        decreases remaining
      {
        var a :| a in remaining;
        if a != sender {
          if a in dead {
            toRemove := toRemove + [a];
          } else {
            outbox := outbox + [Delivery(a, message)];
            forall i | 0 <= i < |added| ensures added[i].to != a {
              assert added[i] in added;
            }
            added := added + [Delivery(a, message)];
          }
        }
        remaining := remaining - {a};
      }
      var k := 0;
      while k < |toRemove|
        invariant 0 <= k <= |toRemove|
        invariant peers == start - AddrSet(toRemove[..k])
        invariant outbox == old(outbox) + added
      {
        assert toRemove[..k + 1] == toRemove[..k] + [toRemove[k]];
        AddrSetSnoc(toRemove[..k], toRemove[k]);
        peers := peers - {toRemove[k]};
        k := k + 1;
      }
      assert toRemove[..k] == toRemove;
      assert outbox[|old(outbox)|..] == added;
    }

    /**
     * `handle_client`: register the peer, relay each chunk it sends unchanged
     * to the others, and deregister it at end of stream. A read error returns
     * early (`?`) and leaves the peer registered.
     */
    method HandleClient(addr: Addr, script: seq<ReadResult>, dead: set<Addr>) returns (end: LegacyEnd)
      modifies this
      ensures peers <= old(peers) + {addr}
      ensures end == Closed ==> addr !in peers
      ensures end == ReadFailed ==> addr in peers
      ensures |outbox| >= |old(outbox)| && outbox[..|old(outbox)|] == old(outbox)
      ensures forall d :: d in outbox[|old(outbox)|..] ==>
        d.to != addr && d.to !in dead && d.payload in Chunks(script, 4096)
    {
      ghost var added: seq<Delivery> := [];
      peers := peers + {addr};
      var rest := script;
      while true
        invariant addr in peers && peers <= old(peers) + {addr}
        invariant outbox == old(outbox) + added
        invariant forall d :: d in added ==>
          d.to != addr && d.to !in dead && d.payload in Chunks(script, 4096)
        invariant forall c :: c in Chunks(rest, 4096) ==> c in Chunks(script, 4096)
        decreases Size(rest)
      {
        var p := Read(rest, 4096);
        if p.0.Failed? {
          assert outbox[|old(outbox)|..] == added;
          return ReadFailed;
        }
        if p.0.data == [] {
          break;
        }
        assert Chunks(rest, 4096) == [p.0.data] + Chunks(p.1, 4096);
        ghost var before := outbox;
        BroadcastMessage(p.0.data, addr, dead);
        ghost var more := outbox[|before|..];
        assert outbox == before + more;
        added := added + more;
        rest := p.1;
      }
      peers := peers - {addr};
      assert outbox[|old(outbox)|..] == added;
      return Closed;
    }
  }
}
