/**
 * The byte stream of one TCP connection as seen by a reader. What the peer
 * sends and when the connection fails is an oracle: a finite script of read
 * results. A `read` into a buffer of `max` bytes returns at most `max` bytes of
 * the next scripted chunk and leaves the remainder for the next read, as a
 * stream socket does. An empty chunk is end of stream (`read` returning 0); it
 * is consumed by the read that meets it, since every reader in this model
 * stops there (the one loop of the source that reads on, `get_username`, is
 * modelled with a sticky end of stream by `Server.LoopPass`). Reading past the
 * end of the script fails, as a reset connection would.
 */
module Wire {

  datatype ReadResult = Chunk(data: string) | Failed(reason: string)

  /** Every byte the script still holds, in order. */
  function Bytes(script: seq<ReadResult>): string {
    if script == [] then []
    else (if script[0].Chunk? then script[0].data else []) + Bytes(script[1..])
  }

  /** A measure that each read makes smaller. */
  function Size(script: seq<ReadResult>): nat {
    if script == [] then 0
    else 1 + (if script[0].Chunk? then |script[0].data| else 0) + Size(script[1..])
  }

  const ResetReason := "connection reset"

  /** One `read` into a buffer of `max` bytes: the result and the rest of the script. */
  function Read(script: seq<ReadResult>, max: nat): (p: (ReadResult, seq<ReadResult>))
    requires max > 0
    ensures p.0.Chunk? ==> |p.0.data| <= max
    ensures p.0.Chunk? ==> p.0.data + Bytes(p.1) == Bytes(script)
    ensures p.0.Failed? ==> Bytes(p.1) == Bytes(script)
    ensures script != [] ==> Size(p.1) < Size(script)
    ensures script == [] ==> p == (Failed(ResetReason), [])
  {
    if script == [] then (Failed(ResetReason), [])
    else match script[0]
      case Failed(e) => (Failed(e), script[1..])
      case Chunk(d) =>
        if |d| <= max then (Chunk(d), script[1..])
        else
          var rest := [Chunk(d[max..])] + script[1..];
          assert rest[1..] == script[1..];
          assert d[..max] + d[max..] == d;
          (Chunk(d[..max]), rest)
  }
}
