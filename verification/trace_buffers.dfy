/** Demultiplexing: packet payloads appended to one buffer per trace
    identity, keys kept in first-appearance order as a Python dict keeps them. */
module TraceBuffers {
  import opened Packets

  /** `TraceIdent`: location `(row, col)`, source id and source type. It is a
      value, so packets with equal fields always produce equal keys. */
  datatype Ident = Ident(loc: (nat, nat), id: nat, ptype: PacketType)

  function IdentOf(p: TracePacket): Ident {
    Ident((p.header.row, p.header.col), p.header.id, p.header.ptype)
  }

  /** The `buffers` dictionary: its keys in insertion order, and their words. */
  datatype Buffers = Buffers(order: seq<Ident>, data: map<Ident, seq<nat>>)

  /** The key list has no repeats and lists exactly the dictionary's keys. */
  predicate Valid(b: Buffers) {
    && (forall i, j | 0 <= i < j < |b.order| :: b.order[i] != b.order[j])
    && b.data.Keys == set k | k in b.order
  }

  const Empty: Buffers := Buffers([], map[])

  /** `TraceBuffers.add`: create the key's buffer on first sight, even for a
      packet without payload, then append every payload word in order. */
  function Add(b: Buffers, p: TracePacket): (r: Buffers)
    requires Valid(b)
    ensures Valid(r)
    ensures IdentOf(p) in r.data
    ensures r.data[IdentOf(p)] == (if IdentOf(p) in b.data then b.data[IdentOf(p)] else []) + p.dwords
    ensures |r.data[IdentOf(p)]| == (if IdentOf(p) in b.data then |b.data[IdentOf(p)]| else 0) + |p.dwords|
    ensures forall k | k != IdentOf(p) :: (k in r.data <==> k in b.data) && (k in b.data ==> r.data[k] == b.data[k])
    ensures r.order == if IdentOf(p) in b.data then b.order else b.order + [IdentOf(p)]
  {
    var k := IdentOf(p);
    var created := if k in b.data then b else Buffers(b.order + [k], b.data[k := []]);
    Buffers(created.order, created.data[k := created.data[k] + p.dwords])
  }

  /** Adding packets one after another, starting from no buffers. */
  function Demultiplex(packets: seq<TracePacket>): (r: Buffers)
    ensures Valid(r)
  {
    if |packets| == 0 then Empty
    else Add(Demultiplex(packets[..|packets| - 1]), packets[|packets| - 1])
  }

  // ---------------------------------------------------------------------
  // Reference definitions

  predicate Seen(packets: seq<TracePacket>, k: Ident) {
    exists i | 0 <= i < |packets| :: IdentOf(packets[i]) == k
  }

  /** Payloads of the packets with key `k`, concatenated in arrival order. */
  function Gather(packets: seq<TracePacket>, k: Ident): seq<nat> {
    if |packets| == 0 then []
    else (if IdentOf(packets[0]) == k then packets[0].dwords else []) + Gather(packets[1..], k)
  }

  /** Position of the first packet with key `k`. */
  function FirstSeen(packets: seq<TracePacket>, k: Ident): (i: nat)
    requires Seen(packets, k)
    ensures i < |packets| && IdentOf(packets[i]) == k
    ensures forall j | 0 <= j < i :: IdentOf(packets[j]) != k
  {
    if IdentOf(packets[0]) == k then 0
    else
      assert Seen(packets[1..], k) by {
        var i :| 0 <= i < |packets| && IdentOf(packets[i]) == k;
        assert IdentOf(packets[1..][i - 1]) == k;
      }
      1 + FirstSeen(packets[1..], k)
  }

  lemma {:induction false} GatherSnoc(packets: seq<TracePacket>, p: TracePacket, k: Ident)
    ensures Gather(packets + [p], k) == Gather(packets, k) + (if IdentOf(p) == k then p.dwords else [])
  {
    if |packets| == 0 {
      assert Gather([p], k) == (if IdentOf(p) == k then p.dwords else []) + Gather([], k);
    } else {
      assert (packets + [p])[1..] == packets[1..] + [p];
      GatherSnoc(packets[1..], p, k);
    }
  }

  /** A key has a buffer exactly when some packet carries it, and the buffer
      holds the payloads of the packets with that key, in arrival order. */
  lemma {:induction false} DemultiplexContents(packets: seq<TracePacket>)
    ensures forall k :: k in Demultiplex(packets).data <==> Seen(packets, k)
    ensures forall k | k in Demultiplex(packets).data :: Demultiplex(packets).data[k] == Gather(packets, k)
  {
    if |packets| > 0 {
      var prefix, p := packets[..|packets| - 1], packets[|packets| - 1];
      assert packets == prefix + [p];
      DemultiplexContents(prefix);
      forall k
        ensures k in Demultiplex(packets).data <==> Seen(packets, k)
        ensures k in Demultiplex(packets).data ==> Demultiplex(packets).data[k] == Gather(packets, k)
      {
        GatherSnoc(prefix, p, k);
        if Seen(packets, k) && k != IdentOf(p) {
          var i :| 0 <= i < |packets| && IdentOf(packets[i]) == k;
          assert prefix[i] == packets[i];
        }
        if k != IdentOf(p) && !Seen(prefix, k) {
          assert Gather(prefix, k) == [] by { GatherUnseen(prefix, k); }
        }
        if k == IdentOf(p) && !Seen(prefix, k) {
          GatherUnseen(prefix, k);
        }
      }
    }
  }

  lemma {:induction false} GatherUnseen(packets: seq<TracePacket>, k: Ident)
    requires !Seen(packets, k)
    ensures Gather(packets, k) == []
  {
    if |packets| > 0 {
      assert IdentOf(packets[0]) != k;
      GatherUnseen(packets[1..], k);
    }
  }

  /** Keys are ordered by the position of the first packet that carries them. */
  lemma {:induction false} DemultiplexOrder(packets: seq<TracePacket>)
    ensures forall i | 0 <= i < |Demultiplex(packets).order| :: Seen(packets, Demultiplex(packets).order[i])
    ensures forall i, j | 0 <= i < j < |Demultiplex(packets).order| ::
              FirstSeen(packets, Demultiplex(packets).order[i]) < FirstSeen(packets, Demultiplex(packets).order[j])
  {
    if |packets| > 0 {
      var prefix, p := packets[..|packets| - 1], packets[|packets| - 1];
      assert packets == prefix + [p];
      DemultiplexOrder(prefix);
      DemultiplexContents(prefix);
      OrderStep(prefix, p, Demultiplex(prefix).order, Demultiplex(packets).order, IdentOf(p) in Demultiplex(prefix).data);
    }
  }

  /** One `Add` keeps the key list ordered by first sighting. */
  lemma OrderStep(prefix: seq<TracePacket>, p: TracePacket, before: seq<Ident>, after: seq<Ident>, known: bool)
    requires forall i | 0 <= i < |before| :: Seen(prefix, before[i])
    requires forall i, j | 0 <= i < j < |before| :: FirstSeen(prefix, before[i]) < FirstSeen(prefix, before[j])
    requires known ==> after == before
    requires !known ==> after == before + [IdentOf(p)] && !Seen(prefix, IdentOf(p))
    ensures forall i | 0 <= i < |after| :: Seen(prefix + [p], after[i])
    ensures forall i, j | 0 <= i < j < |after| ::
              FirstSeen(prefix + [p], after[i]) < FirstSeen(prefix + [p], after[j])
  {
    var packets := prefix + [p];
    forall i | 0 <= i < |before|
      ensures Seen(packets, before[i])
      ensures FirstSeen(packets, before[i]) == FirstSeen(prefix, before[i]) < |prefix|
    {
      FirstSeenSnoc(prefix, p, before[i]);
    }
    if !known {
      FirstSeenNew(prefix, p);
      forall i, j | 0 <= i < j < |after|
        ensures FirstSeen(packets, after[i]) < FirstSeen(packets, after[j])
      {
        assert after[i] == before[i];
        if j < |before| {
          assert after[j] == before[j];
        }
      }
    }
  }

  /** A packet added at the end does not move the first sighting of a key
      seen before it. */
  lemma FirstSeenSnoc(prefix: seq<TracePacket>, p: TracePacket, k: Ident)
    requires Seen(prefix, k)
    ensures Seen(prefix + [p], k)
    ensures FirstSeen(prefix + [p], k) == FirstSeen(prefix, k) < |prefix|
  {
    var i := FirstSeen(prefix, k);
    assert (prefix + [p])[i] == prefix[i];
    FirstSeenUnique(prefix + [p], k, i);
  }

  /** A key first carried by the last packet is first seen there. */
  lemma FirstSeenNew(prefix: seq<TracePacket>, p: TracePacket)
    requires !Seen(prefix, IdentOf(p))
    ensures Seen(prefix + [p], IdentOf(p))
    ensures FirstSeen(prefix + [p], IdentOf(p)) == |prefix|
  {
    var all := prefix + [p];
    forall j | 0 <= j < |prefix|
      ensures IdentOf(all[j]) != IdentOf(p)
    {
      assert all[j] == prefix[j];
    }
    FirstSeenUnique(all, IdentOf(p), |prefix|);
  }

  lemma FirstSeenUnique(packets: seq<TracePacket>, k: Ident, i: nat)
    requires i < |packets| && IdentOf(packets[i]) == k
    requires forall j | 0 <= j < i :: IdentOf(packets[j]) != k
    ensures Seen(packets, k) && FirstSeen(packets, k) == i
  {
  }
}
