/** The receive side of a connection: a chain of packet buffers feeding a 128-byte line buffer. */
module InputQueue {
  import opened Bytes
  import opened Limits
  import opened Lwip

  /** A packet buffer, as the stack hands it over; `id` tells one from another. */
  datatype Pbuf = Pbuf(id: nat, payload: seq<Byte>)

  function Payload(chain: seq<Pbuf>): seq<Byte> {
    if chain == [] then [] else chain[0].payload + Payload(chain[1..])
  }

  lemma {:induction false} PayloadAppend(a: seq<Pbuf>, b: seq<Pbuf>)
    ensures Payload(a + b) == Payload(a) + Payload(b)
  {
    if a == [] {
      assert a + b == b;
    } else {
      var c := a + b;
      PayloadAppend(a[1..], b);
      assert c[0] == a[0] && c[1..] == a[1..] + b;
      Associate(a[0].payload, Payload(a[1..]), Payload(b));
    }
  }

  class Queue {
    const pcb: Pcb
    const buffer: array<Byte>
    var length: nat
    var chain: seq<Pbuf>
    var totLen: nat
    var offset: nat

    // every byte received on this connection, and those that have left the line buffer
    ghost var received: seq<Byte>
    ghost var consumed: seq<Byte>
    // every packet buffer handed over, and those given back
    ghost var delivered: multiset<Pbuf>
    ghost var freed: multiset<Pbuf>

    constructor (pcb: Pcb)
      requires pcb.credit == 0
      ensures this.pcb == pcb && fresh(buffer) && Valid()
      ensures received == [] && consumed == [] && length == 0 && chain == []
    {
      this.pcb := pcb;
      buffer := new Byte[MAX_REQ_BUF_SIZE + 4](_ => NUL);
      length, chain, totLen, offset := 0, [], 0, 0;
      received, consumed, delivered, freed := [], [], multiset{}, multiset{};
    }

    /** The bytes received that nobody has looked at yet, line buffer first. */
    ghost function Pending(): seq<Byte>
      reads this`length, this`chain, this`offset, buffer
      requires length <= buffer.Length && offset <= |Payload(chain)|
    {
      buffer[..length] + Payload(chain)[offset..]
    }

    /** Conservation of the stream. */
    ghost predicate Conserved()
      reads this`length, this`chain, this`offset, this`totLen, this`received, this`consumed, buffer
    {
      && buffer.Length == MAX_REQ_BUF_SIZE + 4 && length <= MAX_REQ_BUF_SIZE
      && totLen == |Payload(chain)| && (if chain == [] then offset == 0 else offset < totLen)
      && received == consumed + Pending()
    }

    /** Window credit: what has not been credited is exactly what the chain holds. */
    ghost predicate Credited()
      reads this`totLen, this`received, pcb`credit
    {
      pcb.credit + totLen == |received|
    }

    /** Every packet buffer is either in the chain or has been freed, and never both or twice. */
    ghost predicate Owned()
      reads this`chain, this`delivered, this`freed
    {
      delivered == freed + multiset(chain)
    }

    ghost predicate Valid()
      reads this, buffer, pcb`credit
    {
      Conserved() && Credited() && Owned()
    }

    lemma Bounds()
      requires Conserved()
      ensures length <= MAX_REQ_BUF_SIZE == buffer.Length - 4 && offset <= |Payload(chain)| && length <= |Pending()|
      ensures received == consumed + Pending() && Pending() == buffer[..length] + Payload(chain)[offset..]
    {
    }

    /** A segment arrives: into the line buffer if all of it fits and nothing is waiting, else into the chain. */
    method Enqueue(p: seq<Pbuf>)
      requires Valid() && p != []
      modifies this`length, this`chain, this`totLen, this`received, this`delivered, this`freed, buffer, pcb`credit
      ensures Valid() && received == old(received) + Payload(p)
      ensures delivered == old(delivered) + multiset(p) && Pending() == old(Pending()) + Payload(p)
      ensures length >= old(length) && buffer[..old(length)] == old(buffer[..length])
      ensures chain == if old(chain) == [] && |Payload(p)| <= MAX_REQ_BUF_SIZE - old(length) then [] else old(chain) + p
    {
      ghost var pending := Pending();
      assert received == consumed + pending;
      delivered := delivered + multiset(p);
      if chain != [] {
        Behind(p);
      } else if |Payload(p)| > MAX_REQ_BUF_SIZE - length {
        First(p);
      } else {
        Eaten(p);
      }
      Grown(received, consumed, pending, Payload(p), Pending());
    }

    lemma Grown(all: seq<Byte>, before: seq<Byte>, was: seq<Byte>, more: seq<Byte>, now: seq<Byte>)
      requires all == before + was + more == before + now
      ensures now == was + more
    {
      assert all[|before|..] == was + more;
      assert all[|before|..] == now;
    }

    method Behind(p: seq<Pbuf>)
      requires Conserved() && Credited() && chain != [] && delivered == freed + multiset(chain) + multiset(p)
      modifies this`chain, this`totLen, this`received
      ensures Valid() && received == old(received) + Payload(p) && chain == old(chain) + p
    {
      hide Payload;
      ghost var b, t := buffer[..length], Payload(chain)[offset..];
      PayloadAppend(chain, p);
      assert Payload(chain + p)[offset..] == t + Payload(p);
      Associate(b, t, Payload(p));
      Associate(consumed, b + t, Payload(p));
      received := received + Payload(p);
      chain := chain + p;
      totLen := totLen + |Payload(p)|;
    }

    method First(p: seq<Pbuf>)
      requires Conserved() && Credited() && chain == [] && delivered == freed + multiset(p) && p != []
      requires |Payload(p)| > MAX_REQ_BUF_SIZE - length
      modifies this`chain, this`totLen, this`received
      ensures Valid() && received == old(received) + Payload(p) && chain == old(chain) + p
    {
      NoPayload();
      hide Payload;
      ghost var b := buffer[..length];
      assert b + Payload([])[0..] == b && Payload(p)[0..] == Payload(p);
      Associate(consumed, b, Payload(p));
      received := received + Payload(p);
      chain, totLen := p, |Payload(p)|;
    }

    method Eaten(p: seq<Pbuf>)
      requires Conserved() && Credited() && chain == [] && delivered == freed + multiset(p)
      requires |Payload(p)| <= MAX_REQ_BUF_SIZE - length
      modifies this`length, this`received, this`freed, buffer, pcb`credit
      ensures length >= old(length) && buffer[..old(length)] == old(buffer[..length])
      ensures Valid() && received == old(received) + Payload(p)
    {
      NoPayload();
      hide Payload;
      ghost var b := buffer[..length];
      assert b + Payload([])[0..] == b && b + Payload(p) + Payload([])[0..] == b + Payload(p);
      Associate(consumed, b, Payload(p));
      received := received + Payload(p);
      Fill(Payload(p));
      pcb.Recved(|Payload(p)|);
      freed := freed + multiset(p);
    }

    lemma NoPayload()
      ensures Payload([]) == []
    {
    }

    /** Copies bytes behind those in the line buffer, and two NULs behind them. */
    method Fill(data: seq<Byte>)
      requires buffer.Length == MAX_REQ_BUF_SIZE + 4 && length + |data| <= MAX_REQ_BUF_SIZE
      modifies this`length, buffer
      ensures length == old(length) + |data| && buffer[..length] == old(buffer[..length]) + data
      ensures buffer[..old(length)] == old(buffer[..length])
    {
      Store(buffer, length, data);
      length := length + |data|;
      buffer[length] := NUL;
      buffer[length + 1] := NUL;
    }

    /** Moves as many bytes as fit from the chain to the line buffer, and frees what has been read. */
    method Dequeue()
      requires Valid()
      modifies this`length, this`chain, this`totLen, this`offset, this`freed, buffer, pcb`credit
      ensures Valid() && Pending() == old(Pending())
      ensures length >= old(length) && (old(chain) == [] || old(length) == MAX_REQ_BUF_SIZE ==> length == old(length))
      ensures old(chain) != [] && old(length) < MAX_REQ_BUF_SIZE ==> length > old(length)
      ensures chain != [] ==> length == MAX_REQ_BUF_SIZE
      ensures buffer[..old(length)] == old(buffer[..length])
      ensures old(chain) == [] ==> chain == []
    {
      if chain == [] {
        return;
      }
      var space := MAX_REQ_BUF_SIZE - length;
      if space > totLen - offset {
        space := totLen - offset;
      }
      if space > 0 {
        CopyOut(space);
        if offset == totLen {
          FreeAll();
        } else {
          FreeRead();
        }
      }
    }

    /** Copies `n` more bytes of the chain into the line buffer. */
    method CopyOut(n: nat)
      requires Valid() && chain != [] && n <= totLen - offset && length + n <= MAX_REQ_BUF_SIZE
      modifies this`length, this`offset, buffer
      ensures offset == old(offset) + n && length == old(length) + n && Pending() == old(Pending())
      ensures buffer[..old(length)] == old(buffer[..length])
      ensures buffer.Length == MAX_REQ_BUF_SIZE + 4 && totLen == |Payload(chain)| && Credited() && Owned()
    {
      hide Payload;
      ghost var b, s := buffer[..length], Payload(chain);
      var data := Payload(chain)[offset..offset + n];
      Fill(data);
      offset := offset + n;
      assert s[old(offset)..] == data + s[offset..];
      Associate(b, data, s[offset..]);
    }

    /** The chain has been read to its end. */
    method FreeAll()
      requires buffer.Length == MAX_REQ_BUF_SIZE + 4 && length <= MAX_REQ_BUF_SIZE
      requires totLen == |Payload(chain)| && offset == totLen && received == consumed + Pending()
      requires Credited() && Owned()
      modifies this`chain, this`totLen, this`offset, this`freed, pcb`credit
      ensures Valid() && chain == [] && Pending() == old(Pending())
    {
      NoPayload();
      hide Payload;
      assert Payload(chain)[offset..] == Payload([])[0..] == [];
      pcb.Recved(totLen);
      freed := freed + multiset(chain);
      chain, totLen, offset := [], 0, 0;
    }

    /** Frees the packet buffers at the head of the chain that have been read to their end. */
    method FreeRead()
      requires Valid() && chain != []
      modifies this`chain, this`totLen, this`offset, this`freed, pcb`credit
      ensures Valid() && chain != [] && Pending() == old(Pending())
      ensures offset < |chain[0].payload| && |chain| <= |old(chain)| && chain == old(chain)[|old(chain)| - |chain|..]
      ensures freed == old(freed) + multiset(old(chain)[..|old(chain)| - |chain|])
    {
      hide Payload, Credited, Owned;
      ghost var was := chain;
      assert was[..0] == [];
      while offset >= |chain[0].payload|
        invariant Valid() && chain != [] && Pending() == old(Pending())
        invariant |chain| <= |was| && chain == was[|was| - |chain|..]
        invariant freed == old(freed) + multiset(was[..|was| - |chain|])
        decreases |chain|
      {
        ghost var n := |was| - |chain|;
        assert chain[0] == was[n] && was[..n + 1] == was[..n] + [was[n]];
        FreeHead();
      }
    }

    method FreeHead()
      requires Valid() && chain != [] && offset >= |chain[0].payload|
      modifies this`chain, this`totLen, this`offset, this`freed, pcb`credit
      ensures Valid() && chain != [] && Pending() == old(Pending()) && chain == old(chain)[1..]
      ensures freed == old(freed) + multiset{old(chain)[0]}
    {
      ghost var s := Payload(chain);
      var p, succeeding := chain[0], chain[1..];
      NoPayload();
      assert s == p.payload + Payload(succeeding);
      hide Payload;
      assert s[offset..] == Payload(succeeding)[offset - |p.payload|..];
      assert chain == [p] + succeeding;
      totLen := totLen - |p.payload|;
      offset := offset - |p.payload|;
      pcb.Recved(|p.payload|);
      freed := freed + multiset{p};
      chain := succeeding;
    }

    /** The first `n` bytes of the line buffer have been dealt with. */
    method Shift(n: nat)
      requires Valid() && n <= length
      modifies this`length, this`consumed, buffer
      ensures Valid() && length == old(length) - n && consumed == old(consumed) + old(buffer[..n])
      ensures Pending() == old(Pending())[n..] && buffer[..length] == old(buffer[n..length])
    {
      hide Payload, Credited, Owned;
      ghost var b, t := buffer[..length], Payload(chain)[offset..];
      assert buffer[..n] == b[..n];
      consumed := consumed + buffer[..n];
      length := length - n;
      if length > 0 {
        Move(buffer, 0, n, length);
      }
      assert buffer[..length] == b[n..] && old(buffer[..n]) == b[..n];
      ShiftedOut(old(consumed), b, t, n);
    }

    lemma ShiftedOut(c: seq<Byte>, b: seq<Byte>, t: seq<Byte>, n: nat)
      requires n <= |b|
      ensures c + (b + t) == (c + b[..n]) + (b[n..] + t) && (b + t)[n..] == b[n..] + t
    {
      assert b + t == b[..n] + (b[n..] + t);
      Associate(c, b[..n], b[n..] + t);
    }

    /** The connection is gone: whatever is left of the chain is freed, without any credit. */
    method Release()
      requires Owned() && buffer.Length == MAX_REQ_BUF_SIZE + 4
      modifies this`length, this`chain, this`totLen, this`offset, this`freed, buffer
      ensures Owned() && chain == [] && length == 0 && offset == 0 && totLen == 0 && freed == delivered
    {
      freed := freed + multiset(chain);
      chain, totLen, offset, length := [], 0, 0, 0;
      forall k | 0 <= k < buffer.Length {
        buffer[k] := NUL;
      }
    }
  }

  /** A packet buffer is freed at most once, and not while it is still in the chain. */
  lemma FreedOnce(q: Queue, p: Pbuf)
    requires q.Owned() && q.delivered[p] <= 1
    ensures q.freed[p] <= 1 && !(p in q.freed && p in q.chain)
    ensures p in q.delivered <==> p in q.freed || p in q.chain
  {
    assert p in q.chain <==> multiset(q.chain)[p] > 0;
  }

  /** Two connections never hold or free the same packet buffer. */
  lemma OneOwner(a: Queue, b: Queue, p: Pbuf)
    requires a.Owned() && b.Owned() && a.delivered[p] + b.delivered[p] <= 1
    ensures !((p in a.chain || p in a.freed) && (p in b.chain || p in b.freed))
  {
    FreedOnce(a, p);
    FreedOnce(b, p);
  }
}
