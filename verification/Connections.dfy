/** The pool of connection contexts, and which connection of the stack each one serves. */
module Connections {
  import opened Bytes

  const MAX_CONNECTIONS := 4

  /** A connection as the stack keeps it: the peer's address, and the callback argument. */
  class Tcp {
    const ip: nat
    var arg: Slot?

    constructor (ip: nat)
      ensures this.ip == ip && arg == null
    {
      this.ip := ip;
      arg := null;
    }
  }

  class Slot {
    var pcb: Tcp?
    var ipRemote: nat

    constructor ()
      ensures pcb == null
    {
      pcb, ipRemote := null, 0;
    }
  }

  /** The address a slot serves, if it serves any. */
  function Uses(slots: seq<Option<nat>>, ip: nat): nat {
    if slots == [] then 0 else (if slots[0] == Some(ip) then 1 else 0) + Uses(slots[1..], ip)
  }

  lemma {:induction false} UsesAppend(a: seq<Option<nat>>, b: seq<Option<nat>>, ip: nat)
    ensures Uses(a + b, ip) == Uses(a, ip) + Uses(b, ip)
  {
    if a == [] {
      assert a + b == b;
    } else {
      assert (a + b)[0] == a[0] && (a + b)[1..] == a[1..] + b;
      UsesAppend(a[1..], b, ip);
    }
  }

  lemma UsesOne(x: Option<nat>, ip: nat)
    ensures Uses([x], ip) == if x == Some(ip) then 1 else 0
  {
    assert [x][1..] == [];
  }

  lemma UsesUpdate(slots: seq<Option<nat>>, i: nat, x: Option<nat>, ip: nat)
    requires i < |slots|
    ensures Uses(slots[i := x], ip)
            == Uses(slots, ip) - (if slots[i] == Some(ip) then 1 else 0) + (if x == Some(ip) then 1 else 0)
  {
    var a, b := slots[..i], slots[i + 1..];
    assert slots == a + ([slots[i]] + b) && slots[i := x] == a + ([x] + b);
    UsesAppend(a, [slots[i]] + b, ip);
    UsesAppend([slots[i]], b, ip);
    UsesAppend(a, [x] + b, ip);
    UsesAppend([x], b, ip);
    UsesOne(slots[i], ip);
    UsesOne(x, ip);
  }

  class Server {
    const contexts: seq<Slot>
    /** MAX_CONN_PER_IP; zero where it is not compiled in. */
    const cap: nat
    // the accepted connections the stack still has
    ghost var alive: set<Tcp>

    constructor (contexts: seq<Slot>, cap: nat)
      requires |contexts| == MAX_CONNECTIONS && forall i, j | 0 <= i < j < |contexts| :: contexts[i] != contexts[j]
      requires forall c | c in contexts :: c.pcb == null
      ensures this.contexts == contexts && this.cap == cap && Valid() && alive == {}
    {
      this.contexts, this.cap, alive := contexts, cap, {};
      new;
      NoneUsed(Slots());
    }

    static lemma {:induction false} NoneUsed(slots: seq<Option<nat>>)
      requires forall i | 0 <= i < |slots| :: slots[i] == None
      ensures forall ip :: Uses(slots, ip) == 0
    {
      if slots != [] {
        NoneUsed(slots[1..]);
      }
    }

    ghost function Slots(): (r: seq<Option<nat>>)
      reads contexts
      ensures |r| == |contexts|
    {
      seq(|contexts|, i requires 0 <= i < |contexts| reads contexts =>
        if contexts[i].pcb == null then None else Some(contexts[i].ipRemote))
    }

    /** Contexts in use and connections that know their context are in bijection. */
    ghost predicate Matched()
      reads this, contexts, alive
    {
      && (forall i, j | 0 <= i < j < |contexts| :: contexts[i] != contexts[j])
      && (forall c | c in contexts && c.pcb != null :: c.pcb in alive && c.pcb.arg == c && c.ipRemote == c.pcb.ip)
      && (forall p | p in alive && p.arg != null :: p.arg in contexts && p.arg.pcb == p)
    }

    /** No address has more contexts than it may. */
    ghost predicate Capped()
      reads contexts
    {
      AllWithin(Slots())
    }

    ghost predicate Valid()
      reads this, contexts, alive
    {
      |contexts| == MAX_CONNECTIONS && Matched() && Capped()
    }

    /** A free context, unless the address has its share already or none is free. */
    method GetHttpContext(ip: nat) returns (r: Option<nat>)
      ensures r.Some? ==> r.value < |contexts| && contexts[r.value].pcb == null
      ensures r.None? <==>
              (cap > 0 && Uses(Slots(), ip) >= cap) || forall i | 0 <= i < |contexts| :: contexts[i].pcb != null
    {
      ghost var slots := Slots();
      if cap > 0 {
        var count := 0;
        for i := 0 to |contexts|
          invariant slots == Slots() && count == Uses(slots[..i], ip) < cap
        {
          UsesPrefix(slots, i, ip);
          if contexts[i].pcb != null && contexts[i].ipRemote == ip {
            count := count + 1;
            if count >= cap {
              return None;
            }
          }
        }
        assert slots[..|contexts|] == slots;
      }
      for i := 0 to |contexts|
        invariant forall k | 0 <= k < i :: contexts[k].pcb != null
      {
        if contexts[i].pcb == null {
          return Some(i);
        }
      }
      return None;
    }

    static lemma UsesPrefix(slots: seq<Option<nat>>, i: nat, ip: nat)
      requires i < |slots|
      ensures Uses(slots[..i + 1], ip) == Uses(slots[..i], ip) + (if slots[i] == Some(ip) then 1 else 0)
      ensures Uses(slots[..i + 1], ip) <= Uses(slots, ip)
    {
      assert slots[..i + 1] == slots[..i] + [slots[i]] && slots == slots[..i + 1] + slots[i + 1..];
      UsesAppend(slots[..i], [slots[i]], ip);
      UsesAppend(slots[..i + 1], slots[i + 1..], ip);
      UsesOne(slots[i], ip);
    }

    ghost predicate AllWithin(slots: seq<Option<nat>>) {
      cap > 0 ==> forall ip :: Uses(slots, ip) <= cap
    }

    /** One slot changes, and only to an address with room. */
    lemma OneChanged(was: seq<Option<nat>>, i: nat, x: Option<nat>)
      requires i < |was| && AllWithin(was) && (cap > 0 && x.Some? ==> Uses(was, x.value) < cap && was[i] == None)
      ensures AllWithin(was[i := x])
    {
      var now := was[i := x];
      forall ip
        ensures cap > 0 ==> Uses(now, ip) <= cap
      {
        UsesUpdate(was, i, x, ip);
      }
    }

    /** OnHttpAccept: the connection gets a context, or is closed, or aborted if it cannot be closed. */
    method Accept(p: Tcp, errIn: int) returns (accepted: bool)
      requires Valid() && p !in alive && p.arg == null
      modifies this`alive, contexts, p`arg
      ensures Valid()
      ensures accepted <==>
              errIn == 0 && (cap > 0 ==> old(Uses(Slots(), p.ip)) < cap)
              && exists i :: 0 <= i < |contexts| && old(contexts[i].pcb) == null
      ensures accepted ==> alive == old(alive) + {p} && p.arg in contexts
      ensures accepted ==> forall c | c in contexts :: c.pcb == if c == p.arg then p else old(c.pcb)
      ensures !accepted ==> alive == old(alive) && Slots() == old(Slots()) && p.arg == null
    {
      if errIn != 0 {
        return false;
      }
      var r := GetHttpContext(p.ip);
      if r.None? {
        return false;
      }
      Attach(p, r.value);
      return true;
    }

    method Attach(p: Tcp, i: nat)
      requires Valid() && p !in alive && p.arg == null && i < |contexts| && contexts[i].pcb == null
      requires cap > 0 ==> Uses(Slots(), p.ip) < cap
      modifies this`alive, contexts[i], p`arg
      ensures Valid() && alive == old(alive) + {p} && p.arg == contexts[i]
      ensures forall c | c in contexts :: c.pcb == if c == p.arg then p else old(c.pcb)
    {
      hide AllWithin, Uses;
      var c := contexts[i];
      ghost var was := Slots();
      OneChanged(was, i, Some(p.ip));
      c.pcb, c.ipRemote := p, p.ip;
      p.arg := c;
      alive := alive + {p};
      assert Slots() == was[i := Some(p.ip)];
    }

    /** CloseHttpContext: whether or not the stack can close the connection now, the context is free. */
    method Close(i: nat)
      requires Valid() && i < |contexts|
      modifies this`alive, contexts[i], set c | c in contexts && c.pcb != null :: c.pcb
      ensures Valid() && contexts[i].pcb == null && alive <= old(alive)
      ensures var p := old(contexts[i].pcb);
              p != null ==> old(alive) - {p} <= alive && (p in alive ==> p.arg == null)
    {
      hide AllWithin, Uses;
      var c := contexts[i];
      ghost var was := Slots();
      OneChanged(was, i, None);
      if c.pcb != null {
        c.pcb.arg := null;
        var err: int := *;
        if err == 0 {
          alive := alive - {c.pcb};
        }
      }
      c.pcb := null;
      assert Slots() == was[i := None];
    }

    /** OnHttpError: the stack has dropped the connection already. */
    method Error(p: Tcp)
      requires Valid() && p in alive
      modifies this`alive, contexts
      ensures Valid() && alive == old(alive) - {p}
      ensures forall c | c in contexts :: c.pcb == if c == p.arg then null else old(c.pcb)
    {
      hide AllWithin, Uses;
      ghost var was := Slots();
      alive := alive - {p};
      if p.arg != null {
        ghost var i :| 0 <= i < |contexts| && contexts[i] == p.arg;
        OneChanged(was, i, None);
        p.arg.pcb := null;
        assert Slots() == was[i := None];
      }
    }

    /** A poll or sent event on a connection without a context: it is closed at last, or aborted. */
    method Retry(p: Tcp)
      requires Valid() && p in alive && p.arg == null
      modifies this`alive
      ensures Valid() && alive == old(alive) - {p}
    {
      hide Capped, Slots;
      alive := alive - {p};
    }

    /** The connections served from an address, whichever contexts they have, are no more than its share. */
    lemma AddressShare(ip: nat)
      requires Valid() && cap > 0
      ensures |set p | p in alive && p.arg != null && p.ip == ip| <= cap
    {
      var used := Places(Slots(), ip);
      var served := set p | p in alive && p.arg != null && p.ip == ip;
      UsesCounts(Slots(), ip);
      var serve := map i | i in used :: contexts[i].pcb;
      forall p | p in served
        ensures p in serve.Values
      {
        var i :| 0 <= i < |contexts| && contexts[i] == p.arg;
        assert i in used && serve[i] == p;
      }
      Smaller(served, serve.Values);
      assert serve.Keys == used;
    }

    static ghost function Places(slots: seq<Option<nat>>, ip: nat): set<nat> {
      set i | 0 <= i < |slots| && slots[i] == Some(ip)
    }

    static lemma Smaller<T>(a: set<T>, b: set<T>)
      requires a <= b
      ensures |a| <= |b|
    {
      assert b == a + (b - a);
    }

    static lemma {:induction false} UsesCounts(slots: seq<Option<nat>>, ip: nat)
      ensures |Places(slots, ip)| == Uses(slots, ip)
    {
      if slots == [] {
        assert Places(slots, ip) == {};
      } else {
        var n := |slots| - 1;
        var a := slots[..n];
        UsesCounts(a, ip);
        assert slots == a + [slots[n]];
        UsesAppend(a, [slots[n]], ip);
        UsesOne(slots[n], ip);
        assert Places(slots, ip) == if slots[n] == Some(ip) then Places(a, ip) + {n} else Places(a, ip);
      }
    }
  }
}
