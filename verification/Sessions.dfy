/** The table of login sessions, and which request it vouches for. */
module Sessions {
  import opened Bytes
  import opened Strings
  import opened Framing

  const MAX_SESSIONS := 5

  /** A slot is free while its token is empty. */
  datatype Session = Session(token: seq<Byte>, loginIP: nat)

  const FREE := Session([], 0)

  /** The header carries the token of the session somewhere in it. */
  predicate Presents(header: seq<Byte>, s: Session) {
    s.token != [] && header != [] && Contains(header, s.token)
  }

  /** The first session whose token the header carries. */
  function FirstPresented(slots: seq<Session>, header: seq<Byte>): (r: Option<nat>)
    ensures r.Some? ==> r.value < |slots| && Presents(header, slots[r.value])
    ensures forall j | 0 <= j < (if r.Some? then r.value else |slots|) :: !Presents(header, slots[j])
  {
    if slots == [] then None
    else if Presents(header, slots[0]) then Some(0)
    else
      match FirstPresented(slots[1..], header)
      case None => None
      case Some(k) => Some(k + 1)
  }

  /** The request comes with the token of a session, from the address that session was opened from. */
  predicate Authorized(slots: seq<Session>, header: seq<Byte>, ip: nat) {
    var r := FirstPresented(slots, header);
    r.Some? && slots[r.value].loginIP == ip
  }

  /**
    Only the first session presented counts: a request is let through exactly when some session
    matches both token and address, and no earlier one matches the token with another address.
   */
  lemma AuthorizedExactly(slots: seq<Session>, header: seq<Byte>, ip: nat)
    ensures Authorized(slots, header, ip) <==>
            exists i ::
              && 0 <= i < |slots| && Presents(header, slots[i]) && slots[i].loginIP == ip
              && forall j | 0 <= j < i && Presents(header, slots[j]) :: slots[j].loginIP == ip
  {
    var r := FirstPresented(slots, header);
    if r.Some? && slots[r.value].loginIP == ip {
      assert forall j | 0 <= j < r.value :: !Presents(header, slots[j]);
    }
  }

  /** In particular nobody is let through without a session that matches both. */
  lemma DeniedWithoutSession(slots: seq<Session>, header: seq<Byte>, ip: nat)
    requires forall i | 0 <= i < |slots| :: !(Presents(header, slots[i]) && slots[i].loginIP == ip)
    ensures !Authorized(slots, header, ip)
  {
    AuthorizedExactly(slots, header, ip);
  }

  /** Killing a session ends what it vouched for: whoever still gets in does so by another session. */
  lemma KilledSessionGone(slots: seq<Session>, i: nat, header: seq<Byte>, ip: nat)
    requires i < |slots| && Authorized(slots[i := FREE], header, ip)
    ensures exists j :: 0 <= j < |slots| && j != i && Presents(header, slots[j]) && slots[j].loginIP == ip
  {
    hide Presents;
    var now := slots[i := FREE];
    var j := FirstPresented(now, header).value;
    FreeIsNotPresented(header);
    assert now[j] == slots[j];
  }

  lemma FreeIsNotPresented(header: seq<Byte>)
    ensures !Presents(header, FREE)
  {
  }

  lemma {:induction false} FirstOfAll(slots: seq<Session>, i: nat, header: seq<Byte>)
    requires i < |slots| && Presents(header, slots[i])
    ensures FirstPresented(slots, header)
            == if FirstPresented(slots[..i], header).Some? then FirstPresented(slots[..i], header) else Some(i)
  {
    hide Presents;
    if i > 0 && !Presents(header, slots[0]) {
      FirstOfAll(slots[1..], i - 1, header);
      assert slots[..i][1..] == slots[1..][..i - 1];
    }
  }

  /**
    A fresh session lets its owner in from the address it was opened from and from no other, unless
    an earlier session is presented as well, which then decides.
   */
  lemma CreatedSessionServes(slots: seq<Session>, i: nat, cookie: seq<Byte>, ip: nat, header: seq<Byte>, from: nat)
    requires i < |slots| && cookie != [] && header != [] && Contains(header, cookie)
    ensures var earlier := FirstPresented(slots[..i], header);
            Authorized(slots[i := Session(cookie, ip)], header, from)
            <==> (if earlier.Some? then slots[earlier.value].loginIP else ip) == from
  {
    hide Contains;
    var now := slots[i := Session(cookie, ip)];
    assert Presents(header, now[i]);
    FirstOfAll(now, i, header);
    assert now[..i] == slots[..i];
  }

  class SessionTable {
    const slots: array<Session>

    constructor ()
      ensures fresh(slots) && slots.Length == MAX_SESSIONS && forall i | 0 <= i < MAX_SESSIONS :: slots[i] == FREE
    {
      slots := new Session[MAX_SESSIONS](_ => FREE);
    }

    /** The new session takes the first free slot; no other session is touched. */
    method SessionCreate(cookie: seq<Byte>, remoteIP: nat) returns (r: Option<nat>)
      requires slots.Length == MAX_SESSIONS && cookie != []
      modifies slots
      ensures r.None? <==> forall i | 0 <= i < MAX_SESSIONS :: old(slots[i]).token != []
      ensures r.None? ==> slots[..] == old(slots[..])
      ensures r.Some? ==>
                && r.value < MAX_SESSIONS && old(slots[r.value]).token == []
                && slots[..] == old(slots[..])[r.value := Session(cookie, remoteIP)]
    {
      for i := 0 to MAX_SESSIONS
        invariant slots[..] == old(slots[..])
        invariant forall k | 0 <= k < i :: slots[k].token != []
      {
        if slots[i].token == [] {
          slots[i] := Session(cookie, remoteIP);
          return Some(i);
        }
      }
      return None;
    }

    method SessionKill(i: nat)
      requires slots.Length == MAX_SESSIONS && i < MAX_SESSIONS
      modifies slots
      ensures slots[..] == if old(slots[i]).token != [] then old(slots[..])[i := FREE] else old(slots[..])
    {
      if slots[i].token != [] {
        slots[i] := FREE;
      }
    }

    method GetSession(header: seq<Byte>) returns (r: Option<nat>)
      ensures r == FirstPresented(slots[..], header)
    {
      ghost var all := slots[..];
      if header != [] {
        for i := 0 to slots.Length
          invariant slots[..] == all
          invariant forall k | 0 <= k < i :: !Presents(header, slots[k])
        {
          if Presents(header, slots[i]) {
            return Some(i);
          }
        }
      }
      return None;
    }
  }

  // ---- extensions served without a session ----

  /** css, jpg, png, ico, bmp, svg, gif, woff, ttf, otf and tiff. */
  const EXEMPT: seq<seq<Byte>> := [
    [99, 115, 115], [106, 112, 103], [112, 110, 103], [105, 99, 111], [98, 109, 112], [115, 118, 103],
    [103, 105, 102], [119, 111, 102, 102], [116, 116, 102], [111, 116, 102], [116, 105, 102, 102]]

  /** The extension starts with one of the exempt ones, letter case apart. */
  predicate IsExempt(extension: seq<Byte>) {
    exists k | 0 <= k < |EXEMPT| :: SameNoCase(extension, EXEMPT[k], |EXEMPT[k]|)
  }

  method SessionTypes(extension: seq<Byte>) returns (r: nat)
    ensures r == if IsExempt(extension) then 0 else 1
  {
    for k := 0 to |EXEMPT|
      invariant forall j | 0 <= j < k :: !SameNoCase(extension, EXEMPT[j], |EXEMPT[j]|)
    {
      var c := Strnicmp(extension, EXEMPT[k], |EXEMPT[k]|);
      if c == 0 {
        return 0;
      }
    }
    return 1;
  }
}
