/** The part of the TCP stack a connection sees. */
module Lwip {
  import opened Bytes

  /** A TCP connection as the stack keeps it. */
  class Pcb {
    /** Every byte the stack has accepted for sending, and how many of them the peer has acknowledged. */
    ghost var wire: seq<Byte>
    ghost var acked: nat
    /** The window credit handed back so far, and how many writes the stack has refused. */
    ghost var credit: nat
    ghost var refused: nat
    /** The room for more bytes: any amount, at any time. */
    var room: nat

    constructor ()
      ensures wire == [] && acked == 0 && credit == 0
    {
      wire, acked, credit, refused, room := [], 0, 0, 0, 0;
    }

    /** altcp_sndbuf. */
    method Sndbuf() returns (n: nat)
      ensures n == room
    {
      n := room;
    }

    /** altcp_write: all of the data is taken, or none of it, and any room is left behind it. */
    method Write(data: seq<Byte>) returns (err: int)
      modifies this`wire, this`refused, this`room
      ensures wire == if err == 0 then old(wire) + data else old(wire)
      ensures refused == if err == 0 then old(refused) else old(refused) + 1
    {
      var left: int;
      err, left := *, *;
      room := if left < 0 then 0 else left;
      if err == 0 {
        wire := wire + data;
      } else {
        refused := refused + 1;
      }
    }

    /** The stack has found room for `n` bytes. */
    method Offer(n: nat)
      modifies this`room
      ensures room == n
    {
      room := n;
    }

    /** altcp_recved. */
    method Recved(n: nat)
      modifies this`credit
      ensures credit == old(credit) + n
    {
      credit := credit + n;
    }

    /** The peer acknowledges `n` more bytes. */
    ghost method Acknowledge(n: nat)
      requires acked + n <= |wire|
      modifies this`acked
      ensures acked == old(acked) + n
    {
      acked := acked + n;
    }
  }
}
