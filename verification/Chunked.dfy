/** Chunked transfer coding: what the server writes, and the decoder of section 7.1 of RFC 9112. */
module Chunked {
  import opened Bytes
  import opened UrlCoding

  const TAIL: seq<Byte> := [13, 10, 48, 13, 10, 13, 10] // CRLF 0 CRLF CRLF

  function HexDigit(v: nat): (c: Byte)
    requires v < 16
    ensures HexValue(c) == v
  {
    (if v < 10 then 48 + v else 55 + v) as Byte
  }

  /** A number as "%X" prints it. */
  function Hex(n: nat): (s: seq<Byte>)
    ensures s != [] && HexValue(s[0]) >= 0
  {
    if n < 16 then [HexDigit(n)] else Hex(n / 16) + [HexDigit(n % 16)]
  }

  lemma HexShort(n: nat)
    requires n < 256
    ensures |Hex(n)| <= 2
  {
    assert n / 16 < 16;
  }

  function Break(first: bool): seq<Byte> {
    if first then [] else CRLF
  }

  /** What goes before a block: the line break that ends the chunk before it, and its own size line. */
  function SizeLine(first: bool, size: nat): seq<Byte> {
    Break(first) + (Hex(size) + CRLF)
  }

  /** What one load appends to the send buffer.  An empty block appends nothing. */
  function Load(first: bool, last: bool, block: seq<Byte>): seq<Byte> {
    if block == [] then [] else SizeLine(first, |block|) + (block + if last then TAIL else [])
  }

  /** The loads of the rest of a response; `first` says that none has come before. */
  function Body(first: bool, blocks: seq<seq<Byte>>): seq<Byte> {
    if blocks == [] then [] else Load(first, |blocks| == 1, blocks[0]) + Body(false, blocks[1..])
  }

  // ---- the recipient ----

  datatype Size = Size(value: nat, rest: seq<Byte>)

  /** Reads hexadecimal digits as long as there are any. */
  function ReadSize(acc: nat, s: seq<Byte>): (r: Size)
    ensures |r.rest| <= |s|
    ensures s != [] && HexValue(s[0]) >= 0 ==> |r.rest| < |s|
    decreases |s|
  {
    if s != [] && HexValue(s[0]) >= 0 then ReadSize(16 * acc + HexValue(s[0]), s[1..]) else Size(acc, s)
  }

  datatype Decoded = Malformed | Decoded(body: seq<Byte>, rest: seq<Byte>)

  function Behind(block: seq<Byte>, d: Decoded): Decoded {
    match d
    case Malformed => Malformed
    case Decoded(body, rest) => Decoded(block + body, rest)
  }

  /**
    Reads chunks up to the last one, which has size zero and is followed by an empty trailer
    section.  (The server sends neither chunk extensions nor trailer fields.)
   */
  function DecodeBody(s: seq<Byte>): Decoded
    decreases |s|, 1
  {
    if s == [] || HexValue(s[0]) < 0 then Malformed
    else
      var Size(n, t) := ReadSize(0, s);
      DecodeChunk(n, t)
  }

  /** The rest of a chunk of `n` bytes, and the chunks behind it. */
  function DecodeChunk(n: nat, t: seq<Byte>): Decoded
    decreases |t|, 0
  {
    if !(CRLF <= t) then Malformed
    else if n == 0 then
      if CRLF <= t[2..] then Decoded([], t[4..]) else Malformed
    else if |t| < n + 4 || t[2 + n..4 + n] != CRLF then Malformed
    else Behind(t[2..2 + n], DecodeBody(t[4 + n..]))
  }

  lemma {:induction false} ReadsHex(n: nat, t: seq<Byte>)
    ensures ReadSize(0, Hex(n) + t) == ReadSize(n, t)
  {
    if n < 16 {
      var s := [HexDigit(n)] + t;
      assert s[1..] == t;
    } else {
      var u := [HexDigit(n % 16)] + t;
      ReadsHex(n / 16, u);
      assert Hex(n) + t == Hex(n / 16) + u;
      assert u[1..] == t;
    }
  }

  /** A chunk, written out: its size, its data, and whatever follows. */
  function Chunk(block: seq<Byte>, follow: seq<Byte>): seq<Byte> {
    Hex(|block|) + (CRLF + (block + follow))
  }

  lemma ReadsData(block: seq<Byte>, follow: seq<Byte>)
    requires block != []
    ensures DecodeChunk(|block|, CRLF + (block + follow))
            == if CRLF <= follow then Behind(block, DecodeBody(follow[2..])) else Malformed
  {
    var n, t := |block|, CRLF + (block + follow);
    assert t[2..] == block + follow;
    assert t[2..2 + n] == block;
    if |follow| >= 2 {
      assert t[2 + n..4 + n] == follow[..2] && t[4 + n..] == follow[2..];
    }
  }

  /** One chunk is read back, and what follows its data decides the rest. */
  lemma ReadsChunk(block: seq<Byte>, follow: seq<Byte>)
    requires block != []
    ensures DecodeBody(Chunk(block, follow))
            == if CRLF <= follow then Behind(block, DecodeBody(follow[2..])) else Malformed
  {
    var n, t := |block|, CRLF + (block + follow);
    ReadsHex(n, t);
    assert HexValue(CR) < 0 && t[0] == CR;
    assert ReadSize(n, t) == Size(n, t);
    assert Chunk(block, follow)[0] == Hex(n)[0];
    ReadsData(block, follow);
  }

  lemma ReadsTail()
    ensures CRLF <= TAIL && DecodeBody(TAIL[2..]) == Decoded([], [])
  {
    var s := TAIL[2..];
    assert s == Hex(0) + (CRLF + CRLF);
    ReadsHex(0, CRLF + CRLF);
    assert ReadSize(0, CRLF + CRLF) == Size(0, CRLF + CRLF);
    assert (CRLF + CRLF)[2..] == CRLF && (CRLF + CRLF)[4..] == [];
  }

  // ---- the round trip ----

  /** What stands behind the data of a block when `rest` is still to come. */
  function Follow(rest: seq<seq<Byte>>): seq<Byte> {
    if rest == [] then TAIL else Body(false, rest)
  }

  lemma LoadAndRest(first: bool, last: bool, block: seq<Byte>, rest: seq<Byte>)
    requires block != []
    ensures Load(first, last, block) + rest == Break(first) + Chunk(block, (if last then TAIL else []) + rest)
  {
    hide Hex;
    var tail := if last then TAIL else [];
    var h := Hex(|block|);
    Associate(block, tail, rest);
    Associate(Break(first) + (h + CRLF), block + tail, rest);
    Associate(Break(first), h + CRLF, block + (tail + rest));
    Associate(h, CRLF, block + (tail + rest));
  }

  lemma LoadAndFollow(first: bool, blocks: seq<seq<Byte>>)
    requires blocks != [] && blocks[0] != []
    ensures Body(first, blocks) == Break(first) + Chunk(blocks[0], Follow(blocks[1..]))
  {
    hide Load, Chunk;
    var rest := Body(false, blocks[1..]);
    LoadAndRest(first, |blocks| == 1, blocks[0], rest);
    if |blocks| == 1 {
      assert rest == [] && TAIL + [] == TAIL;
    } else {
      assert [] + rest == rest;
    }
  }

  lemma EmptyLoad(blocks: seq<seq<Byte>>, first: bool)
    requires blocks != [] && blocks[0] == []
    ensures Body(first, blocks) == Body(false, blocks[1..]) && Join(blocks) == Join(blocks[1..])
  {
  }

  /** Whether the part of the response behind a block is complete is decided by its last block. */
  lemma {:induction false} FollowDecodes(rest: seq<seq<Byte>>)
    ensures if rest == [] || rest[|rest| - 1] != [] then
              CRLF <= Follow(rest) && DecodeBody(Follow(rest)[2..]) == Decoded(Join(rest), [])
            else
              CRLF <= Follow(rest) ==> DecodeBody(Follow(rest)[2..]) == Malformed
    decreases |rest|
  {
    if rest == [] {
      ReadsTail();
    } else if rest[0] == [] {
      EmptyLoad(rest, false);
      if |rest| == 1 {
        assert Body(false, rest[1..]) == [];
      } else {
        FollowDecodes(rest[1..]);
      }
    } else {
      FollowDecodes(rest[1..]);
      LoadAndFollow(false, rest);
      var s := Chunk(rest[0], Follow(rest[1..]));
      assert Follow(rest) == CRLF + s && (CRLF + s)[2..] == s;
      ReadsChunk(rest[0], Follow(rest[1..]));
    }
  }

  /**
    A recipient gets back exactly the blocks, and the end of the body, exactly when there are
    blocks and neither the first nor the last of them is empty.
   */
  lemma RoundTrip(blocks: seq<seq<Byte>>)
    ensures DecodeBody(Body(true, blocks)) == Decoded(Join(blocks), [])
            <==> blocks != [] && blocks[0] != [] && blocks[|blocks| - 1] != []
  {
    hide DecodeBody, Body, Chunk, Follow;
    if blocks == [] {
      NoBlocks();
    } else if blocks[0] != [] {
      FollowDecodes(blocks[1..]);
      LoadAndFollow(true, blocks);
      var s := Chunk(blocks[0], Follow(blocks[1..]));
      assert [] + s == s;
      ReadsChunk(blocks[0], Follow(blocks[1..]));
    } else {
      EmptyLoad(blocks, true);
      StartsWithBreak(blocks[1..]);
    }
  }

  lemma NoBlocks()
    ensures DecodeBody(Body(true, [])) == Malformed
  {
  }

  lemma {:induction false} StartsWithBreak(blocks: seq<seq<Byte>>)
    ensures Body(false, blocks) == [] || Body(false, blocks)[0] == CR
    ensures DecodeBody(Body(false, blocks)) == Malformed
    decreases |blocks|
  {
    if blocks != [] {
      if blocks[0] == [] {
        EmptyLoad(blocks, false);
        StartsWithBreak(blocks[1..]);
      } else {
        LoadAndFollow(false, blocks);
      }
    }
    assert HexValue(CR) < 0;
  }

  // ---- a response as it grows ----

  /** The loads so far of a response whose last block has not come yet. */
  function Unfinished(first: bool, blocks: seq<seq<Byte>>): seq<Byte> {
    if blocks == [] then [] else Load(first, false, blocks[0]) + Unfinished(false, blocks[1..])
  }

  /** The next load goes behind all the others. */
  lemma {:induction false} NextLoad(first: bool, blocks: seq<seq<Byte>>, more: seq<Byte>)
    ensures var f := first && blocks == [];
            && Unfinished(first, blocks) + Load(f, false, more) == Unfinished(first, blocks + [more])
            && Unfinished(first, blocks) + Load(f, true, more) == Body(first, blocks + [more])
    decreases |blocks|
  {
    hide Load;
    var all := blocks + [more];
    var a, b := Load(first && blocks == [], false, more), Load(first && blocks == [], true, more);
    if blocks == [] {
      assert all == [more] && all[1..] == [] && a + [] == a == [] + a && b + [] == b == [] + b;
    } else {
      var u := Unfinished(false, blocks[1..]);
      NextLoad(false, blocks[1..], more);
      assert all[0] == blocks[0] && all[1..] == blocks[1..] + [more];
      Associate(Load(first, false, blocks[0]), u, a);
      Associate(Load(first, false, blocks[0]), u, b);
    }
  }
}
