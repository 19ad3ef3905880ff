/** How handlers of posted data take the bytes of a request's body. */
module FormBody {
  import opened Bytes
  import opened Limits

  const SPARE := 32

  function Least(a: int, b: int): int {
    if a < b then a else b
  }

  /**
    Posted form data is parsed in the send buffer, which has nothing to send yet: pairs are taken
    off its front as they become complete, and the rest of the body ends the last one.
   */
  class FormReceiver {
    const sendBuffer: array<Byte>
    const contentLength: nat
    var contentReceived: nat
    var bytesLeft: nat

    // the bytes of the body taken so far
    ghost var taken: seq<Byte>

    /** WEB_OnFormHeaders. */
    constructor (contentLength: nat)
      ensures Valid() && this.contentLength == contentLength && contentReceived == 0 && fresh(sendBuffer)
    {
      this.contentLength := contentLength;
      sendBuffer := new Byte[MAX_SEND_BUF_SIZE](_ => NUL);
      contentReceived, bytesLeft, taken := 0, 0, [];
    }

    /** What is in the buffer is the end of what has been taken; nothing is, when the body is complete. */
    ghost predicate Valid()
      reads this, sendBuffer
    {
      && sendBuffer.Length == MAX_SEND_BUF_SIZE && contentReceived == |taken| <= contentLength
      && bytesLeft <= MAX_SEND_BUF_SIZE - SPARE && bytesLeft <= |taken|
      && taken[|taken| - bytesLeft..] == sendBuffer[..bytesLeft]
      && (contentReceived == contentLength ==> bytesLeft == 0)
    }

    /**
      The pairs themselves are not part of this model: some bytes at the front of the buffer are
      dealt with, all of them if nothing more is to come, and those behind stay as they are.
     */
    method ExtractFormData(remain: nat) returns (parsed: nat)
      requires sendBuffer.Length == MAX_SEND_BUF_SIZE && bytesLeft <= MAX_SEND_BUF_SIZE
      modifies sendBuffer
      ensures parsed <= bytesLeft && (remain == 0 ==> parsed == bytesLeft)
      ensures sendBuffer[parsed..bytesLeft] == old(sendBuffer[parsed..bytesLeft])
    {
      var some: int := *;
      parsed := if 0 <= some <= bytesLeft && remain > 0 then some else bytesLeft;
      ghost var was := sendBuffer[..];
      forall k | 0 <= k < parsed {
        sendBuffer[k] := NUL;
      }
      assert forall k | parsed <= k < bytesLeft :: sendBuffer[k] == was[k];
    }

    /**
      Takes some of the bytes offered: never more than are left of the body, never more than fit
      the buffer, and all of the body's that do.
     */
    method OnFormReceived(buffer: seq<Byte>) returns (consumed: int)
      requires Valid()
      modifies this`bytesLeft, this`contentReceived, this`taken, sendBuffer
      ensures Valid()
      ensures consumed == Least(Least(contentLength - old(contentReceived), |buffer|),
                                MAX_SEND_BUF_SIZE - old(bytesLeft) - SPARE)
      ensures consumed >= 0 && taken == old(taken) + buffer[..consumed]
      ensures contentReceived == old(contentReceived) + consumed
    {
      consumed := contentLength - contentReceived;
      if consumed > |buffer| {
        consumed := |buffer|;
      }
      if consumed > 0 {
        var free := MAX_SEND_BUF_SIZE - bytesLeft - SPARE;
        if consumed > free {
          consumed := free;
        }
        if consumed > 0 {
          Take(buffer[..consumed]);
        } else {
          assert buffer[..0] == [];
        }
      }
    }

    method Take(data: seq<Byte>)
      requires Valid() && data != [] && |data| <= contentLength - contentReceived
      requires |data| <= MAX_SEND_BUF_SIZE - bytesLeft - SPARE
      modifies this`bytesLeft, this`contentReceived, this`taken, sendBuffer
      ensures Valid() && taken == old(taken) + data && contentReceived == old(contentReceived) + |data|
    {
      ghost var b, t := sendBuffer[..bytesLeft], taken;
      var remain := contentLength - contentReceived - |data|;
      Store(sendBuffer, bytesLeft, data);
      bytesLeft := bytesLeft + |data|;
      taken := taken + data;
      contentReceived := contentReceived + |data|;
      ghost var w := sendBuffer[..bytesLeft];
      assert w == b + data;
      EndOf(t, b, data);
      var parsed := ExtractFormData(remain);
      assert sendBuffer[parsed..bytesLeft] == w[parsed..];
      EndOfEnd(taken, w, parsed);
      Drop(parsed);
    }

    /** Shifts out what has been parsed. */
    method Drop(parsed: nat)
      requires parsed <= bytesLeft <= sendBuffer.Length
      modifies this`bytesLeft, sendBuffer
      ensures bytesLeft == old(bytesLeft) - parsed && sendBuffer[..bytesLeft] == old(sendBuffer[parsed..bytesLeft])
    {
      if parsed > 0 {
        bytesLeft := bytesLeft - parsed;
        if bytesLeft > 0 {
          Move(sendBuffer, 0, parsed, bytesLeft);
        }
      }
    }

    lemma EndOf(t: seq<Byte>, b: seq<Byte>, data: seq<Byte>)
      requires |b| <= |t| && t[|t| - |b|..] == b
      ensures (t + data)[|t + data| - |b + data|..] == b + data
    {
      assert t + data == t[..|t| - |b|] + (b + data);
    }

    lemma EndOfEnd(t: seq<Byte>, w: seq<Byte>, n: nat)
      requires n <= |w| <= |t| && t[|t| - |w|..] == w
      ensures t[|t| - (|w| - n)..] == w[n..]
    {
      assert t[|t| - |w|..][n..] == t[|t| - (|w| - n)..];
    }
  }
}
