/** The file handler meets what the response side expects of a handler, and what that means for the peer. */
module Handlers {
  import opened Bytes
  import opened Chunked
  import opened EmptyBlocks
  import opened Limits
  import opened Response
  import opened SsiCalls
  import opened SsiScanner
  import opened Template
  import D = Delivery
  import W = WebContent

  /** A plain file is always served within the room there is. */
  lemma PlainIsHonest(s: seq<Byte>, v: W.View, maxSize: nat, n: int, block: seq<Byte>, v': W.View, first: bool)
    requires W.PlainStep(s, v, maxSize, n, block, v') && v.stage < STAGE_END
    ensures Honest(Answer(n, block, v'.stage, v'.index), maxSize, false, first)
  {
  }

  /**
    Room for the next call on a template, the 5 bytes of the tail included that no room is set aside for:
    - once the file has been read, the window is all there is to serve;
    - before that, only a call that nothing stops serves all that is left.
   */
  ghost predicate TailFits(values: Replacer, s: seq<Byte>, v: W.View, maxSize: nat)
    requires v.cached <= v.index <= |s|
  {
    if v.index == |s| then v.cached == 0 || v.cached + 5 <= maxSize
    else
      EndsNow(values, s, v, maxSize) ==>
        var rest := Ahead(values, s, v, maxSize).out;
        rest == [] || |rest| + 5 <= maxSize
  }

  /** A template is served within its room exactly then. */
  lemma SsiIsHonest(values: Replacer, s: seq<Byte>, v: W.View, maxSize: nat, n: int, block: seq<Byte>, v': W.View,
                    first: bool)
    requires W.SsiStep(values, s, v, maxSize, n, block, v') && maxSize >= 1
    requires v.stage <= v.index && v.cached <= v.index <= |s| < W.FILE_LIMIT
    ensures Honest(Answer(n, block, v'.stage, v'.index), maxSize, true, first) <==> TailFits(values, s, v, maxSize)
  {
    hide Scan, Plain, W.Copied, EndsNow, Ahead;
    if v.index < |s| {
      EndsExactly(values, s, v, maxSize, n, block, v');
    }
  }

  lemma {:induction false} TaglessIsPlain(s: seq<Byte>, i: nat)
    requires i <= |s| && OPENER[0] !in s
    ensures Plain(s, i, Literal, |s|)
    decreases |s| - i
  {
    if i < |s| {
      assert s[i] in s;
      assert !At(s, i, OPENER) by {
        assert i + 5 <= |s| ==> s[i..i + 5][0] == s[i];
      }
      TaglessIsPlain(s, i + 1);
    }
  }

  /**
    A page without tags, served by one call into an empty send buffer, runs over the end of the buffer
    from 240 bytes on.
   */
  lemma TaglessPageOverflows(values: Replacer, s: seq<Byte>, n: int, block: seq<Byte>, v': W.View)
    requires OPENER[0] !in s && 0 < |s| <= MAX_SEND_BUF_SIZE - CHUNK_ROOM - 2
    requires W.SsiStep(values, s, D.START, MAX_SEND_BUF_SIZE - CHUNK_ROOM - 2, n, block, v')
    ensures block == s
    ensures Honest(Answer(n, block, v'.stage, v'.index), MAX_SEND_BUF_SIZE - CHUNK_ROOM - 2, true, true)
            <==> |s| < 240
  {
    hide Scan, Plain;
    var maxSize := MAX_SEND_BUF_SIZE - CHUNK_ROOM - 2;
    var cap := W.Capped(values, W.TagRoom(maxSize));
    TaglessIsPlain(s, 0);
    PlainIsScanned(cap, s, 0, Literal, |s|);
    var r := Ahead(values, s, D.START, maxSize);
    W.PlainIsCopied(cap, s, 0, |s|, r.out, r.mode);
    assert s[0..|s|] == s;
    EndsExactly(values, s, D.START, maxSize, n, block, v');
    SsiIsHonest(values, s, D.START, maxSize, n, block, v', true);
  }

  /** The blocks of the calls; an answer that there is nothing is none. */
  function Blocks(calls: seq<D.Call>): seq<seq<Byte>> {
    if calls == [] then []
    else
      var n := |calls| - 1;
      Blocks(calls[..n]) + if calls[n].n < 0 then [] else [calls[n].block]
  }

  ghost predicate NothingIsEmpty(calls: seq<D.Call>) {
    forall k | 0 <= k < |calls| :: calls[k].n < 0 ==> calls[k].block == []
  }

  lemma {:induction false} BlocksJoined(calls: seq<D.Call>)
    requires NothingIsEmpty(calls)
    ensures Join(Blocks(calls)) == D.Output(calls)
    decreases |calls|
  {
    if calls != [] {
      var n := |calls| - 1;
      BlocksJoined(calls[..n]);
      if calls[n].n >= 0 {
        JoinAppend(Blocks(calls[..n]), [calls[n].block]);
        assert [calls[n].block][1..] == [] && calls[n].block + [] == calls[n].block;
      } else {
        assert Blocks(calls[..n]) + [] == Blocks(calls[..n]);
        assert D.Output(calls[..n]) + [] == D.Output(calls[..n]);
      }
    }
  }

  lemma PlainNothing(s: seq<Byte>, vs: seq<W.View>, calls: seq<D.Call>)
    requires D.PlainRun(s, vs, calls)
    ensures NothingIsEmpty(calls)
  {
    forall k | 0 <= k < |calls|
      ensures calls[k].n < 0 ==> calls[k].block == []
    {
      assert W.PlainStep(s, vs[k], calls[k].maxSize, calls[k].n, calls[k].block, vs[k + 1]);
    }
  }

  /** A template's reader only says that there is nothing when the page is empty. */
  lemma SsiNothing(values: Replacer, s: seq<Byte>, vs: seq<W.View>, calls: seq<D.Call>)
    requires D.SsiRun(values, s, vs, calls)
    ensures NothingIsEmpty(calls) && (s != [] ==> forall k | 0 <= k < |calls| :: calls[k].n >= 0)
  {
    forall k | 0 <= k < |calls|
      ensures (calls[k].n < 0 ==> calls[k].block == []) && (s != [] ==> calls[k].n >= 0)
    {
      var c := calls[k];
      assert W.SsiStep(values, s, vs[k], c.maxSize, c.n, c.block, vs[k + 1]);
      if k > 0 {
        var b := calls[k - 1];
        assert W.SsiStep(values, s, vs[k - 1], b.maxSize, b.n, b.block, vs[k]);
      }
      if s != [] && vs[k].index == |s| {
        NotDone(values, s, vs, calls, k);
      }
    }
  }

  lemma {:induction false} FirstOfBlocks(calls: seq<D.Call>)
    requires calls != [] && forall k | 0 <= k < |calls| :: calls[k].n >= 0
    ensures Blocks(calls) != [] && Blocks(calls)[0] == calls[0].block
    ensures Blocks(calls)[|Blocks(calls)| - 1] == calls[|calls| - 1].block
    decreases |calls|
  {
    if |calls| > 1 {
      FirstOfBlocks(calls[..|calls| - 1]);
    }
  }

  /** An empty page has no blocks. */
  lemma NoBlocksOfNothing(values: Replacer, vs: seq<W.View>, calls: seq<D.Call>)
    requires D.SsiRun(values, [], vs, calls) && calls != []
    ensures Blocks(calls) == []
  {
    assert W.SsiStep(values, [], vs[0], calls[0].maxSize, calls[0].n, calls[0].block, vs[1]);
    assert |calls| == 1;
  }

  /**
    End to end: a template whose last tag opens more than 64 bytes before its end is decoded by the peer
    as what it means, for all block sizes the values fit in, exactly when the page is not empty, does
    not start with a tag or with a `<` and less than 4 bytes behind it, and the template does not end
    in a reference that stands for nothing.
   */
  lemma PeerGetsTheMeaning(values: Replacer, t: seq<Piece>, vs: seq<W.View>, calls: seq<D.Call>)
    requires Proper(t) && |Source(t)| < W.FILE_LIMIT
    requires D.SsiRun(values, Source(t), vs, calls) && D.Fits(values, vs, calls) && vs[|calls|].stage == STAGE_END
    requires forall q: nat | q + MAX_TAG_LEN >= |Source(t)| :: !At(Source(t), q, OPENER)
    ensures DecodeBody(Body(true, Blocks(calls))) == Decoded(Meaning(values, t), [])
            <==> !FirstEmpty(Source(t)) && !EndsInNothing(values, t)
  {
    hide Proper, Source, Meaning, At, W.SsiStep, D.Fits, Rest, DecodeBody, Body, EndsInNothing, LastEmpty;
    var s := Source(t);
    RestMeansTemplate(values, t);
    D.FullSubstitution(values, s, vs, calls);
    SsiNothing(values, s, vs, calls);
    BlocksJoined(calls);
    RoundTrip(Blocks(calls));
    if s == [] {
      NoBlocksOfNothing(values, vs, calls);
    } else {
      FirstOfBlocks(calls);
      FirstBlock(values, s, calls[0], vs[1]);
      LastEmptyMeans(values, t);
      LastBlock(values, s, vs, calls);
    }
  }

  /**
    For a page that starts with a tag, of any length and under any block sizes, it is not even the
    output: the first call serves nothing, and the chunk that follows starts with the line break of a
    chunk that was never there.
   */
  lemma LeadingTagBreaksChunks(values: Replacer, s: seq<Byte>, vs: seq<W.View>, calls: seq<D.Call>)
    requires D.SsiRun(values, s, vs, calls) && calls != [] && At(s, 0, OPENER)
    ensures calls[0].block == [] && DecodeBody(Body(true, Blocks(calls))) != Decoded(D.Output(calls), [])
  {
    hide DecodeBody, Body, Blocks, W.SsiStep;
    FirstBlock(values, s, calls[0], vs[1]);
    SsiNothing(values, s, vs, calls);
    FirstOfBlocks(calls);
    BlocksJoined(calls);
    RoundTrip(Blocks(calls));
  }
}
