/** A file on its way to the peer: the reader of the file and the send side of the response, together. */
module FileResponse {
  import opened Bytes
  import opened Chunked
  import opened EmptyBlocks
  import opened Handlers
  import opened Limits
  import opened Response
  import opened SsiScanner
  import opened Template
  import D = Delivery
  import W = WebContent

  /** The send buffer is not one of the reader's own. */
  ghost predicate Apart(rsp: ResponseContext, r: W.Reader) {
    rsp.sendBuffer != r.cache && rsp.sendBuffer != r.tagName && rsp.sendBuffer as object != r.files.slots
  }

  /** There is more of the file to serve, unless there is nothing in it. */
  ghost predicate More(r: W.Reader)
    reads r, r.tagName, r.cache
  {
    (r.ssi ==> r.InStep()) && (r.content == [] || r.operIndex < r.total || (r.ssi && r.cacheOffset > 0))
  }

  /** The calls make up a run of the reader. */
  ghost predicate Run(r: W.Reader, vs: seq<W.View>, calls: seq<D.Call>)
    reads r, r.tagName
  {
    && r.tagLength < r.tagName.Length && |vs| == |calls| + 1 && vs[|calls|] == r.Progress()
    && if r.ssi then D.SsiRun(r.replace, r.content, vs, calls) else D.PlainRun(r.content, vs, calls)
  }

  /** Both sides agree on the progress, and what has been loaded is what a run of the reader has served. */
  ghost predicate Serving(rsp: ResponseContext, r: W.Reader, vs: seq<W.View>, calls: seq<D.Call>)
    reads rsp, rsp.sendBuffer, rsp.pcb`wire, rsp.pcb`acked, r, r.files.slots, r.tagName, r.cache
  {
    && Apart(rsp, r) && rsp.Valid() && rsp.sending && r.Valid() && r.files.slots[r.fp].Open?
    && rsp.chunked == r.ssi && rsp.stage == r.stage && rsp.operIndex == r.operIndex
    && (rsp.stage == STAGE_END <==> rsp.finished) && (r.stage < STAGE_END ==> More(r))
    && Run(r, vs, calls) && rsp.blocks == Blocks(calls)
  }

  /** Sends what the stack takes. */
  method Send(rsp: ResponseContext, r: W.Reader, ghost vs: seq<W.View>, ghost calls: seq<D.Call>) returns (err: int)
    requires Serving(rsp, r, vs, calls)
    modifies rsp`total2Send, rsp`bytesLeft, rsp.sendBuffer, rsp.pcb`wire, rsp.pcb`refused, rsp.pcb`room
    ensures Serving(rsp, r, vs, calls) && (err != 0 <==> rsp.pcb.refused != old(rsp.pcb.refused))
    ensures err == 0 ==> rsp.Flushed(old(rsp.bytesLeft), old(rsp.pcb.room))
  {
    hide ResponseContext.WireOrder, ResponseContext.Coded;
    err := rsp.SendBuffered();
  }

  /** Bytes written behind what is buffered leave it alone. */
  lemma FrontKept(was: seq<Byte>, at: nat, block: seq<Byte>, n: nat)
    requires at + |block| <= |was| && n <= at
    ensures Splice(was, at, block)[..n] == was[..n] && Splice(was, at, block)[at..at + |block|] == block
  {
  }

  /** As long as there is more, a block is served; of an empty file, none. */
  lemma Served(values: Replacer, s: seq<Byte>, v: W.View, maxSize: nat, n: int, block: seq<Byte>, v': W.View, ssi: bool)
    requires if ssi then W.SsiStep(values, s, v, maxSize, n, block, v') else W.PlainStep(s, v, maxSize, n, block, v')
    requires v.index <= |s| && (ssi ==> v.cached <= v.index)
    requires s == [] || v.index < |s| || (ssi && v.cached > 0)
    ensures if s == [] then n == -1 && block == [] else n == |block|
  {
  }

  /** The file's next block, read into the send buffer where it belongs. */
  method Read(rsp: ResponseContext, r: W.Reader) returns (a: Answer)
    requires Apart(rsp, r) && rsp.Valid() && r.Valid() && r.files.slots[r.fp].Open? && rsp.chunked == r.ssi
    requires r.stage < STAGE_END && More(r) && rsp.Room() >= if r.ssi then MAX_TAG_LEN else 0
    modifies rsp.sendBuffer, r`stage, r`operIndex, r`cacheOffset, r`ssiState, r`tagLength, r`result,
             r.tagName, r.cache, r.files.slots
    ensures rsp.Valid() && r.Valid() && r.files.slots[r.fp].Open? && (r.ssi && r.stage < STAGE_END ==> r.InStep())
    ensures a.stage == r.stage && a.index == r.operIndex
    ensures if r.ssi then W.SsiStep(r.replace, r.content, old(r.Progress()), rsp.Room(), a.size, a.block, r.Progress())
            else W.PlainStep(r.content, old(r.Progress()), rsp.Room(), a.size, a.block, r.Progress())
    ensures if r.content == [] then a.size == -1 && a.block == [] else a.size == |a.block|
  {
    hide Splice, W.SsiStep, W.PlainStep, W.Reader.FileOk, W.Reader.InStep, ResponseContext.Coded;
    WindowShown(r);
    ghost var v := r.Progress();
    var at, room: nat := rsp.bytesLeft + if rsp.chunked then CHUNK_ROOM else 0, rsp.Room();
    var n;
    ghost var was, block := rsp.sendBuffer[..], [];
    n, block := r.ReadContent(rsp.sendBuffer, at, room);
    FrontKept(was, at, block, rsp.bytesLeft);
    Served(r.replace, r.content, v, room, n, block, r.Progress(), r.ssi);
    assert rsp.sendBuffer[..rsp.bytesLeft] == rsp.sendBuffer[..][..rsp.bytesLeft];
    var size: nat := if n < 0 then 0 else n;
    assert rsp.sendBuffer[at..at + size] == rsp.sendBuffer[..][at..at + size];
    a := Answer(n, rsp.sendBuffer[at..at + size], r.stage, r.operIndex);
  }

  lemma WindowShown(r: W.Reader)
    requires r.ssi ==> r.InStep()
    ensures r.ssi ==> r.cacheOffset <= r.operIndex <= |r.content| && r.cacheOffset < MAX_TAG_LEN
  {
  }

  lemma Fitting(values: Replacer, s: seq<Byte>, v: W.View, room: nat, a: Answer, v': W.View, ssi: bool, first: bool)
    requires v.stage < STAGE_END && v.index <= |s| < W.FILE_LIMIT && a.stage == v'.stage && a.index == v'.index
    requires if ssi then
               && room >= 1 && v.stage <= v.index && v.cached <= v.index
               && W.SsiStep(values, s, v, room, a.size, a.block, v') && TailFits(values, s, v, room)
             else W.PlainStep(s, v, room, a.size, a.block, v')
    ensures Honest(a, room, ssi, first)
  {
    hide W.SsiStep, W.PlainStep, TailFits;
    if ssi {
      SsiIsHonest(values, s, v, room, a.size, a.block, v', first);
    } else {
      PlainIsHonest(s, v, room, a.size, a.block, v', first);
    }
  }

  lemma MoreAfter(values: Replacer, s: seq<Byte>, v: W.View, room: nat, n: int, block: seq<Byte>, v': W.View, ssi: bool)
    requires if ssi then W.SsiStep(values, s, v, room, n, block, v') else W.PlainStep(s, v, room, n, block, v')
    requires v'.stage < STAGE_END && v'.index <= |s|
    ensures v'.index < |s| || (ssi && v'.cached > 0)
  {
  }

  lemma Longer(values: Replacer, s: seq<Byte>, vs: seq<W.View>, calls: seq<D.Call>, c: D.Call, v: W.View, ssi: bool)
    requires |vs| == |calls| + 1 && vs[|calls|].stage < STAGE_END && (ssi ==> c.maxSize >= 1) && c.n >= 0
    requires if ssi then W.SsiStep(values, s, vs[|calls|], c.maxSize, c.n, c.block, v)
             else W.PlainStep(s, vs[|calls|], c.maxSize, c.n, c.block, v)
    requires if ssi then D.SsiRun(values, s, vs, calls) else D.PlainRun(s, vs, calls)
    ensures if ssi then D.SsiRun(values, s, vs + [v], calls + [c]) else D.PlainRun(s, vs + [v], calls + [c])
    ensures Blocks(calls + [c]) == Blocks(calls) + [c.block]
  {
    hide W.SsiStep, W.PlainStep;
    assert (calls + [c])[..|calls|] == calls;
  }

  /** The reader makes progress, so that it does not seem to wait. */
  lemma DoesNotWait(values: Replacer, s: seq<Byte>, v: W.View, room: nat, a: Answer, v': W.View, ssi: bool)
    requires if ssi then W.SsiStep(values, s, v, room, a.size, a.block, v')
             else W.PlainStep(s, v, room, a.size, a.block, v')
    requires a.stage == v'.stage
    ensures !Waits(a)
  {
  }

  /** Nothing has been loaded of an empty file, and nothing of it ever is. */
  ghost predicate Empty(rsp: ResponseContext, r: W.Reader)
    reads rsp, rsp.sendBuffer, rsp.pcb`wire, r`content
  {
    rsp.WireOrder() && rsp.body == [] && r.content == []
  }

  lemma NoneYet(rsp: ResponseContext)
    requires rsp.Valid() && rsp.stage == 0 && rsp.operIndex == 0
    ensures rsp.body == []
  {
    rsp.NothingLoaded();
  }

  /** The send side asks for content, and gets this answer. */
  method Answered(rsp: ResponseContext, caller: Caller, a: Answer) returns (more: int)
    requires rsp.Valid() && rsp.sending && rsp.stage < STAGE_END && !rsp.finished
    requires Honest(a, rsp.Room(), rsp.chunked, rsp.First()) && !Waits(a)
    modifies rsp`bytesLeft, rsp`stage, rsp`operIndex, rsp`body, rsp`blocks, rsp`finished, rsp.sendBuffer
    ensures more < 0 <==> a.size < 0
    ensures if more < 0 then
              && more == -1 && rsp.WireOrder()
              && rsp.body == old(rsp.body) && rsp.bytesLeft == old(rsp.bytesLeft)
            else
              && rsp.Valid() && rsp.blocks == old(rsp.blocks) + [a.block] && rsp.stage == a.stage
              && rsp.operIndex == a.index && (rsp.stage == STAGE_END <==> rsp.finished)
  {
    hide ResponseContext.WireOrder, ResponseContext.Coded;
    var room, chunked, first := rsp.Room(), rsp.chunked, rsp.First();
    var read: Handler :=
      (maxSize, c, f) => if maxSize == room && c == chunked && f == first then a else Answer(-1, [], 0, 0);
    assert Obeys(read);
    hide Obeys, Honest;
    ghost var done;
    more, done := rsp.LoadContentToSend(caller, true, read);
  }

  /**
    Loads the next block: one more call of the run, and one more block of the response; or finds that
    the file is empty, which ends the response.
   */
  method Load(rsp: ResponseContext, r: W.Reader, caller: Caller, ghost vs: seq<W.View>, ghost calls: seq<D.Call>)
    returns (more: int, ghost vs': seq<W.View>, ghost calls': seq<D.Call>)
    requires Serving(rsp, r, vs, calls) && r.stage < STAGE_END && rsp.Room() >= if r.ssi then MAX_TAG_LEN else 0
    requires r.ssi ==> TailFits(r.replace, r.content, r.Progress(), rsp.Room())
    requires r.content == [] ==> rsp.First()
    modifies rsp`bytesLeft, rsp`stage, rsp`operIndex, rsp`body, rsp`blocks, rsp`finished, rsp.sendBuffer,
             r`stage, r`operIndex, r`cacheOffset, r`ssiState, r`tagLength, r`result, r.tagName, r.cache, r.files.slots
    ensures if r.content == [] then more == -1 && Empty(rsp, r) && rsp.bytesLeft == old(rsp.bytesLeft)
            else more >= 0 && Serving(rsp, r, vs', calls') && |calls'| == |calls| + 1
    ensures r.content != [] ==> vs <= vs' && calls <= calls' && calls'[|calls|].maxSize == old(rsp.Room())
  {
    hide W.SsiStep, W.PlainStep, TailFits, D.SsiRun, D.PlainRun, Blocks, Honest, Waits;
    hide ResponseContext.WireOrder, ResponseContext.Coded, W.Reader.FileOk;
    ghost var v := r.Progress();
    var room: nat := rsp.Room();
    if r.content == [] {
      NoneYet(rsp);
    }
    var a := Read(rsp, r);
    Fitting(r.replace, r.content, v, room, a, r.Progress(), r.ssi, rsp.First());
    DoesNotWait(r.replace, r.content, v, room, a, r.Progress(), r.ssi);
    more := Answered(rsp, caller, a);
    vs', calls' := vs, calls;
    if more >= 0 {
      var c := D.Call(room, a.size, a.block);
      vs', calls' := vs + [r.Progress()], calls + [c];
      Extended(rsp, r, vs, calls, c);
    }
  }

  /** One more call of the run, and one more block of the response. */
  lemma Extended(rsp: ResponseContext, r: W.Reader, vs: seq<W.View>, calls: seq<D.Call>, c: D.Call)
    requires Apart(rsp, r) && rsp.Valid() && rsp.sending && r.Valid() && r.files.slots[r.fp].Open?
    requires rsp.chunked == r.ssi && rsp.stage == r.stage && rsp.operIndex == r.operIndex
    requires (rsp.stage == STAGE_END <==> rsp.finished) && (r.ssi && r.stage < STAGE_END ==> r.InStep())
    requires |vs| == |calls| + 1 && vs[|calls|].stage < STAGE_END && (r.ssi ==> c.maxSize >= 1) && c.n >= 0
    requires if r.ssi then W.SsiStep(r.replace, r.content, vs[|calls|], c.maxSize, c.n, c.block, r.Progress())
             else W.PlainStep(r.content, vs[|calls|], c.maxSize, c.n, c.block, r.Progress())
    requires if r.ssi then D.SsiRun(r.replace, r.content, vs, calls) else D.PlainRun(r.content, vs, calls)
    requires rsp.blocks == Blocks(calls) + [c.block]
    ensures Serving(rsp, r, vs + [r.Progress()], calls + [c])
  {
    hide W.SsiStep, W.PlainStep, D.SsiRun, D.PlainRun, Blocks, ResponseContext.Valid;
    Longer(r.replace, r.content, vs, calls, c, r.Progress(), r.ssi);
    if r.stage < STAGE_END {
      MoreAfter(r.replace, r.content, vs[|calls|], c.maxSize, c.n, c.block, r.Progress(), r.ssi);
    }
  }

  /** A finished response whose last byte has left the buffer. */
  lemma OnTheWire(rsp: ResponseContext)
    requires rsp.Valid() && rsp.finished && rsp.bytesLeft == 0
    ensures rsp.pcb.wire[rsp.base..] == rsp.head + rsp.body
    ensures rsp.body == if rsp.chunked then Body(true, rsp.blocks) else Join(rsp.blocks)
  {
    assert rsp.pcb.wire[rsp.base..] + [] == rsp.pcb.wire[rsp.base..];
  }

  /** A plain file has then arrived as it is, behind the head. */
  lemma FileArrives(rsp: ResponseContext, r: W.Reader, vs: seq<W.View>, calls: seq<D.Call>)
    requires Serving(rsp, r, vs, calls) && !r.ssi && rsp.finished && rsp.bytesLeft == 0 && |calls| < STAGE_END
    ensures rsp.pcb.wire[rsp.base..] == rsp.head + r.content
  {
    hide ResponseContext.WireOrder, ResponseContext.Coded, D.PlainRun;
    OnTheWire(rsp);
    D.PlainDelivery(r.content, vs, calls);
    PlainNothing(r.content, vs, calls);
    BlocksJoined(calls);
  }

  /** And a template is decoded as what it means, exactly when its first and last blocks are not empty. */
  lemma TemplateArrives(rsp: ResponseContext, r: W.Reader, t: seq<Piece>, vs: seq<W.View>, calls: seq<D.Call>)
    requires Serving(rsp, r, vs, calls) && r.ssi && rsp.finished && rsp.bytesLeft == 0
    requires Proper(t) && r.content == Source(t) && D.Fits(r.replace, vs, calls)
    requires forall q: nat | q + MAX_TAG_LEN >= |Source(t)| :: !At(Source(t), q, OPENER)
    ensures rsp.base + |rsp.head| <= |rsp.pcb.wire|
    ensures rsp.pcb.wire[rsp.base..rsp.base + |rsp.head|] == rsp.head
    ensures DecodeBody(rsp.pcb.wire[rsp.base + |rsp.head|..]) == Decoded(Meaning(r.replace, t), [])
            <==> !FirstEmpty(Source(t)) && !EndsInNothing(r.replace, t)
  {
    hide ResponseContext.Coded, D.SsiRun, Proper, Source, Meaning, At, DecodeBody, Body, FirstEmpty, EndsInNothing;
    OnTheWire(rsp);
    rsp.Behind(rsp.pcb.wire, rsp.base, rsp.head, rsp.body);
    PeerGetsTheMeaning(r.replace, t, vs, calls);
  }

  /** How many more events it takes at most, if all goes well. */
  ghost function Todo(rsp: ResponseContext, r: W.Reader): int
    reads rsp`bytesLeft, rsp`finished, r`operIndex, r`content
  {
    if rsp.finished then if rsp.bytesLeft > 0 then 1 else 0
    else |r.content| - r.operIndex + 1
  }

  /** Bytes that cannot go out at once are sent first, and otherwise the next block is loaded. */
  method ServeNext(rsp: ResponseContext, r: W.Reader, ghost vs: seq<W.View>, ghost calls: seq<D.Call>)
    returns (over: bool, err: int, ghost vs': seq<W.View>, ghost calls': seq<D.Call>)
    requires Serving(rsp, r, vs, calls) && !r.ssi && (r.content == [] ==> rsp.First())
    modifies rsp`total2Send, rsp`bytesLeft, rsp`stage, rsp`operIndex, rsp`body, rsp`blocks, rsp`finished,
             rsp.sendBuffer, rsp.pcb`wire, rsp.pcb`refused, rsp.pcb`room,
             r`stage, r`operIndex, r`cacheOffset, r`ssiState, r`tagLength, r`result, r.tagName, r.cache, r.files.slots
    ensures if over then Empty(rsp, r) else Serving(rsp, r, vs', calls') && |calls'| <= |calls| + 1
    ensures !over && r.content == [] ==> rsp.First()
    ensures err != 0 <==> rsp.pcb.refused != old(rsp.pcb.refused)
    ensures !over && err == 0 && old(rsp.pcb.room >= MAX_SEND_BUF_SIZE && rsp.bytesLeft < 254) ==>
              rsp.bytesLeft < 254 && (Todo(rsp, r) == 0 || Todo(rsp, r) < old(Todo(rsp, r)))
  {
    Standing(rsp, r, vs, calls);
    hide Serving, Run, Blocks, Empty;
    over, err, vs', calls' := false, 0, vs, calls;
    var maxbuf := rsp.pcb.Sndbuf();
    if rsp.bytesLeft > 0 && (rsp.stage == STAGE_END || rsp.bytesLeft >= maxbuf) {
      err := Send(rsp, r, vs, calls);
    } else if rsp.stage < STAGE_END && rsp.Room() >= 0 {
      ghost var index := r.operIndex;
      Progress(rsp, r, vs, calls);
      var more;
      more, vs', calls' := Load(rsp, r, Sent, vs, calls);
      if more < 0 {
        over := true;
        return;
      }
      Standing(rsp, r, vs', calls');
      Advanced(rsp, r, vs, calls, vs', calls', index);
      err := Send(rsp, r, vs', calls');
    }
  }

  lemma Standing(rsp: ResponseContext, r: W.Reader, vs: seq<W.View>, calls: seq<D.Call>)
    requires Serving(rsp, r, vs, calls) && !r.ssi
    ensures rsp.stage == r.stage <= STAGE_END && (rsp.stage == STAGE_END <==> rsp.finished)
    ensures rsp.bytesLeft <= MAX_SEND_BUF_SIZE && !rsp.chunked && r.operIndex <= |r.content|
  {
    hide ResponseContext.Coded, Run, Blocks;
  }

  lemma Progress(rsp: ResponseContext, r: W.Reader, vs: seq<W.View>, calls: seq<D.Call>)
    requires Serving(rsp, r, vs, calls)
    ensures |vs| == |calls| + 1 && vs[|calls|].index == r.operIndex
    ensures !r.ssi && r.stage < STAGE_END && r.content != [] ==> r.operIndex < |r.content|
  {
    hide ResponseContext.Valid, D.PlainRun, D.SsiRun, Blocks;
  }

  /** Each call has read something for which there was room. */
  lemma Advanced(rsp: ResponseContext, r: W.Reader, vs: seq<W.View>, calls: seq<D.Call>, vs': seq<W.View>,
                 calls': seq<D.Call>, index: nat)
    requires Serving(rsp, r, vs', calls') && !r.ssi && |calls'| == |calls| + 1 == |vs| && vs <= vs'
    requires vs[|calls|].index == index && (r.content != [] ==> index < |r.content|)
    ensures calls'[|calls|].maxSize > 0 && r.content != [] ==> r.operIndex > index
  {
    hide ResponseContext.Valid, Blocks;
    var c := calls'[|calls|];
    assert vs'[|calls|] == vs[|calls|];
    assert W.PlainStep(r.content, vs'[|calls|], c.maxSize, c.n, c.block, vs'[|calls| + 1]);
  }

  lemma AllToDo(rsp: ResponseContext, r: W.Reader)
    ensures Todo(rsp, r) <= if rsp.finished then 1 else |r.content| - r.operIndex + 1
    ensures Todo(rsp, r) <= 0 && r.operIndex <= |r.content| ==> rsp.finished && rsp.bytesLeft == 0
  {
  }

  /**
    A plain file served from the first block to the last, one event after another, for as many as the
    counter of blocks can tell apart, with any `rooms` in the stack.  `over` says that the file is
    empty.  With room for a full buffer each time, and no write refused, one event for each byte and
    one more are enough.
   */
  method ServeFile(rsp: ResponseContext, r: W.Reader, rooms: seq<nat>)
    returns (over: bool, ghost vs: seq<W.View>, ghost calls: seq<D.Call>)
    requires Serving(rsp, r, [D.START], []) && !r.ssi && |rooms| < STAGE_END
    modifies rsp`total2Send, rsp`bytesLeft, rsp`stage, rsp`operIndex, rsp`body, rsp`blocks, rsp`finished,
             rsp.sendBuffer, rsp.pcb`wire, rsp.pcb`refused, rsp.pcb`room,
             r`stage, r`operIndex, r`cacheOffset, r`ssiState, r`tagLength, r`result, r.tagName, r.cache, r.files.slots
    ensures if over then Empty(rsp, r) else Serving(rsp, r, vs, calls)
    ensures (over || rsp.finished) && rsp.bytesLeft == 0 ==> rsp.pcb.wire[rsp.base..] == rsp.head + r.content
    ensures rsp.pcb.refused == old(rsp.pcb.refused) && old(rsp.Room()) > 0 && |rooms| > |r.content| && Ample(rooms) ==>
              over || (rsp.finished && rsp.bytesLeft == 0)
  {
    AtFirst(rsp, r);
    Standing(rsp, r, [D.START], []);
    AllToDo(rsp, r);
    hide Serving, Run, Blocks, Empty, Ample, Todo;
    over, vs, calls := false, [D.START], [];
    var i, err := 0, 0;
    while i < |rooms| && err == 0
      invariant Serving(rsp, r, vs, calls) && |calls| <= i <= |rooms| && (r.content == [] ==> rsp.First())
      invariant err == 0 <==> rsp.pcb.refused == old(rsp.pcb.refused)
      invariant err == 0 && Ample(rooms) && old(rsp.Room()) > 0 ==>
                  rsp.bytesLeft < 254 && (Todo(rsp, r) == 0 || Todo(rsp, r) + i <= |r.content| + 1)
    {
      OneOf(rooms, i);
      rsp.pcb.Offer(rooms[i]);
      i := i + 1;
      over, err, vs, calls := ServeNext(rsp, r, vs, calls);
      if over {
        EmptyArrives(rsp, r);
        return;
      }
    }
    Standing(rsp, r, vs, calls);
    AllToDo(rsp, r);
    if rsp.finished && rsp.bytesLeft == 0 {
      FileArrives(rsp, r, vs, calls);
    }
  }

  lemma OneOf(rooms: seq<nat>, i: nat)
    requires i < |rooms|
    ensures Ample(rooms) ==> rooms[i] >= MAX_SEND_BUF_SIZE
  {
  }

  lemma AtFirst(rsp: ResponseContext, r: W.Reader)
    requires Serving(rsp, r, [D.START], [])
    ensures rsp.First()
  {
  }

  lemma EmptyArrives(rsp: ResponseContext, r: W.Reader)
    requires Empty(rsp, r)
    ensures rsp.base <= |rsp.pcb.wire| && rsp.bytesLeft <= rsp.sendBuffer.Length
    ensures rsp.bytesLeft == 0 ==> rsp.pcb.wire[rsp.base..] == rsp.head + r.content
  {
    assert rsp.head + [] == rsp.head && rsp.pcb.wire[rsp.base..] + [] == rsp.pcb.wire[rsp.base..];
  }
}
