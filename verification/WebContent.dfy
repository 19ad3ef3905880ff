/** Serving a file: header lengths, plain reads, and the SSI window scanner. */
module WebContent {
  import opened Bytes
  import opened FileTable
  import opened Limits
  import opened SsiScanner
  import Strings

  const TAG_SPARE := 50
  const FILE_LIMIT: nat := 0x7FFF_FFFF

  /** A replacement that does not fit in `cap` bytes is cut off there. */
  function Capped(values: Replacer, cap: nat): Replacer {
    name => if |values(name)| >= cap then values(name)[..cap] else values(name)
  }

  /** The room a tag expanded at the start of a block of `maxSize` bytes gets. */
  function TagRoom(maxSize: nat): nat {
    if maxSize >= TAG_SPARE then maxSize - TAG_SPARE else 0
  }

  /** How far a response has got: the bytes read, those of them still in the window, and the mode. */
  datatype View = View(stage: nat, index: nat, cached: nat, mode: Mode)

  /**
    The text from `base` to `p` holds no tag and was copied out as it stands; or it holds none up to
    an opener right before `p`, and was copied out up to there.
   */
  ghost predicate Copied(s: seq<Byte>, base: nat, p: nat, block: seq<Byte>, m: Mode) {
    match m
    case Literal =>
      base <= p <= |s| && block == s[base..p] && forall k | base <= k < p :: !At(s, k, OPENER)
    case Tag(name) =>
      && name == [] && base + 5 <= p <= |s| && At(s, p - 5, OPENER)
      && block == s[base..p - 5] && forall k | base <= k < p - 5 :: !At(s, k, OPENER)
  }

  lemma CopiedNothing(s: seq<Byte>, base: nat)
    requires base <= |s|
    ensures Copied(s, base, base, [], Literal)
  {
  }

  lemma CopiedBefore(s: seq<Byte>, base: nat, p: nat, block: seq<Byte>)
    requires Copied(s, base + 1, p, block, Literal) && !At(s, base, OPENER)
    ensures Copied(s, base, p, [s[base]] + block, Literal)
  {
    assert s[base..p] == [s[base]] + s[base + 1..p];
  }

  /** Without an opener, text is copied out byte by byte. */
  lemma {:induction false} PlainIsCopied(values: Replacer, s: seq<Byte>, base: nat, p: nat, block: seq<Byte>, m: Mode)
    requires Plain(s, base, Literal, p) && Scan(values, s, base, Literal, p) == Scanned(block, m)
    ensures m == Literal && Copied(s, base, p, block, Literal)
    decreases p - base
  {
    hide At, Copied;
    if base < p {
      var r := Scan(values, s, base + 1, Literal, p);
      PlainIsCopied(values, s, base + 1, p, r.out, r.mode);
      CopiedBefore(s, base, p, r.out);
    } else {
      CopiedNothing(s, base);
    }
  }

  lemma OpenedIsCopied(values: Replacer, s: seq<Byte>, base: nat, p: nat, block: seq<Byte>, m: Mode)
    requires Opened(s, base, Literal, p, m) && Scan(values, s, base, Literal, p) == Scanned(block, m)
    ensures Copied(s, base, p, block, m)
  {
    var q := p - 5;
    PlainIsScanned(values, s, base, Literal, q);
    var r := Scan(values, s, base, Literal, q);
    PlainIsCopied(values, s, base, q, r.out, r.mode);
    ScanToken(values, s, base, Literal, q);
    assert r.out + [] == r.out;
  }

  lemma CallCopies(values: Replacer, s: seq<Byte>, base: nat, p: nat, block: seq<Byte>, m: Mode)
    requires Scanning(values, s, base, Literal, p, block, m)
    requires Opened(s, base, Literal, p, m) || Plain(s, base, Literal, p)
    ensures Copied(s, base, p, block, m)
  {
    if Plain(s, base, Literal, p) {
      PlainIsCopied(values, s, base, p, block, m);
    } else {
      OpenedIsCopied(values, s, base, p, block, m);
    }
  }

  /** The file has been read, and what is left in the window may be the beginning of a token. */
  ghost predicate Stopped(s: seq<Byte>, p: nat, index: nat, m: Mode) {
    index == |s| && p <= |s| && (p < |s| ==> !Known(s, p, Delimiter(m)))
  }

  /**
    One call on an SSI file.  Once the file has been read, the window is flushed as it stands.
    Before that, the call scans on over fresh bytes:
    - the window is filled before anything is decided;
    - a call that starts outside a tag copies bytes and stops behind the first opener;
    - a call can only stop inside a tag right behind its opener, or at the end of the file;
    - it opens no tag but as the last thing it does;
    - it stops there, or at a full block, or at the end of the file.
   */
  ghost predicate SsiStep(values: Replacer, s: seq<Byte>, v: View, maxSize: nat, n: int, block: seq<Byte>, v': View) {
    if v.index >= |s| then
      && block == (if v.cached <= |s| then s[|s| - v.cached..] else [])
      && n == (if v.cached > 0 then |block| else -1)
      && v' == View(STAGE_END, v.index, 0, v.mode)
    else
      && v.index < v'.index <= |s| && v'.cached <= v'.index && v'.cached < MAX_TAG_LEN && v.cached <= v.index
      && var base, p := v.index - v.cached, v'.index - v'.cached;
      && base <= p && (v'.index == |s| || v'.index >= base + MAX_TAG_LEN)
      && Scan(Capped(values, TagRoom(maxSize)), s, base, v.mode, p) == Scanned(block, v'.mode)
      && (v.mode.Literal? ==> Copied(s, base, p, block, v'.mode))
      && (v'.mode.Tag? ==>
            || (v'.mode.name == [] && v'.cached + 5 <= MAX_TAG_LEN && |block| < maxSize)
            || (v.mode.Tag? && v'.index == |s| && v'.cached < 3))
      && (if v'.mode.Tag? && Opened(s, base, v.mode, p, v'.mode) then |block| < maxSize
          else Plain(s, base, v.mode, p)
               && ((v'.mode.Literal? && |block| == maxSize) || Stopped(s, p, v'.index, v'.mode)))
      && n == |block| <= maxSize
      && v'.stage == (if v'.index == |s| && v'.cached == 0 then STAGE_END else v.stage + 1)
  }

  /** One call on any other file: the next bytes, as many as fit. */
  ghost predicate PlainStep(s: seq<Byte>, v: View, maxSize: nat, n: int, block: seq<Byte>, v': View) {
    if v.index >= |s| then
      n == -1 && block == [] && v' == v.(stage := STAGE_END)
    else
      && n == |block| == (if maxSize < |s| - v.index then maxSize else |s| - v.index)
      && block == s[v.index..v.index + n]
      && v'.index == v.index + n && v'.cached == v.cached && v'.mode == v.mode
      && v'.stage == (if v'.index == |s| then STAGE_END else v.stage + 1)
  }

  /** What such a call answers; of a file without bytes, that there is nothing. */
  function PlainAnswer(s: seq<Byte>, v: View, maxSize: nat): (r: (int, seq<Byte>, View))
    ensures PlainStep(s, v, maxSize, r.0, r.1, r.2)
    ensures s == [] ==> r.0 == -1
  {
    if v.index >= |s| then (-1, [], v.(stage := STAGE_END))
    else
      var n := if maxSize < |s| - v.index then maxSize else |s| - v.index;
      var stage := if v.index + n == |s| then STAGE_END else v.stage + 1;
      (n, s[v.index..v.index + n], v.(stage := stage, index := v.index + n))
  }

  /** The bytes of `s` in [from, to), as far as there are any. */
  function Slice(s: seq<Byte>, from: nat, to: nat): (r: seq<Byte>)
    requires from <= |s| && from <= to
  {
    s[from..if to < |s| then to else |s|]
  }

  /** The length announced for a stored range. */
  function RangeSize(rangeFrom: int, rangeTo: int, total: nat): int {
    (if rangeTo > total then total else rangeTo) - rangeFrom
  }

  /** It is the number of bytes the range has in the file exactly when the range starts inside the file. */
  lemma RangeSizeExact(s: seq<Byte>, rangeFrom: nat, rangeTo: nat)
    requires rangeTo > rangeFrom
    ensures RangeSize(rangeFrom, rangeTo, |s|) == (if rangeFrom <= |s| then |Slice(s, rangeFrom, rangeTo)| else 0)
            <==> rangeFrom <= |s|
  {
  }

  class Reader {
    // RESPONSE_CONTEXT
    var stage: nat
    var operIndex: nat
    var total: nat
    var result: int
    // SSI_Context
    var ssi: bool
    var ssiState: nat
    var tagLength: nat
    const tagName: array<Byte>
    var cacheOffset: nat
    const cache: array<Byte>
    // the opened file
    const files: Files
    const fp: nat
    const replace: Replacer
    // the bytes this response is to deliver, and where in the file they start
    ghost var content: seq<Byte>
    ghost var start: nat

    /** The state `WEB_RequestReceived` leaves behind once the file is open. */
    constructor (files: Files, fp: nat, ssi: bool, replace: Replacer)
      requires files.Valid() && fp < MAX_FILES
      requires files.slots[fp].Open? && files.slots[fp].pos == 0 && |files.slots[fp].data| < FILE_LIMIT
      requires ssi ==> NamesFit(files.slots[fp].data)
      ensures this.files == files && this.fp == fp && this.ssi == ssi && this.replace == replace
      ensures fresh(cache) && fresh(tagName)
      ensures Valid() && content == files.slots[fp].data
      ensures ssi ==> InStep()
      ensures stage == 0 && operIndex == 0 && result == 200 && cacheOffset == 0 && Mode() == Literal
    {
      hide NamesFit, At;
      this.files, this.fp, this.ssi, this.replace := files, fp, ssi, replace;
      stage, operIndex, result := 0, 0, 200;
      ssiState, tagLength, cacheOffset := 0, 0, 0;
      tagName := new Byte[MAX_TAG_LEN](_ => NUL);
      cache := new Byte[MAX_TAG_LEN](_ => NUL);
      total := |files.slots[fp].data|;
      ghost var data := files.slots[fp].data;
      content, start := data, 0;
      assert data[0..|data|] == data;
      new;
      assert FileOk();
      if ssi && NamesFit(content) {
        AtStart();
      }
    }

    lemma AtStart()
      requires Valid() && operIndex == 0 && cacheOffset == 0 && ssiState == 0 && tagLength == 0 && NamesFit(content)
      ensures InStep()
    {
      hide NamesFit, At;
      assert content[0..0] == cache[..0];
    }

    /** The read position of the file is in step with the response. */
    ghost predicate FileOk()
      reads this`operIndex, this`total, this`content, this`start, files.slots
      requires files.Valid() && fp < MAX_FILES
    {
      files.slots[fp].Open? ==> (
        var Open(data, pos) := files.slots[fp];
        pos == start + operIndex && start + total <= |data| && content == data[start..start + total])
    }

    ghost predicate Valid()
      reads this, files.slots, tagName, cache
    {
      && cache.Length == MAX_TAG_LEN && tagName.Length == MAX_TAG_LEN && cache != tagName
      && cache as object != files.slots && tagName as object != files.slots
      && operIndex <= total == |content| < FILE_LIMIT
      && ssiState <= 2 && tagLength < MAX_TAG_LEN && cacheOffset <= MAX_TAG_LEN
      && files.Valid() && fp < MAX_FILES && FileOk()
      && (ssiState == 2 ==> ssi)
      && stage <= STAGE_END && (ssi ==> stage == STAGE_END || stage <= operIndex)
    }

    ghost function Progress(): View
      reads this, tagName
      requires tagLength < tagName.Length
    {
      View(stage, operIndex, cacheOffset, Mode())
    }

    ghost function Mode(): Mode
      reads this`ssiState, this`tagLength, tagName
      requires tagLength < tagName.Length
    {
      if ssiState == 2 then Tag(tagName[..tagLength]) else Literal
    }

    /** The window holds the bytes read but not yet scanned, and scanning is in step with the text. */
    ghost predicate InStep()
      reads this`operIndex, this`cacheOffset, this`ssiState, this`tagLength, this`content, tagName, cache
    {
      && cacheOffset <= operIndex <= |content| && cacheOffset <= cache.Length && tagLength < tagName.Length
      && content[operIndex - cacheOffset..operIndex] == cache[..cacheOffset]
      && Inside(content, operIndex - cacheOffset, Mode())
      && NamesFit(content)
      && cacheOffset < MAX_TAG_LEN
      && (ssiState != 2 ==> tagLength == 0)
    }

    /**
      Settles what is to be delivered, and with how long a body it is announced: a stored range
      [rangeFrom, rangeTo) narrows the response to that slice of the file.  A chunked response
      announces no length.
     */
    method AppendHeaders(rangeFrom: int, rangeTo: int, chunked: bool) returns (length: Option<int>)
      requires Valid() && files.slots[fp].Open? && start == 0 && operIndex == 0 && stage == 0
      requires total == |files.slots[fp].data|
      requires ssiState == 0 && tagLength == 0 && cacheOffset == 0
      requires rangeTo > rangeFrom ==> 0 <= rangeFrom <= total
      modifies this`total, this`content, this`start, files.slots
      ensures Valid() && files.slots[fp].Open? && start == (if rangeTo > rangeFrom then rangeFrom else 0)
      ensures content == if rangeTo > rangeFrom then Slice(old(content), rangeFrom, rangeTo) else old(content)
      ensures ssi && NamesFit(content) ==> InStep()
      ensures length == if rangeTo <= rangeFrom && (ssi || chunked) then None else Some(|content|)
    {
      hide NamesFit, Inside;
      if rangeTo > rangeFrom {
        ghost var data := files.slots[fp].data;
        var to := if rangeTo > total then total else rangeTo;
        var size := RangeSize(rangeFrom, rangeTo, total);
        assert data[0..|data|] == data;
        total, content, start := size, data[rangeFrom..to], rangeFrom;
        files.Fseek(fp, rangeFrom);
        length := Some(size);
      } else if ssi || chunked {
        length := None;
      } else {
        length := Some(total);
      }
      if ssi && NamesFit(content) {
        AtStart();
      }
    }

    /** Serves the next block into `buffer` at `at`.  -1 means there is none. */
    method ReadContent(buffer: array<Byte>, at: nat, maxSize: nat) returns (n: int, ghost block: seq<Byte>)
      requires Valid() && stage < STAGE_END && (ssi ==> InStep())
      requires buffer != cache && buffer != tagName && buffer as object != files.slots && at + maxSize <= buffer.Length
      requires ssi ==> maxSize >= 1 && (ssiState == 2 && operIndex < total ==> maxSize >= TAG_SPARE)
      requires ssi ==> at + cacheOffset <= buffer.Length
      modifies this`stage, this`operIndex, this`cacheOffset, this`ssiState, this`tagLength, this`result,
               tagName, cache, buffer, files.slots
      ensures Valid() && (ssi && stage < STAGE_END ==> InStep())
      ensures files.slots[fp].Open? == old(files.slots[fp].Open?)
      ensures at + |block| <= buffer.Length && buffer[..] == Splice(old(buffer[..]), at, block)
      ensures if old(operIndex < total && files.slots[fp].Free?) then
                n == 0 && block == [] && result == -500 && Progress() == old(Progress())
              else if ssi then SsiStep(replace, content, old(Progress()), maxSize, n, block, Progress())
              else PlainStep(content, old(Progress()), maxSize, n, block, Progress())
    {
      hide SsiStep, PlainStep, InStep, Splice, FileOk;
      if files.slots[fp].Free? && operIndex < total {
        SpliceNothing(buffer[..], at);
        result := -500;
        return 0, [];
      }
      if ssi {
        n, block := ReadSsi(buffer, at, maxSize);
      } else {
        n, block := ReadPlain(buffer, at, maxSize);
      }
    }

    /** Reads the next `count` bytes of the response from the open file. */
    method Pull(buf: array<Byte>, at: nat, count: nat)
      requires files.Valid() && fp < MAX_FILES && files.slots[fp].Open? && FileOk()
      requires operIndex + count <= total == |content|
      requires at + count <= buf.Length && buf as object != files.slots
      modifies this`operIndex, buf, files.slots
      ensures files.slots[fp].Open? && FileOk() && operIndex == old(operIndex) + count
      ensures buf[..] == Splice(old(buf[..]), at, content[old(operIndex)..operIndex])
    {
      ghost var data, pos := files.slots[fp].data, files.slots[fp].pos;
      var err, bytes := files.Fread(fp, buf, at, count);
      SliceOfSlice(data, start, start + total, operIndex, operIndex + bytes);
      operIndex := operIndex + bytes;
    }

    /** Another block is out: count it, or note that it was the last. */
    method Advance()
      requires Valid() && stage < STAGE_END && (ssi ==> stage < operIndex)
      modifies this`stage
      ensures Valid()
      ensures stage == if operIndex >= total && !(ssi && cacheOffset > 0) then STAGE_END else old(stage) + 1
    {
      if operIndex >= total && !(ssi && cacheOffset > 0) {
        stage := STAGE_END;
      } else {
        stage := stage + 1;
      }
    }

    method ReadPlain(buffer: array<Byte>, at: nat, maxSize: nat) returns (n: int, ghost block: seq<Byte>)
      requires Valid() && !ssi && stage < STAGE_END && (operIndex < total ==> files.slots[fp].Open?)
      requires buffer != cache && buffer != tagName && buffer as object != files.slots
      requires at + maxSize <= buffer.Length
      modifies this`stage, this`operIndex, buffer, files.slots
      ensures Valid() && files.slots[fp].Open? == old(files.slots[fp].Open?)
      ensures PlainStep(content, old(Progress()), maxSize, n, block, Progress())
      ensures at + |block| <= buffer.Length && buffer[..] == Splice(old(buffer[..]), at, block)
    {
      if operIndex == total {
        SpliceNothing(buffer[..], at);
        stage := STAGE_END;
        return -1, [];
      }
      var maxRead := total - operIndex;
      if maxRead > maxSize {
        maxRead := maxSize;
      }
      hide FileOk;
      Pull(buffer, at, maxRead);
      n, block := maxRead, content[operIndex - maxRead..operIndex];
      Advance();
    }

    method ReadSsi(buffer: array<Byte>, at: nat, maxSize: nat) returns (n: int, ghost block: seq<Byte>)
      requires Valid() && ssi && stage < STAGE_END && InStep() && (operIndex < total ==> files.slots[fp].Open?)
      requires buffer != cache && buffer != tagName && buffer as object != files.slots
      requires at + maxSize <= buffer.Length && maxSize >= 1 && at + cacheOffset <= buffer.Length
      requires ssiState == 2 && operIndex < total ==> maxSize >= TAG_SPARE
      modifies this`stage, this`operIndex, this`cacheOffset, this`ssiState, this`tagLength,
               tagName, cache, buffer, files.slots
      ensures Valid() && (stage < STAGE_END ==> InStep())
      ensures files.slots[fp].Open? == old(files.slots[fp].Open?)
      ensures SsiStep(replace, content, old(Progress()), maxSize, n, block, Progress())
      ensures at + |block| <= buffer.Length && buffer[..] == Splice(old(buffer[..]), at, block)
    {
      hide Scan, NamesFit, Inside, Splice, At, Capped, FileOk, Plain, Opened, Stopped, Copied;
      if operIndex < total {
        ghost var base, m0 := operIndex - cacheOffset, Mode();
        n, block := ScanFile(buffer, at, maxSize);
        if m0.Literal? {
          CallCopies(Capped(replace, TagRoom(maxSize)), content, base, operIndex - cacheOffset, block, Mode());
        }
        Advance();
        return;
      }
      n, block := Flush(buffer, at);
    }

    /** The file has been read: what is left in the window goes out unscanned, and that is the end. */
    method Flush(buffer: array<Byte>, at: nat) returns (n: int, ghost block: seq<Byte>)
      requires Valid() && ssi && stage < STAGE_END && InStep() && operIndex == total
      requires buffer != cache && buffer != tagName && buffer as object != files.slots
      requires at + cacheOffset <= buffer.Length
      modifies this`stage, this`cacheOffset, buffer
      ensures Valid() && stage == STAGE_END && cacheOffset == 0
      ensures block == old(cache[..cacheOffset]) == content[|content| - old(cacheOffset)..]
      ensures n == if old(cacheOffset) > 0 then old(cacheOffset) else -1
      ensures at + |block| <= buffer.Length && buffer[..] == Splice(old(buffer[..]), at, block)
    {
      hide NamesFit, Inside, Splice, At, FileOk;
      stage := STAGE_END;
      if cacheOffset > 0 {
        n, block := cacheOffset, cache[..cacheOffset];
        Store(buffer, at, cache[..cacheOffset]);
        cacheOffset := 0;
        return;
      }
      SpliceNothing(buffer[..], at);
      return -1, [];
    }

    /** Reads on, one window after another, until there is a block to send or the file has been read. */
    method ScanFile(buffer: array<Byte>, at: nat, maxSize: nat) returns (out: nat, ghost block: seq<Byte>)
      requires Valid() && ssi && files.slots[fp].Open? && InStep()
      requires buffer != cache && buffer != tagName && buffer as object != files.slots && at + maxSize <= buffer.Length
      requires operIndex < total && maxSize >= 1 && (ssiState == 2 ==> maxSize >= TAG_SPARE)
      modifies this`operIndex, this`cacheOffset, this`ssiState, this`tagLength, tagName, cache, buffer, files.slots
      ensures Valid() && files.slots[fp].Open? && InStep() && operIndex > old(operIndex)
      ensures Scanning(Capped(replace, TagRoom(maxSize)), content, old(operIndex - cacheOffset), old(Mode()),
                       operIndex - cacheOffset, block, Mode())
      ensures operIndex == total || operIndex >= old(operIndex - cacheOffset) + MAX_TAG_LEN
      ensures if Mode().Tag?
                 && Opened(content, old(operIndex - cacheOffset), old(Mode()), operIndex - cacheOffset, Mode())
              then |block| < maxSize
              else Plain(content, old(operIndex - cacheOffset), old(Mode()), operIndex - cacheOffset)
                   && ((Mode().Literal? && |block| == maxSize)
                       || Stopped(content, operIndex - cacheOffset, operIndex, Mode()))
      ensures ssiState == 2 ==>
                || (tagLength == 0 && cacheOffset + 5 <= MAX_TAG_LEN && |block| < maxSize)
                || (old(ssiState) == 2 && operIndex == total && cacheOffset < 3)
      ensures out == |block| <= maxSize && buffer[..] == Splice(old(buffer[..]), at, block)
    {
      hide Scanning, NamesFit, Inside, Splice, At, Capped, FileOk, Plain, Opened, Stopped;
      ghost var values, b0 := Capped(replace, TagRoom(maxSize)), buffer[..];
      ghost var base, m0 := operIndex - cacheOffset, Mode();
      ScanningStart(values, content, base, m0);
      PlainStart(content, base, m0);
      SpliceNothing(b0, at);
      out, block := 0, [];
      var ready := false;
      while operIndex < total && !ready
        invariant Valid() && files.slots[fp].Open? && InStep()
        invariant Scanning(values, content, base, m0, operIndex - cacheOffset, block, Mode())
        invariant out == |block| <= maxSize && buffer[..] == Splice(b0, at, block)
        invariant operIndex >= old(operIndex) && (operIndex == old(operIndex) ==> !ready)
        invariant base <= operIndex - cacheOffset
        invariant operIndex > old(operIndex) ==> operIndex == total || operIndex >= base + MAX_TAG_LEN
        invariant if ready && ssiState == 2 then Opened(content, base, m0, operIndex - cacheOffset, Mode())
                  else Plain(content, base, m0, operIndex - cacheOffset)
        invariant ready ==>
                  if ssiState == 2 then tagLength == 0 && cacheOffset + 5 <= MAX_TAG_LEN && out < maxSize
                  else out == maxSize
        invariant !ready && operIndex == total ==> Stopped(content, operIndex - cacheOffset, operIndex, Mode())
        invariant !ready ==> out < maxSize
        invariant !ready && ssiState == 2 ==> m0.Tag? && out == 0 && maxSize >= TAG_SPARE
        invariant !ready && ssiState == 2 && operIndex > old(operIndex) ==> cacheOffset < 3
        decreases total - operIndex
      {
        ghost var p, m := operIndex - cacheOffset, Mode();
        ghost var more;
        out, ready, more := ScanNext(buffer, at, out, maxSize);
        ScanningCompose(values, content, base, m0, p, block, m, operIndex - cacheOffset, more, Mode());
        SpliceTwice(b0, at, block, more);
        PlainCompose(values, content, base, m0, p, block, m, operIndex - cacheOffset, Mode());
        block := block + more;
      }
    }

    /** Fills the window, scans it, and shifts out what was scanned. */
    method ScanNext(buffer: array<Byte>, at: nat, out0: nat, maxSize: nat)
      returns (out: nat, ready: bool, ghost more: seq<Byte>)
      requires Valid() && ssi && files.slots[fp].Open? && InStep()
      requires buffer != cache && buffer != tagName && buffer as object != files.slots && at + maxSize <= buffer.Length
      requires operIndex < total && out0 < maxSize && (ssiState == 2 ==> out0 == 0 && maxSize >= TAG_SPARE)
      modifies this`operIndex, this`cacheOffset, this`ssiState, this`tagLength, tagName, cache, buffer, files.slots
      ensures Valid() && files.slots[fp].Open? && InStep() && operIndex > old(operIndex)
      ensures Scanning(Capped(replace, TagRoom(maxSize)), content, old(operIndex - cacheOffset), old(Mode()),
                       operIndex - cacheOffset, more, Mode())
      ensures operIndex - cacheOffset >= old(operIndex - cacheOffset)
      ensures operIndex == total || operIndex >= old(operIndex - cacheOffset) + MAX_TAG_LEN
      ensures if ready && ssiState == 2 then
                Opened(content, old(operIndex - cacheOffset), old(Mode()), operIndex - cacheOffset, Mode())
              else Plain(content, old(operIndex - cacheOffset), old(Mode()), operIndex - cacheOffset)
      ensures ready ==>
              if ssiState == 2 then tagLength == 0 && cacheOffset + 5 <= MAX_TAG_LEN && out < maxSize
              else out == maxSize
      ensures !ready && operIndex == total ==> Stopped(content, operIndex - cacheOffset, operIndex, Mode())
      ensures out == out0 + |more| <= maxSize && buffer[..] == Splice(old(buffer[..]), at + out0, more)
      ensures !ready ==> out < maxSize
      ensures !ready && ssiState == 2 ==> old(ssiState) == 2 && cacheOffset < 3 && out == 0 && maxSize >= TAG_SPARE
    {
      hide Splice, At, Capped, FileOk, NamesFit, Scan, Plain, Opened;
      Refill();
      var consumed;
      consumed, out, ready, more := ScanWindow(buffer, at, out0, maxSize, content, operIndex - cacheOffset);
      DropConsumed(consumed, content);
    }

    /** Fills the window up from the file. */
    method Refill()
      requires Valid() && ssi && files.slots[fp].Open? && InStep() && operIndex < total
      modifies this`operIndex, this`cacheOffset, cache, files.slots
      ensures Valid() && files.slots[fp].Open?
      ensures operIndex > old(operIndex) && operIndex - cacheOffset == old(operIndex - cacheOffset)
      ensures cacheOffset <= operIndex && content[operIndex - cacheOffset..operIndex] == cache[..cacheOffset]
      ensures cacheOffset == MAX_TAG_LEN || operIndex == total
    {
      hide NamesFit, Inside, At, FileOk;
      var maxRead := total - operIndex;
      if maxRead > MAX_TAG_LEN - cacheOffset {
        maxRead := MAX_TAG_LEN - cacheOffset;
      }
      ghost var p := operIndex - cacheOffset;
      Pull(cache, cacheOffset, maxRead);
      cacheOffset := cacheOffset + maxRead;
      assert content[p..operIndex] == content[p..operIndex - maxRead] + content[operIndex - maxRead..operIndex];
    }

    /** Shifts the scanned bytes out of the window. */
    method DropConsumed(consumed: nat, ghost s: seq<Byte>)
      requires cacheOffset <= cache.Length && consumed <= cacheOffset <= operIndex <= |s|
      requires s[operIndex - cacheOffset..operIndex] == cache[..cacheOffset]
      modifies this`cacheOffset, cache
      ensures cacheOffset == old(cacheOffset) - consumed
      ensures s[operIndex - cacheOffset..operIndex] == cache[..cacheOffset]
    {
      ghost var w := cache[..cacheOffset];
      ghost var p := operIndex - cacheOffset;
      Dropped(s, p, operIndex, w, consumed);
      cacheOffset := cacheOffset - consumed;
      if cacheOffset > 0 {
        Move(cache, 0, consumed, cacheOffset);
      }
      assert cache[..cacheOffset] == w[consumed..];
    }

    lemma Dropped(s: seq<Byte>, p: nat, q: nat, w: seq<Byte>, n: nat)
      requires p <= q <= |s| && s[p..q] == w && n <= |w|
      ensures s[p + n..q] == w[n..]
    {
      SliceOfSlice(s, p, q, n, |w|);
      assert w[n..|w|] == w[n..];
    }

    /** What the scanning methods share: the window shows `s` from `base` on, and names have room. */
    ghost predicate Window(buffer: array<Byte>, end: nat, s: seq<Byte>, base: nat)
      reads this, cache
    {
      && cache.Length == MAX_TAG_LEN && tagName.Length == MAX_TAG_LEN && cache != tagName
      && cache as object != files.slots && tagName as object != files.slots
      && buffer != cache && buffer != tagName && buffer as object != files.slots && end <= buffer.Length
      && cacheOffset <= MAX_TAG_LEN && tagLength < MAX_TAG_LEN && ssiState <= 2
      && (ssiState != 2 ==> tagLength == 0)
      && base + cacheOffset <= |s| && s[base..base + cacheOffset] == cache[..cacheOffset]
      && NamesFit(s)
    }

    /**
      One pass over the window, writing the block from `at` on, where `out0` bytes of it already
      stand.  `ready` says the block must go out before anything else is added.
    */
    method ScanWindow(buffer: array<Byte>, at: nat, out0: nat, maxSize: nat, ghost s: seq<Byte>, ghost base: nat)
      returns (consumed: nat, out: nat, ready: bool, ghost piece: seq<Byte>)
      requires Window(buffer, at + maxSize, s, base) && Inside(s, base, Mode())
      requires out0 < maxSize && (ssiState == 2 ==> out0 == 0 && maxSize >= TAG_SPARE)
      modifies this`ssiState, this`tagLength, tagName, buffer
      ensures Window(buffer, at + maxSize, s, base)
      ensures consumed <= cacheOffset && out == out0 + |piece| <= maxSize
      ensures Scanning(Capped(replace, TagRoom(maxSize)), s, base, old(Mode()), base + consumed, piece, Mode())
      ensures buffer[..] == Splice(old(buffer[..]), at + out0, piece)
      ensures if ready && ssiState == 2 then Opened(s, base, old(Mode()), base + consumed, Mode())
              else Plain(s, base, old(Mode()), base + consumed)
      ensures ready ==> consumed > 0
      ensures ready ==> if ssiState == 2 then tagLength == 0 && consumed >= 5 && out < maxSize else out == maxSize
      ensures !ready && consumed < cacheOffset ==>
                s[base + consumed] == Delimiter(Mode())[0] && cacheOffset - consumed < |Delimiter(Mode())|
      ensures !ready ==> cacheOffset - consumed < 5 && out < maxSize
      ensures !ready && ssiState == 2 ==>
                old(ssiState) == 2 && cacheOffset - consumed < 3 && out == 0 && maxSize >= TAG_SPARE
    {
      hide Scanning, NamesFit, Inside, Splice, At, Capped, Plain, Opened, Known;
      SpliceNothing(buffer[..], at + out0);
      PlainStart(s, base, Mode());
      ghost var values, m0, b0 := Capped(replace, TagRoom(maxSize)), Mode(), buffer[..];
      ScanningStart(values, s, base, m0);
      piece, consumed, out, ready := [], 0, out0, false;
      while consumed < cacheOffset && !ready
        invariant Window(buffer, at + maxSize, s, base)
        invariant consumed <= cacheOffset && out == out0 + |piece| <= maxSize
        invariant Scanning(values, s, base, m0, base + consumed, piece, Mode())
        invariant buffer[..] == Splice(b0, at + out0, piece)
        invariant if ready && ssiState == 2 then Opened(s, base, m0, base + consumed, Mode())
                  else Plain(s, base, m0, base + consumed)
        invariant ready ==> consumed > 0
        invariant ready ==> if ssiState == 2 then tagLength == 0 && consumed >= 5 && out < maxSize else out == maxSize
        invariant !ready ==> out < maxSize && (ssiState == 2 ==> m0.Tag? && out == 0 && maxSize >= TAG_SPARE)
      {
        if ssiState == 0 {
          ssiState := 1;
        }
        var known, whole := WholeToken(consumed, if ssiState == 1 then OPENER else CLOSER, s, base);
        if !known {
          break; // the token may continue in bytes not read yet
        }
        var width, wrote;
        ghost var more;
        width, wrote, ready, more := TakeToken(buffer, at, out, consumed, maxSize, whole, s, base, values, m0, piece);
        SpliceTwice(b0, at + out0, piece, more);
        piece, consumed, out := piece + more, consumed + width, out + wrote;
      }
    }

    /** One token: `ready` says that it fills the block, or opens a tag. */
    method TakeToken(buffer: array<Byte>, at: nat, out: nat, consumed: nat, maxSize: nat, whole: bool,
                     ghost s: seq<Byte>, ghost base: nat, ghost values: Replacer, ghost m0: Mode,
                     ghost piece: seq<Byte>)
      returns (width: nat, wrote: nat, ready: bool, ghost more: seq<Byte>)
      requires Window(buffer, at + maxSize, s, base) && consumed < cacheOffset && 1 <= ssiState <= 2 && out < maxSize
      requires ssiState == 2 ==> out == 0 && maxSize >= TAG_SPARE
      requires values == Capped(replace, TagRoom(maxSize))
      requires Scanning(values, s, base, m0, base + consumed, piece, Mode()) && Plain(s, base, m0, base + consumed)
      requires Known(s, base + consumed, Delimiter(Mode())) && whole == At(s, base + consumed, Delimiter(Mode()))
      requires whole ==> consumed + |Delimiter(Mode())| <= cacheOffset
      modifies this`ssiState, this`tagLength, tagName, buffer
      ensures Window(buffer, at + maxSize, s, base)
      ensures 0 < width <= cacheOffset - consumed && wrote == |more| <= maxSize - out
      ensures Scanning(values, s, base, m0, base + consumed + width, piece + more, Mode())
      ensures buffer[..] == Splice(old(buffer[..]), at + out, more)
      ensures if ready && ssiState == 2 then Opened(s, base, m0, base + consumed + width, Mode())
              else Plain(s, base, m0, base + consumed + width)
      ensures ready ==> if ssiState == 2 then tagLength == 0 && width >= 5 && out + wrote < maxSize
                        else out + wrote == maxSize
      ensures !ready ==> out + wrote < maxSize && (ssiState == 2 ==> old(ssiState) == 2 && wrote == 0)
    {
      hide Scanning, NamesFit, Splice, At, Capped, Plain, Opened, Known;
      if ssiState == 1 {
        width, wrote, more := TakeOutside(buffer, at + out, consumed, whole, s, base, values, m0, piece);
        ready := whole || out + wrote >= maxSize;
      } else {
        width, wrote, more := TakeInside(buffer, at, consumed, maxSize, whole, s, base, values, m0, piece);
        ready := false;
      }
    }

    /** Outside a tag: an opener starts one, any other byte is copied out. */
    method TakeOutside(buffer: array<Byte>, to: nat, consumed: nat, whole: bool, ghost s: seq<Byte>, ghost base: nat,
                       ghost values: Replacer, ghost m0: Mode, ghost piece: seq<Byte>)
      returns (width: nat, wrote: nat, ghost more: seq<Byte>)
      requires Window(buffer, to + 1, s, base) && consumed < cacheOffset && ssiState == 1
      requires Scanning(values, s, base, m0, base + consumed, piece, Literal)
      requires whole == At(s, base + consumed, OPENER) && Plain(s, base, m0, base + consumed)
      requires Known(s, base + consumed, OPENER)
      requires whole ==> consumed + 5 <= cacheOffset
      modifies this`ssiState, buffer
      ensures Window(buffer, to + 1, s, base)
      ensures width == (if whole then 5 else 1) && ssiState == (if whole then 2 else 1)
      ensures wrote == |more| == (if whole then 0 else 1)
      ensures Scanning(values, s, base, m0, base + consumed + width, piece + more, Mode())
      ensures if whole then Opened(s, base, m0, base + consumed + width, Mode())
              else Plain(s, base, m0, base + consumed + width)
      ensures buffer[..] == Splice(old(buffer[..]), to, more)
    {
      hide Scanning, Plain, NamesFit, Splice;
      ghost var p := base + consumed;
      if whole {
        OpenerScanned(values, s, base, m0, p, piece);
        SpliceNothing(buffer[..], to);
        ssiState := 2;
        assert tagName[..tagLength] == [] && piece + [] == piece;
        return 5, 0, [];
      }
      assert s[p] == s[base..base + cacheOffset][consumed] == cache[consumed];
      ByteScanned(values, s, base, m0, p, piece);
      PlainByte(values, s, base, m0, p, piece);
      Store(buffer, to, [cache[consumed]]);
      return 1, 1, [s[p]];
    }

    /** Inside a tag: the closer expands it, any other byte joins its name. */
    method TakeInside(buffer: array<Byte>, at: nat, consumed: nat, maxSize: nat, whole: bool, ghost s: seq<Byte>,
                      ghost base: nat, ghost values: Replacer, ghost m0: Mode, ghost piece: seq<Byte>)
      returns (width: nat, wrote: nat, ghost more: seq<Byte>)
      requires Window(buffer, at + maxSize, s, base) && consumed < cacheOffset && ssiState == 2
      requires maxSize >= TAG_SPARE && values == Capped(replace, maxSize - TAG_SPARE)
      requires Scanning(values, s, base, m0, base + consumed, piece, Mode())
      requires whole == At(s, base + consumed, CLOSER) && Plain(s, base, m0, base + consumed)
      requires Known(s, base + consumed, CLOSER)
      requires whole ==> consumed + 3 <= cacheOffset
      modifies this`ssiState, this`tagLength, tagName, buffer
      ensures Window(buffer, at + maxSize, s, base)
      ensures width == (if whole then 3 else 1) && ssiState == (if whole then 0 else 2)
      ensures wrote == |more| <= (if whole then maxSize - TAG_SPARE else 0)
      ensures Scanning(values, s, base, m0, base + consumed + width, piece + more, Mode())
      ensures buffer[..] == Splice(old(buffer[..]), at, more) && Plain(s, base, m0, base + consumed + width)
    {
      hide Scanning, NamesFit, Splice, Capped, Plain;
      SpliceNothing(buffer[..], at);
      ghost var p, m := base + consumed, Mode();
      PlainName(values, s, base, m0, p, piece, m.name);
      if whole {
        var value := ReplaceTag(tagName[..tagLength], maxSize - TAG_SPARE);
        CloserScanned(values, s, base, m0, p, piece, m.name);
        Store(buffer, at, value);
        ssiState, tagLength := 0, 0;
        return 3, |value|, value;
      }
      NameScanned(values, s, base, m0, p, piece, m.name);
      assert s[p] == s[base..base + cacheOffset][consumed] == cache[consumed];
      tagName[tagLength] := cache[consumed];
      tagLength := tagLength + 1;
      tagName[tagLength] := NUL;
      assert tagName[..tagLength] == m.name + [s[p]];
      assert piece + [] == piece;
      return 1, 0, [];
    }

    lemma WindowShows(s: seq<Byte>, base: nat, from: nat, n: nat)
      requires from + n <= cacheOffset <= cache.Length
      requires base + cacheOffset <= |s| && s[base..base + cacheOffset] == cache[..cacheOffset]
      ensures cache[from..from + n] == s[base + from..base + from + n]
    {
      SliceOfSlice(s, base, base + cacheOffset, from, from + n);
      SliceOfSlice(cache[..], 0, cacheOffset, from, from + n);
      assert cache[..][0..cacheOffset] == cache[..cacheOffset];
      assert cache[..][from..from + n] == cache[from..from + n];
    }

    lemma SymbolsOnly(token: seq<Byte>, pat: seq<Byte>)
      requires (pat == OPENER || pat == CLOSER) && |token| == |pat|
      ensures Strings.SameNoCase(token, pat, |pat|) <==> token == pat
    {
      hide Strings.SameNoCase;
      Strings.ExactOnSymbols(token, pat);
      assert token[..|pat|] == token;
    }

    /** Does the pattern stand here in the text?  Unknown while the window may end inside it. */
    method WholeToken(consumed: nat, pat: seq<Byte>, ghost s: seq<Byte>, ghost base: nat)
      returns (known: bool, whole: bool)
      requires pat == OPENER || pat == CLOSER
      requires consumed < cacheOffset <= cache.Length
      requires base + cacheOffset <= |s| && s[base..base + cacheOffset] == cache[..cacheOffset]
      ensures !known ==> cacheOffset - consumed < |pat| && s[base + consumed] == pat[0]
      ensures known ==> whole == At(s, base + consumed, pat)
      ensures known ==> Known(s, base + consumed, pat)
      ensures known && whole ==> consumed + |pat| <= cacheOffset
    {
      hide Strings.SameNoCase;
      assert s[base + consumed] == s[base..base + cacheOffset][consumed] == cache[consumed];
      if cache[consumed] != pat[0] {
        return true, false;
      }
      if consumed + |pat| > cacheOffset {
        return false, false;
      }
      var token := cache[consumed..consumed + |pat|];
      var r := Strings.Strnicmp(token, pat, |pat|);
      SymbolsOnly(token, pat);
      WindowShows(s, base, consumed, |pat|);
      return true, r == 0;
    }

    /** The application's value for a tag name, at most `maxAllowed` bytes of it. */
    method ReplaceTag(name: seq<Byte>, maxAllowed: nat) returns (value: seq<Byte>)
      ensures value == Capped(replace, maxAllowed)(name) && |value| <= maxAllowed
    {
      value := replace(name);
      if |value| >= maxAllowed {
        value := value[..maxAllowed];
      }
    }
  }
}
