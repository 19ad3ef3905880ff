/** From the target of a request line to a path, an extension, and a handler. */
module RequestLine {
  import opened Bytes
  import opened Strings
  import opened UrlCoding
  import opened Routing

  const PATH_SIZE := 128
  const EXTENSION_SIZE := 8
  const VERSION: seq<Byte> := [32, 72, 84, 84, 80, 47, 49, 46] // " HTTP/1."
  const DOT: Byte := 46
  const SLASH: Byte := 47
  const QUESTION: Byte := 63
  const HASH: Byte := 35

  // ---- what is meant ----

  /** The target: everything before the protocol version. */
  function UpToVersion(s: seq<Byte>): seq<Byte> {
    if s == [] || At(s, 0, VERSION) then [] else [s[0]] + UpToVersion(s[1..])
  }

  function SkipSpaces(s: seq<Byte>): (r: seq<Byte>)
    ensures r != [] ==> r[0] != SPACE
  {
    if s != [] && s[0] == SPACE then SkipSpaces(s[1..]) else s
  }

  /** What of it fits the buffer for the path. */
  function Fitting(s: seq<Byte>): seq<Byte> {
    if |s| > PATH_SIZE - 2 then s[..PATH_SIZE - 2] else s
  }

  /** The path with its parameters. */
  function FullPath(s: seq<Byte>): seq<Byte> {
    CString(Decode(CString(Fitting(SkipSpaces(UpToVersion(s))))))
  }

  function BeforeQuestion(path: seq<Byte>): (r: seq<Byte>)
    ensures r <= path && QUESTION !in r
  {
    if path == [] || path[0] == QUESTION then [] else [path[0]] + BeforeQuestion(path[1..])
  }

  /** What stands behind the last dot of the last segment; hash signs are passed over. */
  function BehindDot(path: seq<Byte>): Option<seq<Byte>> {
    if path == [] then None
    else
      var n := |path| - 1;
      var e := BehindDot(path[..n]);
      if path[n] == DOT then Some([])
      else if path[n] == SLASH then None
      else if path[n] == HASH || e.None? then e
      else Some(e.value + [path[n]])
  }

  function Extension(path: seq<Byte>): seq<Byte> {
    var e := BehindDot(path);
    if e.Some? then e.value else []
  }

  /** The first run behind a dot that does not fit the buffer for the extension, as far as it gets. */
  function Spill(path: seq<Byte>): Option<seq<Byte>> {
    if path == [] then None
    else
      var s, e := Spill(path[..|path| - 1]), BehindDot(path);
      if s.Some? then s
      else if e.Some? && |e.value| >= EXTENSION_SIZE then e
      else None
  }

  /**
    Handler and extension of a target.  A run that is too long for the extension puts its NUL into the
    first byte of the path, which lies behind it: from then on the path is empty.
   */
  function RouteOf(mappings: seq<Mapping>, target: seq<Byte>): Route {
    var path := BeforeQuestion(FullPath(target));
    match Spill(path)
    case Some(run) => Route(FirstMatch(mappings, []), run)
    case None => Route(FirstMatch(mappings, path), Extension(path))
  }

  // ---- and that it is ----

  predicate Simple(s: seq<Byte>) {
    forall k | 0 <= k < |s| :: s[k] != DOT && s[k] != SLASH && s[k] != HASH
  }

  /** The extension is the part behind the last dot of a path's last segment, whatever the path before it. */
  lemma {:induction false} ExtensionIs(front: seq<Byte>, ext: seq<Byte>)
    requires Simple(ext)
    ensures Extension(front + [DOT] + ext) == ext
    decreases |ext|
  {
    ExtensionFound(front, ext);
  }

  lemma {:induction false} ExtensionFound(front: seq<Byte>, ext: seq<Byte>)
    requires Simple(ext)
    ensures BehindDot(front + [DOT] + ext) == Some(ext)
    decreases |ext|
  {
    var p := front + [DOT] + ext;
    if ext == [] {
      assert p == front + [DOT];
    } else {
      var n := |ext| - 1;
      ExtensionFound(front, ext[..n]);
      assert p[..|p| - 1] == front + [DOT] + ext[..n] && ext == ext[..n] + [ext[n]];
      assert p[|p| - 1] == ext[n];
    }
  }

  /** A last segment without a dot has none, whatever dots there are in the segments before it. */
  lemma {:induction false} NoExtension(front: seq<Byte>, last: seq<Byte>)
    requires Simple(last)
    ensures Extension(front + [SLASH] + last) == []
  {
    NoneFound(front, last);
  }

  lemma {:induction false} NoneFound(front: seq<Byte>, last: seq<Byte>)
    requires Simple(last)
    ensures BehindDot(front + [SLASH] + last) == None
    decreases |last|
  {
    var p := front + [SLASH] + last;
    if last == [] {
      assert p == front + [SLASH];
    } else {
      var n := |last| - 1;
      NoneFound(front, last[..n]);
      assert p[..|p| - 1] == front + [SLASH] + last[..n] && p[|p| - 1] == last[n];
    }
  }

  /** What is asked behind a question mark decides neither the handler nor the extension. */
  lemma {:induction false} ParametersDoNotRoute(path: seq<Byte>, parameters: seq<Byte>)
    requires QUESTION !in path
    ensures BeforeQuestion(path + [QUESTION] + parameters) == path
  {
    var s := path + [QUESTION] + parameters;
    if path == [] {
      assert s[0] == QUESTION;
    } else {
      ParametersDoNotRoute(path[1..], parameters);
      assert s[0] == path[0] && s[1..] == path[1..] + [QUESTION] + parameters;
      assert path == [path[0]] + path[1..];
    }
  }

  /** A path spills exactly if some beginning of it ends in a run of 8 or more bytes behind a dot. */
  lemma {:induction false} SpillsExactly(path: seq<Byte>)
    ensures Spill(path).Some? <==>
            exists k :: 0 <= k <= |path| && BehindDot(path[..k]).Some? && |BehindDot(path[..k]).value| >= EXTENSION_SIZE
    ensures Spill(path).Some? ==> |Spill(path).value| == EXTENSION_SIZE
    decreases |path|
  {
    if path != [] {
      hide BehindDot;
      var n := |path| - 1;
      SpillsExactly(path[..n]);
      assert forall k | 0 <= k <= n :: path[..n][..k] == path[..k];
      assert path[..|path|] == path;
      if Spill(path[..n]).None? && Spill(path).Some? {
        assert path == path[..n] + [path[n]] && path[..n][..n] == path[..n];
        OneMore(path[..n], path[n]);
        NoDot();
      }
    } else {
      NoDot();
    }
  }

  /** Without a dot nothing spills. */
  lemma {:induction false} NoSpill(path: seq<Byte>)
    requires DOT !in path
    ensures Spill(path) == None && BehindDot(path) == None
    decreases |path|
  {
    if path != [] {
      NoSpill(path[..|path| - 1]);
    }
  }

  /** A run of eight bytes behind the first dot does not fit, whatever follows it. */
  lemma {:induction false} RunOfEight(front: seq<Byte>, run: seq<Byte>, rest: seq<Byte>)
    requires DOT !in front && Simple(run) && |run| == EXTENSION_SIZE
    ensures Spill(front + [DOT] + run + rest) == Some(run)
    decreases |rest|
  {
    var p := front + [DOT] + run + rest;
    if rest == [] {
      assert p == front + [DOT] + run;
      RunSpills(front, run);
    } else {
      var n := |rest| - 1;
      RunOfEight(front, run, rest[..n]);
      assert p[..|p| - 1] == front + [DOT] + run + rest[..n];
    }
  }

  lemma {:induction false} RunSpills(front: seq<Byte>, run: seq<Byte>)
    requires DOT !in front && Simple(run) && |run| <= EXTENSION_SIZE
    ensures Spill(front + [DOT] + run) == if |run| == EXTENSION_SIZE then Some(run) else None
    decreases |run|
  {
    hide BehindDot;
    var p := front + [DOT] + run;
    ExtensionFound(front, run);
    if run == [] {
      assert p[..|p| - 1] == front;
      NoSpill(front);
    } else {
      var n := |run| - 1;
      RunSpills(front, run[..n]);
      assert p[..|p| - 1] == front + [DOT] + run[..n];
    }
  }

  /** A path that is percent-encoded in any way is the path that was meant, if it fits. */
  lemma EncodedPath(e: Encoder, path: seq<Byte>, rest: seq<Byte>)
    requires Sound(e) && !e.keeps(SPACE) && !e.keeps(NUL) && NUL !in path
    requires |Encode(e, path)| <= PATH_SIZE - 2
    ensures FullPath(Encode(e, path) + (VERSION + rest)) == path
  {
    var t := Encode(e, path);
    NoSpaces(e, path);
    VersionFound(t, rest);
    CStringWhole(t);
    CStringWhole(path);
    DecodeEncode(e, path);
    assert SkipSpaces(t) == t;
  }

  /** A path in which nothing is encoded is the path that was meant as well. */
  lemma PlainPath(path: seq<Byte>, rest: seq<Byte>)
    requires SPACE !in path && NUL !in path && PERCENT !in path && |path| <= PATH_SIZE - 2
    ensures FullPath(path + (VERSION + rest)) == path
  {
    VersionFound(path, rest);
    CStringWhole(path);
    NoPercent(path);
    hide Decode, UpToVersion, CString;
    assert SkipSpaces(path) == path;
  }

  lemma {:induction false} NoPercent(s: seq<Byte>)
    requires PERCENT !in s
    ensures Decode(s) == s
  {
    if s != [] {
      NoPercent(s[1..]);
      assert s == [s[0]] + s[1..];
    }
  }

  lemma {:induction false} NoSpaces(e: Encoder, s: seq<Byte>)
    requires Sound(e) && !e.keeps(SPACE) && !e.keeps(NUL)
    ensures SPACE !in Encode(e, s) && NUL !in Encode(e, s)
  {
    if s != [] {
      NoSpaces(e, s[1..]);
      var hi, lo := s[0] as int / 16, s[0] as int % 16;
      assert HexValue(e.digit(hi)) >= 0 && HexValue(e.digit(lo)) >= 0;
      assert HexValue(SPACE) < 0 && HexValue(NUL) < 0;
    }
  }

  lemma {:induction false} VersionFound(t: seq<Byte>, rest: seq<Byte>)
    requires SPACE !in t
    ensures UpToVersion(t + (VERSION + rest)) == t
  {
    var s := t + (VERSION + rest);
    if t == [] {
      assert s == VERSION + rest && s[0..|VERSION|] == VERSION;
    } else {
      assert t == [t[0]] + t[1..] && s[0] == t[0] && s[1..] == t[1..] + (VERSION + rest);
      assert s[0] != SPACE && VERSION[0] == SPACE;
      assert |s| >= |VERSION| ==> s[0..|VERSION|][0] == s[0];
      VersionFound(t[1..], rest);
    }
  }

  lemma CStringWhole(s: seq<Byte>)
    requires NUL !in s
    ensures CString(s) == s
  {
    CStringAt(s, |s|);
  }

  // ---- as it is done ----

  lemma {:induction false} UpToVersionAt(s: seq<Byte>, j: nat)
    requires j <= |s| && (forall k | 0 <= k < j :: !At(s, k, VERSION)) && (j == |s| || At(s, j, VERSION))
    ensures UpToVersion(s) == s[..j]
    decreases j
  {
    if j > 0 {
      var u := s[1..];
      forall k | 0 <= k <= |u|
        ensures At(u, k, VERSION) <==> At(s, k + 1, VERSION)
      {
        assert k + |VERSION| <= |u| ==> u[k..k + |VERSION|] == s[k + 1..k + 1 + |VERSION|];
      }
      UpToVersionAt(u, j - 1);
      assert s[..j] == [s[0]] + u[..j - 1];
    }
  }

  lemma {:induction false} SkipOneMore(s: seq<Byte>, c: Byte)
    ensures SkipSpaces(s + [c]) == if SkipSpaces(s) == [] && c == SPACE then [] else SkipSpaces(s) + [c]
  {
    if s != [] && s[0] == SPACE {
      assert (s + [c])[1..] == s[1..] + [c];
      SkipOneMore(s[1..], c);
    } else if s == [] {
      assert s + [c] == [c] && [c][1..] == [];
    }
  }

  /** Copies the path out of the request line, as far as it fits, and ends it with a NUL. */
  method TakePath(s: seq<Byte>, requestPath: array<Byte>)
    requires requestPath.Length == PATH_SIZE
    modifies requestPath
    ensures var t := Fitting(SkipSpaces(UpToVersion(s)));
            |t| < PATH_SIZE && requestPath[..|t|] == t && requestPath[|t|] == NUL
  {
    hide At, SkipSpaces, UpToVersion;
    var pathLen, j := 0, 0;
    Nothing();
    while j < |s| && !At(s, j, VERSION)
      invariant j <= |s| && pathLen <= PATH_SIZE - 2
      invariant forall k | 0 <= k < j :: !At(s, k, VERSION)
      invariant requestPath[..pathLen] == Fitting(SkipSpaces(s[..j]))
    {
      SkipOneMore(s[..j], s[j]);
      assert s[..j + 1] == s[..j] + [s[j]];
      if pathLen == 0 && s[j] == SPACE {
        // leading spaces are dropped
      } else if pathLen < PATH_SIZE - 2 {
        requestPath[pathLen] := s[j];
        pathLen := pathLen + 1;
      }
      j := j + 1;
    }
    UpToVersionAt(s, j);
    requestPath[pathLen] := NUL;
  }

  lemma Nothing()
    ensures SkipSpaces([]) == []
  {
  }

  /** Writes behind the start of the extension; the path lies behind its 8 bytes. */
  method Put(extension: array<Byte>, requestPath: array<Byte>, len: nat, c: Byte)
    requires extension.Length == EXTENSION_SIZE && requestPath.Length == PATH_SIZE && extension != requestPath
    requires len < EXTENSION_SIZE + PATH_SIZE
    modifies extension, requestPath
    ensures len < EXTENSION_SIZE ==>
              extension[..] == old(extension[..])[len := c] && requestPath[..] == old(requestPath[..])
    ensures len >= EXTENSION_SIZE ==>
              extension[..] == old(extension[..])
              && requestPath[..] == old(requestPath[..])[len - EXTENSION_SIZE := c]
  {
    if len < EXTENSION_SIZE {
      extension[len] := c;
    } else {
      requestPath[len - EXTENSION_SIZE] := c;
    }
  }

  /** Where the loop over the path stands as long as everything fits: `e` is the run behind the last dot. */
  ghost predicate Fine(extension: seq<Byte>, len: nat, e: Option<seq<Byte>>) {
    && |extension| == EXTENSION_SIZE && len < EXTENSION_SIZE && extension[len] == NUL
    && (if e.Some? then extension[..len] == e.value else len == 0)
    && NUL !in extension[..len]
  }

  /** The byte joins the run, and its NUL follows: within the extension, or in the path behind it. */
  method PutByte(extension: array<Byte>, requestPath: array<Byte>, len: nat, c: Byte, ghost e: Option<seq<Byte>>)
    requires extension.Length == EXTENSION_SIZE && requestPath.Length == PATH_SIZE && extension != requestPath
    requires Fine(extension[..], len, e) && e.Some? && c != NUL
    modifies extension, requestPath
    ensures len + 1 < EXTENSION_SIZE ==>
              Fine(extension[..], len + 1, Some(e.value + [c])) && requestPath[..] == old(requestPath[..])
    ensures len + 1 == EXTENSION_SIZE ==>
              extension[..] == e.value + [c] && NUL !in extension[..] && requestPath[0] == NUL
  {
    ghost var was := extension[..];
    Put(extension, requestPath, len, c);
    assert extension[..len] == was[..len] == e.value;
    assert extension[..len + 1] == e.value + [c];
    Put(extension, requestPath, len + 1, NUL);
    assert extension[..len + 1] == e.value + [c];
    if len + 1 == EXTENSION_SIZE {
      assert requestPath[..][0] == NUL;
      assert extension[..] == extension[..len + 1];
    }
  }

  /**
    ParseQueryString: finds the extension of the path and cuts the path off at the first question
    mark.  The length of the path is taken anew for every byte.
   */
  method ParseQueryString(extension: array<Byte>, requestPath: array<Byte>)
    requires extension.Length == EXTENSION_SIZE && requestPath.Length == PATH_SIZE && extension != requestPath
    requires NUL in requestPath[..]
    modifies extension, requestPath
    ensures NUL in requestPath[..]
    ensures var path := BeforeQuestion(CString(old(requestPath[..])));
            match Spill(path)
            case Some(run) => CString(requestPath[..]) == [] && CString(extension[..] + requestPath[..]) == run
            case None => CString(requestPath[..]) == path && CString(extension[..] + requestPath[..]) == Extension(path)
  {
    hide BehindDot, BeforeQuestion, Spill, CString;
    ghost var path, all := CString(requestPath[..]), requestPath[..];
    forall k | 0 <= k < EXTENSION_SIZE {
      extension[k] := NUL;
    }
    assert requestPath[..] == all;
    var question, spilled := SplitPath(extension, requestPath, path);
    ghost var before := BeforeQuestion(path);
    CStringStands(all);
    BeforeQuestionLength(path);
    if question >= 0 {
      requestPath[question] := NUL;
    }
    if spilled {
      Spilt(extension[..], requestPath[..]);
    } else {
      CutOff(requestPath[..], before);
      Kept(extension[..], requestPath[..], Extension(before));
    }
  }

  lemma CStringStands(s: seq<Byte>)
    requires NUL in s
    ensures var t := CString(s);
            |t| < |s| && s[..|t|] == t && s[|t|] == NUL && NUL !in t
  {
  }

  /** The bytes before the question mark have been looked at up to `i`, and all of them fitted. */
  ghost predicate Looking(path: seq<Byte>, i: nat, question: int, e: Option<seq<Byte>>) {
    && i <= |path| && -1 <= question < i
    && (question >= 0 ==> path[question] == QUESTION)
    && var seen := path[..if question < 0 then i else question];
      QUESTION !in seen && e == BehindDot(seen) && Spill(seen) == None
  }

  method SplitPath(extension: array<Byte>, requestPath: array<Byte>, ghost path: seq<Byte>)
    returns (question: int, ghost spilled: bool)
    requires extension.Length == EXTENSION_SIZE && requestPath.Length == PATH_SIZE && extension != requestPath
    requires NUL in requestPath[..] && CString(requestPath[..]) == path && Fine(extension[..], 0, None)
    modifies extension, requestPath
    ensures NUL in requestPath[..] && -1 <= question < PATH_SIZE
    ensures spilled ==>
              question == -1 && Spill(BeforeQuestion(path)) == Some(extension[..]) && NUL !in extension[..]
              && requestPath[0] == NUL
    ensures !spilled ==>
              && requestPath[..] == old(requestPath[..]) && Spill(BeforeQuestion(path)) == None
              && Terminated(extension[..], Extension(BeforeQuestion(path)))
              && question == if QUESTION in path then |BeforeQuestion(path)| else -1
  {
    hide BehindDot, BeforeQuestion, Spill, CString, Looking, Fine;
    ghost var all, e: Option<seq<Byte>> := requestPath[..], None;
    var dot, len, i := -1, 0, 0;
    question, spilled := -1, false;
    NothingSeen(path);
    var n := Length(requestPath);
    while i < n
      invariant NUL in requestPath[..] && -1 <= question < PATH_SIZE
      invariant spilled ==> n == 0 && question == -1 && requestPath[0] == NUL
      invariant spilled ==> Spill(BeforeQuestion(path)) == Some(extension[..]) && NUL !in extension[..]
      invariant !spilled ==> requestPath[..] == all && n == |path| && (dot >= 0 <==> e.Some?)
      invariant !spilled ==> i <= |path| && Looking(path, i, question, e) && Fine(extension[..], len, e)
      decreases n - i
    {
      StringByte(all, i);
      FineLength(extension[..], len, e);
      assert requestPath[i] == path[i];
      var c := requestPath[i];
      Look(path, i, question, e);
      ghost var was := extension[..];
      if c == DOT {
        if question < 0 {
          dot, len := i, 0;
          extension[0] := NUL;
          Emptied(was, len, extension[..], Some([]));
          assert requestPath[..] == all;
          e := Some([]);
        }
      } else if c == QUESTION {
        if question < 0 {
          question := i;
        }
      } else if c == HASH {
        // only its position is noted
      } else if c == SLASH {
        if question < 0 {
          dot, len := -1, 0;
          extension[0] := NUL;
          Emptied(was, len, extension[..], None);
          assert requestPath[..] == all;
          e := None;
        }
      } else if dot >= 0 && question < 0 {
        PutByte(extension, requestPath, len, c, e);
        len := len + 1;
        spilled := len == EXTENSION_SIZE;
        e := Some(e.value + [c]);
        if spilled {
          EmptyPath(requestPath[..]);
        }
      }
      i := i + 1;
      n := Length(requestPath);
    }
    if !spilled {
      AllSeen(path, question, e);
      Closed(extension[..], len, e);
    }
  }

  lemma NoDot()
    ensures BehindDot([]) == None
  {
  }

  lemma OneMore(path: seq<Byte>, c: Byte)
    ensures var e := BehindDot(path);
            BehindDot(path + [c])
            == if c == DOT then Some([])
               else if c == SLASH then None
               else if c == HASH || e.None? then e
               else Some(e.value + [c])
  {
    var p := path + [c];
    assert p[..|p| - 1] == path;
  }

  lemma {:induction false} BeforeQuestionAt(path: seq<Byte>, i: nat)
    requires i <= |path| && QUESTION !in path[..i] && (i == |path| || path[i] == QUESTION)
    ensures BeforeQuestion(path) == path[..i]
    decreases i
  {
    if i > 0 {
      assert path[..i] == [path[0]] + path[1..][..i - 1];
      BeforeQuestionAt(path[1..], i - 1);
    }
  }

  /** A C string by its length. */
  lemma CStringEnds(s: seq<Byte>, t: seq<Byte>)
    requires |t| < |s| && s[..|t|] == t && s[|t|] == NUL
    ensures CString(s) == CString(t)
  {
    var u := CString(t);
    CStringAt(t, |u|);
    forall k | 0 <= k < |u|
      ensures s[k] != NUL
    {
      assert s[k] == s[..|t|][k] == u[k];
      assert u[k] in u;
    }
    if |u| < |t| {
      assert s[|u|] == s[..|t|][|u|];
    }
    CStringAt(s, |u|);
    assert s[..|u|] == t[..|u|];
  }

  lemma NothingSeen(path: seq<Byte>)
    ensures Looking(path, 0, -1, None)
  {
    assert path[..0] == [];
  }

  lemma StringByte(s: seq<Byte>, i: nat)
    requires i < |CString(s)|
    ensures i < |s| && s[i] == CString(s)[i] && s[i] != NUL
  {
    assert CString(s)[i] in CString(s);
  }

  lemma EmptyPath(s: seq<Byte>)
    requires s != [] && s[0] == NUL
    ensures CString(s) == [] && NUL in s
  {
  }

  lemma FineLength(extension: seq<Byte>, len: nat, e: Option<seq<Byte>>)
    requires Fine(extension, len, e)
    ensures |extension| == EXTENSION_SIZE && len < EXTENSION_SIZE && (e.Some? ==> |e.value| == len)
  {
  }

  lemma Emptied(was: seq<Byte>, len: nat, now: seq<Byte>, e: Option<seq<Byte>>)
    requires |was| == EXTENSION_SIZE && now == was[0 := NUL] && (e == None || e == Some([]))
    ensures Fine(now, 0, e)
  {
  }

  /** What one more byte of the path does to the run behind the last dot. */
  lemma Look(path: seq<Byte>, i: nat, question: int, e: Option<seq<Byte>>)
    requires Looking(path, i, question, e) && i < |path| && (e.Some? ==> |e.value| < EXTENSION_SIZE)
    ensures question >= 0 ==> Looking(path, i + 1, question, e)
    ensures question < 0 && path[i] == QUESTION ==> Looking(path, i + 1, i, e)
    ensures question < 0 && path[i] == DOT ==> Looking(path, i + 1, question, Some([]))
    ensures question < 0 && path[i] == SLASH ==> Looking(path, i + 1, question, None)
    ensures question < 0 && path[i] == HASH ==> Looking(path, i + 1, question, e)
    ensures question < 0 && path[i] !in {QUESTION, DOT, SLASH, HASH} && e.None? ==> Looking(path, i + 1, question, e)
    ensures question < 0 && path[i] !in {QUESTION, DOT, SLASH, HASH} && e.Some? ==>
              var run := e.value + [path[i]];
              if |run| < EXTENSION_SIZE then Looking(path, i + 1, question, Some(run))
              else Spill(BeforeQuestion(path)) == Some(run)
  {
    if question < 0 {
      var seen := path[..i];
      assert path[..i + 1] == seen + [path[i]] && path[..i + 1][..i] == seen;
      OneMore(seen, path[i]);
      hide BehindDot;
      if path[i] !in {QUESTION, DOT, SLASH, HASH} && e.Some? && |e.value| + 1 == EXTENSION_SIZE {
        BeforeQuestionCovers(path, i + 1);
        SpillStays(BeforeQuestion(path), i + 1);
      }
    }
  }

  lemma {:induction false} BeforeQuestionCovers(path: seq<Byte>, i: nat)
    requires i <= |path| && QUESTION !in path[..i]
    ensures i <= |BeforeQuestion(path)| && BeforeQuestion(path)[..i] == path[..i]
  {
    if i > 0 {
      assert path[..i][0] == path[0];
      assert path[1..][..i - 1] == path[..i][1..];
      BeforeQuestionCovers(path[1..], i - 1);
      assert path[..i] == [path[0]] + path[1..][..i - 1];
    }
  }

  lemma {:induction false} SpillStays(path: seq<Byte>, i: nat)
    requires i <= |path| && Spill(path[..i]).Some?
    ensures Spill(path) == Spill(path[..i])
    decreases |path|
  {
    if i < |path| {
      var n := |path| - 1;
      assert path[..n][..i] == path[..i];
      SpillStays(path[..n], i);
    } else {
      assert path[..i] == path;
    }
  }

  lemma AllSeen(path: seq<Byte>, question: int, e: Option<seq<Byte>>)
    requires Looking(path, |path|, question, e)
    ensures Spill(BeforeQuestion(path)) == None && e == BehindDot(BeforeQuestion(path))
    ensures question == if QUESTION in path then |BeforeQuestion(path)| else -1
  {
    hide Spill, BehindDot;
    BeforeQuestionAt(path, if question < 0 then |path| else question);
    assert path[..|path|] == path;
  }

  /** The extension as the string it is. */
  ghost predicate Terminated(extension: seq<Byte>, text: seq<Byte>) {
    |text| < |extension| && extension[..|text|] == text && extension[|text|] == NUL && NUL !in text
  }

  lemma Closed(extension: seq<Byte>, len: nat, e: Option<seq<Byte>>)
    requires Fine(extension, len, e)
    ensures Terminated(extension, if e.Some? then e.value else [])
  {
  }

  lemma Spilt(extension: seq<Byte>, path: seq<Byte>)
    requires NUL !in extension && path != [] && path[0] == NUL
    ensures CString(path) == [] && CString(extension + path) == extension
  {
    CStringEnds(extension + path, extension);
    CStringWhole(extension);
  }

  lemma Kept(extension: seq<Byte>, path: seq<Byte>, text: seq<Byte>)
    requires Terminated(extension, text)
    ensures CString(extension + path) == text
  {
    var s := extension + path;
    assert s[..|text|] == extension[..|text|] && s[|text|] == extension[|text|];
    CStringEnds(s, text);
    CStringWhole(text);
  }

  lemma CutOff(s: seq<Byte>, text: seq<Byte>)
    requires |text| < |s| && s[..|text|] == text && s[|text|] == NUL && NUL !in text
    ensures CString(s) == text
  {
    CStringEnds(s, text);
    CStringWhole(text);
  }

  /** The request line decides on the handler and the extension. */
  method FindRoute(target: seq<Byte>, table: Table, extension: array<Byte>, requestPath: array<Byte>)
    returns (r: Route)
    requires extension.Length == EXTENSION_SIZE && requestPath.Length == PATH_SIZE && extension != requestPath
    modifies extension, requestPath
    ensures r == RouteOf(table.mappings, target)
  {
    hide CString, Decode, UpToVersion, SkipSpaces, BehindDot, BeforeQuestion, FirstMatch, Fitting, Spill;
    DecodedPath(target, requestPath);
    ParseQueryString(extension, requestPath);
    var handler := table.SetCgiHandler(CString(requestPath[..]));
    r := Route(handler, CString(extension[..] + requestPath[..]));
  }

  lemma BeforeQuestionLength(path: seq<Byte>)
    ensures QUESTION !in path ==> BeforeQuestion(path) == path
    ensures path[..|BeforeQuestion(path)|] == BeforeQuestion(path)
  {
    if QUESTION !in path {
      assert path[..|path|] == path;
      BeforeQuestionAt(path, |path|);
    }
  }

  /** Copies and decodes the path in place. */
  method DecodedPath(target: seq<Byte>, requestPath: array<Byte>)
    requires requestPath.Length == PATH_SIZE
    modifies requestPath
    ensures CString(requestPath[..]) == FullPath(target) && NUL in requestPath[..]
  {
    hide CString, Decode, UpToVersion, SkipSpaces, Escapes, Repeat, LastTwo, Fitting;
    TakePath(target, requestPath);
    ghost var t := Fitting(SkipSpaces(UpToVersion(target)));
    CStringEnds(requestPath[..], t);
    ghost var u := CString(requestPath[..]);
    assert NUL in requestPath[..];
    var pathLen := URLDecode(requestPath);
    DecodedLength(u);
    requestPath[pathLen] := NUL;
    CStringEnds(requestPath[..], Decode(u));
  }
}
