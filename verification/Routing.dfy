/** The ordered list of request handlers. */
module Routing {
  import opened Bytes
  import opened Strings

  const MAX_CGI_PATH := 64
  const STAR: Byte := 42

  /** Where the body of a response comes from. */
  datatype Source = NoContent | WebFile | Listing

  datatype Options = Options(auth: bool, get: bool, post: bool, chunked: bool)

  /** `perLine` says that the handler is called for each header line the server does not look at itself. */
  datatype Mapping = Mapping(path: seq<Byte>, prefix: bool, options: Options, source: Source, perLine: bool)

  /** What the request line says: who handles the path, and its extension. */
  datatype Route = Route(handler: Option<Mapping>, extension: seq<Byte>)

  /** A path up to its first star. */
  function BeforeStar(path: seq<Byte>): (r: seq<Byte>)
    ensures r <= path && STAR !in r
  {
    if path == [] || path[0] == STAR then [] else [path[0]] + BeforeStar(path[1..])
  }

  predicate Matches(m: Mapping, path: seq<Byte>) {
    && (if m.prefix then |path| >= |m.path| else |path| == |m.path|)
    && SameNoCase(path, m.path, |m.path|)
  }

  /** The first mapping that matches. */
  function FirstMatch(table: seq<Mapping>, path: seq<Byte>): (r: Option<Mapping>)
    ensures r.None? ==> forall k | 0 <= k < |table| :: !Matches(table[k], path)
    ensures r.Some? ==> exists k :: 0 <= k < |table| && table[k] == r.value && Matches(table[k], path)
                                    && forall j | 0 <= j < k :: !Matches(table[j], path)
  {
    if table == [] then None
    else if Matches(table[0], path) then Some(table[0])
    else
      var r := FirstMatch(table[1..], path);
      assert r.Some? ==> forall k | 0 <= k < |table[1..]| :: table[k + 1] == table[1..][k];
      r
  }

  // ---- the table as it is installed ----

  const SSDP: seq<Byte> :=
    [47, 117, 112, 110, 112, 95, 100, 101, 118, 105, 99, 101, 46, 120, 109, 108] // "/upnp_device.xml"
  const AUTH: seq<Byte> := [47, 97, 117, 116, 104, 47] // "/auth/"
  const FORM: seq<Byte> :=
    [47, 97, 112, 112, 47, 102, 111, 114, 109, 46, 115, 104, 116, 109, 108] // "/app/form.shtml"
  const FILES: seq<Byte> :=
    [47, 97, 112, 105, 47, 102, 105, 108, 101, 115, 46, 99, 103, 105] // "/api/files.cgi"
  const UPLOAD: seq<Byte> :=
    [47, 97, 112, 105, 47, 117, 112, 108, 111, 97, 100, 46, 99, 103, 105] // "/api/upload.cgi"
  const APP: seq<Byte> := [47, 97, 112, 112, 47] // "/app/"

  const SSDP_MAPPING := Mapping(SSDP, false, Options(false, true, false, true), Listing, false)
  const AUTH_MAPPING := Mapping(AUTH, true, Options(false, true, true, false), WebFile, false)
  const FORM_MAPPING := Mapping(FORM, false, Options(true, true, true, false), WebFile, false)
  const FILES_MAPPING := Mapping(FILES, false, Options(true, true, false, true), Listing, false)
  const UPLOAD_MAPPING := Mapping(UPLOAD, false, Options(true, false, true, false), NoContent, true)
  const APP_MAPPING := Mapping(APP, true, Options(true, true, false, false), WebFile, false)

  const INSTALLED: seq<Mapping> :=
    [SSDP_MAPPING] + [AUTH_MAPPING] + [FORM_MAPPING] + [FILES_MAPPING] + [UPLOAD_MAPPING] + [APP_MAPPING]

  predicate Alike(path: seq<Byte>, pattern: seq<Byte>) {
    |path| >= |pattern| && forall k | 0 <= k < |pattern| :: Upper(path[k]) == Upper(pattern[k])
  }

  lemma SameIsAlike(path: seq<Byte>, pattern: seq<Byte>)
    requires NUL !in path && NUL !in pattern && |path| >= |pattern|
    ensures SameNoCase(path, pattern, |pattern|) <==> Alike(path, pattern)
  {
    CStringAt(path, |path|);
    CStringAt(pattern, |pattern|);
    assert CString(path) == path && CString(pattern) == pattern;
  }

  predicate Clean(path: seq<Byte>) {
    forall k | 0 <= k < |path| :: path[k] != NUL && path[k] != STAR
  }

  lemma AllClean()
    ensures Clean(SSDP) && Clean(AUTH) && Clean(FORM) && Clean(FILES) && Clean(UPLOAD) && Clean(APP)
  {
  }

  lemma Matching(m: Mapping, path: seq<Byte>)
    requires NUL !in path && Clean(m.path)
    ensures Matches(m, path) <==> Alike(path, m.path) && (m.prefix || |path| == |m.path|)
  {
    if |path| >= |m.path| {
      SameIsAlike(path, m.path);
    }
  }

  /** The names of the open mappings differ from those of the protected ones at some letter. */
  lemma OpenApart(path: seq<Byte>)
    requires Alike(path, SSDP) || Alike(path, AUTH)
    ensures !Alike(path, APP) && !Alike(path, FILES) && !Alike(path, UPLOAD)
  {
    assert Alike(path, SSDP) ==> Upper(path[1]) == Upper(SSDP[1]);
    assert Alike(path, AUTH) ==> Upper(path[2]) == Upper(AUTH[2]);
  }

  lemma FormIsApp(path: seq<Byte>)
    requires Alike(path, FORM)
    ensures Alike(path, APP)
  {
    assert forall k | 0 <= k < |APP| :: FORM[k] == APP[k];
  }

  lemma {:induction false} FirstOfTwo(a: seq<Mapping>, b: seq<Mapping>, path: seq<Byte>)
    ensures FirstMatch(a + b, path) == if FirstMatch(a, path).Some? then FirstMatch(a, path) else FirstMatch(b, path)
  {
    if a == [] {
      assert a + b == b;
    } else {
      assert (a + b)[0] == a[0] && (a + b)[1..] == a[1..] + b;
      FirstOfTwo(a[1..], b, path);
    }
  }

  lemma FirstOfOne(m: Mapping, path: seq<Byte>)
    requires NUL !in path && Clean(m.path)
    ensures FirstMatch([m], path)
            == if Alike(path, m.path) && (m.prefix || |path| == |m.path|) then Some(m) else None
  {
    assert [m][1..] == [];
    Matching(m, path);
  }

  predicate Hits(m: Mapping, path: seq<Byte>) {
    Alike(path, m.path) && (m.prefix || |path| == |m.path|)
  }

  lemma FirstOfThree(a: Mapping, b: Mapping, c: Mapping, path: seq<Byte>)
    requires NUL !in path && Clean(a.path) && Clean(b.path) && Clean(c.path)
    ensures FirstMatch([a] + [b] + [c], path)
            == if Hits(a, path) then Some(a) else if Hits(b, path) then Some(b)
               else if Hits(c, path) then Some(c) else None
  {
    hide FirstMatch, Alike, Clean;
    FirstOfTwo([a] + [b], [c], path);
    FirstOfTwo([a], [b], path);
    FirstOfOne(a, path);
    FirstOfOne(b, path);
    FirstOfOne(c, path);
  }

  /** The handler of a path. */
  lemma Installed(path: seq<Byte>)
    requires NUL !in path
    ensures FirstMatch(INSTALLED, path) ==
            if Hits(SSDP_MAPPING, path) then Some(SSDP_MAPPING)
            else if Hits(AUTH_MAPPING, path) then Some(AUTH_MAPPING)
            else if Hits(FORM_MAPPING, path) then Some(FORM_MAPPING)
            else if Hits(FILES_MAPPING, path) then Some(FILES_MAPPING)
            else if Hits(UPLOAD_MAPPING, path) then Some(UPLOAD_MAPPING)
            else if Hits(APP_MAPPING, path) then Some(APP_MAPPING)
            else None
  {
    hide FirstMatch, Hits, Clean;
    AllClean();
    FirstOfThree(SSDP_MAPPING, AUTH_MAPPING, FORM_MAPPING, path);
    FirstOfThree(FILES_MAPPING, UPLOAD_MAPPING, APP_MAPPING, path);
    TwoHalves();
    FirstOfTwo([SSDP_MAPPING] + [AUTH_MAPPING] + [FORM_MAPPING],
               [FILES_MAPPING] + [UPLOAD_MAPPING] + [APP_MAPPING], path);
  }

  lemma TwoHalves()
    ensures INSTALLED
            == ([SSDP_MAPPING] + [AUTH_MAPPING] + [FORM_MAPPING]) + ([FILES_MAPPING] + [UPLOAD_MAPPING] + [APP_MAPPING])
  {
  }

  /** The protected mappings are the last four, and the third is below the last. */
  lemma LastFour(a: Mapping, b: Mapping, c: Mapping, d: Mapping, e: Mapping, f: Mapping, path: seq<Byte>,
                 r: Option<Mapping>)
    requires r == if Hits(a, path) then Some(a) else if Hits(b, path) then Some(b) else if Hits(c, path) then Some(c)
                  else if Hits(d, path) then Some(d) else if Hits(e, path) then Some(e)
                  else if Hits(f, path) then Some(f) else None
    requires !a.options.auth && !b.options.auth
    requires c.options.auth && d.options.auth && e.options.auth && f.options.auth
    requires Hits(a, path) || Hits(b, path) ==> !Hits(d, path) && !Hits(e, path) && !Hits(f, path)
    requires Hits(c, path) ==> Hits(f, path)
    ensures r.Some? && r.value.options.auth <==> Hits(d, path) || Hits(e, path) || Hits(f, path)
  {
  }

  lemma Overlaps(path: seq<Byte>)
    ensures Hits(SSDP_MAPPING, path) || Hits(AUTH_MAPPING, path) ==>
              !Hits(FILES_MAPPING, path) && !Hits(UPLOAD_MAPPING, path) && !Hits(APP_MAPPING, path)
    ensures Hits(FORM_MAPPING, path) ==> Hits(APP_MAPPING, path)
  {
    if Alike(path, SSDP) || Alike(path, AUTH) {
      OpenApart(path);
    }
    if Alike(path, FORM) {
      FormIsApp(path);
    }
    hide Alike;
  }

  /** What the installed table protects: everything below /app/, and the two services below /api/. */
  lemma ProtectedPaths(path: seq<Byte>)
    requires NUL !in path
    ensures var r := FirstMatch(INSTALLED, path);
            r.Some? && r.value.options.auth <==>
            Hits(FILES_MAPPING, path) || Hits(UPLOAD_MAPPING, path) || Hits(APP_MAPPING, path)
  {
    hide FirstMatch, Hits;
    Installed(path);
    Overlaps(path);
    LastFour(SSDP_MAPPING, AUTH_MAPPING, FORM_MAPPING, FILES_MAPPING, UPLOAD_MAPPING, APP_MAPPING, path,
             FirstMatch(INSTALLED, path));
  }

  class Table {
    var mappings: seq<Mapping>

    constructor ()
      ensures mappings == []
    {
      mappings := [];
    }

    /** Appends a mapping; a star in its path is cut off, with all behind it, and makes it a prefix. */
    method Append(path: seq<Byte>, options: Options, source: Source, perLine: bool)
      requires NUL !in path
      modifies this
      ensures var p := if |path| >= MAX_CGI_PATH then path[..MAX_CGI_PATH - 1] else path;
              mappings == old(mappings) + [Mapping(BeforeStar(p), STAR in p, options, source, perLine)]
    {
      var p := if |path| >= MAX_CGI_PATH then path[..MAX_CGI_PATH - 1] else path;
      var i := 0;
      while i < |p| && p[i] != STAR
        invariant i <= |p| && forall k | 0 <= k < i :: p[k] != STAR
      {
        i := i + 1;
      }
      StarAt(p, i);
      mappings := mappings + [Mapping(p[..i], i < |p|, options, source, perLine)];
    }

    /** CGI_SetupMapping. */
    method SetupMapping()
      requires mappings == []
      modifies this
      ensures mappings == INSTALLED
    {
      AllClean();
      hide BeforeStar, Clean;
      Plain(SSDP);
      Starred(AUTH);
      Plain(FORM);
      Plain(FILES);
      Plain(UPLOAD);
      Starred(APP);
      Append(SSDP, Options(false, true, false, true), Listing, false);
      Append(AUTH + [STAR], Options(false, true, true, false), WebFile, false);
      Append(FORM, Options(true, true, true, false), WebFile, false);
      Append(FILES, Options(true, true, false, true), Listing, false);
      Append(UPLOAD, Options(true, false, true, false), NoContent, true);
      Append(APP + [STAR], Options(true, true, false, false), WebFile, false);
    }

    method SetCgiHandler(path: seq<Byte>) returns (r: Option<Mapping>)
      ensures r == FirstMatch(mappings, path)
    {
      var i := 0;
      while i < |mappings|
        invariant i <= |mappings|
        invariant FirstMatch(mappings, path) == FirstMatch(mappings[i..], path)
      {
        var m := mappings[i];
        if if m.prefix then |path| >= |m.path| else |path| == |m.path| {
          var c := Strnicmp(path, m.path, |m.path|);
          if c == 0 {
            return Some(m);
          }
        }
        assert mappings[i..][1..] == mappings[i + 1..];
        i := i + 1;
      }
      return None;
    }
  }

  lemma Plain(path: seq<Byte>)
    requires Clean(path)
    ensures BeforeStar(path) == path && STAR !in path
  {
    StarAt(path, |path|);
  }

  lemma Starred(path: seq<Byte>)
    requires Clean(path)
    ensures BeforeStar(path + [STAR]) == path && STAR in path + [STAR]
  {
    StarAt(path + [STAR], |path|);
  }

  lemma {:induction false} StarAt(p: seq<Byte>, i: nat)
    requires i <= |p| && (forall k | 0 <= k < i :: p[k] != STAR) && (i < |p| ==> p[i] == STAR)
    ensures BeforeStar(p) == p[..i] && (STAR in p <==> i < |p|)
  {
    if i > 0 {
      StarAt(p[1..], i - 1);
      assert p[..i] == [p[0]] + p[1..][..i - 1];
      assert p == [p[0]] + p[1..];
    }
  }
}
