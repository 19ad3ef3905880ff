/** Who gets in where, in the words of those who set it up. */
module Access {
  import opened Bytes
  import opened Framing
  import opened RequestLine
  import opened Routing
  import opened Sessions
  import opened Spelling
  import opened Strings

  // ---- the handlers that are installed ----

  /** The path is this one, letter case apart. */
  predicate Is(path: seq<Byte>, name: string) {
    |path| == |name| && Spelt(path, name)
  }

  /** What is protected: everything below /app/, and two services below /api/. */
  predicate NeedsSession(path: seq<Byte>) {
    Spelt(path, "/app/") || Is(path, "/api/files.cgi") || Is(path, "/api/upload.cgi")
  }

  /** The methods that a path takes. */
  predicate Allows(path: seq<Byte>, verb: Method) {
    if Spelt(path, "/auth/") || Is(path, "/app/form.shtml") then verb == Get || verb == Post
    else if Is(path, "/api/upload.cgi") then verb == Post
    else if Is(path, "/upnp_device.xml") || Is(path, "/api/files.cgi") || Spelt(path, "/app/") then verb == Get
    else false
  }

  /** Where the body of a response comes from. */
  function SourceOf(path: seq<Byte>): Source {
    if Is(path, "/upnp_device.xml") || Is(path, "/api/files.cgi") then Listing
    else if Spelt(path, "/auth/") || Spelt(path, "/app/") then WebFile
    else NoContent
  }

  lemma AlikeIsSpelt(path: seq<Byte>, pattern: seq<Byte>, name: string)
    requires Spelling.Plain(name) && pattern == Ascii(name)
    ensures Alike(path, pattern) <==> Spelt(path, name)
  {
    if |path| >= |pattern| {
      forall k | 0 <= k < |pattern|
        ensures Upper(path[k]) == Upper(pattern[k]) <==> Reads(path[k], name[k])
      {
        UpperExactly(path[k], name[k]);
        assert pattern[k] == (name[k] as int) as Byte;
      }
    }
    hide Upper, Reads;
  }

  lemma Paths(path: seq<Byte>)
    ensures Alike(path, SSDP) <==> Spelt(path, "/upnp_device.xml")
    ensures Alike(path, AUTH) <==> Spelt(path, "/auth/")
    ensures Alike(path, FORM) <==> Spelt(path, "/app/form.shtml")
  {
    PathsSpelled();
    AlikeIsSpelt(path, SSDP, "/upnp_device.xml");
    AlikeIsSpelt(path, AUTH, "/auth/");
    AlikeIsSpelt(path, FORM, "/app/form.shtml");
    hide Alike, Spelt, Ascii;
  }

  lemma ProtectedPaths(path: seq<Byte>)
    ensures Alike(path, FILES) <==> Spelt(path, "/api/files.cgi")
    ensures Alike(path, UPLOAD) <==> Spelt(path, "/api/upload.cgi")
    ensures Alike(path, APP) <==> Spelt(path, "/app/")
  {
    PathsSpelled();
    AlikeIsSpelt(path, FILES, "/api/files.cgi");
    AlikeIsSpelt(path, UPLOAD, "/api/upload.cgi");
    AlikeIsSpelt(path, APP, "/app/");
    hide Alike, Spelt, Ascii;
  }

  /** What the handlers installed take, protect and serve, for every path. */
  lemma InstalledAllows(path: seq<Byte>)
    requires NUL !in path
    ensures var r := FirstMatch(INSTALLED, path);
            && (r.Some? && r.value.options.get <==> Allows(path, Get))
            && (r.Some? && r.value.options.post <==> Allows(path, Post))
            && (r.Some? && r.value.options.auth <==> NeedsSession(path))
            && (r.Some? ==> r.value.source == SourceOf(path))
            && (r.Some? && r.value.perLine <==> Is(path, "/api/upload.cgi"))
            && (r.Some? && r.value.options.chunked <==> SourceOf(path) == Listing)
  {
    hide FirstMatch, Hits, Spelt;
    Installed(path);
    HitsIs(path);
    Apart(path);
    Chosen(SSDP_MAPPING, AUTH_MAPPING, FORM_MAPPING, FILES_MAPPING, UPLOAD_MAPPING, APP_MAPPING, path,
           FirstMatch(INSTALLED, path));
  }

  lemma HitsIs(path: seq<Byte>)
    ensures Hits(SSDP_MAPPING, path) <==> Is(path, "/upnp_device.xml")
    ensures Hits(AUTH_MAPPING, path) <==> Spelt(path, "/auth/")
    ensures Hits(FORM_MAPPING, path) <==> Is(path, "/app/form.shtml")
    ensures Hits(FILES_MAPPING, path) <==> Is(path, "/api/files.cgi")
    ensures Hits(UPLOAD_MAPPING, path) <==> Is(path, "/api/upload.cgi")
    ensures Hits(APP_MAPPING, path) <==> Spelt(path, "/app/")
  {
    Paths(path);
    ProtectedPaths(path);
    hide Alike, Spelt;
  }

  /** Paths that differ at a letter are not the same, but the form is below /app/. */
  lemma Apart(path: seq<Byte>)
    ensures Hits(SSDP_MAPPING, path) ==> !Hits(AUTH_MAPPING, path) && !Hits(APP_MAPPING, path)
    ensures Hits(AUTH_MAPPING, path) ==> !Hits(APP_MAPPING, path)
    ensures Hits(SSDP_MAPPING, path) || Hits(AUTH_MAPPING, path) || Hits(APP_MAPPING, path) ==>
              !Hits(FILES_MAPPING, path) && !Hits(UPLOAD_MAPPING, path)
    ensures Hits(FILES_MAPPING, path) ==> !Hits(UPLOAD_MAPPING, path)
    ensures Hits(FORM_MAPPING, path) ==> Hits(APP_MAPPING, path)
  {
    Overlaps(path);
    FirstLetters(path);
    hide Hits;
  }

  lemma FirstLetters(path: seq<Byte>)
    ensures Hits(SSDP_MAPPING, path) ==> !Hits(AUTH_MAPPING, path)
    ensures Hits(AUTH_MAPPING, path) || Hits(APP_MAPPING, path) ==>
              !Hits(FILES_MAPPING, path) && !Hits(UPLOAD_MAPPING, path)
    ensures Hits(FILES_MAPPING, path) ==> !Hits(UPLOAD_MAPPING, path)
  {
    assert Hits(SSDP_MAPPING, path) ==> Upper(path[1]) == Upper(SSDP[1]);
    assert Hits(AUTH_MAPPING, path) ==> Upper(path[1]) == Upper(AUTH[1]) && Upper(path[2]) == Upper(AUTH[2]);
    assert Hits(APP_MAPPING, path) ==> Upper(path[3]) == Upper(APP[3]);
    assert Hits(FILES_MAPPING, path) ==>
             Upper(path[2]) == Upper(FILES[2]) && Upper(path[3]) == Upper(FILES[3])
             && Upper(path[5]) == Upper(FILES[5]);
    assert Hits(UPLOAD_MAPPING, path) ==>
             Upper(path[2]) == Upper(UPLOAD[2]) && Upper(path[3]) == Upper(UPLOAD[3])
             && Upper(path[5]) == Upper(UPLOAD[5]);
  }

  /** Of six handlers in a row, the one that is chosen, when they overlap as the installed ones do. */
  lemma Chosen(a: Mapping, b: Mapping, c: Mapping, d: Mapping, e: Mapping, f: Mapping, path: seq<Byte>,
               r: Option<Mapping>)
    requires r == if Hits(a, path) then Some(a) else if Hits(b, path) then Some(b) else if Hits(c, path) then Some(c)
                  else if Hits(d, path) then Some(d) else if Hits(e, path) then Some(e)
                  else if Hits(f, path) then Some(f) else None
    requires a.options == Options(false, true, false, true) && a.source == Listing && !a.perLine
    requires b.options == Options(false, true, true, false) && b.source == WebFile && !b.perLine
    requires c.options == Options(true, true, true, false) && c.source == WebFile && !c.perLine
    requires d.options == Options(true, true, false, true) && d.source == Listing && !d.perLine
    requires e.options == Options(true, false, true, false) && e.source == NoContent && e.perLine
    requires f.options == Options(true, true, false, false) && f.source == WebFile && !f.perLine
    requires Hits(a, path) <==> Is(path, "/upnp_device.xml")
    requires Hits(b, path) <==> Spelt(path, "/auth/")
    requires Hits(c, path) <==> Is(path, "/app/form.shtml")
    requires Hits(d, path) <==> Is(path, "/api/files.cgi")
    requires Hits(e, path) <==> Is(path, "/api/upload.cgi")
    requires Hits(f, path) <==> Spelt(path, "/app/")
    requires Hits(a, path) ==> !Hits(b, path) && !Hits(f, path)
    requires Hits(b, path) ==> !Hits(f, path)
    requires Hits(a, path) || Hits(b, path) || Hits(f, path) ==> !Hits(d, path) && !Hits(e, path)
    requires Hits(d, path) ==> !Hits(e, path)
    requires Hits(c, path) ==> Hits(f, path)
    ensures r.Some? && r.value.options.get <==> Allows(path, Get)
    ensures r.Some? && r.value.options.post <==> Allows(path, Post)
    ensures r.Some? && r.value.options.auth <==> NeedsSession(path)
    ensures r.Some? ==> r.value.source == SourceOf(path)
    ensures r.Some? && r.value.perLine <==> Is(path, "/api/upload.cgi")
    ensures r.Some? && r.value.options.chunked <==> SourceOf(path) == Listing
  {
    hide Hits, Is, Spelt;
  }

  /** Everything below /app/ can be asked for, and uploads can be posted. */
  lemma Taken(path: seq<Byte>)
    ensures Spelt(path, "/app/") ==> Allows(path, Get)
    ensures Is(path, "/api/upload.cgi") ==> Allows(path, Post)
  {
    HitsIs(path);
    Apart(path);
    hide Hits, Is, Spelt;
  }

  // ---- what is served to everyone ----

  /** Styles, pictures and fonts. */
  const SERVED: seq<string> := ["css", "jpg", "png", "ico", "bmp", "svg", "gif", "woff", "ttf", "otf", "tiff"]

  lemma EntrySpelled(k: nat)
    requires k < 11
    ensures |SERVED| == |EXEMPT| == 11 && Spelling.Plain(SERVED[k]) && EXEMPT[k] == Ascii(SERVED[k])
  {
  }

  /** An extension is exempt exactly if it starts with one of these, letter case apart. */
  lemma ExemptExactly(ext: seq<Byte>)
    requires NUL !in ext
    ensures IsExempt(ext) <==> exists k :: 0 <= k < 11 && Spelt(ext, SERVED[k])
  {
    hide Spelt, SameNoCase;
    forall k | 0 <= k < 11
      ensures |EXEMPT| == 11 && (SameNoCase(ext, EXEMPT[k], |EXEMPT[k]|) <==> Spelt(ext, SERVED[k]))
    {
      EntryIs(ext, k);
    }
    EntrySpelled(0);
  }

  lemma EntryIs(ext: seq<Byte>, k: nat)
    requires NUL !in ext && k < 11
    ensures |SERVED| == |EXEMPT| == 11 && (SameNoCase(ext, EXEMPT[k], |EXEMPT[k]|) <==> Spelt(ext, SERVED[k]))
  {
    EntrySpelled(k);
    SpeltIsLike(ext, SERVED[k]);
    hide SameNoCase, Spelt, Ascii;
  }

  /** Pages and services are not among them. */
  lemma PagesAreNotExempt(ext: seq<Byte>)
    requires NUL !in ext
    requires Spelt(ext, "shtml") || Spelt(ext, "htm") || Spelt(ext, "cgi") || ext == []
    ensures !IsExempt(ext)
  {
    ExemptExactly(ext);
    forall k | 0 <= k < 11
      ensures !Spelt(ext, SERVED[k])
    {
      NotServed(ext, k);
    }
  }

  lemma NotServed(ext: seq<Byte>, k: nat)
    requires k < 11 && (Spelt(ext, "shtml") || Spelt(ext, "htm") || Spelt(ext, "cgi") || ext == [])
    ensures !Spelt(ext, SERVED[k])
  {
    if Spelt(ext, SERVED[k]) {
      PageLetters(ext);
      ServedLetters(ext, k);
      hide Spelt, Upper;
    }
  }

  lemma Capital(c: Byte, d: char)
    requires Reads(c, d) && d < 128 as char
    ensures Upper(c) == Upper((d as int) as Byte)
  {
    UpperExactly(c, d);
    hide Reads, Upper;
  }

  lemma PageLetters(ext: seq<Byte>)
    requires Spelt(ext, "shtml") || Spelt(ext, "htm") || Spelt(ext, "cgi") || ext == []
    ensures ext != [] ==> |ext| >= 2
    ensures ext != [] ==>
              || (Upper(ext[0]) == 83 && Upper(ext[1]) == 72)
              || Upper(ext[0]) == 72
              || (Upper(ext[0]) == 67 && Upper(ext[1]) == 71)
  {
    hide Reads;
    if Spelt(ext, "shtml") {
      assert Reads(ext[0], "shtml"[0]) && Reads(ext[1], "shtml"[1]);
      Capital(ext[0], 's');
      Capital(ext[1], 'h');
    } else if Spelt(ext, "htm") {
      assert Reads(ext[0], "htm"[0]);
      Capital(ext[0], 'h');
    } else if Spelt(ext, "cgi") {
      assert Reads(ext[0], "cgi"[0]) && Reads(ext[1], "cgi"[1]);
      Capital(ext[0], 'c');
      Capital(ext[1], 'g');
    }
  }

  lemma ServedLetters(ext: seq<Byte>, k: nat)
    requires k < 11 && Spelt(ext, SERVED[k])
    ensures |ext| >= 2 && Upper(ext[0]) != 72
    ensures Upper(ext[0]) == 83 ==> Upper(ext[1]) == 86
    ensures Upper(ext[0]) == 67 ==> Upper(ext[1]) == 83
  {
    EntryLetters(k);
    assert Reads(ext[0], SERVED[k][0]) && Reads(ext[1], SERVED[k][1]);
    Capital(ext[0], SERVED[k][0]);
    Capital(ext[1], SERVED[k][1]);
    hide Reads, Spelt;
  }

  lemma EntryLetters(k: nat)
    requires k < 11
    ensures |SERVED[k]| >= 3 && 97 <= SERVED[k][0] as int <= 122 && 97 <= SERVED[k][1] as int <= 122
    ensures SERVED[k][0] != 'h' && (SERVED[k][0] == 's' ==> SERVED[k][1] == 'v')
    ensures SERVED[k][0] == 'c' ==> SERVED[k][1] == 's'
  {
  }
}
