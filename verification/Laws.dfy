/** Properties that relate several operations of the file system: what a
    write leaves for a read, what survives `mkdirSync`, `unlinkSync` and
    `rmdirSync`, where `mkdirsSync` puts its directories, and which
    listeners the events reach. Most of them require a clean prefix,
    because the operations fix keys that are already fixed. */
module FsLaws {
  import opened Base
  import opened Strings
  import opened KeyValueStore
  import opened Metadata
  import opened Events
  import opened DataUrl
  import opened Paths
  import opened FsKeys
  import opened FsCore
  import opened FsScan
  import Utf8
  import Base64

  // ---------------------------------------------------------------------
  // Writing and reading back
  // ---------------------------------------------------------------------

  /** The header of a data URL this library writes says `base64`. */
  lemma WrittenHeaderSaysBase64(mime: string, b64: string)
    requires ',' !in b64
    ensures Contains(HeaderOf(Scheme + mime + Base64Tag + "," + b64), "base64")
  {
    var a := Scheme + mime + Base64Tag;
    assert Scheme + mime + Base64Tag + "," + b64 == a + [','] + b64;
    LastIndexOfJoin(a, ',', b64);
    assert (a + [','] + b64)[..|a|] == a;
    assert a[|a| - 6..] == "base64";
    EndsWithContains(a, "base64");
  }

  /** A fixed key whose meta key holds the JSON of `st` has stats with the
      flags and size of `st`. */
  lemma StatOfStoredMeta(w: FileSystem, k: string, st: Stats)
    requires k != "" && Fix(w, k, false) == Ok(k)
    requires Get(w.store, MetaKey(k)) == Some(Json(ToDoc(st)))
    ensures StatSync(w, k).Ok? && StatSync(w, k).value.Some?
    ensures StatSync(w, k).value.value.file == st.file
    ensures StatSync(w, k).value.value.size == st.size
  {
  }

  /** A successful write keeps the path's key and stores the data URL
      under it. */
  lemma WriteStoresData(fs: FileSystem, path: string, content: Content, optsType: string, now: int)
    requires CleanPrefix(fs.prefix)
    requires WriteFileSync(fs, path, content, optsType, now).result.Ok?
    ensures path != ""
    ensures var w := WriteFileSync(fs, path, content, optsType, now).fs;
      var k := Fix(fs, path, false).value;
      var e := Encoded(content, TypeFor(k, optsType));
      && e.Ok?
      && Fix(w, path, false) == Ok(k)
      && Fix(w, k, false) == Ok(k)
      && Get(w.store, k) == Some(Text(e.value.0))
  {
    Refix(WriteFileSync(fs, path, content, optsType, now).fs, path);
  }

  /** A successful write leaves file stats of the written size. */
  lemma WriteStoresStats(fs: FileSystem, path: string, content: Content, optsType: string, now: int)
    requires CleanPrefix(fs.prefix)
    requires WriteFileSync(fs, path, content, optsType, now).result.Ok?
    ensures var w := WriteFileSync(fs, path, content, optsType, now).fs;
      var k := Fix(fs, path, false).value;
      var e := Encoded(content, TypeFor(k, optsType));
      && e.Ok?
      && StatSync(w, k).Ok? && StatSync(w, k).value.Some?
      && StatSync(w, k).value.value.file
      && StatSync(w, k).value.value.size == e.value.1
  {
    var w := WriteFileSync(fs, path, content, optsType, now).fs;
    var k := Fix(fs, path, false).value;
    var t := TypeFor(k, optsType);
    WriteStoresData(fs, path, content, optsType, now);
    assert PriorStats(fs, k).Ok?;
    var prior := PriorStats(fs, k).value;
    var size := Encoded(content, t).value.1;
    var st := if prior.None? then NewFileStats(k, t, size, now) else RewrittenStats(prior.value, k, t, size, now);
    assert st.file && st.size == size;
    StatOfStoredMeta(w, k, st);
  }

  /** What a successful write leaves: the key exists, holds the data URL,
      and its stats say it is a file of the written size. */
  lemma WriteLeavesFile(fs: FileSystem, path: string, content: Content, optsType: string, now: int)
    requires CleanPrefix(fs.prefix)
    requires WriteFileSync(fs, path, content, optsType, now).result.Ok?
    ensures path != ""
    ensures var w := WriteFileSync(fs, path, content, optsType, now).fs;
      var k := Fix(fs, path, false).value;
      var e := Encoded(content, TypeFor(k, optsType));
      && e.Ok?
      && Fix(w, path, false) == Ok(k)
      && ExistsSync(w, k) == Ok(true)
      && Get(w.store, k) == Some(Text(e.value.0))
      && StatSync(w, k).Ok? && StatSync(w, k).value.Some?
      && StatSync(w, k).value.value.file
      && StatSync(w, k).value.value.size == e.value.1
  {
    WriteStoresData(fs, path, content, optsType, now);
    WriteStoresStats(fs, path, content, optsType, now);
  }

  /** `path` names an existing file whose key holds the data URL `d`. */
  ghost predicate HoldsFile(w: FileSystem, path: string, d: string) {
    && path != "" && Fix(w, path, false).Ok?
    && var k := Fix(w, path, false).value;
    && ExistsSync(w, k) == Ok(true)
    && StatSync(w, k).Ok? && StatSync(w, k).value.Some? && StatSync(w, k).value.value.file
    && Get(w.store, k) == Some(Text(d))
  }

  /** A successful write leaves a file holding the encoded content. */
  lemma WriteHoldsFile(fs: FileSystem, path: string, content: Content, optsType: string, now: int)
    requires CleanPrefix(fs.prefix)
    requires WriteFileSync(fs, path, content, optsType, now).result.Ok?
    ensures var e := Encoded(content, TypeFor(Fix(fs, path, false).value, optsType));
      e.Ok? && HoldsFile(WriteFileSync(fs, path, content, optsType, now).fs, path, e.value.0)
  {
    WriteLeavesFile(fs, path, content, optsType, now);
  }

  /** A file holding a string's data URL reads back, with an encoding, as
      the string. */
  lemma ReadHeldText(w: FileSystem, path: string, s: string, t: string, encoding: string)
    requires HoldsFile(w, path, StringToDataURL(s, t))
    requires PlainMime(t) && encoding != ""
    ensures ReadFileSync(w, path, encoding) == Ok(TextData(s))
  {
    var d := StringToDataURL(s, t);
    StringDataUrlRoundTrip(s, t);
    assert d != "" by { assert d[..|Scheme|] == Scheme; }
  }

  /** A file holding a string's data URL reads back, without an encoding,
      as the string's UTF-8 bytes. */
  lemma ReadHeldTextAsBytes(w: FileSystem, path: string, s: string, t: string)
    requires HoldsFile(w, path, StringToDataURL(s, t))
    requires PlainMime(t)
    ensures var r := ReadFileSync(w, path, "");
      r.Ok? && r.value.BytesData? && r.value.buffer.bytes == Utf8.Encode(s)
  {
    var d := StringToDataURL(s, t);
    Base64HasNoComma(Utf8.Encode(s));
    WrittenHeaderSaysBase64(if t != "" then t else DefaultTextMime, Utf8ToBase64(s));
    StringDataUrlAsBuffer(s, t);
    assert d != "" by { assert d[..|Scheme|] == Scheme; }
  }

  /** The data URL of a buffer is not empty, says `base64` in its header,
      and parses back to the buffer. */
  lemma BufferDataUrlFacts(buf: Buffer, m: string)
    requires m != "" && PlainMime(m) && !StartsWith(m, CharsetTag)
    ensures var d := Uint8ArrayToDataURL(buf, m);
      && d != "" && Contains(HeaderOf(d), "base64")
      && DataURLtoBuffer(d) == Ok(Buffer(buf.bytes, m))
  {
    var d := Uint8ArrayToDataURL(buf, m);
    Base64HasNoComma(buf.bytes);
    WrittenHeaderSaysBase64(m, BufferToBase64(buf.bytes));
    BufferDataUrlRoundTrip(buf, m);
    assert d != "" by { assert d[..|Scheme|] == Scheme; }
  }

  /** A file holding a buffer's data URL reads back, without an encoding,
      as the buffer's bytes with the media type they were stored under. */
  lemma ReadHeldBytes(w: FileSystem, path: string, buf: Buffer, m: string)
    requires HoldsFile(w, path, Uint8ArrayToDataURL(buf, m))
    requires m != "" && PlainMime(m) && !StartsWith(m, CharsetTag)
    ensures ReadFileSync(w, path, "") == Ok(BytesData(Buffer(buf.bytes, m)))
  {
    BufferDataUrlFacts(buf, m);
  }

  /** A string written is read back with an encoding. */
  lemma WriteThenReadText(fs: FileSystem, path: string, s: string, optsType: string, now: int, encoding: string)
    requires CleanPrefix(fs.prefix)
    requires WriteFileSync(fs, path, TextContent(s), optsType, now).result.Ok?
    requires PlainMime(TypeFor(Fix(fs, path, false).value, optsType))
    requires encoding != ""
    ensures ReadFileSync(WriteFileSync(fs, path, TextContent(s), optsType, now).fs, path, encoding) == Ok(TextData(s))
  {
    WriteHoldsFile(fs, path, TextContent(s), optsType, now);
    ReadHeldText(WriteFileSync(fs, path, TextContent(s), optsType, now).fs, path, s,
      TypeFor(Fix(fs, path, false).value, optsType), encoding);
  }

  /** A string written is read back without an encoding as its UTF-8
      bytes, since the stored header says `base64`. */
  lemma WriteTextThenReadBytes(fs: FileSystem, path: string, s: string, optsType: string, now: int)
    requires CleanPrefix(fs.prefix)
    requires WriteFileSync(fs, path, TextContent(s), optsType, now).result.Ok?
    requires PlainMime(TypeFor(Fix(fs, path, false).value, optsType))
    ensures var r := ReadFileSync(WriteFileSync(fs, path, TextContent(s), optsType, now).fs, path, "");
      r.Ok? && r.value.BytesData? && r.value.buffer.bytes == Utf8.Encode(s)
  {
    WriteHoldsFile(fs, path, TextContent(s), optsType, now);
    ReadHeldTextAsBytes(WriteFileSync(fs, path, TextContent(s), optsType, now).fs, path, s,
      TypeFor(Fix(fs, path, false).value, optsType));
  }

  /** Bytes written are read back without an encoding, with the media type
      they were stored under. */
  lemma WriteThenReadBytes(fs: FileSystem, path: string, buf: Buffer, optsType: string, now: int)
    requires CleanPrefix(fs.prefix)
    requires WriteFileSync(fs, path, BytesContent(buf), optsType, now).result.Ok?
    requires var m := BinaryMime(buf, TypeFor(Fix(fs, path, false).value, optsType));
      PlainMime(m) && !StartsWith(m, CharsetTag)
    ensures var m := BinaryMime(buf, TypeFor(Fix(fs, path, false).value, optsType));
      ReadFileSync(WriteFileSync(fs, path, BytesContent(buf), optsType, now).fs, path, "") ==
        Ok(BytesData(Buffer(buf.bytes, m)))
  {
    var t := TypeFor(Fix(fs, path, false).value, optsType);
    var m := BinaryMime(buf, t);
    WriteHoldsFile(fs, path, BytesContent(buf), optsType, now);
    assert Uint8ArrayToDataURL(buf, t) == Uint8ArrayToDataURL(buf, m);
    ReadHeldBytes(WriteFileSync(fs, path, BytesContent(buf), optsType, now).fs, path, buf, m);
  }

  /** Rewriting a file keeps its creation time and renews its
      modification and change times. */
  lemma WriteKeepsBirthtime(fs: FileSystem, path: string, content: Content, optsType: string, now: int)
    requires CleanPrefix(fs.prefix) && ValidTime(now)
    requires WriteFileSync(fs, path, content, optsType, now).result.Ok?
    requires ExistsSync(fs, path) == Ok(true)
    requires StatSync(fs, path).Ok? && StatSync(fs, path).value.Some?
    requires Storable(StatSync(fs, path).value.value.birthtime)
    ensures var st := StatSync(WriteFileSync(fs, path, content, optsType, now).fs, path);
      && st.Ok? && st.value.Some?
      && st.value.value.birthtime == StatSync(fs, path).value.value.birthtime
      && st.value.value.mtime == Date(now) && st.value.value.ctime == Date(now)
  {
    var k := Fix(fs, path, false).value;
    var w := WriteFileSync(fs, path, content, optsType, now).fs;
    var before := StatSync(fs, path).value.value;
    Refix(fs, path);
    StatFixed(fs, path);
    StatFixed(w, path);
    assert PriorStats(fs, k) == Ok(Some(before));
    var e := Encoded(content, TypeFor(k, optsType)).value;
    var st' := RewrittenStats(before, k, TypeFor(k, optsType), e.1, now);
    assert Get(w.store, MetaKey(k)) == Some(Json(ToDoc(st')));
    TimeRoundTrip(before.birthtime);
    TimeRoundTrip(Date(now));
  }

  // ---------------------------------------------------------------------
  // Directories
  // ---------------------------------------------------------------------

  /** A second `mkdirSync` of the same path reports `false` and changes
      nothing. */
  lemma MkdirTwice(fs: FileSystem, path: string, now: int, later: int, quota: Quota)
    requires CleanPrefix(fs.prefix) && path != ""
    ensures var fs1 := MkdirSync(fs, path, now, Unlimited).fs;
      MkdirSync(fs1, path, later, quota) == Step(fs1, Ok(false), [])
  {
    var k := Fix(fs, path, true).value;
    CleanKey(fs.prefix, k);
  }

  /** A second `mkdirSync` succeeds again when fixing the directory key
      once more, as the existence check does, gives a key that is not
      stored, as itself or as a directory. */
  lemma MkdirAgainWhenRefixMisses(fs: FileSystem, path: string, now: int, later: int)
    requires path != ""
    requires var k := Fix(fs, path, true).value;
      var k' := Fix(fs, k, false).value;
      && !ExistsSync(fs, k).value
      && k' != k && k' + "/" != k && k' != MetaKey(k) && k' + "/" != MetaKey(k)
    ensures var fs1 := MkdirSync(fs, path, now, Unlimited).fs;
      MkdirSync(fs1, path, later, Unlimited).result == Ok(true)
  {
  }

  /** The directory key of `/x` under the prefix `a:.` is `a:./x/`. */
  lemma UncleanPrefixDirKey()
    ensures FixPath("a:.", "/x", true) == Ok("a:./x/")
  {
    assert NoForbidden("/x");
    assert CleanPath("/x") == "/x";
    assert !StartsWith("/x", "a:./");
    assert "a:." + "/x" == "a:./x";
    assert !EndsWith("a:./x", "/");
    assert "a:./x" + "/" == "a:./x/";
  }

  /** Cleaning `a:./x/` drops the `:`. */
  lemma UncleanPrefixCleaned()
    ensures CleanPath("a:./x/") == "a./x/"
  {
    var k := "a:./x/";
    assert IsForbidden(':');
    assert RemoveForbidden(k[1..]) == k[2..];
    assert RemoveForbidden(k) == "a./x/";
    assert CollapseBackslashes(k, false) == k;
  }

  /** Fixing `a:./x/` again under the prefix `a:.` nests the cleaned key. */
  lemma UncleanPrefixRefix()
    ensures FixPath("a:.", "a:./x/", false) == Ok("a:./a./x/")
  {
    assert "a:." + "/" + "a./x/" == "a:./a./x/";
    assert "a./x/"[..4][1] != "a:./"[1];
    assert !StartsWith("a./x/", "a:./");
    UncleanPrefixCleaned();
  }

  /** Without a clean prefix a second `mkdirSync` can succeed again: under
      the prefix `a:.`, the existence check looks up `a:./a./x/` and never
      finds the `a:./x/` the first call wrote. */
  lemma MkdirTwiceUncleanPrefix(now: int, later: int)
    ensures var fs1 := MkdirSync(FileSystem("a:.", [], Events.Empty), "/x", now, Unlimited).fs;
      MkdirSync(fs1, "/x", later, Unlimited).result == Ok(true)
  {
    UncleanPrefixDirKey();
    UncleanPrefixRefix();
    var k := "a:./x/";
    var k' := "a:./a./x/";
    assert |k'| == 9 && |k| == 6 && |MetaKey(k)| == 6 + |MetaSuffix|;
    MkdirAgainWhenRefixMisses(FileSystem("a:.", [], Events.Empty), "/x", now, later);
  }

  /** Under the prefix `a:.`, `/x` is fixed into `a:./x`. */
  lemma UncleanPrefixFileKey()
    ensures FixPath("a:.", "/x", false) == Ok("a:./x")
  {
    assert NoForbidden("/x");
    assert CleanPath("/x") == "/x";
    assert !StartsWith("/x", "a:./");
    assert "a:." + "/x" == "a:./x";
  }

  /** Fixing `a:./x` again under the prefix `a:.` drops the `:` and nests
      the key. */
  lemma UncleanPrefixFileRefix()
    ensures FixPath("a:.", "a:./x", false) == Ok("a:./a./x")
  {
    assert "a:." + "/" + "a./x" == "a:./a./x";
    assert "a./x"[..4][1] != "a:./"[1];
    assert !StartsWith("a./x", "a:./");
    UncleanPrefixFileCleaned();
  }

  /** Cleaning `a:./x` drops the `:`. */
  lemma UncleanPrefixFileCleaned()
    ensures CleanPath("a:./x") == "a./x"
  {
    var k := "a:./x";
    assert IsForbidden(':');
    assert RemoveForbidden(k[1..]) == k[2..];
    assert RemoveForbidden(k) == "a./x";
    assert CollapseBackslashes(k, false) == k;
  }

  /** Without a clean prefix `utimesSync` can throw on a path whose stats
      `statSync` reads: under the prefix `a:.`, `statSync('/x')` reads
      `a:./x.meta`, while `utimesSync('/x', n)` fixes the path a second time
      and looks for `a:./a./x.meta`, which is missing. */
  lemma UtimesUncleanPrefix(doc: MetaDoc, n: int)
    ensures var fs := FileSystem("a:.", [("a:./x" + MetaSuffix, Json(doc))], Events.Empty);
      && StatSync(fs, "/x") == Ok(Some(FromDoc(doc)))
      && UtimesSync(fs, "/x", NumberArg(n), Omitted) == Step(fs, Err(NullStats), [])
  {
    var fs := FileSystem("a:.", [("a:./x" + MetaSuffix, Json(doc))], Events.Empty);
    UncleanPrefixFileKey();
    UncleanPrefixFileRefix();
    assert |"a:./a./x" + MetaSuffix| != |"a:./x" + MetaSuffix|;
    assert !Has(fs.store, MetaKey("a:./a./x"));
  }

  /** A new directory exists, has directory stats, and can be listed. */
  lemma MkdirThenReaddir(fs: FileSystem, path: string, now: int)
    requires CleanPrefix(fs.prefix) && path != ""
    requires !ExistsSync(fs, Fix(fs, path, true).value).value
    ensures var fs1 := MkdirSync(fs, path, now, Unlimited).fs;
      && ExistsSync(fs1, Fix(fs, path, true).value) == Ok(true)
      && ReaddirSync(fs1, path).Ok?
  {
    var k := Fix(fs, path, true).value;
    var fs1 := MkdirSync(fs, path, now, Unlimited).fs;
    CleanKey(fs.prefix, k);
    DirStatsShape(k, now);
    assert Get(fs1.store, MetaKey(k)) == Some(Json(ToDoc(DirStats(k, now))));
  }

  /** `"/"` is fixed to the root key, as a file or a directory path. */
  lemma RootKey(fs: FileSystem)
    ensures Fix(fs, "/", false) == Ok(fs.prefix + "/")
    ensures Fix(fs, "/", true) == Ok(fs.prefix + "/")
  {
    assert CleanPath("/") == "/";
  }

  /** `mkdirSync` of an absent directory writes its key, then its meta key. */
  lemma MkdirWrites(fs: FileSystem, path: string, now: int)
    requires path != ""
    ensures var k := Fix(fs, path, true).value;
      !ExistsSync(fs, k).value ==>
        MkdirSync(fs, path, now, Unlimited).fs ==
          fs.(store := Set(Set(fs.store, k, Text("")), MetaKey(k), Json(ToDoc(DirStats(k, now)))))
  {
    FixDirectory(fs.prefix, path);
  }

  /** No stored key lies under the root key of `prefix`: storage that
      another instance, or nothing, wrote. */
  ghost predicate NoEntries(s: Store<Value>, prefix: string) {
    forall x :: Has(s, x) ==> !StartsWith(x, prefix + "/")
  }

  /** A key that starts with `p` still does with a character added. */
  lemma StartsWithExtended(k: string, p: string, c: string)
    requires StartsWith(k, p)
    ensures StartsWith(k + c, p)
  {
    assert (k + c)[..|p|] == k[..|p|];
  }

  /** A new file system over storage with no entry of its own writes the
      root key, then its meta key, after the stored entries. */
  lemma NewWrites(s: Store<Value>, userPrefix: string, now: int)
    requires NoEntries(s, userPrefix + ".")
    ensures var k := userPrefix + "./";
      New(s, userPrefix, now).store ==
        Set(Set(s, k, Text("")), MetaKey(k), Json(ToDoc(DirStats(k, now))))
  {
    var p := userPrefix + ".";
    var fs0 := FileSystem(p, s, Events.Empty);
    var k := userPrefix + "./";
    assert Fix(fs0, "/", true) == Ok(k) by {
      RootKey(fs0);
      assert p + "/" == k;
    }
    var k' := Fix(fs0, k, false).value;
    StartsWithExtended(k', p + "/", "/");
    assert !ExistsSync(fs0, k).value;
    MkdirWrites(fs0, "/", now);
  }

  /** A new file system over storage with no entry of its own holds the
      stored entries followed by the root key and its meta key. */
  lemma NewStore(s: Store<Value>, userPrefix: string, now: int)
    requires NoEntries(s, userPrefix + ".")
    ensures var k := userPrefix + "./";
      New(s, userPrefix, now).store == s + [(k, Text("")), (MetaKey(k), Json(ToDoc(DirStats(k, now))))]
  {
    var k := userPrefix + "./";
    RootKeysFresh(s, userPrefix);
    NewWrites(s, userPrefix, now);
    SetTwiceFresh(s, k, Text(""), MetaKey(k), Json(ToDoc(DirStats(k, now))));
  }

  /** With nothing stored under the root, neither the root key nor its
      meta key is stored, and the two differ. */
  lemma RootKeysFresh(s: Store<Value>, userPrefix: string)
    requires NoEntries(s, userPrefix + ".")
    ensures var k := userPrefix + "./";
      k != MetaKey(k) && !Has(s, k) && !Has(s, MetaKey(k))
  {
    var p := userPrefix + ".";
    var k := userPrefix + "./";
    assert p + "/" == k;
    assert MetaKey(k) != k by { assert MetaKey(k)[|k|] == '.'; }
    assert StartsWith(k, p + "/");
    StartsWithExtended(k, p + "/", MetaSuffix);
  }

  /** The stored keys under the root key are the root key with `''` and
      its meta key with directory stats made at `now`. */
  ghost predicate FreshRoot(fs: FileSystem, now: int) {
    var k := fs.prefix + "/";
    forall x :: StartsWith(x, k) ==>
      Get(fs.store, x) ==
        if x == k then Some(Text(""))
        else if x == MetaKey(k) then Some(Json(ToDoc(DirStats(k, now))))
        else None
  }

  lemma NewFreshRoot(s: Store<Value>, userPrefix: string, now: int)
    requires NoEntries(s, userPrefix + ".")
    ensures FreshRoot(New(s, userPrefix, now), now)
  {
    assert userPrefix + "." + "/" == userPrefix + "./";
    var fs := New(s, userPrefix, now);
    forall x | StartsWith(x, fs.prefix + "/") ensures Get(fs.store, x) ==
      if x == fs.prefix + "/" then Some(Text(""))
      else if x == MetaKey(fs.prefix + "/") then Some(Json(ToDoc(DirStats(fs.prefix + "/", now))))
      else None
    {
      NewGet(s, userPrefix, now, x);
    }
  }

  /** Nothing in a fresh root is listed under the root. */
  lemma FreshRootUnlisted(fs: FileSystem, now: int, x: string)
    requires FreshRoot(fs, now)
    ensures !(Has(fs.store, x) && Listed(x, fs.prefix + "/"))
  {
    var k := fs.prefix + "/";
    assert MetaKey(k)[|MetaKey(k)| - 5..] == MetaSuffix;
  }

  /** The stats of a fresh root say it is a directory. */
  lemma FreshRootStat(fs: FileSystem, now: int)
    requires CleanPrefix(fs.prefix) && FreshRoot(fs, now)
    ensures var st := StatSync(fs, fs.prefix + "/");
      st.Ok? && st.value.Some? && st.value.value.directory
  {
    var k := fs.prefix + "/";
    CleanKey(fs.prefix, k);
    assert Get(fs.store, MetaKey(k)) == Some(Json(ToDoc(DirStats(k, now))));
    assert k[|k| - 1] == '/';
    DirStatsShape(k, now);
  }

  /** `readdirSync` succeeds on an existing directory. */
  lemma ReaddirOfDirectory(fs: FileSystem, path: string)
    requires path != "" && Fix(fs, path, true).Ok?
    requires ExistsSync(fs, Fix(fs, path, true).value) == Ok(true)
    requires var st := StatSync(fs, Fix(fs, path, true).value);
      st.Ok? && st.value.Some? && st.value.value.directory
    ensures ReaddirSync(fs, path).Ok?
  {
  }

  /** A fresh root exists and lists nothing. */
  lemma FreshRootEmpty(fs: FileSystem, now: int)
    requires CleanPrefix(fs.prefix) && FreshRoot(fs, now)
    ensures ExistsSync(fs, "/") == Ok(true)
    ensures ReaddirSync(fs, "/") == Ok([])
  {
    var k := fs.prefix + "/";
    RootKey(fs);
    assert Get(fs.store, k) == Some(Text(""));
    assert ExistsSync(fs, k) == Ok(true) by {
      CleanKey(fs.prefix, k);
    }
    FreshRootStat(fs, now);
    ReaddirOfDirectory(fs, "/");
    var r := ReaddirSync(fs, "/").value;
    if |r| > 0 {
      FreshRootUnlisted(fs, now, k + r[0]);
      assert false;
    }
  }

  /** A new file system has the root directory, and it is empty. */
  lemma NewHasEmptyRoot(s: Store<Value>, userPrefix: string, now: int)
    requires CleanPrefix(userPrefix + ".") && NoEntries(s, userPrefix + ".")
    ensures ExistsSync(New(s, userPrefix, now), "/") == Ok(true)
    ensures ReaddirSync(New(s, userPrefix, now), "/") == Ok([])
  {
    NewFreshRoot(s, userPrefix, now);
    FreshRootEmpty(New(s, userPrefix, now), now);
  }

  /** Splitting a key whose prefix has no separator, on both separators. */
  lemma SegmentsOfKey(prefix: string, name: string)
    requires '/' !in prefix && '\\' !in prefix && '/' !in name && '\\' !in name
    ensures SplitSegments(prefix + "/" + name) == [prefix, name]
  {
    var t := prefix + "/" + name;
    assert forall i :: 0 <= i < |t| ==> t[i] != '\\';
    assert seq(|t|, i requires 0 <= i < |t| => if t[i] == '\\' then '/' else t[i]) == t;
    SplitAtSeparator(prefix, name, '/');
    SplitNoSeparator(name, '/');
  }

  /** `"/name"` is fixed to the key `name` under the root. */
  lemma FixRootChild(prefix: string, name: string)
    requires '/' !in prefix && NoForbidden(name)
    ensures FixPath(prefix, "/" + name, false) == Ok(prefix + "/" + name)
  {
    assert IsForbidden('\\');
    assert NoForbidden("/" + name) by {
      assert forall i :: 1 <= i < |"/" + name| ==> ("/" + name)[i] == name[i - 1];
    }
    assert CleanPath("/" + name) == "/" + name;
    if prefix != "" {
      assert ("/" + name)[0] != (prefix + "/")[0];
    }
    assert prefix + ("/" + name) == prefix + "/" + name;
  }

  /** A relative segment is fixed to the key of that name under the root. */
  lemma FixBare(prefix: string, seg: string)
    requires NoForbidden(seg) && seg != "" && seg[0] != '/' && !StartsWith(seg, prefix + "/")
    ensures FixPath(prefix, seg, false) == Ok(prefix + "/" + seg)
  {
    assert IsForbidden('\\');
    assert CleanPath(seg) == seg;
  }

  /** Two keys with a common head differ when their tails do. */
  lemma TailsDiffer(head: string, a: string, b: string)
    requires a != b
    ensures head + a != head + b
  {
    assert (head + a)[|head|..] == a && (head + b)[|head|..] == b;
  }

  /** `mkdirSync` of a fixed key with nothing stored at it or below its
      directory form creates exactly the directory key and its meta key. */
  lemma MkdirFresh(fs: FileSystem, t: string, now: int)
    requires CleanPrefix(fs.prefix)
    requires Fix(fs, t, false) == Ok(t) && !EndsWith(t, "/")
    requires !Has(fs.store, t) && !Has(fs.store, t + "/") && !Has(fs.store, t + "//")
    ensures ExistsSync(fs, t) == Ok(false)
    ensures var r := MkdirSync(fs, t, now, Unlimited);
      && r.result == Ok(true) && r.fs.prefix == fs.prefix
      && forall x :: Has(r.fs.store, x) <==> Has(fs.store, x) || x == t + "/" || x == MetaKey(t + "/")
  {
    var k := t + "/";
    ExistsFixed(fs, t);
    FixDirectory(fs.prefix, t);
    assert k[|fs.prefix|..] == t[|fs.prefix|..] + "/";
    CleanKey(fs.prefix, k);
    assert !ExistsSync(fs, k).value;
  }

  /** The store holds the root directory key and its meta key, nothing
      else. */
  ghost predicate RootOnly(fs: FileSystem) {
    forall x :: Has(fs.store, x) <==> x == fs.prefix + "/" || x == fs.prefix + "/" + MetaSuffix
  }

  /** What a new file system over storage with no entry of its own reads
      at any key. */
  lemma NewGet(s: Store<Value>, userPrefix: string, now: int, x: string)
    requires NoEntries(s, userPrefix + ".")
    ensures var k := userPrefix + "./";
      Get(New(s, userPrefix, now).store, x) ==
        if x == k then Some(Text(""))
        else if x == MetaKey(k) then Some(Json(ToDoc(DirStats(k, now))))
        else Get(s, x)
  {
    NewWrites(s, userPrefix, now);
  }

  /** On the first load, with nothing stored, only the root is. */
  lemma NewRootOnly(userPrefix: string, now: int)
    ensures RootOnly(New([], userPrefix, now))
  {
    var k := userPrefix + "./";
    assert userPrefix + "." + "/" == k;
    var fs := New([], userPrefix, now);
    var meta := Json(ToDoc(DirStats(k, now)));
    assert MetaKey(k) == k + MetaSuffix;
    NewStore([], userPrefix, now);
    assert fs.store == [(k, Text("")), (MetaKey(k), meta)];
    forall x ensures Has(fs.store, x) <==> x == k || x == k + MetaSuffix {
      GetPair(fs.store, k, Text(""), MetaKey(k), meta, x);
    }
  }

  /** `"/name"` names the key `<prefix>/name`, absent when only the root is
      stored, and that key splits into the prefix and the name. */
  lemma RootChildAbsent(fs: FileSystem, name: string)
    requires CleanPrefix(fs.prefix) && '/' !in fs.prefix && RootOnly(fs)
    requires name != "" && NoForbidden(name) && '/' !in name && name != MetaSuffix
    ensures var d := fs.prefix + "/" + name;
      && Fix(fs, "/" + name, false) == Ok(d)
      && !ExistsSync(fs, d).value
      && SplitSegments(d) == [fs.prefix, name]
  {
    var p := fs.prefix;
    var r0 := p + "/";
    assert IsForbidden('\\');
    FixRootChild(p, name);
    var d := r0 + name;
    assert p + "/" + name == d;
    CleanKey(p, d);
    ExistsFixed(fs, d);
    TailsDiffer(r0, name, MetaSuffix);
    assert (name + "/")[|name|] == '/';
    TailsDiffer(r0, name + "/", MetaSuffix);
    assert r0 + (name + "/") == d + "/";
    SegmentsOfKey(p, name);
  }

  /** `<prefix>/<prefix>` and its two directory forms differ from the
      root key and the root's meta key. */
  lemma FirstDirKeysDiffer(p: string)
    requires EndsWith(p, ".")
    ensures var r0 := p + "/";
      var t1 := r0 + p;
      && t1 != r0 && t1 != r0 + MetaSuffix
      && t1 + "/" != r0 && t1 + "/" != r0 + MetaSuffix
      && t1 + "//" != r0 && t1 + "//" != r0 + MetaSuffix
  {
    var r0 := p + "/";
    var t1 := r0 + p;
    var m0 := r0 + MetaSuffix;
    assert t1[|t1| - 1] == '.';
    assert r0[|r0| - 1] == '/' && m0[|m0| - 1] == 'a';
    assert (t1 + "/")[|t1|] == '/';
    assert (t1 + "//")[|t1| + 1] == '/';
  }

  /** The prefix segment, fixed, is the clean key `<prefix>/<prefix>`. */
  lemma FirstDirKey(fs: FileSystem)
    requires CleanPrefix(fs.prefix) && '/' !in fs.prefix && EndsWith(fs.prefix, ".")
    ensures var p := fs.prefix;
      var t1 := p + "/" + p;
      && Fix(fs, p, false) == Ok(t1)
      && Fix(fs, t1, false) == Ok(t1)
      && !EndsWith(t1, "/")
  {
    var p := fs.prefix;
    var r0 := p + "/";
    assert IsForbidden('\\');
    assert p != "" && p[0] != '/' && !StartsWith(p, r0);
    FixBare(p, p);
    var t1 := r0 + p;
    assert p + "/" + p == t1;
    CleanKey(p, t1);
    assert !EndsWith(t1, "/") by { assert t1[|t1| - 1] == '.'; }
  }

  /** The first step of the `mkdirsSync` loop when only the root is stored:
      the prefix segment becomes `<prefix>/<prefix>`, which is created. */
  lemma MkdirsFirstStep(fs: FileSystem, now: int)
    requires CleanPrefix(fs.prefix) && '/' !in fs.prefix && EndsWith(fs.prefix, ".")
    requires RootOnly(fs)
    ensures var p := fs.prefix;
      var t1 := p + "/" + p;
      && Fix(fs, p, false) == Ok(t1)
      && !ExistsSync(fs, t1).value
      && var fs1 := MkdirSync(fs, t1, now, Unlimited).fs;
      && fs1.prefix == p
      && Has(fs1.store, t1 + "/")
      && forall x :: Has(fs1.store, x) <==>
           x == p + "/" || x == p + "/" + MetaSuffix || x == t1 + "/" || x == MetaKey(t1 + "/")
  {
    var p := fs.prefix;
    var t1 := p + "/" + p;
    FirstDirKey(fs);
    FirstDirKeysDiffer(p);
    assert !Has(fs.store, t1) && !Has(fs.store, t1 + "/") && !Has(fs.store, t1 + "//");
    MkdirFresh(fs, t1, now);
  }

  /** `head + y` is none of the four keys stored after the first step when
      `y` is a non-empty tail with a `/` and `y` does not start with the
      first step's directory unless it is longer than its meta tail. */
  lemma NotAfterFirstStep(p: string, name: string, z: string)
    requires p != "" && name != "" && '/' !in name && name != MetaSuffix
    requires z == "" || z == "/" || z == "//"
    ensures var r0 := p + "/";
      var y := p + "/" + name + z;
      && r0 + y != r0 && r0 + y != r0 + MetaSuffix
      && r0 + y != r0 + p + "/" && r0 + y != r0 + p + "/" + MetaSuffix
  {
    var r0 := p + "/";
    var t1d := r0 + p + "/";
    var y := p + "/" + name + z;
    assert y[|p|] == '/';
    TailsDiffer(r0, y, "");
    TailsDiffer(r0, y, MetaSuffix);
    assert r0 + y == t1d + (name + z);
    TailsDiffer(t1d, name + z, "");
    if z != "" {
      assert (name + z)[|name|] == '/';
    }
    TailsDiffer(t1d, name + z, MetaSuffix);
    assert t1d + "" == r0 + p + "/" && t1d + MetaSuffix == r0 + p + "/" + MetaSuffix;
  }

  /** `<prefix>/<prefix>/name` is already a clean key. */
  lemma SecondDirKey(fs: FileSystem, name: string)
    requires CleanPrefix(fs.prefix) && '/' !in fs.prefix && EndsWith(fs.prefix, ".")
    requires name != "" && NoForbidden(name) && '/' !in name
    ensures var t2 := fs.prefix + "/" + fs.prefix + "/" + name;
      Fix(fs, t2, false) == Ok(t2) && !EndsWith(t2, "/")
  {
    var p := fs.prefix;
    var t2 := p + "/" + p + "/" + name;
    assert IsForbidden('\\');
    assert NoForbidden(t2[|p|..]) by {
      assert t2[|p|..] == "/" + p + "/" + name;
      assert forall i :: 0 <= i < |t2[|p|..]| ==>
        t2[|p|..][i] == '/' || t2[|p|..][i] in p || t2[|p|..][i] in name;
    }
    CleanKey(p, t2);
    assert !EndsWith(t2, "/") by { assert t2[|t2| - 1] == name[|name| - 1]; }
  }

  /** `y` is none of the four keys stored after the first step of the
      `mkdirsSync` loop: the root, the nested prefix, and their meta keys. */
  predicate NotFirstStepKey(p: string, y: string) {
    var r0 := p + "/";
    && y != r0 && y != r0 + MetaSuffix
    && y != r0 + p + "/" && y != r0 + p + "/" + MetaSuffix
  }

  /** `<prefix>/<prefix>/name` and its two directory forms are none of
      those keys. */
  lemma SecondDirKeysDiffer(p: string, name: string)
    requires p != "" && name != "" && '/' !in name && name != MetaSuffix
    ensures var t2 := p + "/" + p + "/" + name;
      NotFirstStepKey(p, t2) && NotFirstStepKey(p, t2 + "/") && NotFirstStepKey(p, t2 + "//")
  {
    var r0 := p + "/";
    var t2 := p + "/" + p + "/" + name;
    NotAfterFirstStep(p, name, "");
    NotAfterFirstStep(p, name, "/");
    NotAfterFirstStep(p, name, "//");
    assert t2 == r0 + (p + "/" + name + "");
    assert t2 + "/" == r0 + (p + "/" + name + "/");
    assert t2 + "//" == r0 + (p + "/" + name + "//");
  }

  /** The second step of the `mkdirsSync` loop: `<prefix>/<prefix>/name`
      is already a clean key, is absent, and is created. */
  lemma MkdirsSecondStep(fs: FileSystem, name: string, now: int)
    requires CleanPrefix(fs.prefix) && '/' !in fs.prefix && EndsWith(fs.prefix, ".")
    requires name != "" && NoForbidden(name) && '/' !in name && name != MetaSuffix
    requires var p := fs.prefix;
      forall x :: Has(fs.store, x) <==>
        x == p + "/" || x == p + "/" + MetaSuffix || x == p + "/" + p + "/" || x == p + "/" + p + "/" + MetaSuffix
    ensures var p := fs.prefix;
      var t2 := p + "/" + p + "/" + name;
      && Fix(fs, t2, false) == Ok(t2)
      && !ExistsSync(fs, t2).value
      && var fs2 := MkdirSync(fs, t2, now, Unlimited).fs;
      && fs2.prefix == p
      && Has(fs2.store, t2 + "/")
      && (forall x :: Has(fs.store, x) ==> Has(fs2.store, x))
      && forall x :: Has(fs2.store, x) <==> Has(fs.store, x) || x == t2 + "/" || x == MetaKey(t2 + "/")
  {
    var p := fs.prefix;
    var r0 := p + "/";
    var t2 := p + "/" + p + "/" + name;
    SecondDirKeysDiffer(p, name);
    assert !Has(fs.store, t2) && !Has(fs.store, t2 + "/") && !Has(fs.store, t2 + "//");
    SecondDirKey(fs, name);
    MkdirFresh(fs, t2, now);
  }

  /** Neither `<prefix>/name` nor its directory form is among the six keys
      stored after both steps. */
  lemma NotAfterSecondStep(p: string, name: string, z: string)
    requires p != "" && name != "" && '/' !in name && name != MetaSuffix && name != p
    requires z == "" || z == "/"
    ensures var r0 := p + "/";
      var x := r0 + name + z;
      && x != r0 && x != r0 + MetaSuffix
      && x != r0 + p + "/" && x != r0 + p + "/" + MetaSuffix
      && x != r0 + p + "/" + name + "/" && x != r0 + p + "/" + name + "/" + MetaSuffix
  {
    var r0 := p + "/";
    var y := name + z;
    assert r0 + name + z == r0 + y;
    assert z != "" ==> y[|name|] == '/';
    assert z == "" ==> y == name;
    TailsDiffer(r0, y, "");
    TailsDiffer(r0, y, MetaSuffix);
    assert z == "/" ==> y[..|y| - 1] == name;
    TailsDiffer(r0, y, p + "/");
    assert y != p + "/" + MetaSuffix by {
      if z == "/" { assert y[|y| - 1] != (p + "/" + MetaSuffix)[|p| + 5]; }
    }
    TailsDiffer(r0, y, p + "/" + MetaSuffix);
    TailsDiffer(r0, y, p + "/" + name + "/");
    assert y != p + "/" + name + "/" + MetaSuffix by {
      if z == "/" { assert y[|y| - 1] == '/'; }
    }
    TailsDiffer(r0, y, p + "/" + name + "/" + MetaSuffix);
    assert r0 + (p + "/") == r0 + p + "/";
    assert r0 + (p + "/" + MetaSuffix) == r0 + p + "/" + MetaSuffix;
    assert r0 + (p + "/" + name + "/") == r0 + p + "/" + name + "/";
    assert r0 + (p + "/" + name + "/" + MetaSuffix) == r0 + p + "/" + name + "/" + MetaSuffix;
  }

  /** One turn of the `mkdirsSync` loop that creates its directory. */
  lemma MkdirsLoopStep(fs: FileSystem, segments: seq<string>, pathtmp: string, t: string, now: int)
    requires |segments| > 0
    requires Fix(fs, if pathtmp != "" then pathtmp + "/" + segments[0] else segments[0], false) == Ok(t)
    requires !ExistsSync(fs, t).value
    ensures MkdirsLoop(fs, segments, pathtmp, now, Unlimited) ==
      MkdirsLoop(MkdirSync(fs, t, now, Unlimited).fs, segments[1..], t, now, Unlimited)
  {
  }

  /** The first turn of the `mkdirsSync` loop over `[prefix, name]` when
      only the root is stored creates `<prefix>/<prefix>`. */
  lemma MkdirsFirstTurn(fs: FileSystem, name: string, now: int)
    requires CleanPrefix(fs.prefix) && '/' !in fs.prefix && EndsWith(fs.prefix, ".")
    requires RootOnly(fs)
    ensures var p := fs.prefix;
      var fs1 := MkdirSync(fs, p + "/" + p, now, Unlimited).fs;
      MkdirsLoop(fs, [p, name], "", now, Unlimited) == MkdirsLoop(fs1, [name], p + "/" + p, now, Unlimited)
  {
    var p := fs.prefix;
    MkdirsFirstStep(fs, now);
    assert [p, name][1..] == [name];
    MkdirsLoopStep(fs, [p, name], "", p + "/" + p, now);
  }

  /** The keys stored after the first turn, spelled out. */
  lemma MkdirsFirstStepKeys(fs: FileSystem, now: int)
    requires CleanPrefix(fs.prefix) && '/' !in fs.prefix && EndsWith(fs.prefix, ".")
    requires RootOnly(fs)
    ensures var p := fs.prefix;
      var fs1 := MkdirSync(fs, p + "/" + p, now, Unlimited).fs;
      && fs1.prefix == p
      && forall x :: Has(fs1.store, x) <==>
        x == p + "/" || x == p + "/" + MetaSuffix || x == p + "/" + p + "/" || x == p + "/" + p + "/" + MetaSuffix
  {
    var p := fs.prefix;
    var t1 := p + "/" + p;
    MkdirsFirstStep(fs, now);
    assert t1 + "/" == p + "/" + p + "/";
    assert MetaKey(t1 + "/") == p + "/" + p + "/" + MetaSuffix;
  }

  /** The last turn of the loop, from the keys the first turn leaves,
      creates `<prefix>/<prefix>/name` and succeeds. */
  lemma MkdirsLastTurn(fs: FileSystem, name: string, now: int)
    requires CleanPrefix(fs.prefix) && '/' !in fs.prefix && EndsWith(fs.prefix, ".")
    requires name != "" && NoForbidden(name) && '/' !in name && name != MetaSuffix
    requires var p := fs.prefix;
      forall x :: Has(fs.store, x) <==>
        x == p + "/" || x == p + "/" + MetaSuffix || x == p + "/" + p + "/" || x == p + "/" + p + "/" + MetaSuffix
    ensures var p := fs.prefix;
      var fs2 := MkdirSync(fs, p + "/" + p + "/" + name, now, Unlimited).fs;
      MkdirsLoop(fs, [name], p + "/" + p, now, Unlimited) == (fs2, Ok(()))
  {
    var p := fs.prefix;
    var t2 := p + "/" + p + "/" + name;
    MkdirsSecondStep(fs, name, now);
    assert (p + "/" + p) + "/" + name == t2;
    MkdirsLoopStep(fs, [name], p + "/" + p, t2, now);
    assert [name][1..] == [];
  }

  /** The two turns of the `mkdirsSync` loop over `[prefix, name]` when
      only the root is stored. */
  lemma MkdirsTwoTurns(fs: FileSystem, name: string, now: int)
    requires CleanPrefix(fs.prefix) && '/' !in fs.prefix && EndsWith(fs.prefix, ".")
    requires RootOnly(fs)
    requires name != "" && NoForbidden(name) && '/' !in name && name != MetaSuffix
    ensures var p := fs.prefix;
      var fs1 := MkdirSync(fs, p + "/" + p, now, Unlimited).fs;
      var fs2 := MkdirSync(fs1, p + "/" + p + "/" + name, now, Unlimited).fs;
      MkdirsLoop(fs, [p, name], "", now, Unlimited) == (fs2, Ok(()))
  {
    MkdirsFirstTurn(fs, name, now);
    MkdirsFirstStepKeys(fs, now);
    var p := fs.prefix;
    MkdirsLastTurn(MkdirSync(fs, p + "/" + p, now, Unlimited).fs, name, now);
  }

  /** After both turns, the two nested directories are stored. */
  lemma MkdirsTurnsCreate(fs: FileSystem, name: string, now: int)
    requires CleanPrefix(fs.prefix) && '/' !in fs.prefix && EndsWith(fs.prefix, ".")
    requires RootOnly(fs)
    requires name != "" && NoForbidden(name) && '/' !in name && name != MetaSuffix
    ensures var p := fs.prefix;
      var fs1 := MkdirSync(fs, p + "/" + p, now, Unlimited).fs;
      var fs2 := MkdirSync(fs1, p + "/" + p + "/" + name, now, Unlimited).fs;
      && fs2.prefix == p
      && Has(fs2.store, p + "/" + p + "/")
      && Has(fs2.store, p + "/" + p + "/" + name + "/")
  {
    var p := fs.prefix;
    var t1 := p + "/" + p;
    var fs1 := MkdirSync(fs, t1, now, Unlimited).fs;
    MkdirsFirstStep(fs, now);
    assert t1 + "/" == p + "/" + p + "/";
    assert MetaKey(t1 + "/") == p + "/" + p + "/" + MetaSuffix;
    MkdirsSecondStep(fs1, name, now);
    assert p + "/" + p + "/" + name + "/" == (p + "/" + p + "/" + name) + "/";
  }

  /** After both turns, no key other than the six named ones is stored. */
  lemma MkdirsTurnsOnly(fs: FileSystem, name: string, now: int, x: string)
    requires CleanPrefix(fs.prefix) && '/' !in fs.prefix && EndsWith(fs.prefix, ".")
    requires RootOnly(fs)
    requires name != "" && NoForbidden(name) && '/' !in name && name != MetaSuffix
    ensures var p := fs.prefix;
      var fs1 := MkdirSync(fs, p + "/" + p, now, Unlimited).fs;
      var fs2 := MkdirSync(fs1, p + "/" + p + "/" + name, now, Unlimited).fs;
      Has(fs2.store, x) ==>
        || x == p + "/" || x == p + "/" + MetaSuffix
        || x == p + "/" + p + "/" || x == p + "/" + p + "/" + MetaSuffix
        || x == p + "/" + p + "/" + name + "/" || x == p + "/" + p + "/" + name + "/" + MetaSuffix
  {
    var p := fs.prefix;
    var t1 := p + "/" + p;
    var fs1 := MkdirSync(fs, t1, now, Unlimited).fs;
    var t2 := p + "/" + p + "/" + name;
    MkdirsFirstStep(fs, now);
    assert t1 + "/" == p + "/" + p + "/";
    assert MetaKey(t1 + "/") == p + "/" + p + "/" + MetaSuffix;
    MkdirsSecondStep(fs1, name, now);
    assert t2 + "/" == p + "/" + p + "/" + name + "/";
    assert MetaKey(t2 + "/") == p + "/" + p + "/" + name + "/" + MetaSuffix;
  }

  /** The `mkdirsSync` loop over `[prefix, name]` when only the root is
      stored: both turns create their directory, and `x` is stored
      afterwards only if it is one of six keys. */
  lemma MkdirsLoopFromRoot(fs: FileSystem, name: string, now: int, x: string)
    requires CleanPrefix(fs.prefix) && '/' !in fs.prefix && EndsWith(fs.prefix, ".")
    requires RootOnly(fs)
    requires name != "" && NoForbidden(name) && '/' !in name && name != MetaSuffix
    ensures var p := fs.prefix;
      var r := MkdirsLoop(fs, [p, name], "", now, Unlimited);
      && r.1 == Ok(())
      && r.0.prefix == p
      && Has(r.0.store, p + "/" + p + "/")
      && Has(r.0.store, p + "/" + p + "/" + name + "/")
      && (Has(r.0.store, x) ==>
        || x == p + "/" || x == p + "/" + MetaSuffix
        || x == p + "/" + p + "/" || x == p + "/" + p + "/" + MetaSuffix
        || x == p + "/" + p + "/" + name + "/" || x == p + "/" + p + "/" + name + "/" + MetaSuffix)
  {
    MkdirsTwoTurns(fs, name, now);
    MkdirsTurnsCreate(fs, name, now);
    MkdirsTurnsOnly(fs, name, now, x);
  }

  /** `mkdirsSync("/name")` when only the root is stored. */
  lemma MkdirsFromRoot(fs: FileSystem, name: string, now: int)
    requires CleanPrefix(fs.prefix) && '/' !in fs.prefix && EndsWith(fs.prefix, ".")
    requires RootOnly(fs)
    requires name != "" && NoForbidden(name) && '/' !in name
    requires name != MetaSuffix && name != fs.prefix
    ensures var p := fs.prefix;
      var r := MkdirsSync(fs, "/" + name, now, Unlimited);
      && r.result == Ok(true)
      && Has(r.fs.store, p + "/" + p + "/")
      && Has(r.fs.store, p + "/" + p + "/" + name + "/")
      && ExistsSync(r.fs, "/" + name) == Ok(false)
  {
    var p := fs.prefix;
    RootChildAbsent(fs, name);
    var d := p + "/" + name;
    MkdirsLoopFromRoot(fs, name, now, d);
    MkdirsLoopFromRoot(fs, name, now, d + "/");
    var fs2 := MkdirsLoop(fs, [p, name], "", now, Unlimited).0;
    assert MkdirsSync(fs, "/" + name, now, Unlimited) == Step(fs2, Ok(true), []);
    ExistsFixed(fs2, "/" + name);
    NotAfterSecondStep(p, name, "");
    NotAfterSecondStep(p, name, "/");
    assert p + "/" + name + "" == d && p + "/" + name + "/" == d + "/";
  }

  /** `mkdirsSync("/name")` on a new file system does not create the
      directory `name` under the root: the loop splits the fixed key
      `<prefix>/name`, and its first segment, the prefix itself, is fixed
      again into `<prefix>/<prefix>`. The directory lands one level down. */
  lemma MkdirsNestsUnderPrefix(userPrefix: string, name: string, now: int)
    requires CleanPrefix(userPrefix + ".") && '/' !in userPrefix
    requires name != "" && NoForbidden(name) && '/' !in name
    requires name != MetaSuffix && name != userPrefix + "."
    ensures var p := userPrefix + ".";
      var r := MkdirsSync(New([], userPrefix, now), "/" + name, now, Unlimited);
      && r.result == Ok(true)
      && Has(r.fs.store, p + "/" + p + "/")
      && Has(r.fs.store, p + "/" + p + "/" + name + "/")
      && ExistsSync(r.fs, "/" + name) == Ok(false)
  {
    assert EndsWith(userPrefix + ".", ".");
    NewRootOnly(userPrefix, now);
    MkdirsFromRoot(New([], userPrefix, now), name, now);
  }

  /** A loop turn can leave its key absent: with `<prefix>/name//` stored
      and neither `<prefix>/name` nor `<prefix>/name/`, `mkdirSync` looks
      for `<prefix>/name/` and `<prefix>/name//`, finds the second and
      writes nothing, and the loop, which ignores that answer, completes
      with the turn's key still missing. */
  lemma MkdirsTurnMayWriteNothing(fs: FileSystem, name: string, now: int)
    requires CleanPrefix(fs.prefix) && NoForbidden(name) && name != "" && '/' !in name
    requires !StartsWith(name, fs.prefix + "/")
    requires var t := fs.prefix + "/" + name;
      Has(fs.store, t + "/" + "/") && !Has(fs.store, t) && !Has(fs.store, t + "/")
    ensures var t := fs.prefix + "/" + name;
      && TurnKeys(fs.prefix, [name], "") == [t]
      && MkdirsLoop(fs, [name], "", now, Unlimited) == (fs, Ok(()))
      && ExistsSync(fs, t) == Ok(false)
  {
    var t := fs.prefix + "/" + name;
    FixBare(fs.prefix, name);
    CleanKey(fs.prefix, t);
    assert ExistsSync(fs, t) == Ok(false);
    assert Fix(fs, t, true) == Ok(t + "/") by {
      FixDirectory(fs.prefix, t);
      assert t[|t| - 1] == name[|name| - 1];
    }
    CleanKey(fs.prefix, t + "/");
    AfterTurnIdle(fs, t, now);
    LoopTurn(fs, [name], "", t, now, Unlimited);
    assert [name][1..] == [];
  }

  /** A turn whose directory form already exists changes nothing. */
  lemma AfterTurnIdle(fs: FileSystem, t: string, now: int)
    requires t != "" && ExistsSync(fs, Fix(fs, t, true).value).value
    ensures AfterTurn(fs, t, now, Unlimited) == fs
  {
  }

  /** After `unlinkSync` of a file, the path no longer exists. */
  lemma UnlinkThenGone(fs: FileSystem, path: string)
    requires CleanPrefix(fs.prefix) && path != ""
    requires !Has(fs.store, Fix(fs, path, false).value + "/")
    ensures ExistsSync(UnlinkSync(fs, path).fs, path) == Ok(false)
    ensures StatSync(UnlinkSync(fs, path).fs, path) == Ok(None)
  {
    var k := Fix(fs, path, false).value;
    assert k + "/" != k && k + "/" != MetaKey(k) by {
      assert (k + "/")[|k|] == '/' && MetaKey(k)[|k|] == '.';
    }
  }

  /** After a successful `rmdirSync`, neither the path nor its directory
      form exists, and listing it fails. */
  lemma RmdirThenGone(fs: FileSystem, path: string)
    requires CleanPrefix(fs.prefix)
    requires RmdirSync(fs, path).result.Ok?
    ensures ExistsSync(RmdirSync(fs, path).fs, path) == Ok(false)
    ensures ReaddirSync(RmdirSync(fs, path).fs, path) == Err(NotFound)
  {
    var k := Fix(fs, path, false).value;
    var fs1 := RmdirSync(fs, path).fs;
    assert fs1.prefix == fs.prefix;
    var d := Fix(fs, path, true).value;
    assert StartsWith(d, k) && StartsWith(k + "/", k) && StartsWith(d + "/", k) by {
      FixDirectory(fs.prefix, path);
      assert (k + "/")[..|k|] == k;
      assert (d + "/")[..|d|] == d;
    }
    assert ExistsSync(fs1, path) == Ok(false) by {
      ExistsFixed(fs1, path);
      RmdirClearsUnder(fs, path, k);
      RmdirClearsUnder(fs, path, k + "/");
    }
    assert ExistsSync(fs1, d) == Ok(false) by {
      CleanKey(fs.prefix, d);
      RmdirClearsUnder(fs, path, d);
      RmdirClearsUnder(fs, path, d + "/");
    }
  }

  /** After a successful `rmdirSync`, nothing under the removed key is
      stored. */
  lemma RmdirClearsUnder(fs: FileSystem, path: string, x: string)
    requires RmdirSync(fs, path).result.Ok?
    requires StartsWith(x, Fix(fs, path, false).value)
    ensures !Has(RmdirSync(fs, path).fs.store, x)
  {
  }

  // ---------------------------------------------------------------------
  // Events
  // ---------------------------------------------------------------------

  /** A call the first event makes is among the calls of all events. */
  lemma FirstEventCalls(e: Emitter, evs: seq<Event>, c: Call)
    requires |evs| > 0 && c in Emit(e, evs[0].name, evs[0].fileName)
    ensures c in Calls(e, evs)
  {
    assert Calls(e, evs) == Emit(e, evs[0].name, evs[0].fileName) + Calls(e, evs[1..]);
  }

  /** The `change:` events of a key reach a listener registered for that
      key, with the event type `change` and the file name. */
  lemma ChangeEventsReach(e: Emitter, prefix: string, k: string, f: Listener)
    ensures var name := AfterLastSlash(k);
      Call(f, "change", Some(if name != "" then name else k)) in Calls(On(e, "change:" + k, f), ChangeEvents(prefix, k))
  {
    assert "change" + ":" + k == "change:" + k;
    var name := AfterLastSlash(k);
    var c := Call(f, "change", Some(if name != "" then name else k));
    EmitArguments("change", k, name);
    assert Call(f, EventType("change:" + k), FilePath("change:" + k, name)) == c;
    EmitAfterOn(e, "change:" + k, f, name);
    var before := Emit(e, "change:" + k, name);
    assert c in Emit(On(e, "change:" + k, f), "change:" + k, name) by {
      assert (before + [c])[|before|] == c;
    }
    var evs := ChangeEvents(prefix, k);
    assert evs[0].name == "change:" + k && evs[0].fileName == name;
    FirstEventCalls(On(e, "change:" + k, f), evs, c);
  }

  /** A listener registered with `watch` is called by the next write of
      that path, with the event type `change` and the file name. */
  lemma WatchSeesWrite(fs: FileSystem, path: string, f: Listener, content: Content, optsType: string, now: int)
    requires WriteFileSync(Watch(fs, path, f).fs, path, content, optsType, now).result.Ok?
    ensures var k := Fix(fs, path, false).value;
      var name := AfterLastSlash(k);
      var w := WriteFileSync(Watch(fs, path, f).fs, path, content, optsType, now);
      Call(f, "change", Some(if name != "" then name else k)) in Calls(w.fs.emitter, w.events)
  {
    var k := Fix(fs, path, false).value;
    var fs1 := Watch(fs, path, f).fs;
    assert fs1.emitter == On(fs.emitter, "change:" + k, f);
    var w := WriteFileSync(fs1, path, content, optsType, now);
    assert w.events == ChangeEvents(fs.prefix, k);
    ChangeEventsReach(fs.emitter, fs.prefix, k, f);
  }

  /** Removing a listener right after `watch` fails, whatever listener is
      named, because `off` looks for a variable the source never set. */
  lemma UnwatchAfterWatchFails(fs: FileSystem, path: string, f: Listener, g: Listener)
    requires path != ""
    ensures Unwatch(Watch(fs, path, f).fs, path, Some(g)).result == Err(UndeclaredFn)
  {
    OffAfterOnFails(fs.emitter, "change:" + Fix(fs, path, false).value, f, g);
  }

  /** Listeners under one name are not reached by events of other names. */
  lemma {:induction false} CallsIgnoreOtherListener(e: Emitter, name: string, f: Listener, events: seq<Event>)
    requires forall ev :: ev in events ==> ev.name != name
    ensures Calls(On(e, name, f), events) == Calls(e, events)
    decreases |events|
  {
    if |events| > 0 {
      EmitOtherName(e, name, events[0].name, f, events[0].fileName);
      assert events[0] in events;
      CallsIgnoreOtherListener(e, name, f, events[1..]);
    }
  }

  /** A rename never calls a listener registered with `watch`: it emits
      only `rename:` events, and `watch` listens for `change:`. */
  lemma RenameNeverCallsWatchers(fs: FileSystem, path: string, f: Listener, from: string, to: string, now: int)
    ensures var events := RenameSync(fs, from, to, now).events;
      Calls(Watch(fs, path, f).fs.emitter, events) == Calls(fs.emitter, events)
  {
    var events := RenameSync(fs, from, to, now).events;
    if path != "" {
      RenameEventsMissChange(fs.emitter, Fix(fs, path, false).value, f, events);
    }
  }

  lemma RenameEventsMissChange(e: Emitter, k: string, f: Listener, events: seq<Event>)
    requires forall ev :: ev in events ==> StartsWith(ev.name, "rename:")
    ensures Calls(On(e, "change:" + k, f), events) == Calls(e, events)
  {
    var name := "change:" + k;
    forall ev | ev in events ensures ev.name != name {
      assert ev.name[0] == 'r' && name[0] == 'c';
    }
    CallsIgnoreOtherListener(e, name, f, events);
  }

  /** `utimesSync` with numeric times: the stored `mtime` is taken from
      the access time, and the access time does not survive reading the
      stats back. */
  lemma UtimesThenStat(fs: FileSystem, path: string, atime: int, mtime: int)
    requires CleanPrefix(fs.prefix)
    requires StatSync(fs, path).Ok? && StatSync(fs, path).value.Some?
    requires !EndsWith(Fix(fs, path, false).value, MetaSuffix)
    requires ValidTime(atime)
    ensures var st := StatSync(UtimesSync(fs, path, NumberArg(atime), NumberArg(mtime)).fs, path);
      && st.Ok? && st.value.Some?
      && st.value.value.mtime == Date(atime)
      && st.value.value.atime == Undefined
  {
    var k := Fix(fs, path, false).value;
    Refix(fs, path);
    assert StatSync(fs, k) == StatSync(fs, path);
    TimeRoundTrip(Date(atime));
  }

  /** `utimesSync` on a path whose key ends in `.meta`: `_setStatSync` does
      not add the suffix again, so the touched stats overwrite the key
      itself, while `statSync` keeps reading the untouched `<key>.meta`. */
  lemma UtimesOnMetaKey(fs: FileSystem, path: string, atime: int, mtime: int)
    requires CleanPrefix(fs.prefix)
    requires StatSync(fs, path).Ok? && StatSync(fs, path).value.Some?
    requires EndsWith(Fix(fs, path, false).value, MetaSuffix)
    ensures var k := Fix(fs, path, false).value;
      var st := TouchedStats(StatSync(fs, path).value.value, NumberArg(atime), NumberArg(mtime));
      var r := UtimesSync(fs, path, NumberArg(atime), NumberArg(mtime));
      && r.result.Ok?
      && Get(r.fs.store, k) == Some(Json(ToDoc(st)))
      && StatSync(r.fs, path) == StatSync(fs, path)
  {
    var k := Fix(fs, path, false).value;
    Refix(fs, path);
    assert StatSync(fs, k) == StatSync(fs, path);
    assert |MetaKey(k)| > |k|;
    var r := UtimesSync(fs, path, NumberArg(atime), NumberArg(mtime));
    assert Get(r.fs.store, MetaKey(k)) == Get(fs.store, MetaKey(k));
  }
}
