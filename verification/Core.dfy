/** The file system of FileSystem.js over the key-value store: state,
    results, and the operations that touch a fixed set of keys. */
module FsCore {
  import opened Base
  import opened Strings
  import opened KeyValueStore
  import opened Metadata
  import opened Events
  import opened DataUrl
  import opened Mime
  import opened FsKeys
  import Utf8

  /** A stored value: text (a data URL, `''` for a directory, or `null`
      written by `_setStatSync`), or the JSON of a `Stats`. */
  datatype Value = Text(text: string) | Json(doc: MetaDoc)

  /** `prefix` is `this.prefix`, already ending in `.`. */
  datatype FileSystem = FileSystem(prefix: string, store: Store<Value>, emitter: Emitter)

  /** An `emit(name, fileName)` the operation performs. */
  datatype Event = Event(name: string, fileName: string)

  /** What an operation leaves behind: the new state (also when it throws,
      since earlier writes stay), its result or error, and its events. */
  datatype Step<T> = Step(fs: FileSystem, result: Result<T>, events: seq<Event>)

  /** The listener calls the events make, in order. */
  function Calls(e: Emitter, events: seq<Event>): (calls: seq<Call>)
    ensures events == [] ==> calls == []
    ensures |events| > 0 ==> calls == Emit(e, events[0].name, events[0].fileName) + Calls(e, events[1..])
  {
    if |events| == 0 then [] else Emit(e, events[0].name, events[0].fileName) + Calls(e, events[1..])
  }

  function Fix(fs: FileSystem, path: string, isDirectory: bool): Result<string> {
    FixPath(fs.prefix, path, isDirectory)
  }

  /** Operations that call each other pass fixed keys, which are fixed
      again; under a clean prefix that changes nothing. */
  lemma Refix(fs: FileSystem, path: string)
    ensures CleanPrefix(fs.prefix) && path != "" ==>
      Fix(fs, Fix(fs, path, false).value, false) == Fix(fs, path, false)
  {
    if CleanPrefix(fs.prefix) && path != "" {
      FixPathIdempotent(fs.prefix, path, false);
    }
  }

  /** Under a clean prefix, a fixed key exists when it or its directory
      form is stored. */
  lemma ExistsFixed(fs: FileSystem, path: string)
    ensures CleanPrefix(fs.prefix) && path != "" ==>
      var k := Fix(fs, path, false).value;
      ExistsSync(fs, k) == Ok(Has(fs.store, k) || Has(fs.store, k + "/"))
  {
    Refix(fs, path);
  }

  /** Under a clean prefix, the stats of a fixed key are those of the
      path. */
  lemma StatFixed(fs: FileSystem, path: string)
    ensures CleanPrefix(fs.prefix) && path != "" ==>
      StatSync(fs, Fix(fs, path, false).value) == StatSync(fs, path)
  {
    Refix(fs, path);
  }

  function MetaKey(k: string): string {
    k + MetaSuffix
  }

  // ---------------------------------------------------------------------
  // existsSync, statSync, _setStatSync
  // ---------------------------------------------------------------------

  /** `existsSync(path)`: the fixed key or the same key with a `/` is
      present. */
  function ExistsSync(fs: FileSystem, path: string): (r: Result<bool>)
    ensures r.Err? <==> path == ""
    ensures r.Ok? ==> (r.value <==>
      Has(fs.store, Fix(fs, path, false).value) || Has(fs.store, Fix(fs, path, false).value + "/"))
  {
    var k :- Fix(fs, path, false);
    Ok(Has(fs.store, k) || Has(fs.store, k + "/"))
  }

  /** `statSync(path)`: `None` for `null` when the meta key is missing or
      empty; text that is not the JSON of an object makes `JSON.parse` or
      the constructor throw. */
  function StatSync(fs: FileSystem, path: string): (r: Result<Option<Stats>>)
    ensures path == "" ==> r == Err(NoPathGiven)
    ensures path != "" ==> var m := Get(fs.store, MetaKey(Fix(fs, path, false).value));
      && (r.Ok? && r.value.Some? <==> m.Some? && m.value.Json?)
      && (r.Ok? && r.value.Some? ==> r.value.value == FromDoc(m.value.doc))
      && (r.Err? <==> m.Some? && m.value.Text? && m.value.text != "")
  {
    var k :- Fix(fs, path, false);
    var m: Option<Value> := Get(fs.store, MetaKey(k));
    match m
    case None => Ok(None)
    case Some(Text(t)) => if t == "" then Ok(None) else Err(BadMeta)
    case Some(Json(doc)) => Ok(Some(FromDoc(doc)))
  }

  /** The value `_setStatSync` stores: the JSON of the stats, or `null`. */
  function StatsValue(st: Option<Stats>): Value {
    match st
    case Some(s) => Json(ToDoc(s))
    case None => Text("null")
  }

  /** `_setStatSync(path, stats)`: the key gets `.meta` appended unless it
      already ends in `.meta`. */
  function SetStatSync(fs: FileSystem, path: string, st: Option<Stats>): (r: Step<()>)
    ensures path == "" ==> r == Step(fs, Err(NoPathGiven), [])
    ensures path != "" ==> var k := Fix(fs, path, false).value;
      var key := if EndsWith(k, MetaSuffix) then k else MetaKey(k);
      && r.result.Ok?
      && Get(r.fs.store, key) == Some(StatsValue(st))
      && (forall k' :: k' != key ==> Get(r.fs.store, k') == Get(fs.store, k'))
    ensures r.events == [] && r.fs.prefix == fs.prefix && r.fs.emitter == fs.emitter
  {
    match Fix(fs, path, false)
    case Err(e) => Step(fs, Err(e), [])
    case Ok(k) =>
      var key := if EndsWith(k, MetaSuffix) then k else MetaKey(k);
      Step(fs.(store := Set(fs.store, key, StatsValue(st))), Ok(()), [])
  }

  // ---------------------------------------------------------------------
  // mkdirSync, mkdirsSync
  // ---------------------------------------------------------------------

  /** Which `setItem` of `mkdirSync` runs out of quota, if any. */
  datatype Quota = Unlimited | FirstWriteFails | SecondWriteFails

  /** The stats of a new directory at key `k`. */
  function DirStats(k: string, now: int): Stats {
    Stats(false, true, Date(now), Date(now), Date(now), Undefined, 0, None, k, AfterLastSlash(k))
  }

  /** `mkdirSync(path)`: `false` when the directory exists, otherwise the
      directory key with `''` and its meta key with the directory stats;
      a quota failure keeps the writes made so far and gives `false`. */
  function MkdirSync(fs: FileSystem, path: string, now: int, quota: Quota): (r: Step<bool>)
    ensures r.events == [] && r.fs.prefix == fs.prefix && r.fs.emitter == fs.emitter
    ensures path == "" ==> r == Step(fs, Err(NoPathGiven), [])
    ensures path != "" ==> var k := Fix(fs, path, true).value;
      && r.result.Ok?
      && (ExistsSync(fs, k).value ==> r.fs == fs && !r.result.value)
      && (!ExistsSync(fs, k).value && quota == Unlimited ==>
            && r.result.value
            && Get(r.fs.store, k) == Some(Text(""))
            && Get(r.fs.store, MetaKey(k)) == Some(Json(ToDoc(DirStats(k, now)))))
      && (forall k' :: k' != k && k' != MetaKey(k) ==> Get(r.fs.store, k') == Get(fs.store, k'))
      && (forall k' :: Has(fs.store, k') ==> Has(r.fs.store, k'))
  {
    match Fix(fs, path, false)
    case Err(e) => Step(fs, Err(e), [])
    case Ok(k0) =>
      var k := if EndsWith(k0, "/") then k0 else k0 + "/";
      FixDirectory(fs.prefix, path);
      if ExistsSync(fs, k).value then Step(fs, Ok(false), [])
      else
        var s1 := Set(fs.store, k, Text(""));
        var s2 := Set(s1, MetaKey(k), Json(ToDoc(DirStats(k, now))));
        match quota
        case FirstWriteFails => Step(fs, Ok(false), [])
        case SecondWriteFails => Step(fs.(store := s1), Ok(false), [])
        case Unlimited => Step(fs.(store := s2), Ok(true), [])
  }

  /** The directory stats name the directory `''`, since its key ends in
      `/`. */
  lemma DirStatsShape(k: string, now: int)
    requires EndsWith(k, "/")
    ensures var d := ToDoc(DirStats(k, now));
      d.directory && !d.file && d.size == 0 && d.name == "" && d.mimeType == None && d.fullPath == k
  {
    assert k[|k| - 1] == '/';
    assert LastIndexOf(k, '/') == |k| - 1;
  }

  /** `dirpath.split(/[/\\]/)`: both separators split. */
  function SplitSegments(s: string): seq<string> {
    Split(seq(|s|, i requires 0 <= i < |s| => if s[i] == '\\' then '/' else s[i]), '/')
  }

  /** The `forEach` of `mkdirsSync`: `pathtmp` grows by one segment, is
      fixed again (which throws for an empty one), and is created when
      missing; a failed `mkdirSync` only ends that callback. */
  function MkdirsLoop(fs: FileSystem, segments: seq<string>, pathtmp: string, now: int, quota: Quota):
    (r: (FileSystem, Result<()>))
    ensures r.0.prefix == fs.prefix && r.0.emitter == fs.emitter
    ensures forall k' :: Has(fs.store, k') ==> Has(r.0.store, k')
    decreases |segments|
  {
    if |segments| == 0 then (fs, Ok(()))
    else
      var t := if pathtmp != "" then pathtmp + "/" + segments[0] else segments[0];
      match Fix(fs, t, false)
      case Err(e) => (fs, Err(e))
      case Ok(t') =>
        var fs1 := if ExistsSync(fs, t').value then fs else MkdirSync(fs, t', now, quota).fs;
        MkdirsLoop(fs1, segments[1..], t', now, quota)
  }

  /** `mkdirsSync(dirpath)`: `true` unless it throws; nothing is written
      when the path exists. */
  function MkdirsSync(fs: FileSystem, path: string, now: int, quota: Quota): (r: Step<bool>)
    ensures r.result.Ok? ==> r.result.value
    ensures r.result.Err? ==> r.result.error in {NoPathGiven, DirectoryCreateFail}
    ensures path == "" ==> r == Step(fs, Err(NoPathGiven), [])
    ensures path != "" && ExistsSync(fs, Fix(fs, path, false).value).value ==> r == Step(fs, Ok(true), [])
    ensures r.events == [] && r.fs.prefix == fs.prefix && r.fs.emitter == fs.emitter
    ensures forall k' :: Has(fs.store, k') ==> Has(r.fs.store, k')
  {
    match Fix(fs, path, false)
    case Err(e) => Step(fs, Err(e), [])
    case Ok(d) =>
      if ExistsSync(fs, d).value then Step(fs, Ok(true), [])
      else
        var (fs', res) := MkdirsLoop(fs, SplitSegments(d), "", now, quota);
        if res.Err? then Step(fs', Err(DirectoryCreateFail), []) else Step(fs', Ok(true), [])
  }

  /** The fixed keys `mkdirsSync`'s loop visits, turn by turn, up to the
      first turn whose path is empty. */
  function TurnKeys(prefix: string, segments: seq<string>, pathtmp: string): seq<string>
    decreases |segments|
  {
    if |segments| == 0 then []
    else
      var t := if pathtmp != "" then pathtmp + "/" + segments[0] else segments[0];
      match FixPath(prefix, t, false)
      case Err(_) => []
      case Ok(t') => [t'] + TurnKeys(prefix, segments[1..], t')
  }

  /** The key `t` is stored as itself, as a directory, or with two
      slashes added: one of the keys `existsSync(t)` or `mkdirSync(t)`
      looks for. */
  ghost predicate Visited(s: Store<Value>, t: string) {
    Has(s, t) || Has(s, t + "/") || Has(s, t + "//")
  }

  /** The file system after one turn of the loop at the fixed key `t`. */
  function AfterTurn(fs: FileSystem, t: string, now: int, quota: Quota): FileSystem
    requires t != ""
  {
    if ExistsSync(fs, t).value then fs else MkdirSync(fs, t, now, quota).fs
  }

  /** After one turn, the turn's key is visited: `mkdirSync` found it or
      wrote it. A key with two slashes added that is already stored makes
      `mkdirSync` take the directory for existing and write nothing. */
  lemma TurnCreates(fs: FileSystem, t: string, now: int)
    requires CleanPrefix(fs.prefix) && t != "" && Fix(fs, t, false) == Ok(t)
    ensures Visited(AfterTurn(fs, t, now, Unlimited).store, t)
  {
    if !ExistsSync(fs, t).value {
      TurnMakes(fs, t, now);
    }
  }

  /** A turn whose key is missing calls `mkdirSync`, which writes the key
      with one slash added or finds it with two. */
  lemma TurnMakes(fs: FileSystem, t: string, now: int)
    requires CleanPrefix(fs.prefix) && t != "" && Fix(fs, t, false) == Ok(t)
    requires !ExistsSync(fs, t).value
    ensures Visited(MkdirSync(fs, t, now, Unlimited).fs.store, t)
  {
    assert t + "/" + "/" == t + "//";
    TurnKey(fs, t);
    var k := Fix(fs, t, true).value;
    var r := MkdirSync(fs, t, now, Unlimited);
    if Has(fs.store, k) || Has(fs.store, k + "/") {
      assert r.fs == fs by { assert ExistsSync(fs, k).value; }
      assert k == t + "/";
      assert Has(r.fs.store, t + "//");
    } else {
      assert Has(r.fs.store, k) by { assert !ExistsSync(fs, k).value; }
    }
  }

  /** The directory key of a fixed key `t` is `t` with at most one slash
      added, and fixes to itself. */
  lemma TurnKey(fs: FileSystem, t: string)
    requires CleanPrefix(fs.prefix) && t != "" && Fix(fs, t, false) == Ok(t)
    ensures var k := Fix(fs, t, true).value;
      (k == t || k == t + "/") && Fix(fs, k, false) == Ok(k)
  {
    FixDirectory(fs.prefix, t);
    CleanKey(fs.prefix, Fix(fs, t, true).value);
  }

  /** One turn of the loop whose path fixes to `t`. */
  lemma LoopTurn(fs: FileSystem, segments: seq<string>, pathtmp: string, t: string, now: int, quota: Quota)
    requires |segments| > 0
    requires Fix(fs, if pathtmp != "" then pathtmp + "/" + segments[0] else segments[0], false) == Ok(t)
    ensures MkdirsLoop(fs, segments, pathtmp, now, quota) ==
      MkdirsLoop(AfterTurn(fs, t, now, quota), segments[1..], t, now, quota)
    ensures TurnKeys(fs.prefix, segments, pathtmp) == [t] + TurnKeys(fs.prefix, segments[1..], t)
  {
  }

  /** Under a clean prefix and with no quota, a loop that completes has
      visited one fixed key per segment, and every one of them stays
      visited. */
  lemma {:induction false} MkdirsLoopVisits(fs: FileSystem, segments: seq<string>, pathtmp: string, now: int)
    requires CleanPrefix(fs.prefix)
    ensures var r := MkdirsLoop(fs, segments, pathtmp, now, Unlimited);
      var ts := TurnKeys(fs.prefix, segments, pathtmp);
      r.1.Ok? ==>
        && |ts| == |segments|
        && forall i :: 0 <= i < |ts| ==> Fix(r.0, ts[i], false) == Ok(ts[i]) && Visited(r.0.store, ts[i])
    decreases |segments|
  {
    var r := MkdirsLoop(fs, segments, pathtmp, now, Unlimited);
    if |segments| > 0 && r.1.Ok? {
      var t := if pathtmp != "" then pathtmp + "/" + segments[0] else segments[0];
      var t' := Fix(fs, t, false).value;
      FixPathIdempotent(fs.prefix, t, false);
      LoopTurn(fs, segments, pathtmp, t', now, Unlimited);
      var fs1 := AfterTurn(fs, t', now, Unlimited);
      TurnCreates(fs, t', now);
      MkdirsLoopVisits(fs1, segments[1..], t', now);
      var ts := TurnKeys(fs.prefix, segments, pathtmp);
      var ts1 := TurnKeys(fs.prefix, segments[1..], t');
      forall i | 0 <= i < |ts|
        ensures Fix(r.0, ts[i], false) == Ok(ts[i]) && Visited(r.0.store, ts[i])
      {
        if i == 0 {
          VisitedKept(fs1.store, r.0.store, t');
        } else {
          ConsAt(ts, t', ts1, i);
        }
      }
    }
  }

  lemma ConsAt(ts: seq<string>, t: string, ts1: seq<string>, i: int)
    requires ts == [t] + ts1 && 0 < i < |ts|
    ensures ts[i] == ts1[i - 1]
  {
  }

  /** A visited key stays visited in a store that kept every key. */
  lemma VisitedKept(a: Store<Value>, b: Store<Value>, t: string)
    requires forall k :: Has(a, k) ==> Has(b, k)
    requires Visited(a, t)
    ensures Visited(b, t)
  {
  }

  /** Under a clean prefix and with no quota, a loop that completes leaves
      every turn's key existing, unless that key with two slashes added is
      stored. */
  lemma MkdirsLoopCreates(fs: FileSystem, segments: seq<string>, pathtmp: string, now: int)
    requires CleanPrefix(fs.prefix)
    ensures var r := MkdirsLoop(fs, segments, pathtmp, now, Unlimited);
      var ts := TurnKeys(fs.prefix, segments, pathtmp);
      r.1.Ok? ==>
        && |ts| == |segments|
        && forall i :: 0 <= i < |ts| ==>
             ExistsSync(r.0, ts[i]) == Ok(true) || Has(r.0.store, ts[i] + "//")
  {
    MkdirsLoopVisits(fs, segments, pathtmp, now);
  }

  /** Under a clean prefix and with no quota, a `mkdirsSync` that succeeds
      either found the directory existing or leaves every key its loop
      visited existing, the last one included, unless that key with two
      slashes added is stored. */
  lemma MkdirsSyncCreates(fs: FileSystem, path: string, now: int)
    requires CleanPrefix(fs.prefix) && path != ""
    ensures var r := MkdirsSync(fs, path, now, Unlimited);
      var d := Fix(fs, path, false).value;
      var ts := TurnKeys(fs.prefix, SplitSegments(d), "");
      r.result.Ok? ==>
        ExistsSync(fs, d).value ||
        (&& |ts| == |SplitSegments(d)|
         && forall i :: 0 <= i < |ts| ==>
              ExistsSync(r.fs, ts[i]) == Ok(true) || Has(r.fs.store, ts[i] + "//"))
  {
    MkdirsLoopCreates(fs, SplitSegments(Fix(fs, path, false).value), "", now);
  }

  // ---------------------------------------------------------------------
  // unlinkSync, utimesSync, watch, unwatch
  // ---------------------------------------------------------------------

  /** The two `change:` events for the entry at key `k`: its own and its
      parent's, both carrying the entry name. */
  function ChangeEvents(prefix: string, k: string): seq<Event> {
    [Event("change:" + k, AfterLastSlash(k)), Event("change:" + ParentPath(prefix, k), AfterLastSlash(k))]
  }

  /** `unlinkSync(path)`: drop the meta key and the key, then emit. */
  function UnlinkSync(fs: FileSystem, path: string): (r: Step<bool>)
    ensures path == "" ==> r == Step(fs, Err(NoPathGiven), [])
    ensures path != "" ==> var k := Fix(fs, path, false).value;
      && r.result == Ok(true)
      && !Has(r.fs.store, k) && !Has(r.fs.store, MetaKey(k))
      && (forall k' :: k' != k && k' != MetaKey(k) ==> Get(r.fs.store, k') == Get(fs.store, k'))
      && r.events == ChangeEvents(fs.prefix, k)
    ensures r.fs.prefix == fs.prefix && r.fs.emitter == fs.emitter
  {
    match Fix(fs, path, false)
    case Err(e) => Step(fs, Err(e), [])
    case Ok(k) =>
      var s := Remove(Remove(fs.store, MetaKey(k)), k);
      Step(fs.(store := s), Ok(true), ChangeEvents(fs.prefix, k))
  }

  /** A timestamp argument of `utimesSync`. */
  datatype TimeArg = NumberArg(n: int) | DateArg(ms: int) | Omitted

  /** `new Date(arg)`; `new Date(undefined)` is an invalid date. */
  function NewDate(a: TimeArg): (t: Time)
    ensures a.Omitted? ==> t == InvalidDate
    ensures a.NumberArg? ==> t == DateOfNumber(a.n)
  {
    match a
    case NumberArg(n) => DateOfNumber(n)
    case DateArg(ms) => DateOfNumber(ms)
    case Omitted => InvalidDate
  }

  /** The stats `utimesSync` writes back: a numeric `atime` sets `atime`,
      a numeric `mtime` sets `mtime`, from `atime` as the source does. */
  function TouchedStats(st: Stats, atime: TimeArg, mtime: TimeArg): (t: Stats)
    ensures t.file == st.file && t.directory == st.directory && t.size == st.size
    ensures t.birthtime == st.birthtime && t.ctime == st.ctime && t.mimeType == st.mimeType
    ensures t.atime == (if atime.NumberArg? then DateOfNumber(atime.n) else st.atime)
    ensures mtime.NumberArg? ==> t.mtime == NewDate(atime)
    ensures !mtime.NumberArg? ==> t.mtime == st.mtime
  {
    var st1 := if atime.NumberArg? then st.(atime := NewDate(atime)) else st;
    if mtime.NumberArg? then st1.(mtime := NewDate(atime)) else st1
  }

  /** `utimesSync(path, atime, mtime)`: the path is fixed, and `statSync`
      and `_setStatSync` fix it once more, so both work on the meta key of
      the twice-fixed key. Either numeric argument on `null` stats throws;
      otherwise the touched stats (or `null`) are written back. */
  function UtimesSync(fs: FileSystem, path: string, atime: TimeArg, mtime: TimeArg): (r: Step<()>)
    ensures r.events == [] && r.fs.prefix == fs.prefix && r.fs.emitter == fs.emitter
    ensures path == "" ==> r == Step(fs, Err(NoPathGiven), [])
    ensures path != "" ==>
      var k := Fix(fs, path, false).value;
      var k2 := Fix(fs, k, false).value;
      var key := if EndsWith(k2, MetaSuffix) then k2 else MetaKey(k2);
      var stats := StatSync(fs, k);
      && (stats.Err? ==> r == Step(fs, Err(stats.error), []))
      && (stats == Ok(None) && (atime.NumberArg? || mtime.NumberArg?) ==> r == Step(fs, Err(NullStats), []))
      && (r.result.Ok? ==> forall k' :: k' != key ==> Get(r.fs.store, k') == Get(fs.store, k'))
      && (stats.Ok? && stats.value.Some? ==>
            && r.result.Ok?
            && Get(r.fs.store, key) == Some(Json(ToDoc(TouchedStats(stats.value.value, atime, mtime)))))
      && (stats == Ok(None) && !atime.NumberArg? && !mtime.NumberArg? ==>
            r.result.Ok? && Get(r.fs.store, key) == Some(Text("null")))
  {
    match Fix(fs, path, false)
    case Err(e) => Step(fs, Err(e), [])
    case Ok(k) =>
      match StatSync(fs, k)
      case Err(e) => Step(fs, Err(e), [])
      case Ok(stats) =>
        if stats.None? && (atime.NumberArg? || mtime.NumberArg?) then Step(fs, Err(NullStats), [])
        else
          var st := if stats.None? then None else Some(TouchedStats(stats.value, atime, mtime));
          SetStatSync(fs, k, st)
  }

  /** `watch(path, func)`: listen for `change:` on the fixed key. */
  function Watch(fs: FileSystem, path: string, f: Listener): (r: Step<()>)
    ensures path == "" ==> r == Step(fs, Err(NoPathGiven), [])
    ensures path != "" ==>
      r.result.Ok? && r.fs == fs.(emitter := On(fs.emitter, "change:" + Fix(fs, path, false).value, f))
    ensures r.events == []
  {
    match Fix(fs, path, false)
    case Err(e) => Step(fs, Err(e), [])
    case Ok(k) => Step(fs.(emitter := On(fs.emitter, "change:" + k, f)), Ok(()), [])
  }

  /** `unwatch(path, func)`. */
  function Unwatch(fs: FileSystem, path: string, f: Option<Listener>): (r: Step<()>)
    ensures path == "" ==> r == Step(fs, Err(NoPathGiven), [])
    ensures r.events == [] && r.fs.store == fs.store
    ensures path != "" ==> var name := "change:" + Fix(fs, path, false).value;
      && (f.Some? && Listeners(fs.emitter, name) != [] ==> r.result == Err(UndeclaredFn) && r.fs == fs)
      && (r.result.Ok? ==> r.fs.emitter == Off(fs.emitter, name, f).value)
  {
    match Fix(fs, path, false)
    case Err(e) => Step(fs, Err(e), [])
    case Ok(k) =>
      match Off(fs.emitter, "change:" + k, f)
      case Err(e) => Step(fs, Err(e), [])
      case Ok(e') => Step(fs.(emitter := e'), Ok(()), [])
  }

  // ---------------------------------------------------------------------
  // readFileSync, writeFileSync
  // ---------------------------------------------------------------------

  /** What `readFileSync` returns: a string, or bytes with a media type
      (`""` for the plain `Uint8Array` of an empty file). */
  datatype FileData = TextData(text: string) | BytesData(buffer: Buffer)

  /** The text before the last comma of a stored data URL:
      `data.substr(0, data.lastIndexOf(','))`, empty without a comma. */
  function HeaderOf(d: string): (h: string)
    ensures StartsWith(d, h)
    ensures ',' in d ==> h == d[..LastIndexOf(d, ',')]
  {
    var c := LastIndexOf(d, ',');
    if c < 0 then "" else d[..c]
  }

  /** `readFileSync(path, encoding)`, `""` standing for no encoding: an
      encoding, or a header without `base64`, reads text; otherwise bytes. */
  function ReadFileSync(fs: FileSystem, path: string, encoding: string): (r: Result<FileData>)
    ensures path == "" ==> r == Err(NoPathGiven)
    ensures path != "" && !ExistsSync(fs, Fix(fs, path, false).value).value ==> r == Err(NotFound)
    ensures r.Ok? ==> Fix(fs, path, false).Ok?
    ensures r.Ok? ==> var p := Fix(fs, path, false).value;
      && StatSync(fs, p).Ok? && StatSync(fs, p).value.Some? && StatSync(fs, p).value.value.file
      && (r.value.TextData? ==> exists d :: Get(fs.store, p) == Some(Text(d)) && DataURLtoString(d) == Ok(r.value.text))
      && (r.value.BytesData? && r.value.buffer.bytes != [] ==>
            exists d :: Get(fs.store, p) == Some(Text(d)) && DataURLtoBuffer(d) == Ok(r.value.buffer))
    ensures r.Ok? && encoding != "" ==> r.value.TextData? || r.value == BytesData(Buffer([], ""))
  {
    var p :- Fix(fs, path, false);
    if !ExistsSync(fs, p).value then Err(NotFound)
    else
      var stats :- StatSync(fs, p);
      if stats.None? then Err(NullStats)
      else if !stats.value.file then Err(NotAFile)
      else
        var data: Option<Value> := Get(fs.store, p);
        match data
        case None => Ok(BytesData(Buffer([], "")))
        case Some(Json(_)) => Err(InvalidDataUri)
        case Some(Text(d)) =>
          if d == "" then Ok(BytesData(Buffer([], "")))
          else if encoding != "" || !Contains(HeaderOf(d), "base64") then
            var t :- DataURLtoString(d);
            Ok(TextData(t))
          else
            var b :- DataURLtoBuffer(d);
            Ok(BytesData(b))
  }

  /** The `content` of `writeFileSync`. */
  datatype Content =
    | TextContent(s: string)
    | BytesContent(buf: Buffer)
    | ArrayBufferContent(bytes: seq<byte>)
    | OtherContent

  /** The media type `writeFileSync` works with: `opts.type`, else the one
      the key's extension names. */
  function TypeFor(k: string, optsType: string): (t: string)
    ensures optsType != "" ==> t == optsType
    ensures optsType == "" ==> t == GetMimeByPath(k)
  {
    if optsType != "" then optsType else GetMimeByPath(k)
  }

  /** The data URL and size of the content. An `ArrayBuffer` is converted
      and then rejected anyway, because the `Uint8Array` test that follows
      starts a new `if` chain whose `else` throws. */
  function Encoded(content: Content, t: string): (r: Result<(string, nat)>)
    ensures r.Err? <==> content.ArrayBufferContent? || content.OtherContent?
    ensures r.Err? ==> r.error == UnsupportedContent
    ensures content.BytesContent? ==> r == Ok((Uint8ArrayToDataURL(content.buf, t), |content.buf.bytes|))
    ensures content.TextContent? ==>
      r == Ok((StringToDataURL(content.s, t), |Utf8.EncodeURIComponent(content.s)|))
  {
    match content
    case ArrayBufferContent(_) => Err(UnsupportedContent)
    case BytesContent(buf) => Ok((Uint8ArrayToDataURL(buf, t), |buf.bytes|))
    case TextContent(s) => Ok((StringToDataURL(s, t), |Utf8.EncodeURIComponent(s)|))
    case OtherContent => Err(UnsupportedContent)
  }

  /** A string property that is set and not empty. */
  predicate Truthy(o: Option<string>) {
    o.Some? && o.value != ""
  }

  /** The stats of a file created at key `k`. */
  function NewFileStats(k: string, t: string, size: nat, now: int): (st: Stats)
    ensures st.file && !st.directory && st.size == size && st.fullPath == k
    ensures st.name == AfterLastSlash(k)
    ensures st.mtime == Date(now) && st.ctime == Date(now) && st.birthtime == Date(now)
    ensures t == TypeFor(k, t) ==> st.mimeType == Some(t)
  {
    Stats(true, false, Date(now), Date(now), Date(now), Undefined, size,
      Some(if t != "" then t else GetMimeByPath(k)), k, AfterLastSlash(k))
  }

  /** The stats of an existing file after a write. */
  function RewrittenStats(st: Stats, k: string, t: string, size: nat, now: int): (st': Stats)
    ensures st'.file == st.file && st'.directory == st.directory
    ensures st'.birthtime == st.birthtime && st'.atime == st.atime
    ensures st'.fullPath == st.fullPath && st'.name == st.name
    ensures st'.mtime == Date(now) && st'.ctime == Date(now) && st'.size == size
    ensures t != "" ==> st'.mimeType == Some(t)
    ensures t == "" && Truthy(st.mimeType) ==> st'.mimeType == st.mimeType
  {
    st.(mtime := Date(now), ctime := Date(now), size := size,
      mimeType := if t != "" then Some(t) else if Truthy(st.mimeType) then st.mimeType else Some(GetMimeByPath(k)))
  }

  /** The stats a write leaves for key `k`, or why it throws first. */
  function PriorStats(fs: FileSystem, k: string): (r: Result<Option<Stats>>)
    ensures r.Ok? && r.value.Some? ==> r.value.value.file
  {
    var present :- ExistsSync(fs, k);
    if !present then Ok(None)
    else
      var stats :- StatSync(fs, k);
      if stats.None? then Err(NullStats)
      else if !stats.value.file then Err(OnlyFileWrite)
      else Ok(stats)
  }

  /** `writeFileSync(path, content, {type})`, `optsType == ""` standing for
      no type: the meta key, then the key, then the two `change:` events. */
  function WriteFileSync(fs: FileSystem, path: string, content: Content, optsType: string, now: int):
    (r: Step<bool>)
    ensures r.result.Err? ==> r.fs == fs && r.events == []
    ensures r.result.Ok? ==> r.result.value && Fix(fs, path, false).Ok?
    ensures path == "" ==> r.result == Err(NoPathGiven)
    ensures content.ArrayBufferContent? || content.OtherContent? ==> r.result.Err?
    ensures r.fs.prefix == fs.prefix && r.fs.emitter == fs.emitter
    ensures r.result.Ok? ==> var k := Fix(fs, path, false).value;
      && (forall k' :: k' != k && k' != MetaKey(k) ==> Get(r.fs.store, k') == Get(fs.store, k'))
      && Get(r.fs.store, k) == Some(Text(Encoded(content, TypeFor(k, optsType)).value.0))
      && r.events == ChangeEvents(fs.prefix, k)
    ensures path != "" ==> var k := Fix(fs, path, false).value;
      && (PriorStats(fs, k).Err? ==> r.result == Err(PriorStats(fs, k).error))
      && (PriorStats(fs, k).Ok? && Encoded(content, TypeFor(k, optsType)).Ok? ==>
            var (_, size) := Encoded(content, TypeFor(k, optsType)).value;
            var st := PriorStats(fs, k).value;
            && r.result.Ok?
            && Get(r.fs.store, MetaKey(k)) == Some(Json(ToDoc(
                 if st.None? then NewFileStats(k, TypeFor(k, optsType), size, now)
                 else RewrittenStats(st.value, k, TypeFor(k, optsType), size, now)))))
  {
    match Fix(fs, path, false)
    case Err(e) => Step(fs, Err(e), [])
    case Ok(k) =>
      var t := TypeFor(k, optsType);
      match PriorStats(fs, k)
      case Err(e) => Step(fs, Err(e), [])
      case Ok(prior) =>
        match Encoded(content, t)
        case Err(e) => Step(fs, Err(e), [])
        case Ok((data, size)) =>
          var st := if prior.None? then NewFileStats(k, t, size, now) else RewrittenStats(prior.value, k, t, size, now);
          var s1 := Set(fs.store, MetaKey(k), Json(ToDoc(st)));
          var s2 := Set(s1, k, Text(data));
          Step(fs.(store := s2), Ok(true), ChangeEvents(fs.prefix, k))
  }

  /** `new FileSystem(prefix)` over whatever `localStorage` already holds:
      an empty registry, and `mkdirSync('/')` run on the stored entries. The
      root key and its meta key are the only keys it may write, every
      stored key survives, and a root already stored under a clean prefix
      leaves the storage as it was. */
  function New(s: Store<Value>, userPrefix: string, now: int): (fs: FileSystem)
    ensures fs.prefix == userPrefix + "."
    ensures fs.emitter == Events.Empty
    ensures forall x :: Has(s, x) ==> Has(fs.store, x)
    ensures forall x :: x != userPrefix + "./" && x != MetaKey(userPrefix + "./") ==>
      Get(fs.store, x) == Get(s, x)
    ensures CleanPrefix(userPrefix + ".") && Has(s, userPrefix + "./") ==> fs.store == s
  {
    var empty := FileSystem(userPrefix + ".", s, Events.Empty);
    assert CleanPath("/") == "/";
    assert userPrefix + "." + "/" == userPrefix + "./";
    if CleanPrefix(userPrefix + ".") then
      CleanKey(userPrefix + ".", userPrefix + "./");
      MkdirSync(empty, "/", now, Unlimited).fs
    else
      MkdirSync(empty, "/", now, Unlimited).fs
  }
}
