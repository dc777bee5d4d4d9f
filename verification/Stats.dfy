/** The `Stats` record of Stats.js and the JSON form it is stored in. */
module Metadata {
  import opened Base

  /** The largest magnitude of a valid time value, in milliseconds. */
  const MaxTime: int := 8_640_000_000_000_000

  /** A timestamp field of a `Stats` object: a `Date` (valid, with its time
      value in milliseconds, or invalid), `null`, or absent. */
  datatype Time = Date(ms: int) | InvalidDate | NullTime | Undefined

  /** A timestamp field of a parsed JSON document: the ISO text of a valid
      time value, a number, `null`, or absent. */
  datatype Stamp = IsoString(ms: int) | Number(n: int) | NullStamp | Absent

  /** What `JSON.parse` gives back for a stored `Stats`. */
  datatype MetaDoc = MetaDoc(
    file: bool,
    directory: bool,
    mtime: Stamp,
    ctime: Stamp,
    birthtime: Stamp,
    atime: Stamp,
    size: nat,
    mimeType: Option<string>,
    fullPath: string,
    name: string)

  /** A `Stats` object. `mimeType` is the `type` property, `None` for
      `null`; `atime` is only ever set by `utimesSync`. */
  datatype Stats = Stats(
    file: bool,
    directory: bool,
    mtime: Time,
    ctime: Time,
    birthtime: Time,
    atime: Time,
    size: nat,
    mimeType: Option<string>,
    fullPath: string,
    name: string)

  predicate ValidTime(n: int) {
    -MaxTime <= n <= MaxTime
  }

  /** `new Date(n)` for an integral number `n`. */
  function DateOfNumber(n: int): (t: Time)
    ensures t.Date? <==> ValidTime(n)
    ensures t.Date? ==> t.ms == n
  {
    if ValidTime(n) then Date(n) else InvalidDate
  }

  /** One timestamp line of the constructor: strings and numbers go
      through `new Date`, anything else is kept. */
  function TimeOfStamp(s: Stamp): (t: Time)
    ensures s.NullStamp? <==> t.NullTime?
    ensures s.Absent? <==> t.Undefined?
    ensures s.IsoString? && ValidTime(s.ms) ==> t == Date(s.ms)
    ensures s.Number? ==> t == DateOfNumber(s.n)
  {
    match s
    case IsoString(ms) => DateOfNumber(ms)
    case Number(n) => DateOfNumber(n)
    case NullStamp => NullTime
    case Absent => Undefined
  }

  /** `JSON.stringify` of a timestamp field: a valid `Date` becomes its ISO
      text, an invalid one `null`, and an undefined field is left out. */
  function StampOfTime(t: Time): (s: Stamp)
    ensures t.Date? ==> s == IsoString(t.ms)
    ensures t.InvalidDate? || t.NullTime? ==> s == NullStamp
    ensures t.Undefined? <==> s.Absent?
  {
    match t
    case Date(ms) => IsoString(ms)
    case InvalidDate => NullStamp
    case NullTime => NullStamp
    case Undefined => Absent
  }

  /** `new Stats(meta)`: flags, size, type, path and name copied, the three
      timestamps converted, `atime` not copied. */
  function FromDoc(doc: MetaDoc): (st: Stats)
    ensures st.file == doc.file && st.directory == doc.directory
    ensures st.size == doc.size && st.mimeType == doc.mimeType
    ensures st.fullPath == doc.fullPath && st.name == doc.name
    ensures st.mtime == TimeOfStamp(doc.mtime)
    ensures st.ctime == TimeOfStamp(doc.ctime)
    ensures st.birthtime == TimeOfStamp(doc.birthtime)
    ensures st.atime == Undefined
  {
    Stats(doc.file, doc.directory, TimeOfStamp(doc.mtime), TimeOfStamp(doc.ctime),
      TimeOfStamp(doc.birthtime), Undefined, doc.size, doc.mimeType, doc.fullPath, doc.name)
  }

  /** `JSON.parse(JSON.stringify(stats))`. */
  function ToDoc(st: Stats): (doc: MetaDoc)
    ensures doc.file == st.file && doc.directory == st.directory
    ensures doc.size == st.size && doc.mimeType == st.mimeType
    ensures doc.fullPath == st.fullPath && doc.name == st.name
    ensures doc.atime.Absent? <==> st.atime.Undefined?
  {
    MetaDoc(st.file, st.directory, StampOfTime(st.mtime), StampOfTime(st.ctime),
      StampOfTime(st.birthtime), StampOfTime(st.atime), st.size, st.mimeType, st.fullPath, st.name)
  }

  /** A timestamp that survives the JSON round trip. */
  predicate Storable(t: Time) {
    match t
    case Date(ms) => ValidTime(ms)
    case InvalidDate => false
    case _ => true
  }

  /** Storing and reading back a timestamp gives it back. */
  lemma TimeRoundTrip(t: Time)
    requires Storable(t)
    ensures TimeOfStamp(StampOfTime(t)) == t
  {
  }

  /** Storing `Stats` and constructing them again from the stored JSON
      gives every field back to the millisecond, except `atime`, which the
      constructor drops. */
  lemma StatsRoundTrip(st: Stats)
    requires Storable(st.mtime) && Storable(st.ctime) && Storable(st.birthtime)
    ensures FromDoc(ToDoc(st)) == st.(atime := Undefined)
  {
    TimeRoundTrip(st.mtime);
    TimeRoundTrip(st.ctime);
    TimeRoundTrip(st.birthtime);
  }

  /** An invalid date is stored as `null` and comes back as `null`. */
  lemma InvalidDateBecomesNull(st: Stats)
    requires st.mtime.InvalidDate?
    ensures FromDoc(ToDoc(st)).mtime == NullTime
  {
  }

  /** `isDirectory()`. */
  function IsDirectory(st: Stats): (r: bool)
    ensures r == st.directory
  {
    st.directory
  }

  /** `isFile()`. */
  function IsFile(st: Stats): (r: bool)
    ensures r == st.file
  {
    st.file
  }

  /** `isSocket()`: constant `false` in Stats.js, since no entry of this
      file system is a socket. */
  function IsSocket(st: Stats): (r: bool)
    ensures !r
  {
    false
  }

  /** `isSymbolicLink()`: constant `false` in Stats.js, like `isSocket()`,
      since no entry is a link. */
  function IsSymbolicLink(st: Stats): (r: bool)
    ensures !r
  {
    false
  }
}
