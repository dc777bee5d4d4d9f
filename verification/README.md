# localStorageFileSystem in Dafny

This project models a file system that a browser library emulates on top of
`localStorage`, a flat and synchronous key-value store of strings. It proves
properties of that model.

What is modelled:

- **Key scheme.** Every path is fixed into one store key. The key is the
  instance prefix (the user's prefix followed by `.`), then `/`, then the
  cleaned path. A directory's key ends in `/`.
- **Metadata.** Every entry has a metadata key: its own key followed by
  `.meta`. That key holds the entry's `Stats` document.
- **Directories.** Directories are emulated purely by key prefixes:
  - `existsSync` tries both the key and the key followed by `/`;
  - `mkdirSync` writes the key `''` and its stats, and `mkdirsSync` repeats
    that for each segment;
  - `rmdirSync` and `renameSync` scan every key from the last index down;
  - `readdirSync` lists the immediate children, sorted.
- **File contents.** Contents are stored as `data:` URLs with a base64
  payload. The codec layer of `util.js` is modelled:
  - UTF-8 through `encodeURIComponent` and `decodeURIComponent`;
  - binary strings;
  - `btoa` and `atob`;
  - building `data:` URLs and parsing them with the pattern
    `/^data:((.*?)(;charset=.*?)?)(;base64)?,/`;
  - media-type lookup by extension.
- **Stats records** and their trip through `JSON.stringify` and `JSON.parse`.
- **Event emitter.** A watch is a listener on `change:<key>`. A write, and
  an unlink, fire `change:` for the key and for its parent. A rename fires
  `rename:` events instead.

The store is a sequence of (key, value) pairs with distinct keys.
`setItem` on a new key appends it, and `removeItem` closes the gap. The
scanning loops of `rmdirSync` and `renameSync` run on that sequence exactly
as written. This includes the case where `key(i)` points past the end after
a removal, which makes the loop throw. Only facts that do not depend on
the order of keys are proved about those loops.

Each operation is a pure function from a `FileSystem` value to a `Step`. A
`Step` holds the new state, a `Result` (a value, or the error the source
throws) and the events emitted. `Calls` turns those events into the
listener calls that the emitter makes.

Modules, one per concern:

| module | contents |
|---|---|
| `KeyValueStore` | `localStorage` as a sequence of pairs |
| `Strings` | the JavaScript string primitives used |
| `Binary` | binary strings |
| `Utf8` | UTF-8 and percent-encoding |
| `Base64` | `btoa` and `atob` |
| `DataUrl` | the `data:` URL helpers of `util.js` |
| `Mime` | `getMimeByExte` and `getMimeByPath` |
| `Paths` | `resolveToFullPath` and `isValidatedPath` |
| `Metadata` | `Stats.js` |
| `Events` | `EventEmitter.js` |
| `FsKeys` | `_fixPath` and `_parentPath` |
| `FsCore` | the single-key operations of `FileSystem.js` |
| `FsScan` | the scanning operations |
| `Sorting` | `Array.prototype.sort` on strings |
| `FsLaws` | properties that relate several operations |

Where the written description of the library and the code disagree, the
model follows the code:

- `renameSync` writes every key under the old path to the single new key,
  so entries do not each move to their own place. It then fires `rename:`
  events, not `change:` events, and only for files. Watchers therefore
  never see a rename (`FsLaws.RenameNeverCallsWatchers`).
- `mkdirsSync` splits the already prefixed key. The first segment is the
  prefix itself, and fixing it again nests it, so `mkdirsSync('/x')` on a
  new instance creates `<prefix>/<prefix>/x/` and `/x` still does not
  exist (`FsLaws.MkdirsNestsUnderPrefix`, for a prefix without forbidden
  characters or `/`).
- `utimesSync` sets `mtime` to `new Date(atime)`, not to `mtime`
  (`FsCore.TouchedStats`, `FsLaws.UtimesThenStat`). It also fixes the path
  before calling `statSync`, which fixes it again. Under a prefix with a
  character that cleaning removes, that second fix misses the stored stats
  (`FsLaws.UtimesUncleanPrefix`).

## Model

| member | source | states |
|---|---|---|
| KeyValueStore.Get | FileSystem.js:48-51 | `getItem` finds a value exactly when some pair holds the key, and the value it returns is that pair's value |
| KeyValueStore.Set | FileSystem.js:381-382 | `setItem` makes the key read the new value and leaves every other key's value as it was; a new key is appended, an existing one is updated in place without moving |
| KeyValueStore.Remove | FileSystem.js:280-288 | `removeItem` makes the key absent, leaves other keys' values alone, and shifts the later pairs down by one |
| KeyValueStore.Key | FileSystem.js:176-177 | `key(i)` names the i-th key inside the store and is null outside it |
| KeyValueStore.Keys | FileSystem.js:165-183 | the set of stored keys is exactly the keys `getItem` finds |
| KeyValueStore.PositionRemove | FileSystem.js:210-218 | after a removal, every other key's index is unchanged below the removed one and one lower above it |
| Strings.IndexOf | util.js:308-317 | `indexOf` gives the first position of the character, and -1 exactly when it is absent |
| Strings.LastIndexOf | FileSystem.js:115-121 | `lastIndexOf` gives the last position of the character, and -1 exactly when it is absent |
| Strings.AfterLastSlash | util.js:308-309 | the result is the end of the string that holds no `/` and is preceded by a `/`, or the whole string when it has no `/` |
| Strings.SplitJoin | util.js:133-152 | splitting a join gives back the parts when no part holds the separator |
| Paths.IsValidatedPath | util.js:158-160 | a path passes the blacklist exactly when it holds none of `\ : * ? " < > \|` |
| Paths.RemoveForbidden | FileSystem.js:193-198 | stripping the forbidden characters leaves none of them, keeps a clean name unchanged, and adds no character |
| Paths.Normalize | util.js:133-150 | the normalising loop only ever keeps proper segments: not empty, not `.`, not `..`, and without `/`; its only failure is an invalid path |
| Paths.ResolveToFullPath | util.js:124-157 | a resolved path starts with `/`, does not end with `/` unless it is the root, and has no `.`, `..` or empty segment; its only failure is an invalid path |
| Paths.NormalizeProper | util.js:133-150 | proper segments are pushed unchanged onto the stack |
| Paths.ResolveNormal | util.js:124-157 | resolving an already normalised full path gives it back, whatever the working directory |
| Paths.ResolveIdempotent | util.js:124-157 | resolving twice is the same as resolving once |
| Paths.ClimbAboveRootFails | util.js:137-141 | `..` at the root is an invalid path |
| Paths.ClimbsStep | util.js:133-150 | a `..` meets an empty stack either at the first part, or later, starting from the depth the first part leaves |
| Paths.NormalizeFails | util.js:133-150 | the loop fails exactly when some `..` arrives while the stack, counting the proper parts pushed and the `..` popped before it, is empty |
| Paths.ResolveFails | util.js:124-157 | resolving fails exactly when a `..` of the joined path climbs above the root |
| Paths.JoinSplit | util.js:133-152 | joining a split gives the string back |
| Mime.AsciiLower | util.js:294 | lower-casing keeps the length, leaves no upper-case letter and changes nothing else |
| Mime.LookupFrom | util.js:297-302 | the lookup finds the first media-type entry whose extension list holds the needle, and none before it does |
| Mime.GetMimeByExte | util.js:291-307 | an extension that some entry lists, as `,ext,` in lower case, gets the type of the first such entry; an empty extension, or one that no entry lists, gets `application/octet-stream` |
| Mime.GetMimeByPath | util.js:308-317 | a file name without `.` has no type, and any type found is a known one |
| Mime.GetMimeByExteIgnoresCase | util.js:291-307 | the lookup does not depend on the case of the extension |
| Mime.GetMimeByPathOfName | util.js:308-317 | `dir/name.ext`, with no `.` in the name, gets the type of `ext` |
| Mime.NameExtension | util.js:309-311 | the file name of `dir/name.ext` is `name.ext`, and its extension is `ext` |
| Binary.BufferToBinaryString | util.js:202-208 | one character per byte, whose code is the byte |
| Binary.BinaryStringToBuffer | util.js:213-227 | one byte per character, the character code kept modulo 256 as a `Uint8Array` does |
| Binary.BinaryStringRoundTrip | util.js:202-227 | a binary string survives the trip through a buffer |
| Binary.BufferRoundTrip | util.js:202-227 | a buffer survives the trip through a binary string |
| Utf8.EncodeURIComponent | util.js:162-164 | the escaped text holds only `%`, upper-case hex digits and unreserved characters |
| Utf8.ByteEscape | util.js:165-168 | a byte is escaped as `%` and two upper-case hex digits that read back as the byte |
| Utf8.Utf8ToBinaryStringIsEncode | util.js:162-171 | replacing every `%XX` of `encodeURIComponent` by the character of that byte gives one character per UTF-8 byte of the text |
| Utf8.Utf8ToBinaryString | util.js:162-171 | `utf8ToBinaryString` is the binary string of the text's UTF-8 bytes, as long as those bytes, so always a binary string |
| Utf8.UnescapePercentEncoded | util.js:165-168 | replacing `%XX` undoes the percent-encoding of any bytes |
| Utf8.EscapeBytes | util.js:181-188 | the `/(.)/g` replacement turns the characters of high bytes back into their escapes |
| Utf8.CharBytesShape | util.js:181-191 | the UTF-8 bytes of a non-ASCII character form one well-formed sequence that decodes to it |
| Utf8.DecodeOneChar | util.js:181-191 | `decodeURIComponent` reads the escaped bytes of one character back as that character |
| Utf8.DecodeURIComponent | util.js:190 | `decodeURIComponent` throws nothing but a malformed-URI error |
| Utf8.DecodeWithoutEscapes | util.js:190 | text without `%` decodes to itself |
| Utf8.BinaryStringToUtf8 | util.js:181-191 | `binaryStringToUtf8` throws nothing but a malformed-URI error, and gives back any text of ASCII characters unchanged |
| Utf8.AsciiDecodes | util.js:181-191 | the escapes the `/(.)/g` replacement writes for ASCII characters decode back to those characters |
| Utf8.Utf8RoundTrip | util.js:162-191 | `binaryStringToUtf8(utf8ToBinaryString(s))` gives back `s`, and so does decoding its UTF-8 bytes |
| Base64.EncodeUnpadded | util.js:209-212 | unpadded base64 of n bytes has (4n + 2) / 3 characters, rounded down, all from the alphabet |
| Base64.Encode | util.js:209-212 | padded base64 has a length that is a multiple of four |
| Base64.Btoa | util.js:177-180 | `btoa` succeeds exactly on binary strings |
| Base64.Atob | util.js:228-232 | whatever `atob` decodes is a binary string |
| Base64.RemoveWhitespace | util.js:228-232 | `atob` drops exactly the ASCII whitespace: every other character is kept and no whitespace is left |
| Base64.RemovePadding | util.js:228-232 | `atob` drops one or two trailing `=` only, and only when the length is a multiple of four and the text ends in them |
| Base64.DecodeUnpadded | util.js:228-232 | unpadded base64 of n digits decodes to 3n/4 bytes, rounded down |
| Base64.GroupRoundTrip | util.js:209-232 | four base64 digits of three bytes decode back to those bytes |
| Base64.DecodeEncodeUnpadded | util.js:209-232 | decoding undoes encoding for any bytes |
| Base64.RemovePaddingOfEncode | util.js:228-232 | stripping the padding of an encoding leaves the unpadded encoding |
| Base64.AtobBtoa | util.js:177-201 | `atob(btoa(s))` is `s` for every binary string |
| Base64.AtobEncode | util.js:209-232 | `atob` of the base64 of some bytes gives their binary string |
| DataUrl.Utf8ToBuffer | util.js:172-176 | `utf8ToBuffer` gives the UTF-8 bytes of the text |
| DataUrl.Base64ToBuffer | util.js:228-232 | `base64ToBuffer` throws exactly when `atob` does, with an invalid-character error, and otherwise gives the bytes of `atob`'s binary string |
| DataUrl.BufferToUtf8 | util.js:192-196 | `bufferToUtf8` throws nothing but a malformed-URI error, and reads ASCII bytes as their characters |
| DataUrl.Base64ToUtf8 | util.js:197-201 | `base64ToUtf8` throws an invalid-character error when the base64 is bad, and otherwise decodes its bytes as UTF-8 |
| DataUrl.Utf8ToBase64 | util.js:177-180 | `utf8ToBase64` never throws: its binary string is always accepted by `btoa` |
| DataUrl.BufferToBase64 | util.js:209-212 | `bufferToBase64` never throws |
| DataUrl.BufferToUtf8RoundTrip | util.js:172-196 | `bufferToUtf8(utf8ToBuffer(s))` gives back `s` |
| DataUrl.Base64ToUtf8RoundTrip | util.js:177-201 | `base64ToUtf8(utf8ToBase64(s))` gives back `s` |
| DataUrl.StopPoint | util.js:235 | the lazy group 2 stops at the first `;charset=`, or at a final `;base64`, or at the end |
| DataUrl.SplitHeader | util.js:235 | the pattern's groups split the header into the media type, the optional charset and the optional `;base64`, in that order and with nothing lost |
| DataUrl.Parse | util.js:235-241 | the pattern matches exactly when the text starts with `data:`, holds a comma, and has no line terminator before the first comma; the payload is what follows that comma |
| DataUrl.DataURLtoString | util.js:234-251 | text that does not match the pattern is an invalid data URI |
| DataUrl.MimeOf | util.js:266-269 | a named type is kept with its parameters, and a missing one becomes `text/plain;charset=utf-8` |
| DataUrl.DataURLtoBuffer | util.js:252-276 | text that does not match is an invalid data URI, and the buffer carries the media type the header gives |
| DataUrl.BinaryMime | util.js:281-285 | the type of a binary data URL is the argument, then the buffer's own type, then `application/octet-stream` |
| DataUrl.Uint8ArrayToDataURL | util.js:281-285 | the URL is `data:`, the chosen type, `;base64,` and a payload that `base64ToBuffer` turns back into the bytes |
| DataUrl.StringToDataURL | util.js:286-290 | the URL is `data:`, the type or `text/plain`, `;base64,` and a payload that `base64ToUtf8` turns back into the text |
| DataUrl.ParseBuilt | util.js:235-244 | a URL built as `data:<type>;base64,<payload>` parses back to that type, the base64 flag and that payload |
| DataUrl.StopPointSkips | util.js:235 | without `;` before a final `;base64`, the media-type group runs up to it |
| DataUrl.BufferDataUrlRoundTrip | util.js:252-285 | `dataURLtoBuffer(uint8ArrayToDataURL(buf, type))` gives back the bytes with that type, for a type that does not start with `;charset=` |
| DataUrl.TypePartOfBuilt | util.js:253-272 | in a built header, the media-type group of the pattern is empty only when the type starts with `;charset=` |
| DataUrl.CharsetOnlyTypeChanges | util.js:252-285 | a type `;charset=…` comes back from `dataURLtoBuffer` as `text/plain;charset=…` |
| DataUrl.ParseStringDataUrl | util.js:286-290 | the URL `stringToDataURL` builds parses as base64 with the text's base64 as payload |
| DataUrl.StringDataUrlRoundTrip | util.js:234-290 | `dataURLtoString(stringToDataURL(s, type))` gives back `s` |
| DataUrl.StringDataUrlAsBuffer | util.js:252-290 | `dataURLtoBuffer` of a text data URL gives the UTF-8 bytes of the text |
| Metadata.DateOfNumber | Stats.js:7-9 | `new Date(n)` is a valid date holding `n` exactly when `n` is within the date range |
| Metadata.TimeOfStamp | Stats.js:7-9 | a stored ISO string or number becomes a `Date`, and null or a missing value is kept as it is |
| Metadata.StampOfTime | FileSystem.js:275-276 | `JSON.stringify` writes a valid date as its ISO string and an invalid date as null |
| Metadata.FromDoc | Stats.js:4-14 | the constructor copies the kind, size, type, path and name and converts the three times, and there is no `atime` |
| Metadata.ToDoc | FileSystem.js:275-276 | the stored document keeps the kind, size, type, path and name |
| Metadata.StatsRoundTrip | Stats.js:4-14 | storing stats and reading them back gives them back, except `atime`, which is lost |
| Metadata.InvalidDateBecomesNull | Stats.js:7-9 | an invalid date is read back as null |
| Metadata.IsDirectory | Stats.js:16-18 | the directory flag |
| Metadata.IsFile | Stats.js:20-22 | the file flag |
| Metadata.IsSocket | Stats.js:24-26 | never a socket |
| Metadata.IsSymbolicLink | Stats.js:28-30 | never a symbolic link |
| Events.On | EventEmitter.js:7-12 | `on` appends the listener to its name's list, creating the list when needed, and touches no other name |
| Events.Off | EventEmitter.js:14-26 | an unknown name is left alone; with a function, a non-empty list throws and an empty one is left alone; without one, only the `length` entry is dropped |
| Events.EventType | EventEmitter.js:28-37 | the type passed to a listener is the text before the first `:` |
| Events.FilePath | EventEmitter.js:28-37 | the path passed to a listener is the explicit file name, or else the text after the first `:` |
| Events.Emit | EventEmitter.js:27-40 | `emit` calls every listener of the name, in registration order, with the type and path |
| Events.EmitAfterOn | EventEmitter.js:7-40 | after `on`, `emit` of that name also calls the new listener, last |
| Events.EmitOtherName | EventEmitter.js:7-40 | registering on one name changes nothing for another |
| Events.OffWithoutFunctionKeepsListeners | EventEmitter.js:14-18 | `off(name)` without a function never empties any listener list, except the list named `length`, which it deletes |
| Events.OffAfterOnFails | EventEmitter.js:14-22 | `off` with a function fails on any name that has a listener |
| Events.EmitArguments | EventEmitter.js:27-40 | `kind:path` events give listeners `kind`, and the file name or else `path` |
| FsKeys.CollapseBackslashes | FileSystem.js:35 | runs of backslashes become `/`, and a path without any is unchanged |
| FsKeys.CleanPath | FileSystem.js:35 | cleaning leaves no forbidden character and keeps a clean path unchanged |
| FsKeys.FixPath | FileSystem.js:31-46 | `_fixPath` throws exactly on an empty path; otherwise the key starts with `<prefix>/`, has no forbidden character after the prefix, and ends with `/` for a directory |
| FsKeys.FixPathIdempotent | FileSystem.js:31-46 | fixing a fixed key gives it back |
| FsKeys.CleanKey | FileSystem.js:31-46 | every well-formed key is its own fixed key |
| FsKeys.ParentPath | FileSystem.js:115-121 | the parent is the root key, or a prefix of the path ending in `/` |
| FsKeys.ParentOfKey | FileSystem.js:115-121 | a key's parent lies under the root and the remainder after it has no `/` |
| FsCore.Calls | EventEmitter.js:27-40 | the listener calls of a list of events are those of each event in turn |
| FsCore.Refix | FileSystem.js:31-46 | operations that pass fixed keys to one another reach the same key |
| FsCore.ExistsSync | FileSystem.js:48-51 | a path exists exactly when its key, or its key with `/`, is stored, and an empty path throws |
| FsCore.StatSync | FileSystem.js:259-268 | stats exist exactly when a JSON document is stored under the meta key and are read from it; `''` gives null and other text throws |
| FsCore.SetStatSync | FileSystem.js:269-278 | the stats go to the meta key, which is not doubled for a key already ending in `.meta`, and nothing else changes |
| FsCore.MkdirSync | FileSystem.js:59-85 | an existing directory gives `false` and no change; a new one writes `''` under its key and directory stats under its meta key; no other key changes and nothing is removed |
| FsCore.DirStatsShape | FileSystem.js:67-77 | directory stats say directory, not file, size 0, no type, the key as full path, and an empty name |
| FsCore.MkdirsLoop | FileSystem.js:96-108 | the segment loop keeps every key already stored |
| FsCore.TurnCreates | FileSystem.js:98-106 | after one turn the turn's fixed key is stored as itself, with one `/` added, or with two |
| FsCore.TurnMakes | FileSystem.js:59-85 | `mkdirSync` of a missing fixed key either writes it with one `/` added or finds it stored with two |
| FsCore.TurnKey | FileSystem.js:31-46 | the directory key of a fixed key adds at most one `/` and fixes to itself |
| FsCore.MkdirsLoopVisits | FileSystem.js:96-108 | a loop that completes has one fixed key per segment, and each stays stored in one of those three forms to the end |
| FsCore.MkdirsLoopCreates | FileSystem.js:96-108 | a loop that completes leaves every turn's key existing, unless that key with two `/` added is stored |
| FsCore.MkdirsSyncCreates | FileSystem.js:90-114 | a successful `mkdirsSync` found the path existing, or leaves every key its loop visited existing, unless that key with two `/` added is stored |
| FsCore.MkdirsSync | FileSystem.js:90-114 | an existing path gives `true` at once; otherwise it gives `true` or fails with a directory-create error, and removes nothing |
| FsCore.UnlinkSync | FileSystem.js:280-288 | the key and its meta key are removed, nothing else changes, and `change:` fires for the key and its parent |
| FsCore.NewDate | FileSystem.js:298 | `new Date(x)` of a number is that date, and of a missing argument an invalid date |
| FsCore.TouchedStats | FileSystem.js:289-309 | only `atime` and `mtime` change; `mtime` is taken from the `atime` argument as written |
| FsCore.UtimesSync | FileSystem.js:289-309 | the stats are read and written at the meta key of the path fixed twice; they throw when that read throws, or when they are missing and a time is given; otherwise only that meta key changes, and it holds the touched stats, or `null` when they were missing |
| FsCore.Watch | FileSystem.js:310-317 | watching adds the listener on `change:<key>` and changes nothing else |
| FsCore.Unwatch | FileSystem.js:318-325 | unwatching with a function fails while listeners remain; otherwise it is `off` on `change:<key>`; the store never changes |
| FsCore.HeaderOf | FileSystem.js:246 | the header is the text before the last comma |
| FsCore.ReadFileSync | FileSystem.js:229-253 | a missing path throws not-found; a read comes from a file whose stored data URL decodes to the text, or to the bytes, returned; with an encoding the result is text, or an empty buffer when nothing is stored |
| FsCore.TypeFor | FileSystem.js:337 | the type is the option when given, else the type of the path |
| FsCore.Encoded | FileSystem.js:346-360 | bytes are stored as a binary data URL sized by byte count, text as a text data URL sized by its escaped length; any other content is unsupported |
| FsCore.NewFileStats | FileSystem.js:361-374 | a new file's stats say file, the size, the key and its name, with all three times now |
| FsCore.RewrittenStats | FileSystem.js:374-380 | a rewrite keeps the kind, birth time, path and name, and sets `mtime`, `ctime`, size and the type |
| FsCore.PriorStats | FileSystem.js:339-344 | a write may only replace a file |
| FsCore.WriteFileSync | FileSystem.js:332-387 | a failed write changes nothing; a successful one stores the encoded data and the new or rewritten stats, changes no other key, and fires `change:` for the key and its parent |
| FsCore.New | FileSystem.js:11-16 | the instance prefix is the user's prefix followed by `.`, no listeners are registered, every stored key is kept, keys other than the root key and its meta key keep their values, and, under a prefix without forbidden characters, a root already stored leaves the storage as it was |
| FsScan.RemoveUnder | FileSystem.js:126-140 | the removal scan leaves keys outside the prefix alone, never adds a key, and when it finishes no key under the prefix remains |
| FsScan.RmdirSync | FileSystem.js:126-140 | an empty path throws; keys outside the directory keep their values; on success the store is exactly the old one minus every key under the directory |
| FsScan.MoveOneStep | FileSystem.js:210-218 | one pass of the rename loop keeps the loop invariant and touches no key outside the old path but the new key and its meta key |
| FsScan.MoveOneReadsAt | FileSystem.js:212-217 | after one pass, the new key holds the moved value and the new meta key the stats |
| FsScan.MoveUnder | FileSystem.js:209-218 | the rename scan leaves keys outside the old path alone, except the new key and its meta key; when it finishes, only those two can remain under the old path |
| FsScan.MoveUnderKeepsUnder | FileSystem.js:209-218 | a key under the old path that the scan leaves in place keeps its value |
| FsScan.MoveUnderValue | FileSystem.js:209-218 | the new key holds its old value or a value that was stored under the old path, and the latter when the scan completes and met such a key |
| FsScan.MoveUnderLone | FileSystem.js:209-218 | when the old path is stored with at most its meta key under it, a completed scan leaves its value at the new key |
| FsScan.RenameTarget | FileSystem.js:193-198 | a new path with `/` is fixed; a bare name becomes a sibling with its forbidden characters stripped and the same parent |
| FsScan.RenamedStats | FileSystem.js:200-208 | rename stats get a new `ctime` and the type of the new name when it has one, and keep everything else |
| FsScan.RenameEvents | FileSystem.js:219-223 | rename fires only `rename:` events |
| FsScan.Relocate | FileSystem.js:209-226 | a failing scan throws a rename error with no events and keeps whatever it already moved; keys outside the old path, except the new key and its meta key, keep their values; on success events fire for files only, and, when the old path is stored and the new key and its meta key lie outside it, the new key exists and its meta key holds the renamed stats |
| FsScan.RelocateValue | FileSystem.js:209-218 | the value at the new key after the scan: old or from under the old path; from under it on success; the entry's own value when it is alone |
| FsScan.RenameFixed | FileSystem.js:190-226 | a missing path throws not-found; keys outside the old path, except the new ones, keep their values; on success the stats existed, and, when the old path is stored and the new keys lie outside it, the new key and its renamed stats are stored |
| FsScan.RenameFixedValue | FileSystem.js:190-218 | the value rules of the scan hold for `renameSync` once the path is fixed |
| FsScan.RenameSync | FileSystem.js:185-227 | the root and an empty path are refused and a missing path throws not-found; keys outside the old path, except the new ones, keep their values; on success the stats existed, and, under a prefix without forbidden characters and with the new keys outside the old path, the new key and its renamed stats are stored |
| FsScan.RenameSyncValue | FileSystem.js:185-218 | after `renameSync`, the new key holds its old value or one from under the old path; on success under a clean prefix, one from under the old path; for a lone entry, the entry's value |
| FsScan.Collect | FileSystem.js:176-181 | the scan collects, without repetition, the remainder of every stored key that is an immediate child of the directory |
| FsScan.CollectComplete | FileSystem.js:176-181 | a name is collected exactly when its key is stored and is an immediate child |
| FsScan.ReaddirSync | FileSystem.js:165-183 | a missing path throws; the result comes only from a directory, is strictly sorted, and holds exactly the names of its immediate children |
| Sorting.BelowTotal | FileSystem.js:182 | code-point order compares any two different strings |
| Sorting.BelowTransitive | FileSystem.js:182 | code-point order is transitive |
| Sorting.Sort | FileSystem.js:182 | `sort` gives a sorted permutation of its input |
| Sorting.SortDistinct | FileSystem.js:182 | sorting distinct names gives a strictly increasing list |
| FsLaws.WriteHoldsFile | FileSystem.js:332-387 | after a successful write the path exists, is a file, and holds the encoded content |
| FsLaws.WriteLeavesFile | FileSystem.js:332-387 | after a successful write the stats say file and give the encoded size |
| FsLaws.ReadHeldText | FileSystem.js:229-253 | reading with an encoding a file that holds a text data URL gives the text |
| FsLaws.ReadHeldBytes | FileSystem.js:229-253 | reading without an encoding a file that holds a binary data URL gives the bytes and type |
| FsLaws.WriteThenReadText | FileSystem.js:229-387 | text written is the text read back with an encoding |
| FsLaws.WriteTextThenReadBytes | FileSystem.js:229-387 | text written is read back without an encoding as its UTF-8 bytes |
| FsLaws.WriteThenReadBytes | FileSystem.js:229-387 | bytes written are the bytes read back, with the type they were stored with |
| FsLaws.WriteKeepsBirthtime | FileSystem.js:374-380 | rewriting a file keeps its birth time and sets `mtime` and `ctime` to now |
| FsLaws.WrittenHeaderSaysBase64 | FileSystem.js:244-248 | every data URL a write builds says `base64` in its header, so reads decode it |
| FsLaws.MkdirTwice | FileSystem.js:59-85 | under a prefix without forbidden characters, a second `mkdirSync` of the same path gives `false` and changes nothing |
| FsLaws.MkdirAgainWhenRefixMisses | FileSystem.js:31-85 | a second `mkdirSync` succeeds again whenever fixing the directory key once more gives a key that is not stored |
| FsLaws.MkdirTwiceUncleanPrefix | FileSystem.js:31-85 | under the prefix `a:.`, a second `mkdirSync('/x')` succeeds again, because the existence check looks up `a:./a./x/` |
| FsLaws.MkdirThenReaddir | FileSystem.js:59-183 | a directory just made exists and can be listed |
| FsLaws.MkdirWrites | FileSystem.js:59-85 | making a new directory is exactly two `setItem` calls: the key, then its meta key |
| FsLaws.NewWrites | FileSystem.js:11-16 | over storage with nothing under the root key, a new instance makes two `setItem` calls: the root key, then its meta key |
| FsLaws.NewStore | FileSystem.js:11-16 | over storage with nothing under the root key, a new instance appends the root key and its meta key to the stored entries |
| FsLaws.NewGet | FileSystem.js:11-16 | over storage with nothing under the root key, a new instance reads `''` at the root key, directory stats at its meta key, and the stored value elsewhere |
| FsLaws.NewFreshRoot | FileSystem.js:11-16 | over storage with nothing under the root key, the only keys under it afterwards are the root key and its meta key |
| FsLaws.NewRootOnly | FileSystem.js:11-16 | on the first load, with nothing stored, only the root key and its meta key are stored |
| FsLaws.RootKeysFresh | FileSystem.js:11-16 | with nothing under the root key, neither it nor its meta key is stored, and the two differ |
| FsLaws.NewHasEmptyRoot | FileSystem.js:11-183 | over storage with nothing under the root key, a new instance's root exists and lists nothing |
| FsLaws.MkdirsFirstStep | FileSystem.js:96-108 | the first segment of a root child is the prefix itself, and it is created nested under the root |
| FsLaws.MkdirsTwoTurns | FileSystem.js:96-108 | on a fresh store the loop makes two directories, the nested prefix and then the child |
| FsLaws.MkdirsLoopFromRoot | FileSystem.js:96-108 | after the loop, only the root, the nested prefix and the child are stored, each with its stats |
| FsLaws.MkdirsNestsUnderPrefix | FileSystem.js:90-114 | on a new instance, `mkdirsSync('/x')` succeeds, but creates `<prefix>/<prefix>/x/` and leaves `/x` missing |
| FsLaws.MkdirsTurnMayWriteNothing | FileSystem.js:90-114 | when `<prefix>/name//` is stored but neither `<prefix>/name` nor `<prefix>/name/`, the loop's turn writes nothing and completes, and the turn's key stays missing |
| FsLaws.UnlinkThenGone | FileSystem.js:280-288 | after unlinking a file it no longer exists and has no stats |
| FsLaws.RmdirThenGone | FileSystem.js:126-183 | after a successful `rmdirSync` the directory no longer exists and cannot be listed |
| FsLaws.RmdirClearsUnder | FileSystem.js:126-140 | after a successful `rmdirSync` no key under the directory remains |
| FsLaws.ChangeEventsReach | FileSystem.js:383-385 | a listener on `change:<key>` is called by the events of a write to that key, with the file name |
| FsLaws.WatchSeesWrite | FileSystem.js:310-387 | a watcher on a path is called when that path is written |
| FsLaws.UnwatchAfterWatchFails | FileSystem.js:310-325 | unwatching with a function right after a watch throws |
| FsLaws.CallsIgnoreOtherListener | EventEmitter.js:27-40 | a listener on a name that no event uses is never called |
| FsLaws.RenameNeverCallsWatchers | FileSystem.js:219-223 | a rename never calls a watcher, whatever the paths |
| FsLaws.UtimesThenStat | FileSystem.js:289-309 | under a prefix without forbidden characters, after `utimesSync` with numbers, the stats read back have `mtime` equal to the given `atime` and no `atime` |
| FsLaws.UtimesOnMetaKey | FileSystem.js:269-309 | on a path whose key ends in `.meta`, `utimesSync` writes the touched stats over that key itself, and the stats `statSync` reads stay as they were |
| FsLaws.UtimesUncleanPrefix | FileSystem.js:259-298 | under the prefix `a:.`, `statSync('/x')` finds stats that `utimesSync('/x', n)` does not, because it fixes the path twice and looks up `a:./a./x.meta`; it throws |

## Left out

- The order of `localStorage` keys is left unspecified by the browser. The
  model uses insertion order, and only facts that hold for any order are
  proved about the scans.
- A quota failure of `setItem` is modelled only where the source catches it,
  in `mkdirSync`, as the `Quota` parameter. Elsewhere the store never fails.
- The clock is a `now` parameter, because `new Date()` is not modelled.
- `FsCore.UtimesSync`: does not model the rescaling of times that lie in the
  future or before 1970. Times are used as given, because the rescaling
  depends on the clock and on floating-point division.
- Dates are integral milliseconds. Non-integral numbers and the floating
  point behind `Date` are not modelled.
- `JSON.stringify` and `JSON.parse` are an identity pair on a structured
  document, so the JSON text is not modelled.
- Blobs (`createReadStream`, `dataURLtoBlob`, `readFileSync` of a `Blob`),
  `ArrayBuffer` contents beyond being refused, `isSupported` and
  `getInstance` are not modelled, because they need browser objects.
- FileError.js is not part of this model. Errors are the constructors of
  `Error` in module `Base`.
- Strings are sequences of Unicode scalar values, not UTF-16 code units. An
  astral character counts as one, and lone surrogates, with the `URIError`
  they cause, cannot arise. For the same reason `sort` compares code points,
  which differs from UTF-16 order only when astral characters are compared
  with characters from U+E000 up.
- `toLowerCase` is modelled for ASCII letters only.
- Listeners are opaque identities. Their bodies, and what they do when
  called, are not modelled.
- Event names that collide with `Object.prototype` properties are not
  modelled.
- `DataUrl.BufferDataUrlRoundTrip`, `DataUrl.StringDataUrlRoundTrip`: hold
  for media types with no comma and no line terminator. A comma ends the
  pattern's header early, and `.` does not match a line terminator. The
  buffer round trip also needs a type that does not start with `;charset=`.
  Such a type leaves the pattern's second group empty, so `dataURLtoBuffer`
  reports `text/plain` followed by it (`DataUrl.CharsetOnlyTypeChanges`).
  Other types with `;` come back unchanged.
- `FsLaws.WriteThenReadText`, `FsLaws.WriteThenReadBytes`: stated under the
  same restriction on the media type, and for a prefix without forbidden
  characters. The source does not clean the prefix.
- `FsLaws.WriteTextThenReadBytes`: stated for a media type with no comma
  and no line terminator, for the same reason, and for a prefix without
  forbidden characters.
- `FsLaws.MkdirTwice`: stated for a prefix without forbidden characters.
  With such characters in the prefix, fixing a key again strips them and
  misses the key, and the second call succeeds again
  (`FsLaws.MkdirTwiceUncleanPrefix`).
- `FsLaws.MkdirThenReaddir`, `FsLaws.UnlinkThenGone`, `FsLaws.RmdirThenGone`:
  stated for a prefix without forbidden characters, for the same reason.
- `FsLaws.WriteKeepsBirthtime`: stated for a prefix without forbidden
  characters, for the same reason.
- `FsLaws.UtimesThenStat`: stated for a prefix without forbidden
  characters, for the same reason, and for a path whose key does not end in
  `.meta`. On such a key the touched stats overwrite the key itself and
  `statSync` still reads the old ones (`FsLaws.UtimesOnMetaKey`).
- `FsLaws.NewHasEmptyRoot`: stated for a prefix without forbidden
  characters and for storage with nothing under the root key.
- `FsLaws.NewWrites`, `FsLaws.NewStore`, `FsLaws.NewGet`,
  `FsLaws.NewFreshRoot`: stated for storage with nothing under the root
  key. Over earlier entries, `FsCore.New` states only that stored keys are
  kept and other values are unchanged.
- `FsCore.MkdirsSyncCreates`, `FsCore.MkdirsLoopCreates`,
  `FsCore.MkdirsLoopVisits`, `FsCore.TurnCreates`: stated for a prefix
  without forbidden characters and with no quota failure. A key stored with
  two slashes added makes `mkdirSync` write nothing, so a turn's key need
  not exist afterwards (`FsLaws.MkdirsTurnMayWriteNothing`).
- `FsScan.RenameSync`: the new key and its stats are promised only under a
  prefix without forbidden characters, and when the new key and its meta key
  lie outside the old path.
- `FsScan.RenameSync`: when several keys lie under the old path, all of them
  are written to the one new key, as the source does. The contract states
  what any order of keys guarantees, not which value ends up last.
- `FsLaws.MkdirsNestsUnderPrefix`: proved for a new instance and a
  one-segment name only. The user's prefix must hold no forbidden character
  and no `/`. The name must hold neither, must not be `.meta`, and must
  differ from the instance prefix.
- `RmdirsSync` is the same function as `RmdirSync`, as in the source, so it
  has no separate contract.
