/** The key scheme of FileSystem.js: `_fixPath` turns a virtual path into a
    store key under the prefix, `_parentPath` finds the key of the
    enclosing directory. */
module FsKeys {
  import opened Base
  import opened Strings
  import opened Paths

  const Separator: char := '/'
  const MetaSuffix: string := ".meta"

  /** `s.replace(/\\+/g, '/')`: every run of backslashes becomes one `/`.
      `inRun` says the character before `s` was a backslash. */
  function CollapseBackslashes(s: string, inRun: bool): (r: string)
    ensures '\\' !in r
    ensures '\\' !in s ==> r == s
    decreases |s|
  {
    if |s| == 0 then ""
    else if s[0] == '\\' then
      if inRun then CollapseBackslashes(s[1..], true)
      else "/" + CollapseBackslashes(s[1..], true)
    else
      var rest := CollapseBackslashes(s[1..], false);
      assert '\\' !in s ==> [s[0]] + s[1..] == s;
      [s[0]] + rest
  }

  /** The two replacements at the head of `_fixPath`. */
  function CleanPath(s: string): (r: string)
    ensures NoForbidden(r)
    ensures NoForbidden(s) ==> r == s
  {
    RemoveForbidden(CollapseBackslashes(s, false))
  }

  /** `_fixPath(path, isDirectory)` with `this.prefix == prefix`; the empty
      path stands for every falsy one. */
  function FixPath(prefix: string, path: string, isDirectory: bool): (r: Result<string>)
    ensures r.Err? <==> path == ""
    ensures r.Err? ==> r.error == NoPathGiven
    ensures r.Ok? ==> StartsWith(r.value, prefix + "/")
    ensures r.Ok? ==> NoForbidden(r.value[|prefix|..])
    ensures r.Ok? && isDirectory ==> EndsWith(r.value, "/")
  {
    if path == "" then Err(NoPathGiven)
    else
      var c := CleanPath(path);
      var q := if StartsWith(c, prefix + "/") then c
        else if |c| > 0 && c[0] == '/' then prefix + c
        else prefix + "/" + c;
      assert q[..|prefix| + 1] == prefix + "/";
      var r := if isDirectory && !EndsWith(q, "/") then q + "/" else q;
      assert r[..|prefix| + 1] == prefix + "/";
      NoForbiddenTail(prefix, c, q, r);
      Ok(r)
  }

  /** `_fixPath(path, true)` is `_fixPath(path)` with a `/` added when it
      has none, which is how `mkdirSync` builds its key. */
  lemma FixDirectory(prefix: string, path: string)
    requires path != ""
    ensures var k := FixPath(prefix, path, false).value;
      FixPath(prefix, path, true) == Ok(if EndsWith(k, "/") then k else k + "/")
  {
  }

  lemma NoForbiddenTail(prefix: string, c: string, q: string, r: string)
    requires NoForbidden(c)
    requires q == c || q == prefix + c || q == prefix + "/" + c
    requires StartsWith(q, prefix + "/")
    requires r == q || r == q + "/"
    ensures NoForbidden(r[|prefix|..])
  {
    var t := r[|prefix|..];
    forall i | 0 <= i < |t| ensures !IsForbidden(t[i]) {
      var j := |prefix| + i;
      assert t[i] == r[j];
      if j < |q| {
        assert r[j] == q[j];
        if q == c {
        } else if q == prefix + c {
          assert q[j] == c[i];
        } else {
          assert j == |prefix| ==> q[j] == '/';
          assert j > |prefix| ==> q[j] == c[j - |prefix| - 1];
        }
      }
    }
  }

  /** A prefix `_fixPath` leaves alone: none of `\ : * ? " < > |`. */
  predicate CleanPrefix(prefix: string) {
    NoForbidden(prefix)
  }

  /** `_fixPath` is idempotent under a clean prefix. */
  lemma FixPathIdempotent(prefix: string, path: string, isDirectory: bool)
    requires CleanPrefix(prefix)
    requires path != ""
    ensures FixPath(prefix, FixPath(prefix, path, isDirectory).value, isDirectory) ==
      FixPath(prefix, path, isDirectory)
  {
    var r := FixPath(prefix, path, isDirectory).value;
    CleanKey(prefix, r);
  }

  /** A key under a clean prefix is its own fixed form. */
  lemma CleanKey(prefix: string, k: string)
    requires CleanPrefix(prefix)
    requires StartsWith(k, prefix + "/") && NoForbidden(k[|prefix|..])
    ensures FixPath(prefix, k, false) == Ok(k)
    ensures EndsWith(k, "/") ==> FixPath(prefix, k, true) == Ok(k)
  {
    assert NoForbidden(k) by {
      forall i | 0 <= i < |k| ensures !IsForbidden(k[i]) {
        if i < |prefix| {
          assert k[i] == k[..|prefix| + 1][i] == prefix[i];
        } else {
          assert k[i] == k[|prefix|..][i - |prefix|];
        }
      }
    }
  }

  /** A key produced by `_fixPath` under a clean prefix. */
  predicate IsKey(prefix: string, k: string) {
    StartsWith(k, prefix + "/") && NoForbidden(k[|prefix|..])
  }

  /** `_parentPath`: everything up to and including the last `/`, with
      the prefix alone replaced by the root key. */
  function ParentPath(prefix: string, s: string): (p: string)
    ensures p == prefix + "/" || StartsWith(s, p)
    ensures p == "" || p[|p| - 1] == '/'
  {
    var pp := s[..LastIndexOf(s, '/') + 1];
    if pp == prefix then prefix + "/" else pp
  }

  /** The parent of a key lies under the prefix and holds the key, unless
      it is the key itself. */
  lemma ParentOfKey(prefix: string, k: string)
    requires StartsWith(k, prefix + "/")
    ensures StartsWith(ParentPath(prefix, k), prefix + "/")
    ensures StartsWith(k, ParentPath(prefix, k))
    ensures '/' !in k[|ParentPath(prefix, k)|..]
  {
    var last := LastIndexOf(k, '/');
    assert k[|prefix|] == '/';
    assert last >= |prefix|;
    var pp := k[..last + 1];
    assert pp != prefix;
    assert pp[..|prefix| + 1] == prefix + "/";
    var name := k[last + 1..];
    assert forall j :: 0 <= j < |name| ==> name[j] == k[last + 1 + j];
  }
}
