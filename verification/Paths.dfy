/** Path helpers of util.js: `resolveToFullPath`, which normalises a path
    against a working directory, and `isValidatedPath`. */
module Paths {
  import opened Base
  import opened Strings

  /** A character of the blacklist `[\\:*?"<>|]`. */
  predicate IsForbidden(c: char) {
    c == '\\' || c == ':' || c == '*' || c == '?' || c == '"' || c == '<' || c == '>' || c == '|'
  }

  predicate NoForbidden(s: string) {
    forall i :: 0 <= i < |s| ==> !IsForbidden(s[i])
  }

  /** `isValidatedPath`: the blacklist pattern finds nothing. */
  function IsValidatedPath(path: string): (ok: bool)
    ensures ok <==> NoForbidden(path)
  {
    forall i :: 0 <= i < |path| ==> !IsForbidden(path[i])
  }

  /** `s.replace(/[\\:*?"<>|]/g, '')`. */
  function RemoveForbidden(s: string): (r: string)
    ensures NoForbidden(r)
    ensures |r| <= |s|
    ensures NoForbidden(s) ==> r == s
    ensures forall c :: c in r ==> c in s
    decreases |s|
  {
    if |s| == 0 then ""
    else if IsForbidden(s[0]) then RemoveForbidden(s[1..])
    else
      var rest := RemoveForbidden(s[1..]);
      assert NoForbidden(s) ==> [s[0]] + s[1..] == s;
      [s[0]] + rest
  }

  /** A segment that survives normalisation. */
  predicate ProperSegment(s: string) {
    s != "" && s != "." && s != ".." && '/' !in s
  }

  predicate AllProper(parts: seq<string>) {
    forall i :: 0 <= i < |parts| ==> ProperSegment(parts[i])
  }

  /** A normalised full path: `/`, or `/` followed by proper segments
      joined with `/`. */
  predicate IsNormal(p: string) {
    p == "/" || (|p| >= 2 && p[0] == '/' && AllProper(Split(p[1..], '/')))
  }

  /** The loop of `resolveToFullPath` over the split parts: `..` pops (and
      fails on an empty stack), `.` and `` are skipped, anything else is
      pushed. */
  function Normalize(parts: seq<string>, stack: seq<string>): (r: Result<seq<string>>)
    requires forall i :: 0 <= i < |parts| ==> '/' !in parts[i]
    requires AllProper(stack)
    ensures r.Ok? ==> AllProper(r.value)
    ensures r.Err? ==> r.error == InvalidPath
    decreases |parts|
  {
    if |parts| == 0 then Ok(stack)
    else if parts[0] == ".." then
      if |stack| == 0 then Err(InvalidPath) else Normalize(parts[1..], stack[..|stack| - 1])
    else if parts[0] == "." || parts[0] == "" then Normalize(parts[1..], stack)
    else Normalize(parts[1..], stack + [parts[0]])
  }

  /** `resolveToFullPath(cwd, path)`: a path not starting with `/` (the
      empty path included) is taken relative to `cwd`. */
  function ResolveToFullPath(cwd: string, path: string): (r: Result<string>)
    ensures r.Ok? ==> IsNormal(r.value)
    ensures r.Ok? ==> r.value[0] == '/'
    ensures r.Ok? && r.value != "/" ==> r.value[|r.value| - 1] != '/'
    ensures r.Err? ==> r.error == InvalidPath
  {
    var stack :- Normalize(Split(FullPath(cwd, path), '/'), []);
    var r := "/" + Join(stack, '/');
    NormalFromStack(stack);
    Ok(r)
  }

  /** The path `resolveToFullPath` splits: `path` itself when it starts
      with `/`, else `cwd + '/' + path`. */
  function FullPath(cwd: string, path: string): string {
    if |path| == 0 || path[0] != '/' then cwd + "/" + path else path
  }

  /** A part that normalisation pushes. */
  predicate Pushed(x: string) {
    x != "" && x != "." && x != ".."
  }

  /** How many parts of `xs` are pushed. */
  function Pushes(xs: seq<string>): nat
    decreases |xs|
  {
    if |xs| == 0 then 0 else (if Pushed(xs[0]) then 1 else 0) + Pushes(xs[1..])
  }

  /** How many parts of `xs` are `..`. */
  function Pops(xs: seq<string>): nat
    decreases |xs|
  {
    if |xs| == 0 then 0 else (if xs[0] == ".." then 1 else 0) + Pops(xs[1..])
  }

  /** Some `..` of `parts` meets a stack of `depth` entries plus the
      parts before it pushed, minus those popped, that is empty. */
  ghost predicate ClimbsAbove(parts: seq<string>, depth: int) {
    exists j :: 0 <= j < |parts| && parts[j] == ".." && depth + Pushes(parts[..j]) == Pops(parts[..j])
  }

  /** The change the first part makes to the stack depth. */
  function Delta(x: string): int {
    if x == ".." then -1 else if Pushed(x) then 1 else 0
  }

  /** Climbing above the root happens at the first part, or later from the
      depth the first part leaves. */
  lemma ClimbsStep(parts: seq<string>, depth: int)
    requires |parts| > 0
    ensures ClimbsAbove(parts, depth) <==>
      (parts[0] == ".." && depth == 0) || ClimbsAbove(parts[1..], depth + Delta(parts[0]))
  {
    var rest := parts[1..];
    forall j | 0 <= j < |rest|
      ensures Pushes(parts[..j + 1]) == (if Pushed(parts[0]) then 1 else 0) + Pushes(rest[..j])
      ensures Pops(parts[..j + 1]) == (if parts[0] == ".." then 1 else 0) + Pops(rest[..j])
    {
      assert parts[..j + 1][1..] == rest[..j];
    }
    if ClimbsAbove(parts, depth) {
      var j :| 0 <= j < |parts| && parts[j] == ".." && depth + Pushes(parts[..j]) == Pops(parts[..j]);
      if j > 0 {
        assert rest[j - 1] == "..";
        assert ClimbsAbove(rest, depth + Delta(parts[0]));
      } else {
        assert parts[..0] == [];
      }
    }
    if parts[0] == ".." && depth == 0 {
      assert parts[..0] == [];
      assert ClimbsAbove(parts, depth);
    }
    if ClimbsAbove(rest, depth + Delta(parts[0])) {
      var j :| 0 <= j < |rest| && rest[j] == ".." &&
        depth + Delta(parts[0]) + Pushes(rest[..j]) == Pops(rest[..j]);
      assert parts[j + 1] == "..";
      assert ClimbsAbove(parts, depth);
    }
  }

  /** Normalisation fails exactly when some `..` is met with the stack
      empty. */
  lemma {:induction false} NormalizeFails(parts: seq<string>, stack: seq<string>)
    requires forall i :: 0 <= i < |parts| ==> '/' !in parts[i]
    requires AllProper(stack)
    ensures Normalize(parts, stack).Err? <==> ClimbsAbove(parts, |stack|)
    decreases |parts|
  {
    if |parts| > 0 {
      ClimbsStep(parts, |stack|);
      if parts[0] == ".." {
        if |stack| > 0 {
          NormalizeFails(parts[1..], stack[..|stack| - 1]);
        }
      } else if parts[0] == "." || parts[0] == "" {
        NormalizeFails(parts[1..], stack);
      } else {
        NormalizeFails(parts[1..], stack + [parts[0]]);
      }
    }
  }

  /** `resolveToFullPath` throws exactly when the split full path climbs
      above the root. */
  lemma ResolveFails(cwd: string, path: string)
    ensures ResolveToFullPath(cwd, path).Err? <==> ClimbsAbove(Split(FullPath(cwd, path), '/'), 0)
  {
    NormalizeFails(Split(FullPath(cwd, path), '/'), []);
  }

  /** Joining proper segments behind a `/` gives a normal path. */
  lemma NormalFromStack(stack: seq<string>)
    requires AllProper(stack)
    ensures IsNormal("/" + Join(stack, '/'))
    ensures ("/" + Join(stack, '/'))[0] == '/'
    ensures stack != [] ==> ("/" + Join(stack, '/'))[|"/" + Join(stack, '/')| - 1] != '/'
  {
    if stack != [] {
      JoinNonEmpty(stack);
      SplitJoin(stack, '/');
      assert ("/" + Join(stack, '/'))[1..] == Join(stack, '/');
      JoinLast(stack);
    }
  }

  lemma {:induction false} JoinNonEmpty(stack: seq<string>)
    requires stack != [] && AllProper(stack)
    ensures |Join(stack, '/')| >= 1
    decreases |stack|
  {
    if |stack| > 1 {
      JoinNonEmpty(stack[1..]);
    }
  }

  /** The last character of a join of proper segments is that of the last
      segment, never `/`. */
  lemma {:induction false} JoinLast(stack: seq<string>)
    requires stack != [] && AllProper(stack)
    ensures |Join(stack, '/')| >= 1
    ensures Join(stack, '/')[|Join(stack, '/')| - 1] != '/'
    decreases |stack|
  {
    JoinNonEmpty(stack);
    if |stack| == 1 {
      assert stack[0][|stack[0]| - 1] in stack[0];
    } else {
      JoinLast(stack[1..]);
      var j := Join(stack, '/');
      var t := Join(stack[1..], '/');
      assert j == stack[0] + ['/'] + t;
      assert j[|j| - 1] == t[|t| - 1];
    }
  }

  /** Proper segments are all pushed, in order. */
  lemma {:induction false} NormalizeProper(parts: seq<string>, stack: seq<string>)
    requires AllProper(parts) && AllProper(stack)
    ensures Normalize(parts, stack) == Ok(stack + parts)
    decreases |parts|
  {
    if |parts| > 0 {
      assert ProperSegment(parts[0]);
      assert AllProper(parts[1..]) && AllProper(stack + [parts[0]]);
      assert Normalize(parts, stack) == Normalize(parts[1..], stack + [parts[0]]);
      NormalizeProper(parts[1..], stack + [parts[0]]);
      assert parts == [parts[0]] + parts[1..];
      assert stack + [parts[0]] + parts[1..] == stack + parts;
    } else {
      assert stack + parts == stack;
    }
  }

  /** A normal path resolves to itself, whatever the working directory:
      `resolveToFullPath` is idempotent. */
  lemma ResolveNormal(cwd: string, p: string)
    requires IsNormal(p)
    ensures ResolveToFullPath(cwd, p) == Ok(p)
  {
    if p == "/" {
      assert p == [] + ['/'] + [];
      SplitAtSeparator([], [], '/');
      assert Split(p, '/') == ["", ""];
      assert ["", ""][1..] == [""];
      assert Normalize(["", ""], []) == Ok([]);
    } else {
      var tail := p[1..];
      var parts := Split(tail, '/');
      assert p == [] + ['/'] + tail;
      SplitAtSeparator([], tail, '/');
      assert Split(p, '/') == [""] + parts;
      NormalizeProper(parts, []);
      assert Normalize([""] + parts, []) == Normalize(parts, []) by {
        assert ([""] + parts)[1..] == parts;
      }
      assert [] + parts == parts;
      JoinSplit(tail, '/');
      assert "/" + Join(parts, '/') == p;
    }
  }

  /** `join` undoes `split`. */
  lemma {:induction false} JoinSplit(s: string, sep: char)
    ensures Join(Split(s, sep), sep) == s
    decreases |s|
  {
    if |s| > 0 {
      JoinSplit(s[1..], sep);
      var rest := Split(s[1..], sep);
      if s[0] == sep {
        assert Join([""] + rest, sep) == "" + [sep] + Join(rest, sep) by {
          assert ([""] + rest)[1..] == rest;
        }
        assert [s[0]] + s[1..] == s;
      } else {
        JoinConsFirst(s[0], rest, sep);
        assert [s[0]] + s[1..] == s;
      }
    }
  }

  /** Putting a character in front of the first part puts it in front of
      the join. */
  lemma JoinConsFirst(c: char, parts: seq<string>, sep: char)
    requires |parts| >= 1
    ensures Join([[c] + parts[0]] + parts[1..], sep) == [c] + Join(parts, sep)
  {
    var q := [[c] + parts[0]] + parts[1..];
    assert q[1..] == parts[1..];
  }

  /** `resolveToFullPath(r) == r` for every result `r`. */
  lemma ResolveIdempotent(cwd: string, cwd2: string, path: string)
    requires ResolveToFullPath(cwd, path).Ok?
    ensures ResolveToFullPath(cwd2, ResolveToFullPath(cwd, path).value) == ResolveToFullPath(cwd, path)
  {
    ResolveNormal(cwd2, ResolveToFullPath(cwd, path).value);
  }

  /** Climbing above the root fails. */
  lemma ClimbAboveRootFails(cwd: string)
    ensures ResolveToFullPath(cwd, "/..") == Err(InvalidPath)
  {
    assert "/.." == [] + ['/'] + "..";
    SplitAtSeparator([], "..", '/');
    SplitNoSeparator("..", '/');
    assert Split("/..", '/') == ["", ".."];
    assert Normalize(["", ".."], []) == Normalize([".."], []) by {
      assert ["", ".."][1..] == [".."];
    }
  }
}
