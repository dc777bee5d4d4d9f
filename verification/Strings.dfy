/** The JavaScript string primitives the source relies on
    (`indexOf`, `lastIndexOf`, `startsWith`, `endsWith`, `split`, `join`). */
module Strings {

  predicate StartsWith(s: string, p: string) {
    |p| <= |s| && s[..|p|] == p
  }

  predicate EndsWith(s: string, p: string) {
    |p| <= |s| && s[|s| - |p|..] == p
  }

  /** `s.indexOf(c)` for a one-character needle. */
  function IndexOf(s: string, c: char): (r: int)
    ensures -1 <= r < |s|
    ensures r == -1 <==> c !in s
    ensures r >= 0 ==> s[r] == c && c !in s[..r]
  {
    if |s| == 0 then -1
    else if s[0] == c then 0
    else
      var k := IndexOf(s[1..], c);
      assert s[1..][..if k < 0 then 0 else k] == s[1..if k < 0 then 1 else k + 1];
      if k == -1 then -1 else k + 1
  }

  /** `s.lastIndexOf(c)` for a one-character needle. */
  function LastIndexOf(s: string, c: char): (r: int)
    ensures -1 <= r < |s|
    ensures r == -1 <==> c !in s
    ensures r >= 0 ==> s[r] == c && forall j :: r < j < |s| ==> s[j] != c
  {
    LastIndexBelow(s, c, |s|)
  }

  /** The last position below `n` that holds `c`, or -1. */
  function LastIndexBelow(s: string, c: char, n: nat): (r: int)
    requires n <= |s|
    ensures -1 <= r < n
    ensures r == -1 <==> c !in s[..n]
    ensures r >= 0 ==> s[r] == c && forall j :: r < j < n ==> s[j] != c
    decreases n
  {
    if n == 0 then -1
    else if s[n - 1] == c then n - 1
    else
      var k := LastIndexBelow(s, c, n - 1);
      assert s[..n] == s[..n - 1] + [s[n - 1]];
      k
  }

  /** `s.indexOf(sub) !== -1`. */
  predicate Contains(s: string, sub: string)
    decreases |s|
  {
    StartsWith(s, sub) || (|s| > 0 && Contains(s[1..], sub))
  }

  /** The text after the last `/`: `s.substr(s.lastIndexOf('/') + 1)`, also
      what `s.split('/').pop()` returns. */
  function AfterLastSlash(s: string): (r: string)
    ensures '/' !in r
    ensures EndsWith(s, r)
    ensures |r| < |s| ==> s[|s| - |r| - 1] == '/'
    ensures '/' !in s ==> r == s
  {
    s[LastIndexOf(s, '/') + 1..]
  }

  /** `s.split(sep)` for a one-character separator. */
  function Split(s: string, sep: char): (r: seq<string>)
    ensures |r| >= 1
    ensures forall i :: 0 <= i < |r| ==> sep !in r[i]
    decreases |s|
  {
    if |s| == 0 then [""]
    else
      var rest := Split(s[1..], sep);
      if s[0] == sep then [""] + rest
      else [[s[0]] + rest[0]] + rest[1..]
  }

  /** `parts.join(sep)`. */
  function Join(parts: seq<string>, sep: char): string
    decreases |parts|
  {
    if |parts| == 0 then ""
    else if |parts| == 1 then parts[0]
    else parts[0] + [sep] + Join(parts[1..], sep)
  }

  /** Splitting at the first separator of `x + [sep] + y` when `x` has none. */
  lemma {:induction false} SplitAtSeparator(x: string, y: string, sep: char)
    requires sep !in x
    ensures Split(x + [sep] + y, sep) == [x] + Split(y, sep)
    decreases |x|
  {
    if |x| == 0 {
      assert x + [sep] + y == [sep] + y;
      assert ([sep] + y)[1..] == y;
    } else {
      SplitAtSeparator(x[1..], y, sep);
      assert (x + [sep] + y)[1..] == x[1..] + [sep] + y;
      assert [x[0]] + x[1..] == x;
    }
  }

  /** A string without the separator splits into itself. */
  lemma {:induction false} SplitNoSeparator(x: string, sep: char)
    requires sep !in x
    ensures Split(x, sep) == [x]
    decreases |x|
  {
    if |x| > 0 {
      SplitNoSeparator(x[1..], sep);
      assert [x[0]] + x[1..] == x;
    }
  }

  /** `split` undoes `join` when no part holds the separator. */
  lemma {:induction false} SplitJoin(parts: seq<string>, sep: char)
    requires |parts| >= 1
    requires forall i :: 0 <= i < |parts| ==> sep !in parts[i]
    ensures Split(Join(parts, sep), sep) == parts
    decreases |parts|
  {
    if |parts| == 1 {
      SplitNoSeparator(parts[0], sep);
    } else {
      SplitJoin(parts[1..], sep);
      SplitAtSeparator(parts[0], Join(parts[1..], sep), sep);
      assert [parts[0]] + parts[1..] == parts;
    }
  }

  /** A string contains every string it ends with. */
  lemma {:induction false} EndsWithContains(s: string, sub: string)
    requires EndsWith(s, sub)
    ensures Contains(s, sub)
    decreases |s|
  {
    if |s| > |sub| {
      assert s[1..][|s| - 1 - |sub|..] == s[|s| - |sub|..];
      EndsWithContains(s[1..], sub);
    }
  }

  /** The last `c` of `a + [c] + b` is the one after `a` when `b` has none. */
  lemma LastIndexOfJoin(a: string, c: char, b: string)
    requires c !in b
    ensures LastIndexOf(a + [c] + b, c) == |a|
  {
    var s := a + [c] + b;
    var r := LastIndexOf(s, c);
    assert s[|a|] == c;
    assert forall j :: |a| < j < |s| ==> s[j] == b[j - |a| - 1];
  }

  /** The first `c` of `a + [c] + b` is the one after `a` when `a` has none. */
  lemma IndexOfJoin(a: string, c: char, b: string)
    requires c !in a
    ensures IndexOf(a + [c] + b, c) == |a|
  {
    var s := a + [c] + b;
    var r := IndexOf(s, c);
    assert s[|a|] == c;
    assert s[..|a|] == a;
  }

  /** The text after the last `/` of `a + "/" + b` is `b` when `b` has none. */
  lemma AfterLastSlashJoin(a: string, b: string)
    requires '/' !in b
    ensures AfterLastSlash(a + "/" + b) == b
  {
    LastIndexOfJoin(a, '/', b);
    assert (a + "/" + b)[|a| + 1..] == b;
  }
}
