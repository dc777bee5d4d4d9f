/** The operations of FileSystem.js that walk the store from its last key
    down: `rmdirSync`, `rmdirsSync`, `renameSync` and `readdirSync`. */
module FsScan {
  import opened Base
  import opened Strings
  import opened KeyValueStore
  import opened Metadata
  import opened Mime
  import opened Paths
  import opened FsKeys
  import opened FsCore
  import Sorting

  // ---------------------------------------------------------------------
  // The descending loops
  // ---------------------------------------------------------------------

  /** A key the loop must take away: under `p` and not one of `keep`. */
  predicate Doomed(k: string, p: string, keep: set<string>) {
    StartsWith(k, p) && k !in keep
  }

  /** What the loops keep: no doomed key sits above position `i`. */
  predicate NoneDoomedAbove(s: Store<Value>, i: int, p: string, keep: set<string>) {
    forall j :: 0 <= j < |s| && i < j ==> !Doomed(s[j].0, p, keep)
  }

  lemma SetKeepsNoneDoomed(s: Store<Value>, i: int, p: string, keep: set<string>, k: string, v: Value)
    requires NoneDoomedAbove(s, i, p, keep) && k in keep
    ensures NoneDoomedAbove(Set(s, k, v), i, p, keep)
    ensures |Set(s, k, v)| >= |s|
    ensures forall j :: 0 <= j < |s| ==> Set(s, k, v)[j].0 == s[j].0
  {
    var r := Set(s, k, v);
    if !Has(s, k) {
      assert forall j :: 0 <= j < |s| ==> r[j] == s[j];
      assert r[|s|].0 == k;
    }
    forall j | 0 <= j < |r| && i < j
      ensures !Doomed(r[j].0, p, keep)
    {
      if j < |s| {
        assert r[j].0 == s[j].0;
      } else {
        assert r[j].0 == k;
      }
    }
  }

  lemma RemoveKeepsNoneDoomed(s: Store<Value>, i: int, p: string, keep: set<string>, k: string)
    requires NoneDoomedAbove(s, i, p, keep)
    ensures NoneDoomedAbove(Remove(s, k), i, p, keep)
  {
    var q := Position(s, k);
    if q >= 0 {
      RemoveAtIndex(s, q);
      var r := Remove(s, k);
      forall j | 0 <= j < |r| && i < j
        ensures !Doomed(r[j].0, p, keep)
      {
        assert r[j] == (if j < q then s[j] else s[j + 1]);
      }
    }
  }

  /** Removing a key at or below `i` brings the invariant down one place. */
  lemma RemoveAtOrBelow(s: Store<Value>, i: int, p: string, keep: set<string>, k: string)
    requires NoneDoomedAbove(s, i, p, keep)
    requires 0 <= Position(s, k) <= i
    ensures NoneDoomedAbove(Remove(s, k), i - 1, p, keep)
  {
    var q := Position(s, k);
    RemoveAtIndex(s, q);
    var r := Remove(s, k);
    forall j | 0 <= j < |r| && i - 1 < j
      ensures !Doomed(r[j].0, p, keep)
    {
      assert r[j] == s[j + 1];
    }
  }

  /** Removing another key never moves a key up. */
  lemma RemoveMovesDown(s: Store<Value>, k: string, other: string)
    requires k != other && Position(s, k) >= 0
    ensures 0 <= Position(Remove(s, other), k) <= Position(s, k)
  {
    var q := Position(s, other);
    if q >= 0 {
      PositionRemove(s, q, k);
    }
  }

  lemma MetaKeyUnder(name: string, p: string)
    requires StartsWith(name, p)
    ensures StartsWith(MetaKey(name), p) && MetaKey(name) != name
  {
    assert MetaKey(name)[..|p|] == name[..|p|];
  }

  lemma PositionOf(s: Store<Value>, i: int)
    requires 0 <= i < |s|
    ensures Position(s, s[i].0) == i
  {
  }

  // ---------------------------------------------------------------------
  // rmdirSync, rmdirsSync
  // ---------------------------------------------------------------------

  /** The loop of `rmdirSync` from position `i` down: every key under `p`
      loses its meta key and itself. The flag is `false` when `key(i)`
      reads past the end, which `name.indexOf` turns into an exception. */
  function RemoveUnder(s: Store<Value>, i: int, p: string): (r: (Store<Value>, bool))
    requires NoneDoomedAbove(s, i, p, {})
    ensures r.1 ==> forall k :: Has(r.0, k) ==> !StartsWith(k, p)
    ensures forall k :: !StartsWith(k, p) ==> Get(r.0, k) == Get(s, k)
    ensures forall k :: Has(r.0, k) ==> Has(s, k)
    decreases i + 1
  {
    if i < 0 then (s, true)
    else
      match Key(s, i)
      case None => (s, false)
      case Some(name) =>
        if StartsWith(name, p) then
          MetaKeyUnder(name, p);
          PositionOf(s, i);
          var s1 := Remove(s, MetaKey(name));
          RemoveKeepsNoneDoomed(s, i, p, {}, MetaKey(name));
          RemoveMovesDown(s, name, MetaKey(name));
          var s2 := Remove(s1, name);
          RemoveAtOrBelow(s1, i, p, {}, name);
          RemoveUnder(s2, i - 1, p)
        else
          RemoveUnder(s, i - 1, p)
  }

  /** `rmdirSync(path)`: every key starting with the fixed path goes, with
      its meta key; nothing else changes. A failed `key(i)` is reported as
      a removal failure, with the removals done so far kept. */
  function RmdirSync(fs: FileSystem, path: string): (r: Step<bool>)
    ensures r.events == [] && r.fs.prefix == fs.prefix && r.fs.emitter == fs.emitter
    ensures path == "" ==> r == Step(fs, Err(NoPathGiven), [])
    ensures r.result.Ok? ==> r.result.value
    ensures r.result.Err? ==> r.result.error in {NoPathGiven, RemoveDirFail}
    ensures path != "" ==> var p := Fix(fs, path, false).value;
      && (forall k :: !StartsWith(k, p) ==> Get(r.fs.store, k) == Get(fs.store, k))
      && (r.result.Ok? ==> forall k :: Has(r.fs.store, k) <==> Has(fs.store, k) && !StartsWith(k, p))
  {
    match Fix(fs, path, false)
    case Err(e) => Step(fs, Err(e), [])
    case Ok(p) =>
      var (s, ok) := RemoveUnder(fs.store, |fs.store| - 1, p);
      Step(fs.(store := s), if ok then Ok(true) else Err(RemoveDirFail), [])
  }

  /** `rmdirsSync(path)` has the same body as `rmdirSync`. */
  function RmdirsSync(fs: FileSystem, path: string): Step<bool> {
    RmdirSync(fs, path)
  }

  // ---------------------------------------------------------------------
  // renameSync
  // ---------------------------------------------------------------------

  /** One step of the `renameSync` loop on the key `name` at position `i`. */
  function MoveOne(s: Store<Value>, name: string, np: string, meta: Value): (r: Store<Value>)
    requires Has(s, name)
  {
    var s1 := Set(s, np, Get(s, name).value);
    var s2 := Set(s1, MetaKey(np), meta);
    Remove(Remove(s2, MetaKey(name)), name)
  }

  /** The step moves `name` out, keeps every other key not under `p`, and
      keeps the invariant one place lower. */
  lemma MoveOneStep(s: Store<Value>, i: int, p: string, np: string, meta: Value)
    requires 0 <= i < |s| && StartsWith(s[i].0, p)
    requires NoneDoomedAbove(s, i, p, {np, MetaKey(np)})
    ensures Has(s, s[i].0)
    ensures NoneDoomedAbove(MoveOne(s, s[i].0, np, meta), i - 1, p, {np, MetaKey(np)})
    ensures forall k :: !StartsWith(k, p) && k != np && k != MetaKey(np) ==>
      Get(MoveOne(s, s[i].0, np, meta), k) == Get(s, k)
    ensures !StartsWith(np, p) && !StartsWith(MetaKey(np), p) ==>
      Has(MoveOne(s, s[i].0, np, meta), np) && Get(MoveOne(s, s[i].0, np, meta), MetaKey(np)) == Some(meta)
  {
    PositionOf(s, i);
    MoveOneDoomed(s, i, p, np, meta);
    MoveOneReads(s, s[i].0, p, np, meta);
  }

  /** Moving the entry at `i` keeps every entry at or above `i - 1` out of
      the doomed set. */
  lemma MoveOneDoomed(s: Store<Value>, i: int, p: string, np: string, meta: Value)
    requires 0 <= i < |s| && StartsWith(s[i].0, p)
    requires NoneDoomedAbove(s, i, p, {np, MetaKey(np)})
    requires Has(s, s[i].0)
    ensures NoneDoomedAbove(MoveOne(s, s[i].0, np, meta), i - 1, p, {np, MetaKey(np)})
  {
    var name := s[i].0;
    MetaKeyUnder(name, p);
    var keep := {np, MetaKey(np)};
    var s1 := Set(s, np, Get(s, name).value);
    SetKeepsNoneDoomed(s, i, p, keep, np, Get(s, name).value);
    var s2 := Set(s1, MetaKey(np), meta);
    SetKeepsNoneDoomed(s1, i, p, keep, MetaKey(np), meta);
    PositionOf(s2, i);
    var s3 := Remove(s2, MetaKey(name));
    RemoveKeepsNoneDoomed(s2, i, p, keep, MetaKey(name));
    RemoveMovesDown(s2, name, MetaKey(name));
    RemoveAtOrBelow(s3, i, p, keep, name);
  }

  /** Moving one entry under `p` to `np` leaves every key outside `p` other
      than `np` and its meta key as it was, and stores both new keys when
      they lie outside `p`. */
  lemma MoveOneReads(s: Store<Value>, name: string, p: string, np: string, meta: Value)
    requires Has(s, name) && StartsWith(name, p)
    ensures forall k :: !StartsWith(k, p) && k != np && k != MetaKey(np) ==>
      Get(MoveOne(s, name, np, meta), k) == Get(s, k)
    ensures !StartsWith(np, p) && !StartsWith(MetaKey(np), p) ==>
      Has(MoveOne(s, name, np, meta), np) && Get(MoveOne(s, name, np, meta), MetaKey(np)) == Some(meta)
  {
    forall k | !StartsWith(k, p) && k != np && k != MetaKey(np)
      ensures Get(MoveOne(s, name, np, meta), k) == Get(s, k)
    {
      MoveOneReadsAt(s, name, p, np, meta, k);
    }
    if !StartsWith(np, p) && !StartsWith(MetaKey(np), p) {
      MoveOneReadsAt(s, name, p, np, meta, np);
      MoveOneReadsAt(s, name, p, np, meta, MetaKey(np));
    }
  }

  /** What the moved store reads at one key outside `p`. */
  lemma MoveOneReadsAt(s: Store<Value>, name: string, p: string, np: string, meta: Value, k: string)
    requires Has(s, name) && StartsWith(name, p) && !StartsWith(k, p)
    ensures Get(MoveOne(s, name, np, meta), k) ==
      if k == MetaKey(np) then Some(meta)
      else if k == np then Get(s, name)
      else Get(s, k)
  {
    MetaKeyUnder(name, p);
    assert k != name && k != MetaKey(name);
    var s1 := Set(s, np, Get(s, name).value);
    var s2 := Set(s1, MetaKey(np), meta);
    var s3 := Remove(s2, MetaKey(name));
    assert Get(s3, k) == Get(s2, k);
  }

  /** The loop of `renameSync` from position `i` down: for each key under
      `p`, its value goes to `np`, `meta` to the meta key of `np`, and the
      key and its meta key go. */
  function MoveUnder(s: Store<Value>, i: int, p: string, np: string, meta: Value): (r: (Store<Value>, bool))
    requires NoneDoomedAbove(s, i, p, {np, MetaKey(np)})
    ensures r.1 ==> forall k :: Has(r.0, k) && StartsWith(k, p) ==> k == np || k == MetaKey(np)
    ensures forall k :: !StartsWith(k, p) && k != np && k != MetaKey(np) ==> Get(r.0, k) == Get(s, k)
    ensures !StartsWith(np, p) && !StartsWith(MetaKey(np), p) ==>
      && (Has(s, np) ==> Has(r.0, np))
      && (Get(s, MetaKey(np)) == Some(meta) ==> Get(r.0, MetaKey(np)) == Some(meta))
      && (r.1 && (exists j :: 0 <= j <= i && j < |s| && StartsWith(s[j].0, p)) ==>
            Has(r.0, np) && Get(r.0, MetaKey(np)) == Some(meta))
    decreases i + 1
  {
    if i < 0 then (s, true)
    else
      match Key(s, i)
      case None => (s, false)
      case Some(name) =>
        if StartsWith(name, p) then
          MoveOneStep(s, i, p, np, meta);
          MoveUnder(MoveOne(s, name, np, meta), i - 1, p, np, meta)
        else
          MoveUnder(s, i - 1, p, np, meta)
  }

  /** The new key and its meta key lie outside the old path. */
  predicate NpOutside(p: string, np: string) {
    !StartsWith(np, p) && !StartsWith(MetaKey(np), p)
  }

  /** What the moved store reads at one key under `p`: the moved key and
      its meta key are gone, the others keep their values. */
  lemma MoveOneUnderAt(s: Store<Value>, name: string, p: string, np: string, meta: Value, k: string)
    requires Has(s, name) && StartsWith(name, p) && StartsWith(k, p) && NpOutside(p, np)
    ensures Get(MoveOne(s, name, np, meta), k) ==
      if k == name || k == MetaKey(name) then None else Get(s, k)
  {
    assert k != np && k != MetaKey(np);
  }

  /** One turn of the loop at position `i`, as the lemmas below use it. */
  lemma MoveUnderTurn(s: Store<Value>, i: int, p: string, np: string, meta: Value)
    requires NoneDoomedAbove(s, i, p, {np, MetaKey(np)}) && 0 <= i < |s|
    ensures StartsWith(s[i].0, p) ==>
      && Has(s, s[i].0)
      && NoneDoomedAbove(MoveOne(s, s[i].0, np, meta), i - 1, p, {np, MetaKey(np)})
      && MoveUnder(s, i, p, np, meta) == MoveUnder(MoveOne(s, s[i].0, np, meta), i - 1, p, np, meta)
    ensures !StartsWith(s[i].0, p) ==>
      && NoneDoomedAbove(s, i - 1, p, {np, MetaKey(np)})
      && MoveUnder(s, i, p, np, meta) == MoveUnder(s, i - 1, p, np, meta)
  {
    if StartsWith(s[i].0, p) {
      PositionOf(s, i);
      MoveOneDoomed(s, i, p, np, meta);
    }
  }

  /** Values under `p` never change during the loop; keys under `p` are
      only removed. */
  lemma {:induction false} MoveUnderKeepsUnder(s: Store<Value>, i: int, p: string, np: string, meta: Value, k: string)
    requires NoneDoomedAbove(s, i, p, {np, MetaKey(np)}) && NpOutside(p, np)
    requires StartsWith(k, p) && Has(MoveUnder(s, i, p, np, meta).0, k)
    ensures Get(MoveUnder(s, i, p, np, meta).0, k) == Get(s, k)
    decreases i + 1
  {
    if 0 <= i < |s| {
      MoveUnderTurn(s, i, p, np, meta);
      if StartsWith(s[i].0, p) {
        var name := s[i].0;
        var s' := MoveOne(s, name, np, meta);
        MoveUnderKeepsUnder(s', i - 1, p, np, meta, k);
        MoveOneUnderAt(s, name, p, np, meta, k);
      } else {
        MoveUnderKeepsUnder(s, i - 1, p, np, meta, k);
      }
    }
  }

  /** Where the loop takes the value at `np` from. */
  ghost predicate ValueFrom(s: Store<Value>, p: string, v: Option<Value>) {
    exists k :: StartsWith(k, p) && Has(s, k) && v == Get(s, k)
  }

  /** A value taken from under `p` in the moved store was under `p`
      before the move. */
  lemma ValueFromMoved(s: Store<Value>, name: string, p: string, np: string, meta: Value, v: Option<Value>)
    requires Has(s, name) && StartsWith(name, p) && NpOutside(p, np)
    requires ValueFrom(MoveOne(s, name, np, meta), p, v) || v == Get(MoveOne(s, name, np, meta), np)
    ensures ValueFrom(s, p, v)
  {
    var s' := MoveOne(s, name, np, meta);
    if ValueFrom(s', p, v) {
      var k :| StartsWith(k, p) && Has(s', k) && v == Get(s', k);
      MoveOneUnderAt(s, name, p, np, meta, k);
      assert Has(s, k) && v == Get(s, k);
    } else {
      MoveOneReadsAt(s, name, p, np, meta, np);
      assert v == Get(s, name);
    }
  }

  /** The value the loop leaves at `np` is the one it held before, or that
      of some key under `p`; once a key under `p` was met at or below `i`
      and the loop completed, it is that of some key under `p`. */
  lemma {:induction false} MoveUnderValue(s: Store<Value>, i: int, p: string, np: string, meta: Value)
    requires NoneDoomedAbove(s, i, p, {np, MetaKey(np)}) && NpOutside(p, np)
    ensures var r := MoveUnder(s, i, p, np, meta);
      Get(r.0, np) == Get(s, np) || ValueFrom(s, p, Get(r.0, np))
    ensures var r := MoveUnder(s, i, p, np, meta);
      r.1 && (exists j :: 0 <= j <= i && j < |s| && StartsWith(s[j].0, p)) ==> ValueFrom(s, p, Get(r.0, np))
    decreases i + 1, 1
  {
    if 0 <= i < |s| {
      MoveUnderTurn(s, i, p, np, meta);
      if StartsWith(s[i].0, p) {
        MoveUnderValueMoved(s, i, p, np, meta);
      } else {
        MoveUnderValueSkipped(s, i, p, np, meta);
      }
    }
  }

  /** `MoveUnderValue` at a turn that moves the key at `i`. */
  lemma {:induction false} MoveUnderValueMoved(s: Store<Value>, i: int, p: string, np: string, meta: Value)
    requires NpOutside(p, np) && 0 <= i < |s| && StartsWith(s[i].0, p) && Has(s, s[i].0)
    requires NoneDoomedAbove(MoveOne(s, s[i].0, np, meta), i - 1, p, {np, MetaKey(np)})
    ensures ValueFrom(s, p, Get(MoveUnder(MoveOne(s, s[i].0, np, meta), i - 1, p, np, meta).0, np))
    decreases i + 1, 0
  {
    var s' := MoveOne(s, s[i].0, np, meta);
    MoveUnderValue(s', i - 1, p, np, meta);
    ValueFromMoved(s, s[i].0, p, np, meta, Get(MoveUnder(s', i - 1, p, np, meta).0, np));
  }

  /** `MoveUnderValue` at a turn that skips the key at `i`. */
  lemma {:induction false} MoveUnderValueSkipped(s: Store<Value>, i: int, p: string, np: string, meta: Value)
    requires NpOutside(p, np) && 0 <= i < |s| && !StartsWith(s[i].0, p)
    requires NoneDoomedAbove(s, i - 1, p, {np, MetaKey(np)})
    ensures var r := MoveUnder(s, i - 1, p, np, meta);
      Get(r.0, np) == Get(s, np) || ValueFrom(s, p, Get(r.0, np))
    ensures var r := MoveUnder(s, i - 1, p, np, meta);
      r.1 && (exists j :: 0 <= j <= i && j < |s| && StartsWith(s[j].0, p)) ==> ValueFrom(s, p, Get(r.0, np))
    decreases i + 1, 0
  {
    MoveUnderValue(s, i - 1, p, np, meta);
    var r := MoveUnder(s, i - 1, p, np, meta);
    if r.1 && (exists j :: 0 <= j <= i && j < |s| && StartsWith(s[j].0, p)) {
      var j :| 0 <= j <= i && j < |s| && StartsWith(s[j].0, p);
      assert j <= i - 1;
    }
  }

  /** Only the key `p` and its meta key are stored under `p`: the entry is
      a lone file or an empty directory key. */
  ghost predicate LoneUnder(s: Store<Value>, p: string) {
    forall k :: StartsWith(k, p) && Has(s, k) ==> k == p || k == MetaKey(p)
  }

  /** With nothing stored under `p`, the loop changes nothing. */
  lemma {:induction false} MoveUnderIdle(s: Store<Value>, i: int, p: string, np: string, meta: Value)
    requires NoneDoomedAbove(s, i, p, {np, MetaKey(np)})
    requires forall k :: StartsWith(k, p) ==> !Has(s, k)
    ensures MoveUnder(s, i, p, np, meta).0 == s
    decreases i + 1
  {
    if 0 <= i < |s| {
      assert Has(s, s[i].0);
      MoveUnderIdle(s, i - 1, p, np, meta);
    }
  }

  /** Moving the lone key `p` leaves nothing under `p` and its value at
      `np`. */
  lemma MoveLoneKey(s: Store<Value>, p: string, np: string, meta: Value)
    requires LoneUnder(s, p) && Has(s, p) && NpOutside(p, np)
    ensures forall k :: StartsWith(k, p) ==> !Has(MoveOne(s, p, np, meta), k)
    ensures Get(MoveOne(s, p, np, meta), np) == Get(s, p)
  {
    assert StartsWith(p, p);
    forall k | StartsWith(k, p) ensures !Has(MoveOne(s, p, np, meta), k) {
      MoveOneUnderAt(s, p, p, np, meta, k);
    }
    MoveOneReadsAt(s, p, p, np, meta, np);
  }

  /** Moving the meta key of `p` keeps `p` alone under `p`, with its
      value. */
  lemma MoveLoneMeta(s: Store<Value>, p: string, np: string, meta: Value)
    requires LoneUnder(s, p) && Has(s, p) && Has(s, MetaKey(p)) && NpOutside(p, np)
    ensures LoneUnder(MoveOne(s, MetaKey(p), np, meta), p)
    ensures Get(MoveOne(s, MetaKey(p), np, meta), p) == Get(s, p)
  {
    MoveLoneMetaAlone(s, p, np, meta);
    MoveMetaKeepsKey(s, p, np, meta);
  }

  lemma MoveMetaKeepsKey(s: Store<Value>, p: string, np: string, meta: Value)
    requires Has(s, MetaKey(p)) && NpOutside(p, np)
    ensures Get(MoveOne(s, MetaKey(p), np, meta), p) == Get(s, p)
  {
    assert StartsWith(p, p);
    MetaKeyUnder(p, p);
    assert p != MetaKey(MetaKey(p)) by {
      assert |MetaKey(MetaKey(p))| > |p|;
    }
    MoveOneUnderAt(s, MetaKey(p), p, np, meta, p);
  }

  lemma MoveLoneMetaAlone(s: Store<Value>, p: string, np: string, meta: Value)
    requires LoneUnder(s, p) && Has(s, MetaKey(p)) && NpOutside(p, np)
    ensures LoneUnder(MoveOne(s, MetaKey(p), np, meta), p)
  {
    var s' := MoveOne(s, MetaKey(p), np, meta);
    MetaKeyUnder(p, p);
    forall k | StartsWith(k, p) && Has(s', k) ensures k == p || k == MetaKey(p) {
      MoveOneUnderAt(s, MetaKey(p), p, np, meta, k);
    }
  }

  /** Renaming a lone entry moves its value to `np`. */
  lemma {:induction false} MoveUnderLone(s: Store<Value>, i: int, p: string, np: string, meta: Value)
    requires NoneDoomedAbove(s, i, p, {np, MetaKey(np)}) && NpOutside(p, np)
    requires LoneUnder(s, p) && Has(s, p)
    ensures MoveUnder(s, i, p, np, meta).1 ==> Get(MoveUnder(s, i, p, np, meta).0, np) == Get(s, p)
    decreases i + 1
  {
    LonePositioned(s, i, p, np);
    if i < |s| {
      MoveUnderTurn(s, i, p, np, meta);
      var name := s[i].0;
      if StartsWith(name, p) {
        var s' := MoveOne(s, name, np, meta);
        if name == p {
          MoveLoneKey(s, p, np, meta);
          MoveUnderIdle(s', i - 1, p, np, meta);
        } else {
          MoveLoneMeta(s, p, np, meta);
          MoveUnderLone(s', i - 1, p, np, meta);
        }
      } else {
        MoveUnderLone(s, i - 1, p, np, meta);
      }
    }
  }

  /** The key `p` sits at or below `i`, so the loop has a turn there. */
  lemma LonePositioned(s: Store<Value>, i: int, p: string, np: string)
    requires NoneDoomedAbove(s, i, p, {np, MetaKey(np)}) && NpOutside(p, np) && Has(s, p)
    ensures 0 <= i
  {
    var q := Position(s, p);
    assert StartsWith(p, p);
    assert s[q].0 == p;
  }

  /** Where `renameSync` moves the entry: a new path with a `/` is fixed
      on its own; a bare name, cleaned, goes next to the old entry. */
  function RenameTarget(fs: FileSystem, p: string, newPath: string): (np: string)
    ensures '/' in newPath ==> Ok(np) == Fix(fs, newPath, false)
    ensures '/' !in newPath && StartsWith(p, fs.prefix + "/") ==>
      && AfterLastSlash(np) == RemoveForbidden(newPath)
      && ParentPath(fs.prefix, np) == ParentPath(fs.prefix, p)
  {
    if '/' in newPath then Fix(fs, newPath, false).value
    else
      var c := LastIndexOf(p, '/');
      var dir := if c < 0 then "" else p[..c];
      var name := RemoveForbidden(newPath);
      assert '/' !in name;
      SiblingParent(fs.prefix, p, dir, name);
      dir + "/" + name
  }

  lemma SiblingParent(prefix: string, p: string, dir: string, name: string)
    requires '/' !in name
    requires dir == (if LastIndexOf(p, '/') < 0 then "" else p[..LastIndexOf(p, '/')])
    ensures StartsWith(p, prefix + "/") ==>
      && AfterLastSlash(dir + "/" + name) == name
      && ParentPath(prefix, dir + "/" + name) == ParentPath(prefix, p)
  {
    if !StartsWith(p, prefix + "/") { return; }
    var np := dir + "/" + name;
    LastIndexOfJoin(dir, '/', name);
    assert p[|prefix|] == '/';
    var c := LastIndexOf(p, '/');
    assert np[..|dir| + 1] == p[..c + 1];
  }

  /** The stats `renameSync` stores for the new entry: a new `ctime`, and
      the media type of the new name when it names one. */
  function RenamedStats(st: Stats, np: string, now: int): (st': Stats)
    ensures st'.ctime == Date(now)
    ensures GetMimeByPath(np) != "" ==> st'.mimeType == Some(GetMimeByPath(np))
    ensures GetMimeByPath(np) == "" ==> st'.mimeType == st.mimeType
    ensures st'.(ctime := st.ctime, mimeType := st.mimeType) == st
  {
    var m := GetMimeByPath(np);
    st.(ctime := Date(now), mimeType := if m != "" then Some(m) else st.mimeType)
  }

  /** The two `rename:` events for the entry at key `p`. */
  function RenameEvents(prefix: string, p: string): (es: seq<Event>)
    ensures forall e :: e in es ==> StartsWith(e.name, "rename:")
  {
    assert ("rename:" + p)[..7] == "rename:";
    assert ("rename:" + ParentPath(prefix, p))[..7] == "rename:";
    [Event("rename:" + p, AfterLastSlash(p)), Event("rename:" + ParentPath(prefix, p), AfterLastSlash(p))]
  }

  /** An entry that exists has a key under its path at some position. */
  lemma PresentAt(s: Store<Value>, p: string)
    ensures Has(s, p) || Has(s, p + "/") ==>
      exists j :: 0 <= j <= |s| - 1 && j < |s| && StartsWith(s[j].0, p)
  {
    if Has(s, p) {
      var j := Position(s, p);
      assert StartsWith(s[j].0, p);
    } else if Has(s, p + "/") {
      var j := Position(s, p + "/");
      assert s[j].0[..|p|] == p;
    }
  }

  /** The `try` block of `renameSync`: the loop, then the events when the
      entry is a file. */
  function Relocate(fs: FileSystem, p: string, np: string, st: Stats): (r: Step<()>)
    ensures r.fs.prefix == fs.prefix && r.fs.emitter == fs.emitter
    ensures r.result.Err? ==> r.result.error == RenameFail && r.events == []
    ensures r.result.Ok? ==> r.events == (if st.file then RenameEvents(fs.prefix, p) else [])
    ensures forall k :: !StartsWith(k, p) && k != np && k != MetaKey(np) ==> Get(r.fs.store, k) == Get(fs.store, k)
    ensures r.result.Ok? ==> forall k :: Has(r.fs.store, k) && StartsWith(k, p) ==> k == np || k == MetaKey(np)
    ensures (Has(fs.store, p) || Has(fs.store, p + "/")) && r.result.Ok? && !StartsWith(np, p) && !StartsWith(MetaKey(np), p) ==>
      Has(r.fs.store, np) && Get(r.fs.store, MetaKey(np)) == Some(Json(ToDoc(st)))
  {
    PresentAt(fs.store, p);
    var (s, ok) := MoveUnder(fs.store, |fs.store| - 1, p, np, Json(ToDoc(st)));
    if !ok then Step(fs.(store := s), Err(RenameFail), [])
    else Step(fs.(store := s), Ok(()), if st.file then RenameEvents(fs.prefix, p) else [])
  }

  /** `renameSync` once the path is fixed to `p`. */
  function RenameFixed(fs: FileSystem, p: string, newPath: string, now: int): (r: Step<()>)
    requires p != ""
    ensures r.fs.prefix == fs.prefix && r.fs.emitter == fs.emitter
    ensures r.result.Err? ==> r.events == []
    ensures forall e :: e in r.events ==> StartsWith(e.name, "rename:")
    ensures !ExistsSync(fs, p).value ==> r == Step(fs, Err(NotFound), [])
    ensures var np := RenameTarget(fs, p, newPath);
      && (forall k :: !StartsWith(k, p) && k != np && k != MetaKey(np) ==> Get(r.fs.store, k) == Get(fs.store, k))
      && (r.result.Ok? ==> forall k :: Has(r.fs.store, k) && StartsWith(k, p) ==> k == np || k == MetaKey(np))
      && (r.result.Ok? ==> StatSync(fs, p).Ok? && StatSync(fs, p).value.Some?)
      && (r.result.Ok? && (Has(fs.store, p) || Has(fs.store, p + "/")) && !StartsWith(np, p) && !StartsWith(MetaKey(np), p) ==>
            && Has(r.fs.store, np)
            && Get(r.fs.store, MetaKey(np)) == Some(Json(ToDoc(RenamedStats(StatSync(fs, p).value.value, np, now)))))
  {
    if !ExistsSync(fs, p).value then Step(fs, Err(NotFound), [])
    else
      var np := RenameTarget(fs, p, newPath);
      match StatSync(fs, p)
      case Err(e) => Step(fs, Err(e), [])
      case Ok(None) => Step(fs, Err(StatsMissing), [])
      case Ok(Some(st)) => Relocate(fs, p, np, RenamedStats(st, np, now))
  }

  /** `renameSync(path, newPath)`: the root cannot be renamed; every key
      under the old path goes, the new key and its meta key take a value,
      and nothing else changes. */
  function RenameSync(fs: FileSystem, path: string, newPath: string, now: int): (r: Step<()>)
    ensures r.fs.prefix == fs.prefix && r.fs.emitter == fs.emitter
    ensures path == "/" ==> r == Step(fs, Err(RenameRoot), [])
    ensures path == "" ==> r == Step(fs, Err(NoPathGiven), [])
    ensures r.result.Err? ==> r.events == []
    ensures forall e :: e in r.events ==> StartsWith(e.name, "rename:")
    ensures path != "/" && path != "" ==>
      var p := Fix(fs, path, false).value;
      var np := RenameTarget(fs, p, newPath);
      && (!ExistsSync(fs, p).value ==> r == Step(fs, Err(NotFound), []))
      && (forall k :: !StartsWith(k, p) && k != np && k != MetaKey(np) ==> Get(r.fs.store, k) == Get(fs.store, k))
      && (r.result.Ok? ==> forall k :: Has(r.fs.store, k) && StartsWith(k, p) ==> k == np || k == MetaKey(np))
      && (r.result.Ok? ==> StatSync(fs, p).Ok? && StatSync(fs, p).value.Some?)
      && (CleanPrefix(fs.prefix) && r.result.Ok? && !StartsWith(np, p) && !StartsWith(MetaKey(np), p) ==>
            && Has(r.fs.store, np)
            && Get(r.fs.store, MetaKey(np)) == Some(Json(ToDoc(RenamedStats(StatSync(fs, p).value.value, np, now)))))
  {
    if path == "/" then Step(fs, Err(RenameRoot), [])
    else
      match Fix(fs, path, false)
      case Err(e) => Step(fs, Err(e), [])
      case Ok(p) =>
        ExistsFixed(fs, path);
        RenameFixed(fs, p, newPath, now)
  }

  /** The value `Relocate` leaves at `np`: the old one, or that of a key
      under `p`; the latter whenever the entry was there and the scan
      completed; and the value of `p` itself when `p` stood alone. */
  lemma RelocateValue(fs: FileSystem, p: string, np: string, st: Stats)
    requires NpOutside(p, np)
    ensures var r := Relocate(fs, p, np, st);
      && (Get(r.fs.store, np) == Get(fs.store, np) || ValueFrom(fs.store, p, Get(r.fs.store, np)))
      && (r.result.Ok? && (Has(fs.store, p) || Has(fs.store, p + "/")) ==>
            ValueFrom(fs.store, p, Get(r.fs.store, np)))
      && (r.result.Ok? && LoneUnder(fs.store, p) && Has(fs.store, p) ==>
            Get(r.fs.store, np) == Get(fs.store, p))
  {
    var s, meta := fs.store, Json(ToDoc(st));
    var m := MoveUnder(s, |s| - 1, p, np, meta);
    var r := Relocate(fs, p, np, st);
    RelocateScan(fs, p, np, st);
    assert r.fs.store == m.0 && (r.result.Ok? <==> m.1);
    assert NoneDoomedAbove(s, |s| - 1, p, {np, MetaKey(np)});
    PresentAt(s, p);
    MoveUnderValue(s, |s| - 1, p, np, meta);
    if LoneUnder(s, p) && Has(s, p) {
      MoveUnderLone(s, |s| - 1, p, np, meta);
      assert r.result.Ok? ==> Get(r.fs.store, np) == Get(s, p);
    }
  }

  /** `Relocate` keeps the store the scan leaves, and succeeds when the
      scan completes. */
  lemma RelocateScan(fs: FileSystem, p: string, np: string, st: Stats)
    ensures var m := MoveUnder(fs.store, |fs.store| - 1, p, np, Json(ToDoc(st)));
      var r := Relocate(fs, p, np, st);
      r.fs.store == m.0 && (r.result.Ok? <==> m.1)
  {
  }

  /** `RelocateValue` once the path is fixed. */
  lemma RenameFixedValue(fs: FileSystem, p: string, newPath: string, now: int)
    requires p != "" && NpOutside(p, RenameTarget(fs, p, newPath))
    ensures var np := RenameTarget(fs, p, newPath);
      var r := RenameFixed(fs, p, newPath, now);
      && (Get(r.fs.store, np) == Get(fs.store, np) || ValueFrom(fs.store, p, Get(r.fs.store, np)))
      && (r.result.Ok? && (Has(fs.store, p) || Has(fs.store, p + "/")) ==>
            ValueFrom(fs.store, p, Get(r.fs.store, np)))
      && (r.result.Ok? && LoneUnder(fs.store, p) && Has(fs.store, p) ==>
            Get(r.fs.store, np) == Get(fs.store, p))
  {
    var np := RenameTarget(fs, p, newPath);
    if ExistsSync(fs, p).value && StatSync(fs, p).Ok? && StatSync(fs, p).value.Some? {
      RelocateValue(fs, p, np, RenamedStats(StatSync(fs, p).value.value, np, now));
    }
  }

  /** The value `renameSync` leaves at the new key: the old one or that of
      a key under the old path; under a clean prefix and on success, that
      of a key under the old path; and for a lone entry, the entry's own
      value. */
  lemma RenameSyncValue(fs: FileSystem, path: string, newPath: string, now: int)
    requires path != "/" && path != ""
    ensures var p := Fix(fs, path, false).value;
      var np := RenameTarget(fs, p, newPath);
      var r := RenameSync(fs, path, newPath, now);
      NpOutside(p, np) ==>
        && (Get(r.fs.store, np) == Get(fs.store, np) || ValueFrom(fs.store, p, Get(r.fs.store, np)))
        && (CleanPrefix(fs.prefix) && r.result.Ok? ==> ValueFrom(fs.store, p, Get(r.fs.store, np)))
        && (r.result.Ok? && LoneUnder(fs.store, p) && Has(fs.store, p) ==>
              Get(r.fs.store, np) == Get(fs.store, p))
  {
    var p := Fix(fs, path, false).value;
    if NpOutside(p, RenameTarget(fs, p, newPath)) {
      ExistsFixed(fs, path);
      RenameFixedValue(fs, p, newPath, now);
    }
  }

  // ---------------------------------------------------------------------
  // readdirSync
  // ---------------------------------------------------------------------

  /** `/^[^/]+\/?$/`: one non-empty segment, with an optional trailing
      `/`. */
  predicate OneSegment(t: string) {
    || (|t| >= 1 && '/' !in t)
    || (|t| >= 2 && t[|t| - 1] == '/' && '/' !in t[..|t| - 1])
  }

  /** A key `readdirSync` lists for the directory key `p`. */
  predicate Listed(k: string, p: string) {
    StartsWith(k, p) && k != p && !EndsWith(k, MetaSuffix) && OneSegment(k[|p|..])
  }

  /** Two keys under `p` with the same remainder are the same key. */
  lemma SameRemainder(a: string, b: string, p: string)
    requires StartsWith(a, p) && StartsWith(b, p) && a[|p|..] == b[|p|..]
    ensures a == b
  {
    assert a == a[..|p|] + a[|p|..];
    assert b == b[..|p|] + b[|p|..];
  }

  /** The loop of `readdirSync` from position `i` down: the remainder of
      every listed key, each once. */
  function Collect(s: Store<Value>, i: int, p: string): (r: seq<string>)
    requires -1 <= i < |s|
    ensures forall e :: e in r <==> exists j :: 0 <= j <= i && Listed(s[j].0, p) && e == s[j].0[|p|..]
    ensures Sorting.NoDuplicates(r)
    decreases i + 1
  {
    if i < 0 then []
    else
      var rest := Collect(s, i - 1, p);
      var k := s[i].0;
      if Listed(k, p) then
        assert k[|p|..] !in rest by {
          forall j | 0 <= j <= i - 1 && Listed(s[j].0, p)
            ensures k[|p|..] != s[j].0[|p|..]
          {
            if k[|p|..] == s[j].0[|p|..] {
              SameRemainder(k, s[j].0, p);
            }
          }
        }
        var r := [k[|p|..]] + rest;
        assert forall x, y :: 0 <= x < y < |r| ==> r[x] != r[y] by {
          assert forall y :: 1 <= y < |r| ==> r[y] == rest[y - 1];
        }
        r
      else rest
  }

  /** What the listing holds, in terms of the store. */
  lemma CollectComplete(s: Store<Value>, p: string)
    ensures forall e :: e in Collect(s, |s| - 1, p) <==> Has(s, p + e) && Listed(p + e, p)
  {
    var r := Collect(s, |s| - 1, p);
    forall e
      ensures e in r <==> Has(s, p + e) && Listed(p + e, p)
    {
      assert (p + e)[..|p|] == p && (p + e)[|p|..] == e;
      if e in r {
        var j :| 0 <= j <= |s| - 1 && Listed(s[j].0, p) && e == s[j].0[|p|..];
        SameRemainder(s[j].0, p + e, p);
        assert s[j] == (p + e, s[j].1);
      }
      if Has(s, p + e) && Listed(p + e, p) {
        var j := Position(s, p + e);
        assert s[j].0 == p + e;
      }
    }
  }

  /** `readdirSync(path)`: the sorted names of the entries directly inside
      a directory, a sub-directory's name ending in `/`. */
  function ReaddirSync(fs: FileSystem, path: string): (r: Result<seq<string>>)
    ensures path == "" ==> r == Err(NoPathGiven)
    ensures path != "" ==> var p := Fix(fs, path, true).value;
      && (!ExistsSync(fs, p).value ==> r == Err(NotFound))
      && (r.Ok? ==> StatSync(fs, p).Ok? && StatSync(fs, p).value.Some? && StatSync(fs, p).value.value.directory)
      && (r.Ok? ==> Sorting.StrictlySorted(r.value))
      && (r.Ok? ==> forall e :: e in r.value <==> Has(fs.store, p + e) && Listed(p + e, p))
  {
    var p :- Fix(fs, path, true);
    if !ExistsSync(fs, p).value then Err(NotFound)
    else
      var stats :- StatSync(fs, p);
      if stats.None? then Err(NullStats)
      else if !stats.value.directory then Err(NotADirectory)
      else
        var files := Collect(fs.store, |fs.store| - 1, p);
        CollectComplete(fs.store, p);
        Sorting.SortDistinct(files);
        assert forall e :: e in Sorting.Sort(files) <==> e in files by {
          assert forall e :: e in Sorting.Sort(files) <==> e in multiset(Sorting.Sort(files));
          assert forall e :: e in files <==> e in multiset(files);
        }
        Ok(Sorting.Sort(files))
  }
}
