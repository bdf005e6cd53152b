/**
 * The server-side retention sweep over the mirrors directory, as its test
 * pins it down: a sweep deletes every mirror directory idle for longer than
 * the expiration timeout, keeps every other one, and then compacts the
 * survivors. Native garbage collection that does not run in place rewrites a
 * mirror holding more than 50 packs into a single pack.
 *
 * The mirrors directory is a map from directory names to what the sweep looks
 * at: the last access time and the set of pack names (a pack and its index
 * share one name). Time is a number supplied by the caller.
 */
module Cleaner {

  type Dir = string

  datatype Mirror = Mirror(lastAccess: nat, packs: set<string>)

  /** How mirrors are compacted: in-process by JGit, or by the native git executable. */
  datatype GcMode = JGitGc | NativeGc(inPlace: bool)

  /** Native out-of-place collection runs only on a mirror with more packs than this. */
  const PackThreshold: nat := 50

  /**
   * The pack a native repack writes. Its real name is a hash of the content,
   * which the model does not compute; only that it is one pack matters.
   */
  const RepackedPack: string := "pack-repacked"

  /** A mirror is expired when it has been idle for longer than the timeout. */
  predicate Expired(m: Mirror, now: nat, timeout: nat)
  {
    now - m.lastAccess > timeout
  }

  /** Whether compaction rewrites this mirror's packs into one. */
  predicate Compacts(m: Mirror, mode: GcMode)
  {
    mode == NativeGc(false) && |m.packs| > PackThreshold
  }

  /** Compaction of one surviving mirror. */
  function Gc(m: Mirror, mode: GcMode): (r: Mirror)
    ensures r.lastAccess == m.lastAccess
    ensures |r.packs| <= |m.packs|
    ensures Compacts(m, mode) ==> |r.packs| == 1
    ensures !Compacts(m, mode) ==> r == m
  {
    if Compacts(m, mode) then Mirror(m.lastAccess, {RepackedPack}) else m
  }

  /** What one sweep leaves behind. */
  function Sweep(mirrors: map<Dir, Mirror>, now: nat, timeout: nat, mode: GcMode): (r: map<Dir, Mirror>)
    ensures forall d :: d in r <==> d in mirrors && !Expired(mirrors[d], now, timeout)
    ensures forall d :: d in r ==> r[d] == Gc(mirrors[d], mode)
  {
    map d | d in mirrors && !Expired(mirrors[d], now, timeout) :: Gc(mirrors[d], mode)
  }

  /** Which directories survive does not depend on how the survivors are compacted. */
  lemma SweepRemovalIgnoresMode(mirrors: map<Dir, Mirror>, now: nat, timeout: nat, mode1: GcMode, mode2: GcMode)
    ensures Sweep(mirrors, now, timeout, mode1).Keys == Sweep(mirrors, now, timeout, mode2).Keys
  {
  }

  /** Compaction cannot push its output over the threshold again. */
  lemma GcIdempotent(m: Mirror, mode: GcMode)
    ensures Gc(Gc(m, mode), mode) == Gc(m, mode)
  {
  }

  /** A second sweep at the same moment finds nothing left to do. */
  lemma SweepIdempotent(mirrors: map<Dir, Mirror>, now: nat, timeout: nat, mode: GcMode)
    ensures Sweep(Sweep(mirrors, now, timeout, mode), now, timeout, mode) == Sweep(mirrors, now, timeout, mode)
  {
    var once := Sweep(mirrors, now, timeout, mode);
    var twice := Sweep(once, now, timeout, mode);
    forall d | d in once
      ensures d in twice && twice[d] == once[d]
    {
      GcIdempotent(mirrors[d], mode);
    }
  }

  /** The name of the `i`-th garbage directory of the test set-up. */
  function GarbageName(i: nat): (r: Dir)
    requires i < 10
    ensures |r| == 16 && r[11] == (('0' as int) + i) as char
  {
    "git-AHAHAHA" + [(('0' as int) + i) as char] + ".git"
  }

  /** Different indices name different garbage directories. */
  lemma GarbageNamesDistinct(i: nat, j: nat)
    requires i < 10 && j < 10 && i != j
    ensures GarbageName(i) != GarbageName(j)
  {
    assert GarbageName(i)[11] != GarbageName(j)[11];
  }

  /** The ten directories the garbage set-up creates. */
  function GarbageDirs(): set<Dir>
  {
    set i | 0 <= i < 10 :: GarbageName(i)
  }

  /** The mirrors directory after the garbage set-up at `now`: existing directories are kept as they are. */
  function WithGarbage(mirrors: map<Dir, Mirror>, now: nat): (r: map<Dir, Mirror>)
    ensures r.Keys == mirrors.Keys + GarbageDirs()
    ensures forall d :: d in mirrors ==> r[d] == mirrors[d]
    ensures forall d :: d in r && d !in mirrors ==> r[d] == Mirror(now, {})
  {
    map d | d in mirrors.Keys + GarbageDirs() :: if d in mirrors then mirrors[d] else Mirror(now, {})
  }

  /** The decimal digit `d`. */
  function Digit(d: nat): char
    requires d < 10
  {
    (('0' as int) + d) as char
  }

  /** What follows the two-digit index in the name of a copied pack. */
  const PackSuffix: string := "63fffad1c368b0a79f9a196ee098e303fc0c29"

  /**
   * The pack the clone of the test repository holds,
   * "pack-3763fffad1c368b0a79f9a196ee098e303fc0c29", written as its prefix,
   * the digits 3 and 7, and the suffix.
   */
  const OriginalPack: string := "pack-37" + PackSuffix

  /** The name of the copy made for index `i`: the index written in front of the suffix. */
  function PackName(i: nat): (r: string)
    requires 10 <= i <= 60
    ensures |r| == 7 + |PackSuffix| && r[5] == Digit(i / 10) && r[6] == Digit(i % 10)
  {
    "pack-" + [Digit(i / 10), Digit(i % 10)] + PackSuffix
  }

  /** Different indices name different copies. */
  lemma PackNamesDistinct(i: nat, j: nat)
    requires 10 <= i <= 60 && 10 <= j <= 60 && i != j
    ensures PackName(i) != PackName(j)
  {
    assert i == 10 * (i / 10) + i % 10 && j == 10 * (j / 10) + j % 10;
    assert PackName(i)[5] != PackName(j)[5] || PackName(i)[6] != PackName(j)[6];
  }

  /** The copy for index 37 has the name of the original pack and replaces it. */
  lemma CopyOverwritesOriginal()
    ensures PackName(37) == OriginalPack
  {
    assert 37 / 10 == 3 && 37 % 10 == 7;
    assert Digit(3) == '3' && Digit(7) == '7';
    assert "pack-" + "37" == "pack-37";
  }

  /** The copies made for the indices from 10 up to, not including, `n`. */
  function CopiesBelow(n: nat): set<string>
    requires 10 <= n <= 61
  {
    set i | 10 <= i < n :: PackName(i)
  }

  /** The copies for the indices from 10 up to `n` are `n - 10` different packs. */
  lemma {:induction false} CopiesBelowCount(n: nat)
    requires 10 <= n <= 61
    ensures |CopiesBelow(n)| == n - 10
  {
    if n == 10 {
      assert CopiesBelow(n) == {};
    } else {
      CopiesBelowCount(n - 1);
      assert CopiesBelow(n) == CopiesBelow(n - 1) + {PackName(n - 1)};
      forall i | 10 <= i < n - 1
        ensures PackName(i) != PackName(n - 1)
      {
        PackNamesDistinct(i, n - 1);
      }
    }
  }

  /** The mirror with the copies for every index from 10 to 60 added to its packs. */
  function WithCopiedPacks(m: Mirror): Mirror
  {
    Mirror(m.lastAccess, m.packs + CopiesBelow(61))
  }

  /**
   * A mirror holding only the original pack holds 51 packs after the copies:
   * 50 new ones and the original, overwritten by the copy for index 37.
   */
  lemma CopiesOfOriginalCount(m: Mirror)
    requires m.packs == {OriginalPack}
    ensures |WithCopiedPacks(m).packs| == 51
    ensures |WithCopiedPacks(m).packs - m.packs| == 50
  {
    CopiesBelowCount(61);
    assert OriginalPack in CopiesBelow(61) by {
      CopyOverwritesOriginal();
    }
    assert WithCopiedPacks(m).packs == CopiesBelow(61);
  }

  /**
   * The mirrors directory, with the cleanup configured by the expiration
   * timeout and the compaction mode, run through a call wrapper that records
   * that it was called.
   */
  class MirrorsDirectory {
    const timeout: nat
    const mode: GcMode
    var mirrors: map<Dir, Mirror>
    var cleanupCalled: bool

    constructor (timeout: nat, mode: GcMode)
      ensures this.timeout == timeout && this.mode == mode
      ensures mirrors == map[] && !cleanupCalled
    {
      this.timeout := timeout;
      this.mode := mode;
      mirrors := map[];
      cleanupCalled := false;
    }

    /** The cleanup run: the wrapper records the call and then runs the sweep. */
    method Run(now: nat)
      modifies this
      ensures cleanupCalled
      ensures mirrors == Sweep(old(mirrors), now, timeout, mode)
    {
      cleanupCalled := true;
      RunSweep(now);
    }

    /** Visit every mirror once, deleting the expired ones and compacting the others. */
    method RunSweep(now: nat)
      modifies this
      ensures cleanupCalled == old(cleanupCalled)
      ensures mirrors == Sweep(old(mirrors), now, timeout, mode)
    {
      var start := mirrors;
      var toVisit := mirrors.Keys;
      while toVisit != {}
        invariant toVisit <= start.Keys
        invariant cleanupCalled == old(cleanupCalled)
        invariant forall d :: d in mirrors <==> d in start && (d in toVisit || !Expired(start[d], now, timeout))
        invariant forall d :: d in mirrors ==> mirrors[d] == if d in toVisit then start[d] else Gc(start[d], mode)
        decreases toVisit
      {
        var d :| d in toVisit;
        if Expired(mirrors[d], now, timeout) {
          mirrors := mirrors - {d};
        } else if mode == NativeGc(false) && |mirrors[d].packs| > PackThreshold {
          mirrors := mirrors[d := Mirror(mirrors[d].lastAccess, {RepackedPack})];
        }
        toVisit := toVisit - {d};
      }
      assert mirrors.Keys == Sweep(start, now, timeout, mode).Keys;
    }

    /** The garbage set-up: ten empty directories created at `now`, keeping any that already exist. */
    method GenerateGarbage(now: nat)
      modifies this
      ensures mirrors == WithGarbage(old(mirrors), now)
      ensures cleanupCalled == old(cleanupCalled)
    {
      var i := 0;
      while i < 10
        invariant 0 <= i <= 10
        invariant cleanupCalled == old(cleanupCalled)
        invariant mirrors.Keys == old(mirrors).Keys + (set k | 0 <= k < i :: GarbageName(k))
        invariant forall d :: d in mirrors ==> mirrors[d] == if d in old(mirrors) then old(mirrors)[d] else Mirror(now, {})
      {
        var name := GarbageName(i);
        if name !in mirrors {
          mirrors := mirrors[name := Mirror(now, {})];
        }
        assert (set k | 0 <= k < i + 1 :: GarbageName(k)) == (set k | 0 <= k < i :: GarbageName(k)) + {name};
        i := i + 1;
      }
      assert mirrors.Keys == WithGarbage(old(mirrors), now).Keys;
    }

    /** The pack set-up: one copy of the original pack for every index from 10 to 60. */
    method CopyPacks(dir: Dir)
      requires dir in mirrors
      modifies this
      ensures mirrors == old(mirrors)[dir := WithCopiedPacks(old(mirrors)[dir])]
      ensures cleanupCalled == old(cleanupCalled)
    {
      var i := 10;
      assert CopiesBelow(10) == {};
      assert old(mirrors)[dir].packs + {} == old(mirrors)[dir].packs;
      while i <= 60
        invariant 10 <= i <= 61
        invariant cleanupCalled == old(cleanupCalled)
        invariant mirrors == old(mirrors)[dir := Mirror(old(mirrors)[dir].lastAccess, old(mirrors)[dir].packs + CopiesBelow(i))]
      {
        assert CopiesBelow(i + 1) == CopiesBelow(i) + {PackName(i)};
        var packs := mirrors[dir].packs + {PackName(i)};
        assert packs == old(mirrors)[dir].packs + CopiesBelow(i + 1);
        mirrors := mirrors[dir := Mirror(mirrors[dir].lastAccess, packs)];
        i := i + 1;
      }
    }
  }

  /**
   * The retention scenario: garbage created at `t0` into an empty mirrors
   * directory, a live mirror accessed at `t1`, two timeouts later, and a sweep
   * at `t1` leave exactly the live mirror, whatever the compaction mode.
   */
  lemma OnlyLiveMirrorSurvives(t0: nat, t1: nat, timeout: nat, live: Dir, packs: set<string>, mode: GcMode)
    requires timeout > 0 && t1 >= t0 + 2 * timeout
    requires live !in GarbageDirs()
    ensures var before := WithGarbage(map[], t0)[live := Mirror(t1, packs)];
            Sweep(before, t1, timeout, mode).Keys == {live}
  {
    var before := WithGarbage(map[], t0)[live := Mirror(t1, packs)];
    assert !Expired(before[live], t1, timeout);
  }

  /** Every garbage directory of the scenario is gone after the sweep. */
  lemma GarbageIsRemoved(t0: nat, t1: nat, timeout: nat, live: Dir, packs: set<string>, mode: GcMode, i: nat)
    requires timeout > 0 && t1 >= t0 + 2 * timeout && i < 10
    requires live !in GarbageDirs()
    ensures var before := WithGarbage(map[], t0)[live := Mirror(t1, packs)];
            GarbageName(i) !in Sweep(before, t1, timeout, mode)
  {
    OnlyLiveMirrorSurvives(t0, t1, timeout, live, packs, mode);
  }

  /**
   * The compaction scenario: a live mirror holding the original pack, with the
   * copies added, has more than 50 packs and is left with exactly one pack by
   * native out-of-place collection.
   */
  lemma NonInPlaceGcLeavesOnePack(mirrors: map<Dir, Mirror>, dir: Dir, now: nat, timeout: nat)
    requires dir in mirrors && mirrors[dir].packs == {OriginalPack} && !Expired(mirrors[dir], now, timeout)
    ensures var before := mirrors[dir := WithCopiedPacks(mirrors[dir])];
            |before[dir].packs| == 51
            && dir in Sweep(before, now, timeout, NativeGc(false))
            && |Sweep(before, now, timeout, NativeGc(false))[dir].packs| == 1
  {
    CopiesOfOriginalCount(mirrors[dir]);
  }
}
