/**
 * The merge engine of the git plugin: `merge` runs up to three attempts of
 * "fetch the destination tip, merge in core, build a two-parent commit, push
 * it with an expected-old-value check", stopping at the first attempt that
 * returns true.
 *
 * The remote is a map from ref names to object ids and the push is an atomic
 * compare-and-swap on it. The in-core merger, object hashing, ref expansion and
 * commit parsing belong to JGit and are given as an `Oracle`. Another writer
 * racing with the merge is modelled as an optional ref value that is installed
 * on the remote after an attempt's fetch: before its push when the merge is
 * clean, before the attempt returns when it is not.
 */
module MergeSupport {

  type Id = nat

  datatype Option<T> = None | Some(value: T)

  datatype Person = Person(name: string, email: string)

  /** A commit object as the CommitBuilder of a merge holds it. */
  datatype Commit = Commit(tree: Id, parents: seq<Id>, author: Person, committer: Person, message: string)

  /** The statuses a JGit remote ref update can end in. */
  datatype PushStatus =
    | NotAttempted | UpToDate | RejectedNonFastForward | RejectedNoDelete
    | RejectedRemoteChanged | RejectedOtherReason | NonExisting | AwaitingReport | Ok

  /** The library code the merge calls but the model cannot see. */
  datatype Oracle = Oracle(
    expandRef: string -> string,     // GitUtils.expandRef
    knownCommit: Id -> bool,         // the source revision parses and names a commit in the mirror
    mergeClean: (Id, Id) -> bool,    // SIMPLE_TWO_WAY_IN_CORE merger: is the merge clean?
    resultTree: (Id, Id) -> Id,      // the merger's result tree
    authorOf: Id -> Person,          // author of a parsed commit
    hash: Commit -> Id)              // id the object inserter gives a commit

  /** The committer identity every merge commit carries (the time stamp is left out). */
  const ServiceIdentity := Person("teamcity", "teamcity@buildserver")

  /** The attempt budget of one merge. */
  const MaxAttempts: nat := 3

  datatype MergeError =
    | MissingDestination(ref: string)  // the fetched destination ref does not exist
    | MissingSource(src: Id)           // the source revision cannot be parsed or read from the mirror
    | MergeFailed                      // every attempt returned false: the "Merge failed" exception

  /** What one attempt ends in: an exception, or the boolean `doMerge` returns. */
  datatype Outcome = Raised(error: MergeError) | Returned(success: bool)

  datatype MergeResult = Merged | Failed(error: MergeError)

  /** The state a merge works on: the remote's refs, the local mirror's refs, the mirror's commit objects. */
  datatype Repo = Repo(remote: map<string, Id>, mirror: map<string, Id>, objects: map<Id, Commit>)

  /** OK and UP_TO_DATE are successes; every other status makes the attempt return false. */
  predicate Succeeded(status: PushStatus)
  {
    match status
    case UpToDate => true
    case Ok => true
    case _ => false
  }

  /**
   * The remote side of a push of `newId` to `ref` expecting `expectedOld`:
   * up to date when the ref already holds `newId`, rejected when it holds
   * anything but `expectedOld` (or is missing), otherwise updated.
   */
  function PushResult(remote: map<string, Id>, ref: string, expectedOld: Id, newId: Id): (r: (PushStatus, map<string, Id>))
    ensures Succeeded(r.0) <==> ref in remote && (remote[ref] == expectedOld || remote[ref] == newId)
    ensures Succeeded(r.0) ==> r.1 == remote[ref := newId]
    ensures !Succeeded(r.0) ==> r.1 == remote && r.0 == RejectedRemoteChanged
  {
    if ref in remote && remote[ref] == newId then (UpToDate, remote)
    else if ref !in remote || remote[ref] != expectedOld then (RejectedRemoteChanged, remote)
    else (Ok, remote[ref := newId])
  }

  /** The other writer's step: it moves `ref` to `race.value`, if it writes at all. */
  function Interleave(remote: map<string, Id>, ref: string, race: Option<Id>): map<string, Id>
  {
    match race
    case None => remote
    case Some(id) => remote[ref := id]
  }

  /** The merge commit built on destination tip `tip` for source revision `src`. */
  function MergeCommit(o: Oracle, tip: Id, src: Id, message: string): (c: Commit)
    ensures c.parents == [tip, src] && c.parents[0] == tip && c.parents[1] == src
    ensures c.author == o.authorOf(src) && c.committer == ServiceIdentity && c.message == message
    ensures c.tree == o.resultTree(tip, src)
  {
    Commit(o.resultTree(tip, src), [tip, src], o.authorOf(src), ServiceIdentity, message)
  }

  datatype AttemptResult = AttemptResult(outcome: Outcome, repo: Repo)

  /** One `doMerge` call. */
  function Attempt(o: Oracle, repo: Repo, src: Id, dst: string, message: string, race: Option<Id>): AttemptResult
  {
    var ref := o.expandRef(dst);
    if ref !in repo.remote then
      AttemptResult(Raised(MissingDestination(ref)), repo)
    else
      var tip := repo.remote[ref];
      var mirror := repo.mirror[ref := tip];
      if !o.knownCommit(src) then
        AttemptResult(Raised(MissingSource(src)), repo.(mirror := mirror))
      else if !o.mergeClean(tip, src) then
        AttemptResult(Returned(false), repo.(mirror := mirror, remote := Interleave(repo.remote, ref, race)))
      else
        var c := MergeCommit(o, tip, src, message);
        var id := o.hash(c);
        var pushed := PushResult(Interleave(repo.remote, ref, race), ref, tip, id);
        AttemptResult(Returned(Succeeded(pushed.0)), Repo(pushed.1, mirror, repo.objects[id := c]))
  }

  /** The race scheduled for attempt `k`; attempts past the schedule run undisturbed. */
  function RaceAt(races: seq<Option<Id>>, k: nat): Option<Id>
  {
    if k < |races| then races[k] else None
  }

  datatype MergeRun = MergeRun(result: MergeResult, repo: Repo, attempts: nat)

  /** The retry loop from the point where `made` attempts are done and `left` remain. */
  function Loop(o: Oracle, repo: Repo, src: Id, dst: string, message: string,
                races: seq<Option<Id>>, left: nat, made: nat): MergeRun
    decreases left
  {
    if left == 0 then MergeRun(Failed(MergeFailed), repo, made)
    else
      var a := Attempt(o, repo, src, dst, message, RaceAt(races, made));
      match a.outcome
      case Raised(e) => MergeRun(Failed(e), a.repo, made + 1)
      case Returned(ok) =>
        if ok then MergeRun(Merged, a.repo, made + 1)
        else Loop(o, a.repo, src, dst, message, races, left - 1, made + 1)
  }

  /** One `merge` call. */
  function MergeSpec(o: Oracle, repo: Repo, src: Id, dst: string, message: string, races: seq<Option<Id>>): MergeRun
  {
    Loop(o, repo, src, dst, message, races, MaxAttempts, 0)
  }

  /** The attempts `made`, `made + 1`, ... run one after another, whatever each returns. */
  function Trace(o: Oracle, repo: Repo, src: Id, dst: string, message: string,
                 races: seq<Option<Id>>, n: nat, made: nat): (t: seq<AttemptResult>)
    ensures |t| == n
    decreases n
  {
    if n == 0 then []
    else
      var a := Attempt(o, repo, src, dst, message, RaceAt(races, made));
      [a] + Trace(o, a.repo, src, dst, message, races, n - 1, made + 1)
  }

  // ---------------------------------------------------------------------------
  // Properties of one attempt

  /**
   * A merge that is not clean returns false before building or pushing
   * anything: the remote changes only by the other writer's step.
   */
  lemma ConflictMakesNoPush(o: Oracle, repo: Repo, src: Id, dst: string, message: string, race: Option<Id>)
    requires o.expandRef(dst) in repo.remote && o.knownCommit(src)
    requires !o.mergeClean(repo.remote[o.expandRef(dst)], src)
    ensures Attempt(o, repo, src, dst, message, race).outcome == Returned(false)
    ensures Attempt(o, repo, src, dst, message, race).repo.remote == Interleave(repo.remote, o.expandRef(dst), race)
    ensures Attempt(o, repo, src, dst, message, race).repo.objects == repo.objects
  {
  }

  /**
   * A clean attempt inserts exactly one commit, whose parents are the freshly
   * fetched destination tip and then the source revision, and pushes it with
   * that tip as the expected old value.
   */
  lemma CleanAttemptShape(o: Oracle, repo: Repo, src: Id, dst: string, message: string, race: Option<Id>)
    requires o.expandRef(dst) in repo.remote && o.knownCommit(src)
    requires o.mergeClean(repo.remote[o.expandRef(dst)], src)
    ensures var ref := o.expandRef(dst);
            var tip := repo.remote[ref];
            var a := Attempt(o, repo, src, dst, message, race);
            var c := Commit(o.resultTree(tip, src), [tip, src], o.authorOf(src), ServiceIdentity, message);
            var seen := Interleave(repo.remote, ref, race);
            && a.repo.objects == repo.objects[o.hash(c) := c]
            && a.repo.mirror == repo.mirror[ref := tip]
            && (a.outcome == Returned(true) <==> seen[ref] == tip || seen[ref] == o.hash(c))
            && (a.outcome == Returned(true) ==> a.repo.remote == seen[ref := o.hash(c)])
            && (a.outcome == Returned(false) ==> a.repo.remote == seen)
  {
    var ref := o.expandRef(dst);
    var tip := repo.remote[ref];
    var c := MergeCommit(o, tip, src, message);
    var seen := Interleave(repo.remote, ref, race);
    assert ref in seen;
    var pushed := PushResult(seen, ref, tip, o.hash(c));
  }

  /** Without a racing writer a clean attempt always lands its commit. */
  lemma UndisturbedCleanAttemptSucceeds(o: Oracle, repo: Repo, src: Id, dst: string, message: string)
    requires o.expandRef(dst) in repo.remote && o.knownCommit(src)
    requires o.mergeClean(repo.remote[o.expandRef(dst)], src)
    ensures var a := Attempt(o, repo, src, dst, message, None);
            var tip := repo.remote[o.expandRef(dst)];
            && a.outcome == Returned(true)
            && a.repo.remote == repo.remote[o.expandRef(dst) := o.hash(MergeCommit(o, tip, src, message))]
  {
    CleanAttemptShape(o, repo, src, dst, message, None);
  }

  /** Every attempt either leaves the remote alone or moves the destination ref only. */
  lemma AttemptTouchesOnlyDestination(o: Oracle, repo: Repo, src: Id, dst: string, message: string, race: Option<Id>, other: string)
    requires other != o.expandRef(dst)
    ensures var r := Attempt(o, repo, src, dst, message, race).repo.remote;
            (other in r <==> other in repo.remote) && (other in r ==> r[other] == repo.remote[other])
  {
    var ref := o.expandRef(dst);
    if ref in repo.remote && o.knownCommit(src) && o.mergeClean(repo.remote[ref], src) {
      CleanAttemptShape(o, repo, src, dst, message, race);
    }
  }

  // ---------------------------------------------------------------------------
  // Properties of the retry loop

  lemma {:induction false} LoopAttemptsBounded(o: Oracle, repo: Repo, src: Id, dst: string, message: string,
                                               races: seq<Option<Id>>, left: nat, made: nat)
    requires left > 0
    ensures made < Loop(o, repo, src, dst, message, races, left, made).attempts <= made + left
    decreases left
  {
    var a := Attempt(o, repo, src, dst, message, RaceAt(races, made));
    if a.outcome == Returned(false) && left > 1 {
      LoopAttemptsBounded(o, a.repo, src, dst, message, races, left - 1, made + 1);
    }
  }

  /** `doMerge` runs at least once and at most three times per `merge`. */
  lemma AttemptsBounded(o: Oracle, repo: Repo, src: Id, dst: string, message: string, races: seq<Option<Id>>)
    ensures 1 <= MergeSpec(o, repo, src, dst, message, races).attempts <= MaxAttempts
  {
    LoopAttemptsBounded(o, repo, src, dst, message, races, MaxAttempts, 0);
  }

  lemma {:induction false} LoopFollowsTrace(o: Oracle, repo: Repo, src: Id, dst: string, message: string,
                                            races: seq<Option<Id>>, left: nat, made: nat)
    requires left > 0
    ensures made < Loop(o, repo, src, dst, message, races, left, made).attempts
    ensures var r := Loop(o, repo, src, dst, message, races, left, made);
            var n := r.attempts - made;
            var t := Trace(o, repo, src, dst, message, races, n, made);
            && 0 < n <= left
            && (forall i :: 0 <= i < n - 1 ==> t[i].outcome == Returned(false))
            && r.repo == t[n - 1].repo
            && (r.result == Merged <==> t[n - 1].outcome == Returned(true))
            && (forall e :: t[n - 1].outcome == Raised(e) ==> r.result == Failed(e))
            && (t[n - 1].outcome == Returned(false) ==> n == left && r.result == Failed(MergeFailed))
    decreases left
  {
    var a := Attempt(o, repo, src, dst, message, RaceAt(races, made));
    var r := Loop(o, repo, src, dst, message, races, left, made);
    LoopAttemptsBounded(o, repo, src, dst, message, races, left, made);
    var n := r.attempts - made;
    if a.outcome == Returned(false) && left > 1 {
      var r' := Loop(o, a.repo, src, dst, message, races, left - 1, made + 1);
      assert r == r';
      LoopFollowsTrace(o, a.repo, src, dst, message, races, left - 1, made + 1);
      var t' := Trace(o, a.repo, src, dst, message, races, n - 1, made + 1);
      var t := Trace(o, repo, src, dst, message, races, n, made);
      assert t == [a] + t';
      assert t[n - 1] == t'[n - 2];
      assert forall i :: 1 <= i < n - 1 ==> t[i] == t'[i - 1];
    } else {
      assert n == 1;
      assert Trace(o, repo, src, dst, message, races, n, made) == [a];
    }
  }

  /**
   * The loop of `merge`, attempt by attempt: every attempt but the last
   * returned false; the merge succeeds exactly when the last attempt returned
   * true; an exception ends it at once; and a last attempt that returned false
   * is the third one, after which `merge` fails with "Merge failed". A conflict
   * and a rejected push both return false, so both are retried and both end in
   * the same error.
   */
  lemma MergeFollowsTrace(o: Oracle, repo: Repo, src: Id, dst: string, message: string, races: seq<Option<Id>>)
    ensures var r := MergeSpec(o, repo, src, dst, message, races);
            var n := r.attempts;
            var t := Trace(o, repo, src, dst, message, races, n, 0);
            && 1 <= n <= MaxAttempts
            && (forall i :: 0 <= i < n - 1 ==> t[i].outcome == Returned(false))
            && r.repo == t[n - 1].repo
            && (r.result == Merged <==> t[n - 1].outcome == Returned(true))
            && (forall e :: t[n - 1].outcome == Raised(e) ==> r.result == Failed(e))
            && (t[n - 1].outcome == Returned(false) ==> n == MaxAttempts && r.result == Failed(MergeFailed))
  {
    LoopFollowsTrace(o, repo, src, dst, message, races, MaxAttempts, 0);
  }

  /**
   * With no other writer, a conflict is retried twice more and the merge then
   * fails, leaving the remote untouched.
   */
  lemma ConflictFailsAfterThreeAttempts(o: Oracle, repo: Repo, src: Id, dst: string, message: string)
    requires o.expandRef(dst) in repo.remote && o.knownCommit(src)
    requires !o.mergeClean(repo.remote[o.expandRef(dst)], src)
    ensures var r := MergeSpec(o, repo, src, dst, message, []);
            r.result == Failed(MergeFailed) && r.attempts == MaxAttempts && r.repo.remote == repo.remote
  {
    var a1 := Attempt(o, repo, src, dst, message, None);
    var a2 := Attempt(o, a1.repo, src, dst, message, None);
    var a3 := Attempt(o, a2.repo, src, dst, message, None);
    assert a1.repo.remote == repo.remote;
    assert a2.repo.remote == repo.remote;
    assert a3.repo.remote == repo.remote;
  }

  /**
   * A source revision that cannot be parsed or read ends the merge at the
   * first attempt with that error, whatever the other writer does; nothing is
   * pushed.
   */
  lemma MissingSourceFailsAtOnce(o: Oracle, repo: Repo, src: Id, dst: string, message: string, races: seq<Option<Id>>)
    requires o.expandRef(dst) in repo.remote && !o.knownCommit(src)
    ensures var r := MergeSpec(o, repo, src, dst, message, races);
            r.result == Failed(MissingSource(src)) && r.attempts == 1
            && r.repo.remote == repo.remote && r.repo.objects == repo.objects
  {
    var a := Attempt(o, repo, src, dst, message, RaceAt(races, 0));
    assert a.outcome == Raised(MissingSource(src));
  }

  /** A destination ref that the fetch does not find ends the merge at the first attempt. */
  lemma MissingDestinationFailsAtOnce(o: Oracle, repo: Repo, src: Id, dst: string, message: string, races: seq<Option<Id>>)
    requires o.expandRef(dst) !in repo.remote
    ensures var r := MergeSpec(o, repo, src, dst, message, races);
            r.result == Failed(MissingDestination(o.expandRef(dst))) && r.attempts == 1 && r.repo == repo
  {
    var a := Attempt(o, repo, src, dst, message, RaceAt(races, 0));
    assert a.outcome == Raised(MissingDestination(o.expandRef(dst)));
  }

  /** Without a racing writer a clean merge succeeds on the first attempt. */
  lemma UndisturbedCleanMergeSucceeds(o: Oracle, repo: Repo, src: Id, dst: string, message: string)
    requires o.expandRef(dst) in repo.remote && o.knownCommit(src)
    requires o.mergeClean(repo.remote[o.expandRef(dst)], src)
    ensures var r := MergeSpec(o, repo, src, dst, message, []);
            var tip := repo.remote[o.expandRef(dst)];
            var c := MergeCommit(o, tip, src, message);
            && r.result == Merged && r.attempts == 1
            && r.repo.remote == repo.remote[o.expandRef(dst) := o.hash(c)]
            && o.hash(c) in r.repo.objects && r.repo.objects[o.hash(c)].parents == [tip, src]
  {
    UndisturbedCleanAttemptSucceeds(o, repo, src, dst, message);
  }

  /** A rejected first push is retried from the moved tip; the retry lands a commit on that new tip. */
  lemma RaceIsRetriedOnNewTip(o: Oracle, repo: Repo, src: Id, dst: string, message: string, moved: Id)
    requires o.expandRef(dst) in repo.remote && o.knownCommit(src)
    requires var tip := repo.remote[o.expandRef(dst)];
             o.mergeClean(tip, src) && moved != tip && moved != o.hash(MergeCommit(o, tip, src, message))
    requires o.mergeClean(moved, src)
    ensures var r := MergeSpec(o, repo, src, dst, message, [Some(moved)]);
            var c := MergeCommit(o, moved, src, message);
            && r.result == Merged && r.attempts == 2
            && r.repo.remote == repo.remote[o.expandRef(dst) := o.hash(c)]
            && r.repo.objects[o.hash(c)].parents == [moved, src]
  {
    var ref := o.expandRef(dst);
    CleanAttemptShape(o, repo, src, dst, message, Some(moved));
    var a1 := Attempt(o, repo, src, dst, message, Some(moved));
    assert a1.outcome == Returned(false);
    assert a1.repo.remote == repo.remote[ref := moved];
    UndisturbedCleanAttemptSucceeds(o, a1.repo, src, dst, message);
  }

  /**
   * A conflict is retried on a re-fetched tip: when another writer moves the
   * destination to a commit that merges cleanly, the second attempt lands a
   * merge commit on that commit.
   */
  lemma ConflictResolvedByWriterIsRetried(o: Oracle, repo: Repo, src: Id, dst: string, message: string, moved: Id)
    requires o.expandRef(dst) in repo.remote && o.knownCommit(src)
    requires !o.mergeClean(repo.remote[o.expandRef(dst)], src)
    requires o.mergeClean(moved, src)
    ensures var r := MergeSpec(o, repo, src, dst, message, [Some(moved)]);
            var c := MergeCommit(o, moved, src, message);
            && r.result == Merged && r.attempts == 2
            && r.repo.remote == repo.remote[o.expandRef(dst) := o.hash(c)]
            && r.repo.objects[o.hash(c)].parents == [moved, src]
  {
    var ref := o.expandRef(dst);
    var a1 := Attempt(o, repo, src, dst, message, Some(moved));
    assert a1.outcome == Returned(false);
    assert a1.repo.remote == repo.remote[ref := moved];
    UndisturbedCleanAttemptSucceeds(o, a1.repo, src, dst, message);
  }

  // ---------------------------------------------------------------------------
  // The imperative code

  /** The remote repository: its refs change only through compare-and-swap pushes. */
  class RemoteRepository {
    var refs: map<string, Id>

    constructor (refs: map<string, Id>)
      ensures this.refs == refs
    {
      this.refs := refs;
    }

    /** The push connection's single ref update, performed atomically. */
    method Push(ref: string, expectedOld: Id, newId: Id) returns (status: PushStatus)
      modifies this
      ensures (status, refs) == PushResult(old(refs), ref, expectedOld, newId)
    {
      if ref in refs && refs[ref] == newId {
        status := UpToDate;
      } else if ref !in refs || refs[ref] != expectedOld {
        status := RejectedRemoteChanged;
      } else {
        status := Ok;
        refs := refs[ref := newId];
      }
    }

    /** A concurrent writer's update of `ref`, if it makes one. */
    method Interfere(ref: string, race: Option<Id>)
      modifies this
      ensures refs == Interleave(old(refs), ref, race)
    {
      if race.Some? {
        refs := refs[ref := race.value];
      }
    }
  }

  class GitMergeSupport {
    const oracle: Oracle
    const remote: RemoteRepository
    var mirror: map<string, Id>
    var objects: map<Id, Commit>

    constructor (oracle: Oracle, remote: RemoteRepository, mirror: map<string, Id>)
      ensures this.oracle == oracle && this.remote == remote && this.mirror == mirror && objects == map[]
    {
      this.oracle := oracle;
      this.remote := remote;
      this.mirror := mirror;
      objects := map[];
    }

    function State(): Repo
      reads this, remote
    {
      Repo(remote.refs, mirror, objects)
    }

    /** One attempt: fetch the tip, merge, build the commit, push it. */
    method DoMerge(src: Id, dst: string, message: string, race: Option<Id>) returns (r: Outcome)
      modifies this, remote
      ensures AttemptResult(r, State()) == Attempt(oracle, old(State()), src, dst, message, race)
    {
      var ref := oracle.expandRef(dst);
      // fetch with a forced ref spec: the mirror's ref takes the remote's value
      if ref !in remote.refs {
        return Raised(MissingDestination(ref));
      }
      mirror := mirror[ref := remote.refs[ref]];
      var tip := mirror[ref];
      if !oracle.knownCommit(src) {
        return Raised(MissingSource(src));
      }
      if !oracle.mergeClean(tip, src) {
        remote.Interfere(ref, race);
        return Returned(false);
      }
      var commit := Commit(oracle.resultTree(tip, src), [], oracle.authorOf(src), ServiceIdentity, message);
      commit := commit.(parents := commit.parents + [tip]);
      commit := commit.(parents := commit.parents + [src]);
      assert commit.parents == [tip, src];
      var id := oracle.hash(commit);
      objects := objects[id := commit];
      remote.Interfere(ref, race);
      var status := remote.Push(ref, tip, id);
      r := Returned(Succeeded(status));
    }

    /** The bounded retry loop. */
    method Merge(src: Id, dst: string, message: string, races: seq<Option<Id>>) returns (r: MergeResult, ghost attempts: nat)
      modifies this, remote
      ensures MergeRun(r, State(), attempts) == MergeSpec(oracle, old(State()), src, dst, message, races)
    {
      ghost var start := State();
      var attemptsLeft: nat := MaxAttempts;
      var success := false;
      attempts := 0;
      while !success && attemptsLeft > 0
        invariant attempts + attemptsLeft == MaxAttempts
        invariant !success ==> Loop(oracle, State(), src, dst, message, races, attemptsLeft, attempts)
                               == MergeSpec(oracle, start, src, dst, message, races)
        invariant success ==> MergeRun(Merged, State(), attempts) == MergeSpec(oracle, start, src, dst, message, races)
        decreases attemptsLeft
      {
        var outcome := DoMerge(src, dst, message, RaceAt(races, MaxAttempts - attemptsLeft));
        if outcome.Raised? {
          r := Failed(outcome.error);
          attempts := attempts + 1;
          return;
        }
        success := outcome.success;
        attemptsLeft := attemptsLeft - 1;
        attempts := attempts + 1;
      }
      if !success {
        r := Failed(MergeFailed);
      } else {
        r := Merged;
      }
    }
  }
}
