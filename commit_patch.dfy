/**
 * The commit-patch builder of the git plugin, as its tests pin it down: a
 * builder accumulates edits (create a file, delete a directory) and `commit`
 * applies them to the destination branch's tip tree, stores the content with
 * line-feed line endings, and moves the branch with a compare-and-swap; a
 * missing branch is an error unless the repository has no branches at all, in
 * which case the branch is created.
 *
 * A tree is a map from file paths to contents; a commit stores its tree by
 * value and gets a fresh id (object hashing is left out).
 */
module CommitSupport {

  newtype byte = x: int | 0 <= x < 256

  type Bytes = seq<byte>
  type Path = string
  type Tree = map<Path, Bytes>
  type Id = nat

  const CR: byte := 13
  const LF: byte := 10

  datatype Option<T> = None | Some(value: T)

  // ---------------------------------------------------------------------------
  // Line endings

  /** The canonical form stored on commit: every CR LF pair becomes LF. */
  function ToLf(s: Bytes): Bytes
  {
    if |s| >= 2 && s[0] == CR && s[1] == LF then [LF] + ToLf(s[2..])
    else if s == [] then []
    else [s[0]] + ToLf(s[1..])
  }

  /**
   * What a reader root with `autoCrlf` receives: a CR is put before every LF
   * that does not already follow a CR. `afterCr` says whether the byte before
   * `s` was a CR.
   */
  function ToCrlfAfter(s: Bytes, afterCr: bool): Bytes
  {
    if s == [] then []
    else if s[0] == LF && !afterCr then [CR, LF] + ToCrlfAfter(s[1..], false)
    else [s[0]] + ToCrlfAfter(s[1..], s[0] == CR)
  }

  function ToCrlf(s: Bytes): Bytes
  {
    ToCrlfAfter(s, false)
  }

  /** Text whose line breaks are all CR LF pairs: no LF without a CR before it, no CR without an LF after it. */
  predicate CrlfText(s: Bytes)
  {
    && (forall i :: 0 <= i < |s| && s[i] == LF ==> 0 < i && s[i - 1] == CR)
    && (forall i :: 0 <= i < |s| && s[i] == CR ==> i + 1 < |s| && s[i + 1] == LF)
  }

  /** Text holding no CR LF pair. */
  predicate NoCrlfPair(t: Bytes)
  {
    forall i :: 0 <= i < |t| - 1 ==> !(t[i] == CR && t[i + 1] == LF)
  }

  /** The first byte the reader produces: a CR when it inserts one, else the first byte of the input. */
  lemma ToCrlfAfterFirst(s: Bytes, afterCr: bool)
    ensures ToCrlfAfter(s, afterCr) == [] <==> s == []
    ensures s != [] ==> ToCrlfAfter(s, afterCr)[0] == (if s[0] == LF && !afterCr then CR else s[0])
  {
  }


  /** Committed CR LF text read back by an `autoCrlf` root is the text that was committed. */
  lemma {:induction false} CrlfRoundTrip(s: Bytes)
    requires CrlfText(s)
    ensures ToCrlf(ToLf(s)) == s
    decreases |s|
  {
    if |s| >= 2 && s[0] == CR && s[1] == LF {
      assert CrlfText(s[2..]) by {
        forall i | 0 <= i < |s[2..]| && s[2..][i] == LF ensures 0 < i && s[2..][i - 1] == CR {
          assert s[i + 2] == LF;
        }
        forall i | 0 <= i < |s[2..]| && s[2..][i] == CR ensures i + 1 < |s[2..]| && s[2..][i + 1] == LF {
          assert s[i + 2] == CR;
        }
      }
      CrlfRoundTrip(s[2..]);
      assert ToLf(s) == [LF] + ToLf(s[2..]);
      assert ToCrlf(ToLf(s)) == [CR, LF] + ToCrlf(ToLf(s[2..]));
      assert s == [CR, LF] + s[2..];
    } else if s != [] {
      assert s[0] != LF;
      assert s[0] != CR;
      assert CrlfText(s[1..]) by {
        forall i | 0 <= i < |s[1..]| && s[1..][i] == LF ensures 0 < i && s[1..][i - 1] == CR {
          assert s[i + 1] == LF;
          assert s[i] == CR;
        }
        forall i | 0 <= i < |s[1..]| && s[1..][i] == CR ensures i + 1 < |s[1..]| && s[1..][i + 1] == LF {
          assert s[i + 1] == CR;
        }
      }
      CrlfRoundTrip(s[1..]);
      assert ToLf(s) == [s[0]] + ToLf(s[1..]);
      assert ToCrlf(ToLf(s)) == [s[0]] + ToCrlf(ToLf(s[1..]));
      assert s == [s[0]] + s[1..];
    }
  }

  /** `CanonicalRoundTrip` from any point of the reader's input. */
  lemma {:induction false} CanonicalRoundTripAfter(t: Bytes, afterCr: bool)
    requires NoCrlfPair(t)
    ensures ToLf(ToCrlfAfter(t, afterCr)) == t
    decreases |t|
  {
    if t != [] {
      assert NoCrlfPair(t[1..]) by {
        forall i | 0 <= i < |t[1..]| - 1 ensures !(t[1..][i] == CR && t[1..][i + 1] == LF) {
          assert t[1..][i] == t[i + 1] && t[1..][i + 1] == t[i + 2];
        }
      }
      var out := ToCrlfAfter(t, afterCr);
      if t[0] == LF && !afterCr {
        var rest := ToCrlfAfter(t[1..], false);
        CanonicalRoundTripAfter(t[1..], false);
        assert out == [CR, LF] + rest;
        assert out[2..] == rest;
        assert ToLf(out) == [LF] + ToLf(rest);
      } else {
        var rest := ToCrlfAfter(t[1..], t[0] == CR);
        CanonicalRoundTripAfter(t[1..], t[0] == CR);
        ToCrlfAfterFirst(t[1..], t[0] == CR);
        assert out == [t[0]] + rest;
        assert out[1..] == rest;
        if t[0] == CR && rest != [] {
          assert |t| >= 2 && t[1] != LF;
          assert rest[0] == t[1];
        }
        assert ToLf(out) == [t[0]] + ToLf(rest);
      }
      assert t == [t[0]] + t[1..];
    }
  }

  /** Content without CR LF pairs that an `autoCrlf` reader got, committed again, is stored exactly as it was. */
  lemma CanonicalRoundTrip(t: Bytes)
    requires NoCrlfPair(t)
    ensures ToLf(ToCrlf(t)) == t
  {
    CanonicalRoundTripAfter(t, false);
  }

  /** A CR already before an LF is kept as it is: the reader does not double it. */
  lemma ReaderKeepsExistingCrlf(rest: Bytes)
    ensures ToCrlf([CR, LF] + rest) == [CR, LF] + ToCrlf(rest)
  {
    var s := [CR, LF] + rest;
    assert s[1..] == [LF] + rest;
    assert s[1..][1..] == rest;
    assert ToCrlfAfter(s[1..], true) == [LF] + ToCrlfAfter(rest, false);
  }

  lemma ToLfLine(c: byte, rest: Bytes)
    requires c != CR
    ensures ToLf([c, CR, LF] + rest) == [c, LF] + ToLf(rest)
  {
    var s := [c, CR, LF] + rest;
    assert s[1..] == [CR, LF] + rest;
    assert s[1..][2..] == rest;
  }

  /** The line-ending test: "a\r\nb\r\nc\r\n" is stored as "a\nb\nc\n" and an `autoCrlf` root reads the original. */
  lemma LineEndingExample()
    ensures var committed: Bytes := [97, 13, 10, 98, 13, 10, 99, 13, 10];
            ToLf(committed) == [97, 10, 98, 10, 99, 10] && ToCrlf(ToLf(committed)) == committed
  {
    ToLfLine(99, []);
    ToLfLine(98, [99, 13, 10]);
    ToLfLine(97, [98, 13, 10, 99, 13, 10]);
    CrlfRoundTrip([97, 13, 10, 98, 13, 10, 99, 13, 10]);
  }

  // ---------------------------------------------------------------------------
  // Edits and changes

  /** `p` lies inside directory `dir`: it starts with `dir` followed by a slash. */
  predicate Under(p: Path, dir: Path)
  {
    |dir| < |p| && p[..|dir|] == dir && p[|dir|] == '/'
  }

  /** A sibling whose name merely starts with the directory's name is not inside it. */
  lemma SiblingNotUnder()
    ensures Under("dir/file", "dir")
    ensures !Under("dir2/file", "dir")
  {
    assert "dir/file"[..3] == "dir";
    assert "dir2/file"[3] == '2';
  }

  datatype Edit = CreateFile(path: Path, content: Bytes) | DeleteDirectory(dir: Path)

  function ApplyEdit(t: Tree, e: Edit): (r: Tree)
    ensures e.CreateFile? ==> r.Keys == t.Keys + {e.path} && r[e.path] == ToLf(e.content)
    ensures e.DeleteDirectory? ==> forall p :: p in r <==> p in t && !Under(p, e.dir)
    ensures forall p :: p in r && (e.CreateFile? ==> p != e.path) ==> p in t && r[p] == t[p]
  {
    match e
    case CreateFile(path, content) => t[path := ToLf(content)]
    case DeleteDirectory(dir) => map p | p in t && !Under(p, dir) :: t[p]
  }

  /** The patch applied to a base tree, edit by edit in the order they were made. */
  function Apply(t: Tree, edits: seq<Edit>): Tree
    decreases |edits|
  {
    if edits == [] then t else Apply(ApplyEdit(t, edits[0]), edits[1..])
  }

  datatype ChangeType = Added | Changed | Removed

  datatype Change = Change(fileName: Path, kind: ChangeType)

  /** Whether change collection reports `c` between the two trees. */
  predicate Reported(before: Tree, after: Tree, c: Change)
  {
    match c.kind
    case Added => c.fileName in after && c.fileName !in before
    case Removed => c.fileName in before && c.fileName !in after
    case Changed => c.fileName in before && c.fileName in after && before[c.fileName] != after[c.fileName]
  }

  /** The file changes between two trees, as change collection reports them. */
  function Diff(before: Tree, after: Tree): (r: set<Change>)
    ensures forall c :: c in r <==> Reported(before, after, c)
  {
    (set p | p in after && p !in before :: Change(p, Added))
    + (set p | p in before && p !in after :: Change(p, Removed))
    + (set p | p in before && p in after && before[p] != after[p] :: Change(p, Changed))
  }

  /** Deleting a directory produces a removal for each file under it and nothing else. */
  lemma DeleteDirectoryChanges(t: Tree, dir: Path)
    ensures Diff(t, Apply(t, [DeleteDirectory(dir)])) == set p | p in t && Under(p, dir) :: Change(p, Removed)
  {
    var after := Apply(t, [DeleteDirectory(dir)]);
    assert after == ApplyEdit(t, DeleteDirectory(dir));
    var d := Diff(t, after);
    var expected := set p | p in t && Under(p, dir) :: Change(p, Removed);
    forall c | c in d ensures c in expected {
      assert c.kind == Removed;
    }
  }

  /** The directory-removal test: deleting "dir" removes "dir/file" only; "dir2/file" stays. */
  lemma DirectoryRemoveExample(t: Tree)
    requires "dir/file" in t && "dir2/file" in t
    requires forall p :: p in t && Under(p, "dir") ==> p == "dir/file"
    ensures Diff(t, Apply(t, [DeleteDirectory("dir")])) == {Change("dir/file", Removed)}
    ensures "dir2/file" in Apply(t, [DeleteDirectory("dir")])
  {
    SiblingNotUnder();
    DeleteDirectoryChanges(t, "dir");
    assert Apply(t, [DeleteDirectory("dir")]) == ApplyEdit(t, DeleteDirectory("dir"));
  }

  /** Creating one file changes that file alone. */
  lemma CreateFileChanges(t: Tree, path: Path, content: Bytes)
    ensures var d := Diff(t, Apply(t, [CreateFile(path, content)]));
            && (forall c :: c in d ==> c.fileName == path)
            && (d == {} <==> path in t && t[path] == ToLf(content))
  {
    var after := Apply(t, [CreateFile(path, content)]);
    assert after == t[path := ToLf(content)];
    var d := Diff(t, after);
    if path !in t {
      assert Change(path, Added) in d;
    } else if t[path] != ToLf(content) {
      assert Change(path, Changed) in d;
    }
  }

  // ---------------------------------------------------------------------------
  // Commits and history

  /** A commit as change collection sees it: its tree, parents, user name and description. */
  datatype CommitObject = CommitObject(tree: Tree, parents: seq<Id>, userName: string, description: string)

  /** Every parent is stored and older than its child; every id is below the next fresh id. */
  predicate ValidStore(commits: map<Id, CommitObject>, nextId: Id)
  {
    forall id :: id in commits ==>
      id < nextId && forall k :: 0 <= k < |commits[id].parents| ==>
        commits[id].parents[k] in commits && commits[id].parents[k] < id
  }

  /** The branches and commits of the remote repository. */
  datatype RepoState = RepoState(branches: map<string, Id>, commits: map<Id, CommitObject>, nextId: Id)

  predicate ValidState(s: RepoState)
  {
    && ValidStore(s.commits, s.nextId)
    && forall b :: b in s.branches ==> s.branches[b] in s.commits
  }

  datatype Modification = Modification(userName: string, description: string, changes: set<Change>)

  function ParentTree(commits: map<Id, CommitObject>, c: CommitObject): Tree
  {
    if |c.parents| > 0 && c.parents[0] in commits then commits[c.parents[0]].tree else map[]
  }

  /** The commits reachable from `head` along first parents and not from `since`, newest first. */
  function Modifications(commits: map<Id, CommitObject>, nextId: Id, since: Option<Id>, head: Id): seq<Modification>
    requires ValidStore(commits, nextId) && head in commits
    decreases head
  {
    if since == Some(head) then []
    else
      var c := commits[head];
      var m := Modification(c.userName, c.description, Diff(ParentTree(commits, c), c.tree));
      if |c.parents| == 0 then [m]
      else [m] + Modifications(commits, nextId, since, c.parents[0])
  }

  // ---------------------------------------------------------------------------
  // Commit

  datatype CommitError =
    | MissingBranch(branch: string)   // the branch is missing but others exist
    | PushRejected(branch: string)    // the branch moved since its tip was read

  /** The message of the error a commit to a missing branch raises. */
  function MissingBranchMessage(branch: string): string
  {
    "The '" + branch + "' destination branch doesn't exist"
  }

  datatype CommitResult = Committed(id: Id) | Error(error: CommitError)

  /** A commit built and waiting to be pushed: the tip it was built on and the commit itself. */
  datatype Prepared = Prepared(expected: Option<Id>, commit: CommitObject)

  function Tip(s: RepoState, branch: string): Option<Id>
  {
    if branch in s.branches then Some(s.branches[branch]) else None
  }

  /** Read the tip, apply the patch to its tree and build a commit on it. */
  function Prepare(s: RepoState, branch: string, edits: seq<Edit>, userName: string, description: string): (r: Result)
    requires ValidState(s)
    ensures branch in s.branches ==>
              r == Ready(Prepared(Some(s.branches[branch]),
                                  CommitObject(Apply(s.commits[s.branches[branch]].tree, edits), [s.branches[branch]], userName, description)))
    ensures branch !in s.branches && s.branches != map[] ==> r == NotReady(MissingBranch(branch))
    ensures s.branches == map[] ==> r == Ready(Prepared(None, CommitObject(Apply(map[], edits), [], userName, description)))
  {
    if branch in s.branches then
      var tip := s.branches[branch];
      Ready(Prepared(Some(tip), CommitObject(Apply(s.commits[tip].tree, edits), [tip], userName, description)))
    else if s.branches != map[] then
      NotReady(MissingBranch(branch))
    else
      Ready(Prepared(None, CommitObject(Apply(map[], edits), [], userName, description)))
  }

  datatype Result = Ready(prepared: Prepared) | NotReady(error: CommitError)

  /** A commit whose parents are exactly the tip it expects to replace. */
  predicate BuiltOn(p: Prepared)
  {
    match p.expected
    case None => p.commit.parents == []
    case Some(t) => p.commit.parents == [t]
  }

  /** Store the commit and move the branch to it, but only if the branch still holds the expected tip. */
  function Push(s: RepoState, branch: string, p: Prepared): (r: (CommitResult, RepoState))
    requires ValidState(s) && BuiltOn(p)
    requires forall k :: 0 <= k < |p.commit.parents| ==> p.commit.parents[k] in s.commits
    ensures ValidState(r.1)
    ensures r.0.Committed? <==> Tip(s, branch) == p.expected
    ensures r.0.Committed? ==> && r.0.id !in s.commits
                               && r.1 == RepoState(s.branches[branch := r.0.id], s.commits[r.0.id := p.commit], s.nextId + 1)
    ensures r.0.Error? ==> r.1 == s && r.0.error == PushRejected(branch)
  {
    if Tip(s, branch) != p.expected then (Error(PushRejected(branch)), s)
    else
      var id := s.nextId;
      (Committed(id), RepoState(s.branches[branch := id], s.commits[id := p.commit], s.nextId + 1))
  }

  /** One `commit` of a patch: prepare, then push. */
  function CommitSpec(s: RepoState, branch: string, edits: seq<Edit>, userName: string, description: string): (r: (CommitResult, RepoState))
    requires ValidState(s)
    ensures ValidState(r.1)
  {
    match Prepare(s, branch, edits, userName, description)
    case NotReady(e) => (Error(e), s)
    case Ready(p) => Push(s, branch, p)
  }

  /**
   * Without a concurrent writer a commit to an existing branch lands, with the
   * old tip as its single parent; the history between the two states is
   * exactly one modification carrying the user name, the description and the
   * changes the patch makes to the old tree.
   */
  lemma CommitToExistingBranch(s: RepoState, branch: string, edits: seq<Edit>, userName: string, description: string)
    requires ValidState(s) && branch in s.branches
    ensures var (r, s') := CommitSpec(s, branch, edits, userName, description);
            var tip := s.branches[branch];
            && r.Committed? && Tip(s', branch) == Some(r.id)
            && s'.commits[r.id].parents == [tip]
            && s'.commits[r.id].tree == Apply(s.commits[tip].tree, edits)
            && Modifications(s'.commits, s'.nextId, Some(tip), r.id)
               == [Modification(userName, description, Diff(s.commits[tip].tree, Apply(s.commits[tip].tree, edits)))]
  {
    var (r, s') := CommitSpec(s, branch, edits, userName, description);
    var tip := s.branches[branch];
    assert s'.commits[r.id].parents == [tip];
    assert Modifications(s'.commits, s'.nextId, Some(tip), tip) == [];
  }

  /** The first commit test: one created file gives one modification naming that file. */
  lemma SingleFileCommitExample(s: RepoState, branch: string, path: Path, content: Bytes)
    requires ValidState(s) && branch in s.branches
    requires path !in s.commits[s.branches[branch]].tree
    ensures var (r, s') := CommitSpec(s, branch, [CreateFile(path, content)], "user", "Commit description");
            && r.Committed?
            && Modifications(s'.commits, s'.nextId, Some(s.branches[branch]), r.id)
               == [Modification("user", "Commit description", {Change(path, Added)})]
  {
    var base := s.commits[s.branches[branch]].tree;
    CommitToExistingBranch(s, branch, [CreateFile(path, content)], "user", "Commit description");
    CreateFileChanges(base, path, content);
    var d := Diff(base, Apply(base, [CreateFile(path, content)]));
    assert Apply(base, [CreateFile(path, content)]) == base[path := ToLf(content)];
    assert Change(path, Added) in d;
    forall c | c in d ensures c == Change(path, Added) {
      assert c.fileName == path;
    }
    assert d == {Change(path, Added)};
  }

  /** A missing branch in a repository that has other branches is an error naming the branch. */
  lemma MissingBranchFails(s: RepoState, branch: string, edits: seq<Edit>, userName: string, description: string)
    requires ValidState(s) && branch !in s.branches && s.branches != map[]
    ensures var (r, s') := CommitSpec(s, branch, edits, userName, description);
            && r == Error(MissingBranch(branch)) && s' == s
            && MissingBranchMessage(r.error.branch) == "The '" + branch + "' destination branch doesn't exist"
  {
  }

  /** A repository without branches gets the branch created, on a root commit holding the patch. */
  lemma FirstCommitCreatesBranch(s: RepoState, branch: string, edits: seq<Edit>, userName: string, description: string)
    requires ValidState(s) && s.branches == map[]
    ensures var (r, s') := CommitSpec(s, branch, edits, userName, description);
            && r.Committed? && s'.branches == map[branch := r.id]
            && s'.commits[r.id] == CommitObject(Apply(map[], edits), [], userName, description)
  {
  }

  /**
   * Two commits prepared on the same state race for the branch: the first
   * push lands and the second is rejected, so two commits with the same
   * parent are never both accepted.
   */
  lemma RacingCommitsOneFails(s: RepoState, branch: string, e1: seq<Edit>, e2: seq<Edit>, u: string, d1: string, d2: string)
    requires ValidState(s) && (branch in s.branches || s.branches == map[])
    ensures var p1 := Prepare(s, branch, e1, u, d1).prepared;
            var p2 := Prepare(s, branch, e2, u, d2).prepared;
            var (r1, s1) := Push(s, branch, p1);
            var (r2, s2) := Push(s1, branch, p2);
            r1.Committed? && r2 == Error(PushRejected(branch)) && s2 == s1
  {
    var p1 := Prepare(s, branch, e1, u, d1).prepared;
    var (r1, s1) := Push(s, branch, p1);
    assert Tip(s1, branch) == Some(r1.id);
    assert r1.id !in s.commits;
  }

  /**
   * Two commits run one after the other both land, and the history between
   * the original state and the end holds both, newest first: linear history.
   */
  lemma SequentialCommitsAreLinear(s: RepoState, branch: string, e1: seq<Edit>, e2: seq<Edit>, u: string, d1: string, d2: string)
    requires ValidState(s) && branch in s.branches
    ensures var (r1, s1) := CommitSpec(s, branch, e1, u, d1);
            var (r2, s2) := CommitSpec(s1, branch, e2, u, d2);
            && r1.Committed? && r2.Committed?
            && s2.commits[r2.id].parents == [r1.id]
            && s1.commits[r1.id].parents == [s.branches[branch]]
            && |Modifications(s2.commits, s2.nextId, Some(s.branches[branch]), r2.id)| == 2
  {
    var tip := s.branches[branch];
    CommitToExistingBranch(s, branch, e1, u, d1);
    var (r1, s1) := CommitSpec(s, branch, e1, u, d1);
    CommitToExistingBranch(s1, branch, e2, u, d2);
    var (r2, s2) := CommitSpec(s1, branch, e2, u, d2);
    assert r1.id != tip;
    assert s2.commits[r1.id] == s1.commits[r1.id];
    assert Modifications(s2.commits, s2.nextId, Some(tip), tip) == [];
    assert |Modifications(s2.commits, s2.nextId, Some(tip), r1.id)| == 1;
  }

  // ---------------------------------------------------------------------------
  // The builder and the repository it commits to

  class Repository {
    var branches: map<string, Id>
    var commits: map<Id, CommitObject>
    var nextId: Id

    ghost predicate Valid()
      reads this
    {
      ValidState(State())
    }

    function State(): RepoState
      reads this
    {
      RepoState(branches, commits, nextId)
    }

    /** An empty repository: no branches, no commits. */
    constructor ()
      ensures Valid() && branches == map[] && commits == map[]
    {
      branches := map[];
      commits := map[];
      nextId := 0;
    }

    /** The ref update under the write lock: compare the tip, then store and advance. */
    method UpdateRef(branch: string, p: Prepared) returns (r: CommitResult)
      requires Valid() && BuiltOn(p)
      requires forall k :: 0 <= k < |p.commit.parents| ==> p.commit.parents[k] in commits
      modifies this
      ensures Valid()
      ensures (r, State()) == Push(old(State()), branch, p)
    {
      var current := if branch in branches then Some(branches[branch]) else None;
      if current != p.expected {
        return Error(PushRejected(branch));
      }
      var id := nextId;
      commits := commits[id := p.commit];
      branches := branches[branch := id];
      nextId := nextId + 1;
      r := Committed(id);
    }
  }

  class CommitPatchBuilder {
    const repo: Repository
    const branch: string
    var edits: seq<Edit>
    var disposed: bool

    constructor (repo: Repository, branch: string)
      ensures this.repo == repo && this.branch == branch && edits == [] && !disposed
    {
      this.repo := repo;
      this.branch := branch;
      edits := [];
      disposed := false;
    }

    method CreateFile(path: Path, content: Bytes)
      modifies this
      ensures edits == old(edits) + [Edit.CreateFile(path, content)] && disposed == old(disposed)
    {
      edits := edits + [Edit.CreateFile(path, content)];
    }

    method DeleteDirectory(dir: Path)
      modifies this
      ensures edits == old(edits) + [Edit.DeleteDirectory(dir)] && disposed == old(disposed)
    {
      edits := edits + [Edit.DeleteDirectory(dir)];
    }

    /** Apply the accumulated edits to the branch tip and push the result. */
    method Commit(userName: string, description: string) returns (r: CommitResult)
      requires repo.Valid()
      modifies repo
      ensures repo.Valid()
      ensures (r, repo.State()) == CommitSpec(old(repo.State()), branch, edits, userName, description)
    {
      var tip: Option<Id>;
      var base: Tree;
      if branch in repo.branches {
        tip := Some(repo.branches[branch]);
        base := repo.commits[tip.value].tree;
      } else if repo.branches != map[] {
        return Error(MissingBranch(branch));
      } else {
        tip := None;
        base := map[];
      }
      var tree := Apply(base, edits);
      var parents := if tip.Some? then [tip.value] else [];
      var p := Prepared(tip, CommitObject(tree, parents, userName, description));
      r := repo.UpdateRef(branch, p);
    }

    /** Release the builder; safe after a commit, after a failed commit and more than once. */
    method Dispose()
      modifies this
      ensures disposed && edits == []
    {
      edits := [];
      disposed := true;
    }
  }
}
