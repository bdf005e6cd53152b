/**
 * The direct submodule-aware tree iterator: a cursor that hands every move to
 * the tree iterator it wraps and then refreshes its view of the current
 * submodule. There is no buffering and no reordering: its current entry is
 * always the wrapped iterator's current entry.
 *
 * The wrapped iterator is a position over a sequence of tree entries; a move
 * must stay between the first entry and the end (JGit's iterators fail on a
 * move past either end). The submodule resolver is a map from submodule paths
 * to the root tree of the pinned commit.
 */
module SubmoduleIterator {

  type Id = nat

  datatype Option<T> = None | Some(value: T)

  datatype FileMode = RegularFile | ExecutableFile | Symlink | Tree | Gitlink

  datatype Entry = Entry(path: string, mode: FileMode, id: Id)

  /** What the iterator knows about the entry it stands on. */
  datatype SubmoduleState =
    | NotSubmodule                                   // no entry, or an ordinary entry
    | Resolved(path: string, commit: Id, tree: Id)   // a submodule link and its resolved tree
    | Unresolved(path: string, commit: Id)           // a submodule link the resolver does not know

  /** The entry at `pos`, if `pos` is not at the end. */
  function EntryAt(entries: seq<Entry>, pos: nat): (r: Option<Entry>)
    ensures r.Some? <==> pos < |entries|
    ensures r.Some? ==> r.value == entries[pos]
  {
    if pos < |entries| then Some(entries[pos]) else None
  }

  /** The submodule state for the entry at `pos`: only a gitlink entry is a submodule. */
  function SubmoduleStateAt(entries: seq<Entry>, pos: nat, resolver: map<string, Id>): (r: SubmoduleState)
    ensures r != NotSubmodule <==> pos < |entries| && entries[pos].mode == Gitlink
    ensures r.Resolved? <==> pos < |entries| && entries[pos].mode == Gitlink && entries[pos].path in resolver
    ensures r.Resolved? ==> r == Resolved(entries[pos].path, entries[pos].id, resolver[entries[pos].path])
    ensures r.Unresolved? ==> r == Unresolved(entries[pos].path, entries[pos].id)
  {
    match EntryAt(entries, pos)
    case None => NotSubmodule
    case Some(e) =>
      if e.mode != Gitlink then NotSubmodule
      else if e.path in resolver then Resolved(e.path, e.id, resolver[e.path])
      else Unresolved(e.path, e.id)
  }

  /** The wrapped tree iterator. */
  class TreeCursor {
    const entries: seq<Entry>
    var pos: nat

    ghost predicate Valid()
      reads this
    {
      pos <= |entries|
    }

    constructor (entries: seq<Entry>)
      ensures Valid() && this.entries == entries && pos == 0
    {
      this.entries := entries;
      pos := 0;
    }

    method First() returns (b: bool)
      ensures b <==> pos == 0
    {
      b := pos == 0;
    }

    method Eof() returns (b: bool)
      requires Valid()
      ensures b <==> pos == |entries|
    {
      b := pos == |entries|;
    }

    method Next(delta: nat)
      requires Valid() && pos + delta <= |entries|
      modifies this
      ensures Valid() && pos == old(pos) + delta
    {
      pos := pos + delta;
    }

    method Back(delta: nat)
      requires Valid() && delta <= pos
      modifies this
      ensures Valid() && pos == old(pos) - delta
    {
      pos := pos - delta;
    }
  }

  class DirectSubmoduleAwareTreeIterator {
    const wrapped: TreeCursor
    const resolver: map<string, Id>
    var submodule: SubmoduleState

    /** The submodule state always belongs to the wrapped iterator's current entry. */
    ghost predicate Valid()
      reads this, wrapped
    {
      wrapped.Valid() && submodule == SubmoduleStateAt(wrapped.entries, wrapped.pos, resolver)
    }

    /** The iterator's current entry: the wrapped iterator's, unchanged. */
    function Current(): (r: Option<Entry>)
      reads this, wrapped
      requires Valid()
      ensures r.Some? <==> wrapped.pos < |wrapped.entries|
      ensures r.Some? ==> r.value == wrapped.entries[wrapped.pos]
    {
      EntryAt(wrapped.entries, wrapped.pos)
    }

    constructor (wrapped: TreeCursor, resolver: map<string, Id>)
      requires wrapped.Valid()
      ensures Valid() && this.wrapped == wrapped && this.resolver == resolver
    {
      this.wrapped := wrapped;
      this.resolver := resolver;
      submodule := SubmoduleStateAt(wrapped.entries, wrapped.pos, resolver);
    }

    /** Refresh the submodule state for the entry the wrapped iterator now stands on. */
    method MovedToEntry()
      requires wrapped.Valid()
      modifies this
      ensures Valid()
    {
      submodule := SubmoduleStateAt(wrapped.entries, wrapped.pos, resolver);
    }

    method First() returns (b: bool)
      requires Valid()
      ensures b <==> wrapped.pos == 0
    {
      b := wrapped.First();
    }

    method Eof() returns (b: bool)
      requires Valid()
      ensures b <==> wrapped.pos == |wrapped.entries| && Current() == None
    {
      b := wrapped.Eof();
    }

    method Next(delta: nat)
      requires Valid() && wrapped.pos + delta <= |wrapped.entries|
      modifies this, wrapped
      ensures Valid()
      ensures wrapped.pos == old(wrapped.pos) + delta
      ensures Current() == EntryAt(wrapped.entries, old(wrapped.pos) + delta)
      ensures submodule == SubmoduleStateAt(wrapped.entries, old(wrapped.pos) + delta, resolver)
    {
      wrapped.Next(delta);
      MovedToEntry();
    }

    method Back(delta: nat)
      requires Valid() && delta <= wrapped.pos
      modifies this, wrapped
      ensures Valid()
      ensures wrapped.pos == old(wrapped.pos) - delta
      ensures Current() == EntryAt(wrapped.entries, old(wrapped.pos) - delta)
      ensures submodule == SubmoduleStateAt(wrapped.entries, old(wrapped.pos) - delta, resolver)
    {
      wrapped.Back(delta);
      MovedToEntry();
    }
  }

  /**
   * `next(d)` then `back(d)` on the iterator comes back to where it started:
   * the same wrapped position, the same current entry and the same submodule
   * state. The view is a function of the wrapped position alone.
   */
  method NextThenBack(it: DirectSubmoduleAwareTreeIterator, delta: nat)
    requires it.Valid() && it.wrapped.pos + delta <= |it.wrapped.entries|
    modifies it, it.wrapped
    ensures it.Valid()
    ensures it.wrapped.pos == old(it.wrapped.pos)
    ensures it.Current() == old(it.Current())
    ensures it.submodule == old(it.submodule)
  {
    it.Next(delta);
    it.Back(delta);
  }

  /** `back(d)` then `next(d)` on the iterator comes back to where it started. */
  method BackThenNext(it: DirectSubmoduleAwareTreeIterator, delta: nat)
    requires it.Valid() && delta <= it.wrapped.pos
    modifies it, it.wrapped
    ensures it.Valid()
    ensures it.wrapped.pos == old(it.wrapped.pos)
    ensures it.Current() == old(it.Current())
    ensures it.submodule == old(it.submodule)
  {
    it.Back(delta);
    it.Next(delta);
  }
}
