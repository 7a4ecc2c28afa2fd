/**
 The storage manager as a simple map from ids to leases: refinement over whole runs, and the safety
 of leases that are renewed in time.
 */
module StorageLeases {
  import opened Basics
  import opened FragmentStore
  import opened StorageRuns

  datatype Lease = Lease(owner: string, data: Buffer, expiresAt: int)

  type Leases = map<string, Lease>

  // ---- The concrete invariant ---------------------------------------------------------------

  /** A fragment without its access statistics. */
  function Core(f: StoredFragment): StoredFragment { f.(accessCount := 0, lastAccessed := 0) }

  ghost predicate SameButStatistics(a: Index, b: Index) {
    a.Keys == b.Keys && forall id :: id in a ==> Core(a[id]) == Core(b[id])
  }

  /** The fragment of `id` sits in its own file, with the recorded size and hash. */
  ghost predicate Filed(hash: HashFn, root: Path, files: map<Path, Buffer>, id: string, f: StoredFragment) {
    var file := FileOf(root, f.localPath);
    && |id| >= 2 && Plain(id) && f.fragmentId == id && f.localPath == LocalPath(id)
    && file in files
    && f.sizeBytes == |files[file]|
    && f.contentHash == hash(files[file])
  }

  /** The state of a manager whose file system calls have all succeeded and whose ids have no slashes. */
  ghost predicate Consistent(hash: HashFn, s: Storage) {
    && (forall id :: id in s.index ==> Filed(hash, s.root, s.files, id, s.index[id]))
    && (match s.saved case None => s.index == map[] case Some(saved) => SameButStatistics(saved, s.index))
  }

  function LeaseOf(s: Storage, f: StoredFragment): Lease {
    var file := FileOf(s.root, f.localPath);
    Lease(f.ownerId, if file in s.files then s.files[file] else [], f.expiresAt)
  }

  /** The simple map that the manager implements. */
  function View(s: Storage): Leases { map id | id in s.index :: LeaseOf(s, s.index[id]) }

  // ---- The simple map -----------------------------------------------------------------------

  function ExpiredLeases(m: Leases, now: int): set<string> { set id | id in m && now > m[id].expiresAt }

  /** One operation on the simple map; `stored` says whether a store takes place. */
  function LeaseStep(m: Leases, e: Event, stored: bool): Leases {
    match e.op
    case Store(id, owner, data, expiresAt) => if stored then m[id := Lease(owner, data, expiresAt)] else m
    case Retrieve(id) => if id in m && e.now > m[id].expiresAt then m - {id} else m
    case Delete(id) => m - {id}
    case Extend(id, newExpiresAt) => if id in m then m[id := m[id].(expiresAt := newExpiresAt)] else m
    case ExtendOwner(owner, days) =>
      map id | id in m :: if m[id].owner == owner then m[id].(expiresAt := e.now + 86400 * days) else m[id]
    case Cleanup(_) => m - ExpiredLeases(m, e.now)
    case Restart(_) => m
  }

  /** The reply that the simple map calls for. */
  ghost predicate LeaseReply(m: Leases, e: Event, reply: Reply) {
    match e.op
    case Store(id, owner, data, expiresAt) =>
      if reply.Stored? then |id| >= 2 && reply.fragment.fragmentId == id
      else reply in {Failed(InsufficientSpace), Failed(IdTooShort)}
    case Retrieve(id) =>
      reply == if id !in m then Failed(FragmentNotFound)
               else if e.now > m[id].expiresAt then Failed(FragmentExpired)
               else Data(m[id].data)
    case Delete(_) => reply == Done
    case Extend(_, _) => reply == Done
    case ExtendOwner(owner, _) => reply == Count(|set id | id in m && m[id].owner == owner|)
    case Cleanup(_) => reply == Count(|ExpiredLeases(m, e.now)|)
    case Restart(_) => reply == Done
  }

  // ---- Refinement, one operation at a time --------------------------------------------------

  /** No id with a slash is stored. */
  predicate PlainStore(e: Event) { e.op.Store? ==> Plain(e.op.id) }

  lemma StoreRefines(hash: HashFn, s: Storage, e: Event)
    requires Consistent(hash, s) && e.op.Store? && Plain(e.op.id) && e.io(0) == OK
    ensures var o := Step(hash, s, e);
            Consistent(hash, o.state) && View(o.state) == LeaseStep(View(s), e, o.reply.Stored?) && LeaseReply(View(s), e, o.reply)
  {
    hide FileOf, LocalPath, Plain, WrapAdd, View, Consistent;
    if Step(hash, s, e).reply.Stored? {
      StoreConsistent(hash, s, e);
      StoreViewed(hash, s, e);
    }
  }

  lemma StoreConsistent(hash: HashFn, s: Storage, e: Event)
    requires Consistent(hash, s) && e.op.Store? && Plain(e.op.id) && e.io(0) == OK && Step(hash, s, e).reply.Stored?
    ensures Consistent(hash, Step(hash, s, e).state)
  {
    hide FileOf, LocalPath, Plain, WrapAdd;
    var s' := Step(hash, s, e).state;
    OtherPaths(hash, s, e.op.id);
    forall id | id in s'.index ensures Filed(hash, s'.root, s'.files, id, s'.index[id]) {
      if id != e.op.id { assert Filed(hash, s.root, s.files, id, s.index[id]); }
    }
  }

  lemma StoreViewed(hash: HashFn, s: Storage, e: Event)
    requires Consistent(hash, s) && e.op.Store? && Plain(e.op.id) && e.io(0) == OK && Step(hash, s, e).reply.Stored?
    ensures View(Step(hash, s, e).state) == View(s)[e.op.id := Lease(e.op.owner, e.op.data, e.op.expiresAt)]
  {
    hide FileOf, LocalPath, Plain, Consistent, Step;
    var s' := Step(hash, s, e).state;
    StoredState(hash, s, e);
    OtherPaths(hash, s, e.op.id);
    forall id | id in s.index && id != e.op.id ensures View(s')[id] == View(s)[id] {}
  }

  /** What a successful store changes. */
  lemma StoredState(hash: HashFn, s: Storage, e: Event)
    requires e.op.Store? && Step(hash, s, e).reply.Stored?
    ensures var s' := Step(hash, s, e).state;
            && |e.op.id| >= 2 && s'.root == s.root
            && s'.files == s.files[FileOf(s.root, LocalPath(e.op.id)) := e.op.data]
            && s'.index.Keys == s.index.Keys + {e.op.id}
            && (forall id :: id in s.index && id != e.op.id ==> s'.index[id] == s.index[id])
            && s'.index[e.op.id].localPath == LocalPath(e.op.id)
            && s'.index[e.op.id].ownerId == e.op.owner && s'.index[e.op.id].expiresAt == e.op.expiresAt
  {
    hide FileOf, LocalPath, WrapAdd;
  }

  /** The file of one id is no other id's file. */
  lemma OtherPaths(hash: HashFn, s: Storage, id: string)
    requires Consistent(hash, s) && |id| >= 2 && Plain(id)
    ensures forall other :: other in s.index && other != id ==>
              FileOf(s.root, s.index[other].localPath) != FileOf(s.root, LocalPath(id))
  {
    hide FileOf, LocalPath, Plain;
    forall other | other in s.index && other != id
      ensures FileOf(s.root, s.index[other].localPath) != FileOf(s.root, LocalPath(id))
    {
      assert Filed(hash, s.root, s.files, other, s.index[other]);
      PathsDistinct(s.root, other, id);
    }
  }

  lemma DeletedState(s: Storage, id: string)
    requires id in s.index
    ensures var o := DeleteFragment(s, id, OK);
            && o.reply == Done && o.state.root == s.root && o.state.index == s.index - {id}
            && o.state.files == s.files - {FileOf(s.root, s.index[id].localPath)}
            && o.state.saved == Some(o.state.index)
  {
    hide FileOf;
  }

  lemma DeleteConsistent(hash: HashFn, s: Storage, id: string)
    requires Consistent(hash, s) && id in s.index
    ensures Consistent(hash, DeleteFragment(s, id, OK).state)
  {
    hide FileOf, LocalPath, Plain, DeleteFragment;
    DeletedState(s, id);
    assert Filed(hash, s.root, s.files, id, s.index[id]);
    OtherPaths(hash, s, id);
    var s' := DeleteFragment(s, id, OK).state;
    forall other | other in s'.index ensures Filed(hash, s'.root, s'.files, other, s'.index[other]) {
      assert Filed(hash, s.root, s.files, other, s.index[other]);
    }
  }

  lemma DeleteViewed(hash: HashFn, s: Storage, id: string)
    requires Consistent(hash, s) && id in s.index
    ensures View(DeleteFragment(s, id, OK).state) == View(s) - {id}
  {
    hide FileOf, LocalPath, Plain, DeleteFragment, Consistent;
    DeletedState(s, id);
    FiledHere(hash, s, id);
    OtherPaths(hash, s, id);
    var s' := DeleteFragment(s, id, OK).state;
    forall other | other in s'.index ensures View(s')[other] == View(s)[other] {}
  }

  lemma DeleteRefines(hash: HashFn, s: Storage, id: string)
    requires Consistent(hash, s)
    ensures var o := DeleteFragment(s, id, OK);
            Consistent(hash, o.state) && View(o.state) == View(s) - {id} && o.reply == Done
  {
    hide FileOf, Consistent;
    if id in s.index {
      DeleteConsistent(hash, s, id);
      DeleteViewed(hash, s, id);
    } else {
      assert View(s) - {id} == View(s);
    }
  }

  lemma FiledHere(hash: HashFn, s: Storage, id: string)
    requires Consistent(hash, s) && id in s.index
    ensures Filed(hash, s.root, s.files, id, s.index[id])
  {
    hide Filed;
  }

  lemma RetrieveRefines(hash: HashFn, s: Storage, e: Event)
    requires Consistent(hash, s) && e.op.Retrieve? && e.io(0) == OK
    ensures var o := Step(hash, s, e);
            Consistent(hash, o.state) && View(o.state) == LeaseStep(View(s), e, o.reply.Stored?) && LeaseReply(View(s), e, o.reply)
  {
    hide FileOf, LocalPath, DeleteFragment, Touched, Consistent;
    DeleteRefines(hash, s, e.op.id);
    if e.op.id in s.index {
      TouchRefines(hash, s, e.op.id, e.now);
    }
  }

  lemma TouchRefines(hash: HashFn, s: Storage, id: string, now: int)
    requires Consistent(hash, s) && id in s.index
    ensures Consistent(hash, Touched(s, id, now)) && View(Touched(s, id, now)) == View(s)
    ensures Touched(s, id, now).files == s.files && Filed(hash, s.root, s.files, id, s.index[id])
  {
    hide FileOf, LocalPath, Plain;
  }

  lemma ExtendRefines(hash: HashFn, s: Storage, e: Event)
    requires Consistent(hash, s) && e.op.Extend? && e.io(0) == OK
    ensures var o := Step(hash, s, e);
            Consistent(hash, o.state) && View(o.state) == LeaseStep(View(s), e, o.reply.Stored?) && LeaseReply(View(s), e, o.reply)
  {
    hide FileOf, LocalPath, Plain;
  }

  lemma ExtendOwnerRefines(hash: HashFn, s: Storage, e: Event)
    requires Consistent(hash, s) && e.op.ExtendOwner? && e.io(0) == OK
    ensures var o := Step(hash, s, e);
            Consistent(hash, o.state) && View(o.state) == LeaseStep(View(s), e, o.reply.Stored?) && LeaseReply(View(s), e, o.reply)
  {
    hide Filed, Consistent, FileOf, LocalPath;
    ExtendOwnerConsistent(hash, s, e);
    assert OwnedBy(s.index, e.op.owner) == set id | id in View(s) && View(s)[id].owner == e.op.owner;
  }

  lemma ExtendOwnerConsistent(hash: HashFn, s: Storage, e: Event)
    requires Consistent(hash, s) && e.op.ExtendOwner? && e.io(0) == OK
    ensures Consistent(hash, Step(hash, s, e).state)
  {
    hide FileOf, LocalPath, Plain, Extended, OwnedBy, Core;
    var s' := Step(hash, s, e).state;
    ExtendedFacts(s.index, e.op.owner, e.now + Extension(e.op.additionalDays));
    forall id | id in s'.index ensures Filed(hash, s'.root, s'.files, id, s'.index[id]) {
      assert Filed(hash, s.root, s.files, id, s.index[id]);
    }
  }

  lemma ExtendedFacts(index: Index, owner: string, expiresAt: int)
    ensures var after := Extended(index, owner, expiresAt);
            && after.Keys == index.Keys
            && (forall id :: id in index ==>
                  after[id] == if index[id].ownerId == owner then index[id].(expiresAt := expiresAt) else index[id])
            && (|OwnedBy(index, owner)| == 0 ==> after == index)
  {
    if |OwnedBy(index, owner)| == 0 {
      assert forall id :: id in index ==> id !in OwnedBy(index, owner);
    }
  }

  lemma {:induction false} DeleteAllRefines(hash: HashFn, s: Storage, ids: seq<string>, io: nat -> Io, i: nat)
    requires Consistent(hash, s) && forall j :: io(j) == OK
    ensures var o := DeleteAll(s, ids, io, i);
            Consistent(hash, o.state) && View(o.state) == View(s) - (set id | id in ids) && o.reply == Done
    decreases |ids|
  {
    hide Consistent, View, DeleteFragment;
    if ids == [] {
      assert View(s) - {} == View(s);
    } else {
      DeleteRefines(hash, s, ids[0]);
      var next := DeleteFragment(s, ids[0], io(i)).state;
      DeleteAllRefines(hash, next, ids[1..], io, i + 1);
      assert (set id | id in ids) == {ids[0]} + (set id | id in ids[1..]);
      assert View(s) - {ids[0]} - (set id | id in ids[1..]) == View(s) - (set id | id in ids);
    }
  }

  lemma {:induction false} EnumerationSize(ids: seq<string>, s: set<string>)
    requires Enumerates(ids, s)
    ensures |ids| == |s|
    decreases |ids|
  {
    if ids == [] {
      assert s == {};
    } else {
      var rest := set id | id in ids[1..];
      assert ids[0] !in ids[1..];
      assert s == {ids[0]} + rest;
      EnumerationSize(ids[1..], rest);
    }
  }

  lemma CleanupRefines(hash: HashFn, s: Storage, e: Event)
    requires Consistent(hash, s) && e.op.Cleanup? && Faultless(e) && Possible(s, e)
    ensures var o := Step(hash, s, e);
            Consistent(hash, o.state) && View(o.state) == LeaseStep(View(s), e, o.reply.Stored?) && LeaseReply(View(s), e, o.reply)
  {
    hide Consistent;
    DeleteAllRefines(hash, s, e.op.order, e.io, 0);
    EnumerationSize(e.op.order, ExpiredIds(s.index, e.now));
    assert ExpiredLeases(View(s), e.now) == ExpiredIds(s.index, e.now);
  }

  lemma RestartRefines(hash: HashFn, s: Storage, e: Event)
    requires Consistent(hash, s) && e.op.Restart? && e.io(0) == OK
    ensures var o := Step(hash, s, e);
            && Consistent(hash, o.state) && View(o.state) == View(s) && o.reply == Done
            && SameButStatistics(o.state.index, s.index)
            && o.state.files == s.files && o.state.saved == s.saved && o.state.maxBytes == e.op.maxBytes
  {
    hide FileOf, LocalPath, Plain;
    if s.saved.Some? {
      var index := s.saved.value;
      forall id | id in index ensures Filed(hash, s.root, s.files, id, index[id]) && LeaseOf(s, index[id]) == LeaseOf(s, s.index[id]) {
        assert Core(index[id]) == Core(s.index[id]);
      }
    }
  }

  /** Every operation does to the map of leases what it should, and replies accordingly. */
  lemma StepRefines(hash: HashFn, s: Storage, e: Event)
    requires Consistent(hash, s) && Faultless(e) && PlainStore(e) && Possible(s, e)
    ensures var o := Step(hash, s, e);
            Consistent(hash, o.state) && View(o.state) == LeaseStep(View(s), e, o.reply.Stored?) && LeaseReply(View(s), e, o.reply)
  {
    hide Consistent, View;
    match e.op
    case Store(_, _, _, _) => StoreRefines(hash, s, e);
    case Retrieve(_) => RetrieveRefines(hash, s, e);
    case Delete(id) => DeleteRefines(hash, s, id);
    case Extend(_, _) => ExtendRefines(hash, s, e);
    case ExtendOwner(_, _) => ExtendOwnerRefines(hash, s, e);
    case Cleanup(_) => CleanupRefines(hash, s, e);
    case Restart(_) => RestartRefines(hash, s, e);
  }

  // ---- Refinement over runs -----------------------------------------------------------------

  ghost predicate FaultlessRun(events: seq<Event>) {
    forall i :: 0 <= i < |events| ==> Faultless(events[i])
  }

  predicate PlainRun(events: seq<Event>) {
    forall i :: 0 <= i < |events| ==> PlainStore(events[i])
  }

  /** The simple map after a run, given the replies of the manager. */
  ghost function LeaseRun(hash: HashFn, s: Storage, m: Leases, events: seq<Event>): Leases
    decreases |events|
  {
    if events == [] then m
    else
      var o := Step(hash, s, events[0]);
      LeaseRun(hash, o.state, LeaseStep(m, events[0], o.reply.Stored?), events[1..])
  }

  /** The data of the last successful store under `id`, or `before` if there was none. */
  ghost function LastStored(hash: HashFn, s: Storage, events: seq<Event>, id: string, before: Option<Buffer>): Option<Buffer>
    decreases |events|
  {
    if events == [] then before
    else
      var e, o := events[0], Step(hash, s, events[0]);
      LastStored(hash, o.state, events[1..], id,
                 if e.op.Store? && e.op.id == id && o.reply.Stored? then Some(e.op.data) else before)
  }

  /**
   Over every run without failures and without slashes in ids, restarts included, the manager refines
   the simple map, and what is held under an id is what was last stored there.
   */
  lemma {:induction false} RunRefines(hash: HashFn, s: Storage, events: seq<Event>, id: string, before: Option<Buffer>)
    requires Consistent(hash, s) && FaultlessRun(events) && PlainRun(events) && PossibleRun(hash, s, events)
    requires id in View(s) ==> before == Some(View(s)[id].data)
    ensures var end := Run(hash, s, events);
            && Consistent(hash, end)
            && View(end) == LeaseRun(hash, s, View(s), events)
            && (id in View(end) ==> LastStored(hash, s, events, id, before) == Some(View(end)[id].data))
    decreases |events|
  {
    hide Consistent, View, Step, LeaseReply, Possible;
    if events != [] {
      var e, o := events[0], Step(hash, s, events[0]);
      StepRefines(hash, s, e);
      var next := if e.op.Store? && e.op.id == id && o.reply.Stored? then Some(e.op.data) else before;
      RunRefines(hash, o.state, events[1..], id, next);
    }
  }

  /** From an empty directory: an unexpired id that is held gives back the bytes last stored under it. */
  lemma RetrieveLastStored(hash: HashFn, root: Path, maxBytes: U64, events: seq<Event>, id: string, now: int)
    requires FaultlessRun(events) && PlainRun(events) && PossibleRun(hash, Fresh(root, maxBytes), events)
    ensures var s := Run(hash, Fresh(root, maxBytes), events);
            id in s.index && now <= s.index[id].expiresAt ==>
              LastStored(hash, Fresh(root, maxBytes), events, id, None).Some?
              && RetrieveFragment(hash, s, id, now, OK).reply
                 == Data(LastStored(hash, Fresh(root, maxBytes), events, id, None).value)
  {
    hide Run, LastStored, LeaseRun;
    RunRefines(hash, Fresh(root, maxBytes), events, id, None);
  }

  // ---- The simple map on its own ------------------------------------------------------------

  ghost function TotalBytes(m: Leases): nat
    decreases |m|
  {
    if m == map[] then 0
    else
      var id :| id in m;
      |m[id].data| + TotalBytes(m - {id})
  }

  lemma {:induction false} TotalRemove(m: Leases, id: string)
    requires id in m
    ensures TotalBytes(m) == |m[id].data| + TotalBytes(m - {id})
    decreases |m|
  {
    var picked :| picked in m && TotalBytes(m) == |m[picked].data| + TotalBytes(m - {picked});
    if picked != id {
      TotalRemove(m - {picked}, id);
      TotalRemove(m - {id}, picked);
      assert m - {picked} - {id} == m - {id} - {picked};
    }
  }

  lemma {:induction false} TotalIsSum(m: Leases, index: Index)
    requires m.Keys == index.Keys && forall id :: id in m ==> |m[id].data| == index[id].sizeBytes
    ensures TotalBytes(m) == SumSizes(index)
    decreases |m|
  {
    if m == map[] {
      assert index == map[];
    } else {
      var id :| id in m;
      TotalRemove(m, id);
      SumRemove(index, id);
      TotalIsSum(m - {id}, index - {id});
    }
  }

  lemma TotalOfView(hash: HashFn, s: Storage)
    requires Consistent(hash, s)
    ensures TotalBytes(View(s)) == SumSizes(s.index)
  {
    hide FileOf, LocalPath, Plain;
    forall id | id in s.index ensures |View(s)[id].data| == s.index[id].sizeBytes {
      assert Filed(hash, s.root, s.files, id, s.index[id]);
    }
    TotalIsSum(View(s), s.index);
  }

  /** A store takes place if its id can be cut and its bytes fit beside all the others. */
  ghost function MapStep(m: Leases, maxBytes: nat, e: Event): Leases {
    LeaseStep(m, e, e.op.Store? && |e.op.id| >= 2 && TotalBytes(m) + |e.op.data| <= maxBytes)
  }

  ghost function MapRun(m: Leases, maxBytes: U64, events: seq<Event>): Leases
    decreases |events|
  {
    if events == [] then m else MapRun(MapStep(m, maxBytes, events[0]), NextMax(events[0], maxBytes), events[1..])
  }

  /** No store is of an id that is held at that moment. */
  ghost predicate AnewRun(m: Leases, maxBytes: U64, events: seq<Event>)
    decreases |events|
  {
    events != [] ==>
      && (events[0].op.Store? ==> events[0].op.id !in m)
      && AnewRun(MapStep(m, maxBytes, events[0]), NextMax(events[0], maxBytes), events[1..])
  }

  lemma StepIsMapStep(hash: HashFn, s: Storage, e: Event)
    requires Consistent(hash, s) && Accounted(s) && Exact(s)
    requires Limited(e, LARGEST_SAFE_MAX) && Faultless(e) && PlainStore(e) && Possible(s, e) && (e.op.Store? ==> e.op.id !in View(s))
    ensures var end := Step(hash, s, e).state;
            && View(end) == MapStep(View(s), s.maxBytes, e)
            && Consistent(hash, end) && Accounted(end) && Exact(end) && end.maxBytes == NextMax(e, s.maxBytes)
  {
    hide Consistent, Accounted, Step, Possible, TotalBytes, SumSizes, Exact, LeaseReply, NextMax;
    StepRefines(hash, s, e);
    StepAccounted(hash, s, e);
    StepExact(hash, s, e);
    TotalOfView(hash, s);
    if e.op.Store? {
      StoreSucceedsExact(hash, s, e);
    }
  }

  /**
   As long as ids that are held are not stored again, the simple map decides by itself what happens,
   whether a store succeeds included.
   */
  lemma {:induction false} RunIsMapRun(hash: HashFn, s: Storage, events: seq<Event>)
    requires Consistent(hash, s) && Accounted(s) && Exact(s)
    requires LimitedRun(events, LARGEST_SAFE_MAX) && FaultlessRun(events) && PlainRun(events) && PossibleRun(hash, s, events)
    requires AnewRun(View(s), s.maxBytes, events)
    ensures View(Run(hash, s, events)) == MapRun(View(s), s.maxBytes, events)
    decreases |events|
  {
    hide Consistent, Accounted, Exact, View, Step, MapStep, Faultless, PlainStore, Possible, Limited, NextMax;
    if events != [] {
      StepIsMapStep(hash, s, events[0]);
      RunIsMapRun(hash, Step(hash, s, events[0]).state, events[1..]);
    }
  }

  // ---- Ids with slashes ---------------------------------------------------------------------

  /** Whatever its id, another store leaves the bytes of a fragment alone unless it writes others to the same file. */
  lemma StoreElsewhereExact(hash: HashFn, s: Storage, id: string, e: Event, now: int)
    requires Consistent(hash, s) && id in s.index && now <= s.index[id].expiresAt
    requires e.op.Store? && e.op.id != id && Step(hash, s, e).reply.Stored?
    ensures RetrieveFragment(hash, Step(hash, s, e).state, id, now, OK).reply == Data(View(s)[id].data) <==>
            FileOf(s.root, LocalPath(e.op.id)) != FileOf(s.root, LocalPath(id)) || e.op.data == View(s)[id].data
  {
    hide FileOf, LocalPath, Plain, Step;
    StoredState(hash, s, e);
    assert Filed(hash, s.root, s.files, id, s.index[id]);
  }

  /**
   Without the condition on ids runs fail for every fragment: a store under another id for the same
   file takes its bytes away.
   */
  lemma AliasTakesFile(hash: HashFn, s: Storage, id: string, e: Event, now: int)
    requires Consistent(hash, s) && id in s.index && now <= s.index[id].expiresAt
    requires e.op.Store? && |id| >= 2 && e.op.id == Alias(id)
    requires Step(hash, s, e).reply.Stored? && e.op.data != View(s)[id].data
    ensures RetrieveFragment(hash, Step(hash, s, e).state, id, now, OK).reply != Data(View(s)[id].data)
    ensures hash(e.op.data) != s.index[id].contentHash ==>
              RetrieveFragment(hash, Step(hash, s, e).state, id, now, OK).reply == Failed(IntegrityCheckFailed)
  {
    hide FileOf, LocalPath, Plain, Step, View;
    AliasNamesSameFile(s.root, id);
    StoreElsewhereExact(hash, s, id, e, now);
    StoredState(hash, s, e);
    assert Filed(hash, s.root, s.files, id, s.index[id]);
  }

  // ---- Extensions that shorten --------------------------------------------------------------

  /**
   An extension sets the expiry whatever it was before.  So it shortens a lease if and only if it
   sets an earlier expiry, and from then on the fragment is refused although its lease would go on.
   */
  lemma ExtensionExact(hash: HashFn, s: Storage, e: Event, id: string, now: int)
    requires Consistent(hash, s) && e.op.ExtendOwner? && id in s.index && s.index[id].ownerId == e.op.owner
    requires now <= s.index[id].expiresAt
    ensures var after := Step(hash, s, e).state;
            var expiry := e.now + 86400 * e.op.additionalDays;
            && id in after.index && after.index[id].expiresAt == expiry
            && RetrieveFragment(hash, after, id, now, OK).reply ==
               if now > expiry then Failed(FragmentExpired) else Data(View(s)[id].data)
  {
    hide FileOf, LocalPath, Plain, Extended, OwnedBy;
    ExtendedFacts(s.index, e.op.owner, e.now + Extension(e.op.additionalDays));
    assert Filed(hash, s.root, s.files, id, s.index[id]);
  }

  // ---- Lease safety -------------------------------------------------------------------------

  ghost predicate Placed(index: Index) {
    forall id :: id in index ==> |id| >= 2 && Plain(id) && index[id].localPath == LocalPath(id)
  }

  /** What holds in every run without slashes in ids, whatever fails. */
  ghost predicate Sound(s: Storage) {
    Placed(s.index) && (s.saved.Some? ==> Placed(s.saved.value))
  }

  /** The index lists everything in `held` under its owner, not to expire before `deadline`. */
  ghost predicate Holds(hash: HashFn, index: Index, owner: string, deadline: int, held: map<string, Buffer>) {
    forall id :: id in held ==>
      && id in index
      && index[id].ownerId == owner
      && index[id].expiresAt >= deadline
      && index[id].contentHash == hash(held[id])
  }

  /** Everything in `held` is in the saved index and on disk. */
  ghost predicate Backed(hash: HashFn, s: Storage, owner: string, deadline: int, held: map<string, Buffer>) {
    && (s.saved.Some? ==> Placed(s.saved.value))
    && (held != map[] ==> s.saved.Some? && Holds(hash, s.saved.value, owner, deadline, held))
    && (forall id :: id in held ==>
          |id| >= 2 && FileOf(s.root, LocalPath(id)) in s.files && s.files[FileOf(s.root, LocalPath(id))] == held[id])
  }

  /** Everything in `held` is in the index, in the saved index and on disk. */
  ghost predicate Kept(hash: HashFn, s: Storage, owner: string, deadline: int, held: map<string, Buffer>) {
    && Sound(s)
    && Holds(hash, s.index, owner, deadline, held)
    && Backed(hash, s, owner, deadline, held)
  }

  /** After a restart that failed the index is empty, but everything in `held` can still be loaded. */
  ghost predicate Loadable(hash: HashFn, s: Storage, owner: string, deadline: int, held: map<string, Buffer>) {
    s.index == map[] && Backed(hash, s, owner, deadline, held)
  }

  predicate Heartbeat(e: Event, owner: string) { e.op.ExtendOwner? && e.op.owner == owner }

  /**
   The time until which the latest heartbeats protect their owner's fragments.  A heartbeat whose
   index cannot be written may not survive a restart, so the earlier deadline counts as well.
   */
  function NextDeadline(e: Event, owner: string, deadline: int): int {
    if !Heartbeat(e, owner) then deadline
    else
      var next := e.now + 86400 * e.op.additionalDays;
      if e.io(0).saveIndexOk then next else Min(deadline, next)
  }

  /**
   No explicit delete, overwrite or shortening of what is held, and no slash in an id.  Any file
   system call may fail.
   */
  ghost predicate Respects(e: Event, deadline: int, held: map<string, Buffer>) {
    && PlainStore(e)
    && (e.op.Store? ==> e.op.id !in held)
    && (e.op.Delete? ==> e.op.id !in held)
    && (e.op.Extend? && e.op.id in held ==> e.op.newExpiresAt >= deadline)
  }

  // ---- One index at a time ------------------------------------------------------------------

  lemma PlacedWith(index: Index, id: string, f: StoredFragment)
    requires Placed(index) && |id| >= 2 && Plain(id) && f.localPath == LocalPath(id)
    ensures Placed(index[id := f])
  {
    hide LocalPath, Plain;
  }

  lemma PlacedWithout(index: Index, id: string)
    requires Placed(index)
    ensures Placed(index - {id})
  {
    hide LocalPath, Plain;
  }

  lemma PlacedAt(index: Index, id: string)
    requires Placed(index) && id in index
    ensures |id| >= 2 && Plain(id) && index[id].localPath == LocalPath(id)
  {}

  lemma PlacedExtended(index: Index, owner: string, expiresAt: int)
    requires Placed(index)
    ensures Placed(Extended(index, owner, expiresAt))
  {
    hide LocalPath, Plain;
  }

  lemma NothingPlaced()
    ensures Placed(map[])
  {}

  lemma HoldsWith(hash: HashFn, index: Index, owner: string, deadline: int, held: map<string, Buffer>, id: string, f: StoredFragment)
    requires Holds(hash, index, owner, deadline, held)
    requires id in held ==> f.ownerId == owner && f.expiresAt >= deadline && f.contentHash == hash(held[id])
    ensures Holds(hash, index[id := f], owner, deadline, held)
  {}

  lemma HoldsWithout(hash: HashFn, index: Index, owner: string, deadline: int, held: map<string, Buffer>, id: string)
    requires Holds(hash, index, owner, deadline, held) && id !in held
    ensures Holds(hash, index - {id}, owner, deadline, held)
  {}

  lemma HoldsAt(hash: HashFn, index: Index, owner: string, deadline: int, held: map<string, Buffer>, id: string)
    requires Holds(hash, index, owner, deadline, held) && id in held
    ensures id in index && index[id].ownerId == owner && index[id].expiresAt >= deadline && index[id].contentHash == hash(held[id])
  {}

  lemma HoldsExtended(hash: HashFn, index: Index, owner: string, deadline: int, held: map<string, Buffer>, e: Event)
    requires Holds(hash, index, owner, deadline, held) && e.op.ExtendOwner?
    ensures !e.io(0).saveIndexOk ==> Holds(hash, index, owner, NextDeadline(e, owner, deadline), held)
    ensures Holds(hash, Extended(index, e.op.owner, e.now + Extension(e.op.additionalDays)), owner,
                  NextDeadline(e, owner, deadline), held)
    ensures OwnedBy(index, e.op.owner) == {} && held != map[] ==> NextDeadline(e, owner, deadline) == deadline
  {
    if OwnedBy(index, e.op.owner) == {} && held != map[] {
      var id :| id in held;
      assert id !in OwnedBy(index, e.op.owner);
    }
  }

  /** The file of one id is the file of nothing else that is held. */
  lemma OtherFiles(hash: HashFn, s: Storage, owner: string, deadline: int, held: map<string, Buffer>, id: string)
    requires Placed(s.index) && Holds(hash, s.index, owner, deadline, held)
    requires |id| >= 2 && Plain(id)
    ensures forall other :: other in held && other != id ==>
              |other| >= 2 && FileOf(s.root, LocalPath(other)) != FileOf(s.root, LocalPath(id))
  {
    hide FileOf, LocalPath, Plain, Placed, Holds;
    forall other | other in held && other != id
      ensures |other| >= 2 && FileOf(s.root, LocalPath(other)) != FileOf(s.root, LocalPath(id))
    {
      HoldsAt(hash, s.index, owner, deadline, held, other);
      PlacedAt(s.index, other);
      PathsDistinct(s.root, other, id);
    }
  }

  // ---- One operation at a time --------------------------------------------------------------

  lemma DeleteKeeps(hash: HashFn, s: Storage, owner: string, deadline: int, held: map<string, Buffer>, id: string, io: Io)
    requires Kept(hash, s, owner, deadline, held) && id !in held
    ensures Kept(hash, DeleteFragment(s, id, io).state, owner, deadline, held)
  {
    hide FileOf, LocalPath, Plain, SaturatingSub, Placed, Holds;
    if id in s.index {
      PlacedAt(s.index, id);
      OtherFiles(hash, s, owner, deadline, held, id);
      PlacedWithout(s.index, id);
      HoldsWithout(hash, s.index, owner, deadline, held, id);
    }
  }

  lemma {:induction false} DeleteAllKeeps(hash: HashFn, s: Storage, owner: string, deadline: int, held: map<string, Buffer>,
                                          ids: seq<string>, io: nat -> Io, i: nat)
    requires Kept(hash, s, owner, deadline, held)
    requires forall k :: 0 <= k < |ids| ==> ids[k] !in held
    ensures Kept(hash, DeleteAll(s, ids, io, i).state, owner, deadline, held)
    decreases |ids|
  {
    hide Kept, DeleteFragment;
    if ids != [] {
      DeleteKeeps(hash, s, owner, deadline, held, ids[0], io(i));
      DeleteAllKeeps(hash, DeleteFragment(s, ids[0], io(i)).state, owner, deadline, held, ids[1..], io, i + 1);
    }
  }

  lemma StoreKeeps(hash: HashFn, s: Storage, owner: string, deadline: int, held: map<string, Buffer>, e: Event)
    requires Kept(hash, s, owner, deadline, held) && e.op.Store? && Respects(e, deadline, held)
    ensures Kept(hash, Step(hash, s, e).state, owner, deadline, held)
  {
    hide FileOf, LocalPath, Plain, WrapAdd, Placed, Holds;
    var id := e.op.id;
    if |id| >= 2 {
      var f := StoredFragment(id, e.op.owner, |e.op.data|, hash(e.op.data), e.now, e.op.expiresAt, LocalPath(id), 0, e.now);
      OtherFiles(hash, s, owner, deadline, held, id);
      PlacedWith(s.index, id, f);
      HoldsWith(hash, s.index, owner, deadline, held, id, f);
    }
  }

  lemma RetrieveKeeps(hash: HashFn, s: Storage, owner: string, deadline: int, held: map<string, Buffer>, e: Event)
    requires Kept(hash, s, owner, deadline, held) && e.op.Retrieve? && Respects(e, deadline, held) && e.now <= deadline
    ensures Kept(hash, Step(hash, s, e).state, owner, deadline, held)
  {
    hide Kept, DeleteFragment;
    var id := e.op.id;
    if id in s.index && e.now > s.index[id].expiresAt {
      HeldUnexpired(hash, s, owner, deadline, held, id);
      DeleteKeeps(hash, s, owner, deadline, held, id, e.io(0));
    } else if id in s.index {
      TouchKeeps(hash, s, owner, deadline, held, id, e.now);
    }
  }

  lemma HeldUnexpired(hash: HashFn, s: Storage, owner: string, deadline: int, held: map<string, Buffer>, id: string)
    requires Kept(hash, s, owner, deadline, held)
    ensures id in held ==> id in s.index && s.index[id].expiresAt >= deadline
  {}

  lemma TouchKeeps(hash: HashFn, s: Storage, owner: string, deadline: int, held: map<string, Buffer>, id: string, now: int)
    requires Kept(hash, s, owner, deadline, held) && id in s.index
    ensures Kept(hash, Touched(s, id, now), owner, deadline, held)
  {
    hide FileOf, LocalPath, Plain, Placed, Holds;
    UpdateKeeps(hash, s, owner, deadline, held, id, Touched(s, id, now).index[id]);
  }

  /** Updating one entry keeps what is held, as long as it keeps its owner, its hash and its deadline. */
  lemma UpdateKeeps(hash: HashFn, s: Storage, owner: string, deadline: int, held: map<string, Buffer>, id: string, f: StoredFragment)
    requires Kept(hash, s, owner, deadline, held) && id in s.index
    requires f.ownerId == s.index[id].ownerId && f.contentHash == s.index[id].contentHash && f.localPath == s.index[id].localPath
    requires id in held && s.index[id].expiresAt >= deadline ==> f.expiresAt >= deadline
    ensures Placed(s.index[id := f]) && Holds(hash, s.index[id := f], owner, deadline, held)
  {
    hide FileOf, LocalPath, Plain, Placed, Holds;
    PlacedAt(s.index, id);
    PlacedWith(s.index, id, f);
    if id in held {
      HoldsAt(hash, s.index, owner, deadline, held, id);
    }
    HoldsWith(hash, s.index, owner, deadline, held, id, f);
  }

  lemma CleanupKeeps(hash: HashFn, s: Storage, owner: string, deadline: int, held: map<string, Buffer>, e: Event)
    requires Kept(hash, s, owner, deadline, held) && e.op.Cleanup? && Respects(e, deadline, held) && e.now <= deadline
    requires Possible(s, e)
    ensures Kept(hash, Step(hash, s, e).state, owner, deadline, held)
  {
    hide Kept, DeleteAll;
    forall k | 0 <= k < |e.op.order| ensures e.op.order[k] !in held {
      assert e.op.order[k] in ExpiredIds(s.index, e.now);
      HeldUnexpired(hash, s, owner, deadline, held, e.op.order[k]);
    }
    DeleteAllKeeps(hash, s, owner, deadline, held, e.op.order, e.io, 0);
  }

  lemma ExtendKeeps(hash: HashFn, s: Storage, owner: string, deadline: int, held: map<string, Buffer>, e: Event)
    requires Kept(hash, s, owner, deadline, held) && e.op.Extend? && Respects(e, deadline, held)
    ensures Kept(hash, Step(hash, s, e).state, owner, deadline, held)
  {
    hide FileOf, LocalPath, Plain, Placed, Holds;
    var id := e.op.id;
    if id in s.index {
      UpdateKeeps(hash, s, owner, deadline, held, id, s.index[id].(expiresAt := e.op.newExpiresAt));
    }
  }

  lemma ExtendOwnerKeeps(hash: HashFn, s: Storage, owner: string, deadline: int, held: map<string, Buffer>, e: Event)
    requires Kept(hash, s, owner, deadline, held) && e.op.ExtendOwner? && Respects(e, deadline, held)
    ensures Kept(hash, Step(hash, s, e).state, owner, NextDeadline(e, owner, deadline), held)
  {
    hide FileOf, LocalPath, Plain, Extended, Holds, Placed, NextDeadline;
    HoldsExtended(hash, s.index, owner, deadline, held, e);
    PlacedExtended(s.index, e.op.owner, e.now + Extension(e.op.additionalDays));
    if !e.io(0).saveIndexOk && held != map[] {
      HoldsExtended(hash, s.saved.value, owner, deadline, held, e);
    }
  }

  /** Does the index get loaded? */
  predicate Loads(e: Event) { e.op.Restart? && e.io(0).createDirOk && e.io(0).readOk }

  /** At any time up to the deadline, no operation that respects what is held removes any of it. */
  lemma StepKeeps(hash: HashFn, s: Storage, owner: string, deadline: int, held: map<string, Buffer>, e: Event)
    requires Kept(hash, s, owner, deadline, held) && Respects(e, deadline, held) && e.now <= deadline && Possible(s, e)
    requires !e.op.Restart?
    ensures Kept(hash, Step(hash, s, e).state, owner, NextDeadline(e, owner, deadline), held)
  {
    hide FileOf, LocalPath, Plain, Kept;
    match e.op
    case Store(_, _, _, _) => StoreKeeps(hash, s, owner, deadline, held, e);
    case Retrieve(_) => RetrieveKeeps(hash, s, owner, deadline, held, e);
    case Delete(id) => DeleteKeeps(hash, s, owner, deadline, held, id, e.io(0));
    case Extend(_, _) => ExtendKeeps(hash, s, owner, deadline, held, e);
    case ExtendOwner(_, _) => ExtendOwnerKeeps(hash, s, owner, deadline, held, e);
    case Cleanup(_) => CleanupKeeps(hash, s, owner, deadline, held, e);
  }

  /** A restart either loads the saved index or leaves everything as it was on disk. */
  lemma RestartKeeps(hash: HashFn, s: Storage, owner: string, deadline: int, held: map<string, Buffer>, e: Event)
    requires Backed(hash, s, owner, deadline, held) && e.op.Restart?
    ensures var end := Step(hash, s, e).state;
            if Loads(e) then Kept(hash, end, owner, deadline, held) else Loadable(hash, end, owner, deadline, held)
  {
    hide FileOf, LocalPath, Plain, Placed, SumSizes;
    NothingPlaced();
  }

  /** With an empty index nothing but a store and a restart has any effect. */
  lemma LoadableKeeps(hash: HashFn, s: Storage, owner: string, deadline: int, held: map<string, Buffer>, e: Event)
    requires Loadable(hash, s, owner, deadline, held) && Possible(s, e) && !e.op.Store? && !e.op.Restart?
    ensures Step(hash, s, e).state == s
  {
    hide FileOf, LocalPath, Backed;
    if e.op.ExtendOwner? {
      assert OwnedBy(s.index, e.op.owner) == {};
      assert Extended(s.index, e.op.owner, e.now + Extension(e.op.additionalDays)) == map[];
    } else if e.op.Cleanup? {
      NothingToDelete(s, e);
    }
  }

  lemma NothingToDelete(s: Storage, e: Event)
    requires s.index == map[] && e.op.Cleanup? && Possible(s, e)
    ensures e.op.order == []
  {
    EnumerationSize(e.op.order, ExpiredIds(s.index, e.now));
    assert ExpiredIds(s.index, e.now) == {};
  }

  // ---- Watching a run -----------------------------------------------------------------------

  /** Until when the owner's fragments are protected, and whether the index is loaded. */
  datatype Watch = Watch(deadline: int, loaded: bool)

  /** Heartbeats count only while the index is loaded. */
  function NextWatch(e: Event, owner: string, w: Watch): Watch {
    if e.op.Restart? then w.(loaded := Loads(e))
    else if w.loaded then w.(deadline := NextDeadline(e, owner, w.deadline))
    else w
  }

  /** After a restart that failed nothing is stored before one that succeeds. */
  ghost predicate RespectsWatch(e: Event, w: Watch, held: map<string, Buffer>) {
    Respects(e, w.deadline, held) && (e.op.Store? ==> w.loaded)
  }

  ghost predicate Watched(hash: HashFn, s: Storage, owner: string, w: Watch, held: map<string, Buffer>) {
    if w.loaded then Kept(hash, s, owner, w.deadline, held) else Loadable(hash, s, owner, w.deadline, held)
  }

  lemma StepWatched(hash: HashFn, s: Storage, owner: string, w: Watch, held: map<string, Buffer>, e: Event)
    requires Watched(hash, s, owner, w, held) && RespectsWatch(e, w, held) && e.now <= w.deadline && Possible(s, e)
    ensures Watched(hash, Step(hash, s, e).state, owner, NextWatch(e, owner, w), held)
  {
    hide Step, Backed, Sound, Holds, Respects, Possible, NextDeadline;
    if e.op.Restart? {
      RestartKeeps(hash, s, owner, w.deadline, held, e);
    } else if w.loaded {
      StepKeeps(hash, s, owner, w.deadline, held, e);
    } else {
      LoadableKeeps(hash, s, owner, w.deadline, held, e);
    }
  }

  ghost predicate Nondecreasing(events: seq<Event>) {
    forall i, j :: 0 <= i < j < |events| ==> events[i].now <= events[j].now
  }

  /** Every heartbeat that counts comes before the deadline set by the one before it, and so does the last event. */
  ghost predicate OnTime(events: seq<Event>, owner: string, w: Watch)
    decreases |events|
  {
    events != [] ==>
      && ((w.loaded && Heartbeat(events[0], owner)) || |events| == 1 ==> events[0].now <= w.deadline)
      && OnTime(events[1..], owner, NextWatch(events[0], owner, w))
  }

  lemma {:induction false} FirstInTime(events: seq<Event>, owner: string, w: Watch)
    requires events != [] && Nondecreasing(events) && OnTime(events, owner, w)
    ensures events[0].now <= w.deadline
    decreases |events|
  {
    if !(w.loaded && Heartbeat(events[0], owner)) && |events| > 1 {
      FirstInTime(events[1..], owner, NextWatch(events[0], owner, w));
      assert events[0].now <= events[1].now;
    }
  }

  ghost predicate RespectsThroughout(events: seq<Event>, owner: string, w: Watch, held: map<string, Buffer>)
    decreases |events|
  {
    events != [] ==>
      && RespectsWatch(events[0], w, held)
      && RespectsThroughout(events[1..], owner, NextWatch(events[0], owner, w), held)
  }

  function LastWatch(events: seq<Event>, owner: string, w: Watch): Watch
    decreases |events|
  {
    if events == [] then w else LastWatch(events[1..], owner, NextWatch(events[0], owner, w))
  }

  lemma {:induction false} RunKeeps(hash: HashFn, s: Storage, owner: string, w: Watch, held: map<string, Buffer>,
                                    events: seq<Event>)
    requires Watched(hash, s, owner, w, held) && PossibleRun(hash, s, events)
    requires Nondecreasing(events) && OnTime(events, owner, w)
    requires RespectsThroughout(events, owner, w, held)
    ensures Watched(hash, Run(hash, s, events), owner, LastWatch(events, owner, w), held)
    decreases |events|
  {
    hide Watched, Step, RespectsWatch, Possible;
    if events != [] {
      FirstInTime(events, owner, w);
      StepWatched(hash, s, owner, w, held, events[0]);
      RunKeeps(hash, Step(hash, s, events[0]).state, owner, NextWatch(events[0], owner, w), held, events[1..]);
    }
  }

  /** The fragments of an owner whose files are there and unchanged. */
  function HeldBy(hash: HashFn, s: Storage, owner: string): map<string, Buffer> {
    map id | id in s.index && s.index[id].ownerId == owner && Intact(hash, s, s.index[id]) ::
      s.files[FileOf(s.root, s.index[id].localPath)]
  }

  predicate Intact(hash: HashFn, s: Storage, f: StoredFragment) {
    var file := FileOf(s.root, f.localPath);
    file in s.files && hash(s.files[file]) == f.contentHash
  }

  /**
   From a heartbeat on, as long as the owner's heartbeats come no further apart than the extension
   each of them sets, every fragment the owner had keeps its bytes and can be retrieved, whatever
   cleanups, retrievals, restarts and operations of others take place in between and whatever of
   their file system calls fails.  When a restart has failed, nothing may be stored until one
   succeeds.
   */
  lemma LeaseSafety(hash: HashFn, s: Storage, owner: string, beat: Event, events: seq<Event>, id: string, now: int, io: Io)
    requires Sound(s) && Heartbeat(beat, owner) && beat.io(0).saveIndexOk
    requires var w := Watch(NextDeadline(beat, owner, 0), true);
             && PossibleRun(hash, Step(hash, s, beat).state, events)
             && Nondecreasing(events) && OnTime(events, owner, w)
             && RespectsThroughout(events, owner, w, HeldBy(hash, s, owner))
             && LastWatch(events, owner, w).loaded && now <= LastWatch(events, owner, w).deadline
    requires id in HeldBy(hash, s, owner) && io.readOk
    ensures var end := Run(hash, Step(hash, s, beat).state, events);
            && id in end.index && end.index[id].ownerId == owner
            && RetrieveFragment(hash, end, id, now, io).reply == Data(HeldBy(hash, s, owner)[id])
  {
    hide Run, RespectsThroughout, OnTime, LastWatch, Nondecreasing, HeldBy, FileOf, LocalPath;
    HeartbeatKeeps(hash, s, owner, beat);
    RunKeeps(hash, Step(hash, s, beat).state, owner, Watch(NextDeadline(beat, owner, 0), true), HeldBy(hash, s, owner), events);
  }

  lemma HeartbeatKeeps(hash: HashFn, s: Storage, owner: string, beat: Event)
    requires Sound(s) && Heartbeat(beat, owner) && beat.io(0).saveIndexOk
    ensures Kept(hash, Step(hash, s, beat).state, owner, NextDeadline(beat, owner, 0), HeldBy(hash, s, owner))
  {
    hide FileOf, LocalPath, Plain, Extended, Placed, Holds;
    var held, deadline := HeldBy(hash, s, owner), NextDeadline(beat, owner, 0);
    PlacedExtended(s.index, owner, deadline);
    assert Holds(hash, Extended(s.index, owner, deadline), owner, deadline, held) by { HoldsHeld(hash, s, owner, deadline); }
    assert held.Keys <= OwnedBy(s.index, owner);
    forall id | id in held ensures |id| >= 2 && s.index[id].localPath == LocalPath(id) {
      PlacedAt(s.index, id);
    }
  }

  lemma HoldsHeld(hash: HashFn, s: Storage, owner: string, deadline: int)
    ensures Holds(hash, Extended(s.index, owner, deadline), owner, deadline, HeldBy(hash, s, owner))
  {
    hide FileOf;
  }

  // ---- Sound states -------------------------------------------------------------------------

  lemma DeleteSound(s: Storage, id: string, io: Io)
    requires Sound(s)
    ensures Sound(DeleteFragment(s, id, io).state)
  {
    hide Placed, FileOf;
    PlacedWithout(s.index, id);
  }

  lemma {:induction false} DeleteAllSound(s: Storage, ids: seq<string>, io: nat -> Io, i: nat)
    requires Sound(s)
    ensures Sound(DeleteAll(s, ids, io, i).state)
    decreases |ids|
  {
    hide Sound, DeleteFragment;
    if ids != [] {
      DeleteSound(s, ids[0], io(i));
      DeleteAllSound(DeleteFragment(s, ids[0], io(i)).state, ids[1..], io, i + 1);
    }
  }

  lemma StepSound(hash: HashFn, s: Storage, e: Event)
    requires Sound(s) && PlainStore(e)
    ensures Sound(Step(hash, s, e).state)
  {
    hide Placed, FileOf, LocalPath, Plain, DeleteFragment, DeleteAll, Extended;
    match e.op
    case Store(id, _, _, _) =>
      if |id| >= 2 {
        var size: U64 := |e.op.data|;
        PlacedWith(s.index, id, StoredFragment(id, e.op.owner, size, hash(e.op.data), e.now, e.op.expiresAt, LocalPath(id), 0, e.now));
      }
    case Retrieve(id) =>
      DeleteSound(s, id, e.io(0));
      if id in s.index {
        PlacedAt(s.index, id);
        PlacedWith(s.index, id, Touched(s, id, e.now).index[id]);
      }
    case Delete(id) => DeleteSound(s, id, e.io(0));
    case Extend(id, newExpiresAt) =>
      if id in s.index {
        PlacedAt(s.index, id);
        PlacedWith(s.index, id, s.index[id].(expiresAt := newExpiresAt));
      }
    case ExtendOwner(owner, days) => PlacedExtended(s.index, owner, e.now + Extension(days));
    case Cleanup(order) => DeleteAllSound(s, order, e.io, 0);
    case Restart(_) => assert Placed(map[]) by { NothingPlaced(); }
  }

  /** Every run from an empty directory, whatever fails in it, reaches only sound states. */
  lemma {:induction false} RunSound(hash: HashFn, s: Storage, events: seq<Event>)
    requires Sound(s) && PlainRun(events)
    ensures Sound(Run(hash, s, events))
    decreases |events|
  {
    hide Sound, Step, PlainStore;
    if events != [] {
      StepSound(hash, s, events[0]);
      RunSound(hash, Step(hash, s, events[0]).state, events[1..]);
    }
  }
}
