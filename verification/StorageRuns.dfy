/** What holds over whole runs of the storage manager, restarts included. */
module StorageRuns {
  import opened Basics
  import opened FragmentStore

  datatype Operation =
    | Store(id: string, owner: string, data: Buffer, expiresAt: int)
    | Retrieve(id: string)
    | Delete(id: string)
    | Extend(id: string, newExpiresAt: int)
    | ExtendOwner(owner: string, additionalDays: nat)
    | Cleanup(order: seq<string>)
    | Restart(maxBytes: U64)

  /** An operation, the clock when it runs, and the fate of its file system calls. */
  datatype Event = Event(now: int, op: Operation, io: nat -> Io)

  ghost function Step(hash: HashFn, s: Storage, e: Event): Outcome {
    match e.op
    case Store(id, owner, data, expiresAt) => StoreFragment(hash, s, id, owner, data, expiresAt, e.now, e.io(0))
    case Retrieve(id) => RetrieveFragment(hash, s, id, e.now, e.io(0))
    case Delete(id) => DeleteFragment(s, id, e.io(0))
    case Extend(id, newExpiresAt) => ExtendFragment(s, id, newExpiresAt, e.io(0))
    case ExtendOwner(owner, additionalDays) => ExtendOwnerFragments(s, owner, additionalDays, e.now, e.io(0))
    case Cleanup(order) => CleanupExpired(s, order, e.io)
    case Restart(maxBytes) => Initialize(New(s.root, maxBytes, s.files, s.saved), e.io(0))
  }

  /** A cleanup visits the ids that are expired at that moment, each once. */
  ghost predicate Possible(s: Storage, e: Event) {
    e.op.Cleanup? ==> Enumerates(e.op.order, ExpiredIds(s.index, e.now))
  }

  ghost function Run(hash: HashFn, s: Storage, events: seq<Event>): Storage
    decreases |events|
  {
    if events == [] then s else Run(hash, Step(hash, s, events[0]).state, events[1..])
  }

  ghost predicate PossibleRun(hash: HashFn, s: Storage, events: seq<Event>)
    decreases |events|
  {
    events != [] ==> Possible(s, events[0]) && PossibleRun(hash, Step(hash, s, events[0]).state, events[1..])
  }

  /** A manager on an empty directory. */
  function Fresh(root: Path, maxBytes: U64): Storage { New(root, maxBytes, map[], None) }

  // ---- Accounting ---------------------------------------------------------------------------

  /** With this much room at most, adding a slice to the counter cannot wrap around. */
  const LARGEST_SAFE_MAX: nat := 0x8000_0000_0000_0000

  /** The sizes in the index add up to at most the counter, and no sum can wrap around. */
  ghost predicate Accounted(s: Storage) {
    && SumSizes(s.index) <= s.usedBytes <= LARGEST_SAFE_MAX
    && s.maxBytes <= LARGEST_SAFE_MAX
    && (s.saved.Some? ==> SumSizes(s.saved.value) <= LARGEST_SAFE_MAX)
  }

  /** A restart may change the space on offer. */
  predicate Limited(e: Event, limit: nat) { e.op.Restart? ==> e.op.maxBytes <= limit }

  predicate LimitedRun(events: seq<Event>, limit: nat) { forall i :: 0 <= i < |events| ==> Limited(events[i], limit) }

  function NextMax(e: Event, maxBytes: U64): U64 { if e.op.Restart? then e.op.maxBytes else maxBytes }

  lemma StoreAccounted(hash: HashFn, s: Storage, id: string, owner: string, data: Buffer, expiresAt: int, now: int, io: Io)
    requires Accounted(s)
    ensures Accounted(StoreFragment(hash, s, id, owner, data, expiresAt, now, io).state)
  {
    if |id| >= 2 {
      SumInsert(s.index, id, StoredFragment(id, owner, |data|, hash(data), now, expiresAt, LocalPath(id), 0, now));
      SumWithout(s.index, id);
    }
  }

  lemma DeleteAccounted(s: Storage, id: string, io: Io)
    requires Accounted(s)
    ensures Accounted(DeleteFragment(s, id, io).state)
    ensures id in s.index ==> s.index[id].sizeBytes <= s.usedBytes
  {
    if id in s.index {
      SumRemove(s.index, id);
    }
  }

  lemma {:induction false} DeleteAllAccounted(s: Storage, ids: seq<string>, io: nat -> Io, i: nat)
    requires Accounted(s)
    ensures Accounted(DeleteAll(s, ids, io, i).state)
    decreases |ids|
  {
    hide DeleteFragment, Accounted;
    if ids != [] {
      DeleteAccounted(s, ids[0], io(i));
      DeleteAllAccounted(DeleteFragment(s, ids[0], io(i)).state, ids[1..], io, i + 1);
    }
  }

  lemma RetrieveAccounted(hash: HashFn, s: Storage, id: string, now: int, io: Io)
    requires Accounted(s)
    ensures Accounted(RetrieveFragment(hash, s, id, now, io).state)
  {
    DeleteAccounted(s, id, io);
    if id in s.index {
      SumInsert(s.index, id, s.index[id].(accessCount := s.index[id].accessCount + 1, lastAccessed := now));
      SumRemove(s.index, id);
    }
  }

  lemma ExtendAccounted(s: Storage, id: string, newExpiresAt: int, io: Io)
    requires Accounted(s)
    ensures Accounted(ExtendFragment(s, id, newExpiresAt, io).state)
  {
    if id in s.index {
      SumInsert(s.index, id, s.index[id].(expiresAt := newExpiresAt));
      SumRemove(s.index, id);
    }
  }

  lemma ExtendOwnerAccounted(s: Storage, owner: string, days: nat, now: int, io: Io)
    requires Accounted(s)
    ensures Accounted(ExtendOwnerFragments(s, owner, days, now, io).state)
  {
    SumAgrees(s.index, Extended(s.index, owner, now + Extension(days)));
  }

  lemma RestartAccounted(s: Storage, maxBytes: U64, io: Io)
    requires Accounted(s) && maxBytes <= LARGEST_SAFE_MAX
    ensures Accounted(Initialize(New(s.root, maxBytes, s.files, s.saved), io).state)
  {
    assert SumSizes(map[]) == 0;
  }

  /** Every operation, whatever file system calls fail in it, keeps the accounts in order. */
  lemma StepAccounted(hash: HashFn, s: Storage, e: Event)
    requires Accounted(s) && Limited(e, LARGEST_SAFE_MAX)
    ensures Accounted(Step(hash, s, e).state) && Step(hash, s, e).state.maxBytes == NextMax(e, s.maxBytes)
  {
    hide Accounted, SumSizes, Extended;
    match e.op
    case Store(id, owner, data, expiresAt) => StoreAccounted(hash, s, id, owner, data, expiresAt, e.now, e.io(0));
    case Retrieve(id) => RetrieveAccounted(hash, s, id, e.now, e.io(0));
    case Delete(id) => DeleteAccounted(s, id, e.io(0));
    case Extend(id, newExpiresAt) => ExtendAccounted(s, id, newExpiresAt, e.io(0));
    case ExtendOwner(owner, days) => ExtendOwnerAccounted(s, owner, days, e.now, e.io(0));
    case Cleanup(order) =>
      DeleteAllAccounted(s, order, e.io, 0);
      DeleteAllKeepsMax(s, order, e.io, 0);
    case Restart(maxBytes) => RestartAccounted(s, maxBytes, e.io(0));
  }

  lemma {:induction false} DeleteAllKeepsMax(s: Storage, ids: seq<string>, io: nat -> Io, i: nat)
    ensures DeleteAll(s, ids, io, i).state.maxBytes == s.maxBytes
    decreases |ids|
  {
    if ids != [] {
      DeleteAllKeepsMax(DeleteFragment(s, ids[0], io(i)).state, ids[1..], io, i + 1);
    }
  }

  /**
   Over every run, with any failures and any restarts that offer up to 2^63 bytes: the sizes in the
   index add up to at most the counter.
   */
  lemma {:induction false} RunAccounted(hash: HashFn, s: Storage, events: seq<Event>)
    requires Accounted(s) && LimitedRun(events, LARGEST_SAFE_MAX)
    ensures Accounted(Run(hash, s, events))
    decreases |events|
  {
    hide Accounted, Step, Limited;
    if events != [] {
      StepAccounted(hash, s, events[0]);
      RunAccounted(hash, Step(hash, s, events[0]).state, events[1..]);
    }
  }

  function AllOk(): nat -> Io { _ => OK }

  /** Three stores that wrap the counter around when more space than `LARGEST_SAFE_MAX` is offered. */
  function WrappingRun(): seq<Event> {
    var big: Buffer := Zeros(0x7fff_ffff_ffff_ffff);
    [Event(0, Store("aa", "", big, 0), AllOk()),
     Event(0, Store("bb", "", Zeros(2), 0), AllOk()),
     Event(0, Store("cc", "", big, 0), AllOk())]
  }

  lemma WrappingRunBreaksAccounts(hash: HashFn, root: Path, maxBytes: U64)
    requires maxBytes > LARGEST_SAFE_MAX
    ensures LimitedRun(WrappingRun(), maxBytes)
    ensures var end := Run(hash, Fresh(root, maxBytes), WrappingRun());
            SumSizes(end.index) > end.usedBytes
  {
    var es := WrappingRun();
    var s0 := Fresh(root, maxBytes);
    var s1 := Step(hash, s0, es[0]).state;
    var s2 := Step(hash, s1, es[1]).state;
    var s3 := Step(hash, s2, es[2]).state;
    StoredAt(hash, s0, es[0]);
    StoredAt(hash, s1, es[1]);
    StoredAt(hash, s2, es[2]);
    assert Run(hash, s0, es) == s3 by {
      hide Step;
      assert es[1..][1..] == es[2..] && es[2..][1..] == [];
      assert Run(hash, s0, es) == Run(hash, s1, es[1..]);
      assert Run(hash, s1, es[1..]) == Run(hash, s2, es[2..]);
      assert Run(hash, s2, es[2..]) == Run(hash, s3, []);
    }
  }

  lemma StoredAt(hash: HashFn, s: Storage, e: Event)
    requires e.op.Store? && |e.op.id| >= 2 && e.io == AllOk() && e.op.id !in s.index
    requires WrapAdd(s.usedBytes, |e.op.data|) <= s.maxBytes
    ensures var s' := Step(hash, s, e).state;
            && SumSizes(s'.index) == |e.op.data| + SumSizes(s.index)
            && s'.usedBytes == WrapAdd(s.usedBytes, |e.op.data|)
            && s'.index.Keys == s.index.Keys + {e.op.id}
  {
    var f := Step(hash, s, e).state.index[e.op.id];
    SumInsert(s.index, e.op.id, f);
    assert s.index - {e.op.id} == s.index;
  }

  /** The counter covers the sizes over every run exactly when at most 2^63 bytes are ever on offer. */
  lemma AccountingExact(hash: HashFn, root: Path, maxBytes: U64)
    ensures (forall events | LimitedRun(events, maxBytes) ::
               var end := Run(hash, Fresh(root, maxBytes), events);
               SumSizes(end.index) <= end.usedBytes)
            <==> maxBytes <= LARGEST_SAFE_MAX
  {
    hide Run;
    if maxBytes <= LARGEST_SAFE_MAX {
      FreshAccounted(root, maxBytes);
      forall events | LimitedRun(events, maxBytes) ensures Accounted(Run(hash, Fresh(root, maxBytes), events)) {
        RunAccounted(hash, Fresh(root, maxBytes), events);
      }
    } else {
      WrappingRunBreaksAccounts(hash, root, maxBytes);
    }
  }

  lemma FreshAccounted(root: Path, maxBytes: U64)
    ensures maxBytes <= LARGEST_SAFE_MAX ==> Accounted(Fresh(root, maxBytes))
    ensures SumSizes(Fresh(root, maxBytes).index) == 0 && Within(Fresh(root, maxBytes))
  {}

  // ---- The space on offer -------------------------------------------------------------------

  ghost predicate Within(s: Storage) { s.usedBytes <= s.maxBytes }

  /** A restart that loads the saved index offers room for what the index lists. */
  ghost predicate Covers(s: Storage, e: Event) {
    e.op.Restart? && e.io(0).createDirOk && e.io(0).readOk && s.saved.Some? ==> SumSizes(s.saved.value) <= e.op.maxBytes
  }

  lemma DeleteWithin(s: Storage, id: string, io: Io)
    requires Within(s)
    ensures Within(DeleteFragment(s, id, io).state)
  {
    hide FileOf;
  }

  lemma {:induction false} DeleteAllWithin(s: Storage, ids: seq<string>, io: nat -> Io, i: nat)
    requires Within(s)
    ensures Within(DeleteAll(s, ids, io, i).state)
    decreases |ids|
  {
    hide DeleteFragment, Within;
    if ids != [] {
      DeleteWithin(s, ids[0], io(i));
      DeleteAllWithin(DeleteFragment(s, ids[0], io(i)).state, ids[1..], io, i + 1);
    }
  }

  /** From within the space on offer, a step leaves it if and only if it is a restart that offers too little. */
  lemma StepWithinExact(hash: HashFn, s: Storage, e: Event)
    requires Accounted(s) && Within(s)
    ensures Within(Step(hash, s, e).state) <==> Covers(s, e)
  {
    hide SumSizes, DeleteFragment, DeleteAll, Extended, FileOf, LocalPath;
    match e.op
    case Retrieve(id) => DeleteWithin(s, id, e.io(0));
    case Delete(id) => DeleteWithin(s, id, e.io(0));
    case Cleanup(order) => DeleteAllWithin(s, order, e.io, 0);
    case _ =>
  }

  ghost predicate AlwaysWithin(hash: HashFn, s: Storage, events: seq<Event>)
    decreases |events|
  {
    Within(s) && (events != [] ==> AlwaysWithin(hash, Step(hash, s, events[0]).state, events[1..]))
  }

  ghost predicate CoveringRun(hash: HashFn, s: Storage, events: seq<Event>)
    decreases |events|
  {
    events != [] ==> Covers(s, events[0]) && CoveringRun(hash, Step(hash, s, events[0]).state, events[1..])
  }

  /** The counter stays within the space on offer exactly as long as every restart covers what it loads. */
  lemma {:induction false} RunWithinExact(hash: HashFn, s: Storage, events: seq<Event>)
    requires Accounted(s) && Within(s) && LimitedRun(events, LARGEST_SAFE_MAX)
    ensures AlwaysWithin(hash, s, events) <==> CoveringRun(hash, s, events)
    ensures CoveringRun(hash, s, events) ==> Within(Run(hash, s, events))
    decreases |events|
  {
    hide Accounted, Within, Covers, Step, Limited;
    if events != [] {
      var next := Step(hash, s, events[0]).state;
      StepAccounted(hash, s, events[0]);
      StepWithinExact(hash, s, events[0]);
      if Within(next) {
        RunWithinExact(hash, next, events[1..]);
      } else {
        NeverWithin(hash, next, events[1..]);
      }
    }
  }

  lemma NeverWithin(hash: HashFn, s: Storage, events: seq<Event>)
    requires !Within(s)
    ensures !AlwaysWithin(hash, s, events)
  {}

  /** Less space is offered than a fragment takes, and nothing notices. */
  lemma LoweredLimitExceeded(hash: HashFn, root: Path, id: string, data: Buffer, maxBytes: U64, lowered: U64)
    requires |id| >= 2 && lowered < |data| <= maxBytes
    ensures var events := [Event(0, Store(id, "", data, 0), AllOk()), Event(0, Restart(lowered), AllOk())];
            var end := Run(hash, Fresh(root, maxBytes), events);
            end.usedBytes == SumSizes(end.index) == |data| > end.maxBytes == lowered
  {
    var e0, e1 := Event(0, Store(id, "", data, 0), AllOk()), Event(0, Restart(lowered), AllOk());
    var s0 := Fresh(root, maxBytes);
    var s1 := Step(hash, s0, e0).state;
    StoredAt(hash, s0, e0);
    var s2 := Step(hash, s1, e1).state;
    assert Run(hash, s0, [e0, e1]) == s2 by {
      hide Step;
      assert [e0, e1][1..] == [e1] && [e1][1..] == [];
      assert Run(hash, s0, [e0, e1]) == Run(hash, s1, [e1]);
      assert Run(hash, s1, [e1]) == Run(hash, s2, []);
    }
  }

  // ---- Exact accounting ---------------------------------------------------------------------

  ghost predicate Faultless(e: Event) {
    forall i :: e.io(i) == OK
  }

  ghost predicate StoresAnew(s: Storage, e: Event) {
    e.op.Store? ==> e.op.id !in s.index
  }

  ghost predicate Exact(s: Storage) { s.usedBytes == SumSizes(s.index) }

  lemma {:induction false} DeleteAllExact(s: Storage, ids: seq<string>, io: nat -> Io, i: nat)
    requires Exact(s) && forall j :: io(j) == OK
    ensures Exact(DeleteAll(s, ids, io, i).state)
    decreases |ids|
  {
    if ids != [] {
      if ids[0] in s.index {
        SumRemove(s.index, ids[0]);
      }
      DeleteAllExact(DeleteFragment(s, ids[0], io(i)).state, ids[1..], io, i + 1);
    }
  }

  /**
   Without failures the counter stays exactly the sum of the sizes, unless an id that is in the index
   is stored again; a restart makes it exact whatever it was before, if the saved sizes add up within
   64 bits.
   */
  lemma StepExact(hash: HashFn, s: Storage, e: Event)
    requires Faultless(e)
    requires (Accounted(s) && Exact(s) && StoresAnew(s, e))
             || (e.op.Restart? && (s.saved.Some? ==> SumSizes(s.saved.value) < U64_LIMIT))
    ensures Exact(Step(hash, s, e).state)
  {
    hide SumSizes, Extended, DeleteAll;
    match e.op
    case Store(id, owner, data, expiresAt) =>
      if |id| >= 2 {
        SumInsert(s.index, id, StoredFragment(id, owner, |data|, hash(data), e.now, expiresAt, LocalPath(id), 0, e.now));
        assert s.index - {id} == s.index;
      }
    case Retrieve(id) => RetrieveExact(hash, s, id, e.now, e.io(0));
    case Delete(id) => if id in s.index { SumRemove(s.index, id); }
    case Extend(id, newExpiresAt) =>
      if id in s.index {
        SumInsert(s.index, id, s.index[id].(expiresAt := newExpiresAt));
        SumRemove(s.index, id);
      }
    case ExtendOwner(owner, days) => SumAgreesExtended(s.index, owner, e.now + Extension(days));
    case Cleanup(order) => DeleteAllExact(s, order, e.io, 0);
    case Restart(maxBytes) => FreshAccounted(s.root, maxBytes);
  }

  /** While the counter is exact, a store succeeds if and only if its bytes fit beside the stored ones. */
  lemma StoreSucceedsExact(hash: HashFn, s: Storage, e: Event)
    requires Accounted(s) && Exact(s)
    requires e.op.Store? && Faultless(e)
    ensures Step(hash, s, e).reply.Stored? <==> |e.op.id| >= 2 && SumSizes(s.index) + |e.op.data| <= s.maxBytes
  {
    hide FileOf, LocalPath;
  }

  /** Storing an id that is in the index leaves its old size counted as well. */
  lemma RestoreCountsTwice(hash: HashFn, s: Storage, e: Event)
    requires Accounted(s) && Exact(s)
    requires e.op.Store? && e.op.id in s.index && Step(hash, s, e).reply.Stored?
    ensures Step(hash, s, e).state.usedBytes == SumSizes(Step(hash, s, e).state.index) + s.index[e.op.id].sizeBytes
  {
    SumInsert(s.index, e.op.id, Step(hash, s, e).state.index[e.op.id]);
    SumRemove(s.index, e.op.id);
  }

  lemma RetrieveExact(hash: HashFn, s: Storage, id: string, now: int, io: Io)
    requires Exact(s) && io == OK
    ensures Exact(RetrieveFragment(hash, s, id, now, io).state)
  {
    if id in s.index {
      SumInsert(s.index, id, s.index[id].(accessCount := s.index[id].accessCount + 1, lastAccessed := now));
      SumRemove(s.index, id);
    }
  }

  lemma SumAgreesExtended(index: Index, owner: string, expiresAt: int)
    ensures SumSizes(Extended(index, owner, expiresAt)) == SumSizes(index)
  {
    SumAgrees(index, Extended(index, owner, expiresAt));
  }

  ghost predicate StoresAnewThroughout(hash: HashFn, s: Storage, events: seq<Event>)
    decreases |events|
  {
    events != [] ==>
      StoresAnew(s, events[0]) && Faultless(events[0]) && StoresAnewThroughout(hash, Step(hash, s, events[0]).state, events[1..])
  }

  lemma {:induction false} RunExact(hash: HashFn, s: Storage, events: seq<Event>)
    requires Accounted(s) && Exact(s)
    requires StoresAnewThroughout(hash, s, events) && LimitedRun(events, LARGEST_SAFE_MAX)
    ensures Exact(Run(hash, s, events))
    decreases |events|
  {
    hide Accounted, Exact, Step, StoresAnew, Faultless, Limited;
    if events != [] {
      StepAccounted(hash, s, events[0]);
      StepExact(hash, s, events[0]);
      RunExact(hash, Step(hash, s, events[0]).state, events[1..]);
    }
  }
}
