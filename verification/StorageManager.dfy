/** The storage manager itself, which updates its fields and its disk in place (storage_protocol.rs). */
module StorageManager {
  import opened Basics
  import opened FragmentStore

  /** The storage directory: the fragment files and index.json. */
  class Disk {
    var files: map<Path, Buffer>
    var savedIndex: Option<Index>

    constructor ()
      ensures files == map[] && savedIndex == None
    {
      files := map[];
      savedIndex := None;
    }
  }

  class StorageManager {
    const hash: HashFn
    const disk: Disk
    const storagePath: Path
    const maxStorageBytes: U64
    var usedStorageBytes: U64
    var fragmentIndex: Index

    /** The manager and its disk as one value. */
    ghost function View(): Storage
      reads this, disk
    {
      Storage(storagePath, maxStorageBytes, usedStorageBytes, fragmentIndex, disk.files, disk.savedIndex)
    }

    constructor (hash: HashFn, disk: Disk, storagePath: Path, maxStorageBytes: U64)
      ensures this.hash == hash && this.disk == disk
      ensures View() == New(storagePath, maxStorageBytes, disk.files, disk.savedIndex)
    {
      this.hash := hash;
      this.disk := disk;
      this.storagePath := storagePath;
      this.maxStorageBytes := maxStorageBytes;
      usedStorageBytes := 0;
      fragmentIndex := map[];
    }

    method Initialize(io: Io) returns (reply: Reply)
      modifies this
      ensures Outcome(View(), reply) == FragmentStore.Initialize(old(View()), io)
    {
      if !io.createDirOk {
        return Failed(CreateDirFailed);
      }
      if disk.savedIndex.Some? {
        if !io.readOk {
          return Failed(LoadIndexFailed);
        }
        fragmentIndex := disk.savedIndex.value;
        usedStorageBytes := SumOfSizes(fragmentIndex);
      }
      return Done;
    }

    /** Adds up the sizes in the order in which the hash map yields them. */
    static method SumOfSizes(index: Index) returns (sum: U64)
      ensures sum == WrapAdd(SumSizes(index), 0)
    {
      hide WrapAdd, SumSizes;
      SumOfNone();
      sum := 0;
      WrapAddTwice(sum, SumSizes(index));
      var left := index;
      while left != map[]
        invariant WrapAdd(sum, SumSizes(left)) == WrapAdd(SumSizes(index), 0)
        decreases |left|
      {
        var id :| id in left;
        SumRemove(left, id);
        WrapAddAssoc(sum, left[id].sizeBytes, SumSizes(left - {id}));
        sum := WrapAdd(sum, left[id].sizeBytes);
        left := left - {id};
      }
      WrapAddTwice(sum, 0);
    }

    static lemma SumOfNone()
      ensures SumSizes(map[]) == 0
    {}

    static lemma WrapAddAssoc(a: nat, b: nat, c: nat)
      ensures WrapAdd(WrapAdd(a, b), c) == WrapAdd(a, b + c)
    {}

    static lemma WrapAddTwice(a: U64, b: nat)
      ensures WrapAdd(0, b) == WrapAdd(b, 0) && WrapAdd(a, 0) == a
    {}

    method SaveIndex(io: Io) returns (ok: bool)
      modifies disk`savedIndex
      ensures ok == io.saveIndexOk
      ensures disk.savedIndex == if ok then Some(fragmentIndex) else old(disk.savedIndex)
    {
      if io.saveIndexOk {
        disk.savedIndex := Some(fragmentIndex);
      }
      return io.saveIndexOk;
    }

    method StoreFragment(id: string, owner: string, data: Buffer, expiresAt: int, now: int, io: Io)
      returns (reply: Reply)
      modifies this, disk
      ensures Outcome(View(), reply) == FragmentStore.StoreFragment(hash, old(View()), id, owner, data, expiresAt, now, io)
    {
      var size := |data|;
      if WrapAdd(usedStorageBytes, size) > maxStorageBytes {
        return Failed(InsufficientSpace);
      }
      var contentHash := hash(data);
      if |id| < 2 {
        return Failed(IdTooShort);
      }
      var localPath := LocalPath(id);
      var fullPath := FileOf(storagePath, localPath);
      if !io.createDirOk {
        return Failed(CreateDirFailed);
      }
      if !io.writeOk {
        return Failed(WriteFailed);
      }
      disk.files := disk.files[fullPath := data];
      var fragment := StoredFragment(id, owner, size, contentHash, now, expiresAt, localPath, 0, now);
      fragmentIndex := fragmentIndex[id := fragment];
      usedStorageBytes := WrapAdd(usedStorageBytes, size);
      var saved := SaveIndex(io);
      return if saved then Stored(fragment) else Failed(SaveIndexFailed);
    }

    method DeleteFragment(id: string, io: Io) returns (reply: Reply)
      modifies this, disk
      ensures Outcome(View(), reply) == FragmentStore.DeleteFragment(old(View()), id, io)
    {
      if id in fragmentIndex {
        var fragment := fragmentIndex[id];
        fragmentIndex := fragmentIndex - {id};
        var fullPath := FileOf(storagePath, fragment.localPath);
        if fullPath in disk.files {
          if !io.removeOk {
            return Failed(RemoveFailed);
          }
          disk.files := disk.files - {fullPath};
        } else {
          assert disk.files - {fullPath} == disk.files;
        }
        usedStorageBytes := SaturatingSub(usedStorageBytes, fragment.sizeBytes);
        var saved := SaveIndex(io);
        if !saved {
          return Failed(SaveIndexFailed);
        }
      }
      return Done;
    }

    method RetrieveFragment(id: string, now: int, io: Io) returns (reply: Reply)
      modifies this, disk
      ensures Outcome(View(), reply) == FragmentStore.RetrieveFragment(hash, old(View()), id, now, io)
    {
      if id !in fragmentIndex {
        return Failed(FragmentNotFound);
      }
      if now > fragmentIndex[id].expiresAt {
        var deleted := DeleteFragment(id, io);
        return if deleted.Failed? then deleted else Failed(FragmentExpired);
      }
      var fragment := fragmentIndex[id];
      fragment := fragment.(accessCount := fragment.accessCount + 1);
      fragment := fragment.(lastAccessed := now);
      fragmentIndex := fragmentIndex[id := fragment];
      var fullPath := FileOf(storagePath, fragment.localPath);
      if fullPath !in disk.files || !io.readOk {
        return Failed(ReadFailed);
      }
      var data := disk.files[fullPath];
      if hash(data) != fragment.contentHash {
        return Failed(IntegrityCheckFailed);
      }
      return Data(data);
    }

    method ExtendFragment(id: string, newExpiresAt: int, io: Io) returns (reply: Reply)
      modifies this, disk
      ensures Outcome(View(), reply) == FragmentStore.ExtendFragment(old(View()), id, newExpiresAt, io)
    {
      if id in fragmentIndex {
        fragmentIndex := fragmentIndex[id := fragmentIndex[id].(expiresAt := newExpiresAt)];
        var saved := SaveIndex(io);
        if !saved {
          return Failed(SaveIndexFailed);
        }
      }
      return Done;
    }

    method ExtendOwnerFragments(owner: string, additionalDays: nat, now: int, io: Io) returns (reply: Reply)
      modifies this, disk
      ensures Outcome(View(), reply) ==
              FragmentStore.ExtendOwnerFragments(old(View()), owner, additionalDays, now, io)
    {
      var count := ExtendOwned(owner, now + Extension(additionalDays));
      if count > 0 {
        var saved := SaveIndex(io);
        if !saved {
          return Failed(SaveIndexFailed);
        }
      }
      return Count(count);
    }

    /** The loop over all fragments, in the order in which the hash map yields them. */
    method ExtendOwned(owner: string, expiresAt: int) returns (count: nat)
      modifies `fragmentIndex
      ensures fragmentIndex == Extended(old(fragmentIndex), owner, expiresAt)
      ensures count == |OwnedBy(old(fragmentIndex), owner)|
    {
      hide PartlyExtended, OwnedBy;
      ghost var start := fragmentIndex;
      var todo := fragmentIndex.Keys;
      count := 0;
      ExtendNoneOrAll(start, owner, expiresAt);
      while todo != {}
        invariant todo <= start.Keys
        invariant fragmentIndex == PartlyExtended(start, owner, expiresAt, todo)
        invariant count == |OwnedBy(start, owner) - todo|
        decreases |todo|
      {
        var id :| id in todo;
        ExtendOneMore(start, owner, expiresAt, todo, id);
        if fragmentIndex[id].ownerId == owner {
          fragmentIndex := fragmentIndex[id := fragmentIndex[id].(expiresAt := expiresAt)];
          count := count + 1;
        }
        todo := todo - {id};
      }
    }

    static lemma ExtendNoneOrAll(start: Index, owner: string, expiresAt: int)
      ensures PartlyExtended(start, owner, expiresAt, start.Keys) == start
      ensures PartlyExtended(start, owner, expiresAt, {}) == Extended(start, owner, expiresAt)
      ensures OwnedBy(start, owner) - start.Keys == {}
      ensures OwnedBy(start, owner) - {} == OwnedBy(start, owner)
    {}

    /** The index while the ids in `todo` have not been visited yet. */
    static ghost function PartlyExtended(start: Index, owner: string, expiresAt: int, todo: set<string>): Index {
      map id | id in start ::
        if id !in todo && start[id].ownerId == owner then start[id].(expiresAt := expiresAt) else start[id]
    }

    static lemma ExtendOneMore(start: Index, owner: string, expiresAt: int, todo: set<string>, id: string)
      requires id in todo && todo <= start.Keys
      ensures var before, after := PartlyExtended(start, owner, expiresAt, todo),
                                   PartlyExtended(start, owner, expiresAt, todo - {id});
              var more := if start[id].ownerId == owner then 1 else 0;
              && id in before && before[id] == start[id]
              && after == (if more == 1 then before[id := start[id].(expiresAt := expiresAt)] else before)
              && |OwnedBy(start, owner) - (todo - {id})| == |OwnedBy(start, owner) - todo| + more
    {
      var owned := OwnedBy(start, owner);
      if start[id].ownerId == owner {
        assert owned - (todo - {id}) == owned - todo + {id};
      } else {
        assert owned - (todo - {id}) == owned - todo;
      }
    }

    method CollectExpired(now: int) returns (expired: seq<string>)
      ensures Enumerates(expired, ExpiredIds(fragmentIndex, now))
    {
      expired := [];
      var todo := fragmentIndex.Keys;
      while todo != {}
        invariant todo <= fragmentIndex.Keys
        invariant Enumerates(expired, ExpiredIds(fragmentIndex, now) - todo)
        decreases |todo|
      {
        var id :| id in todo;
        if now > fragmentIndex[id].expiresAt {
          EnumerateOneMore(expired, ExpiredIds(fragmentIndex, now) - todo, id);
          expired := expired + [id];
          assert ExpiredIds(fragmentIndex, now) - (todo - {id}) == ExpiredIds(fragmentIndex, now) - todo + {id};
        } else {
          assert ExpiredIds(fragmentIndex, now) - (todo - {id}) == ExpiredIds(fragmentIndex, now) - todo;
        }
        todo := todo - {id};
      }
      assert ExpiredIds(fragmentIndex, now) - todo == ExpiredIds(fragmentIndex, now);
    }

    /** `order` is the order in which the hash map happened to yield the expired ids. */
    method CleanupExpired(now: int, io: nat -> Io) returns (reply: Reply, ghost order: seq<string>)
      modifies this, disk
      ensures Enumerates(order, ExpiredIds(old(fragmentIndex), now))
      ensures Outcome(View(), reply) == FragmentStore.CleanupExpired(old(View()), order, io)
    {
      var expired := CollectExpired(now);
      order := expired;
      assert expired[0..] == expired;
      for i := 0 to |expired|
        invariant DeleteAll(View(), expired[i..], io, i) == DeleteAll(old(View()), expired, io, 0)
      {
        var deleted := DeleteFragment(expired[i], io(i));
        if deleted.Failed? {
          return deleted, order;
        }
        assert expired[i..][1..] == expired[i + 1..];
      }
      return Count(|expired|), order;
    }

    lemma EnumerateOneMore(ids: seq<string>, s: set<string>, id: string)
      requires Enumerates(ids, s) && id !in s
      ensures Enumerates(ids + [id], s + {id})
    {
      assert forall i :: 0 <= i < |ids| ==> ids[i] in s by {
        forall i | 0 <= i < |ids| ensures ids[i] in s { assert ids[i] in ids; }
      }
    }

    /** Says whether storing that many bytes would be refused for lack of space. */
    method HasSpace(sizeBytes: U64) returns (yes: bool)
      ensures forall id, owner, data: Buffer, expiresAt, now, io :: |data| == sizeBytes ==>
                (yes <==> FragmentStore.StoreFragment(hash, View(), id, owner, data, expiresAt, now, io).reply
                          != Failed(InsufficientSpace))
      ensures yes <==> (usedStorageBytes + sizeBytes) % U64_LIMIT <= maxStorageBytes
    {
      return WrapAdd(usedStorageBytes, sizeBytes) <= maxStorageBytes;
    }
  }
}
