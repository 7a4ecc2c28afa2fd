/**
 What the operations of the storage manager do (storage_protocol.rs), as functions on the whole
 state: the manager's fields and the disk below it.
 */
module FragmentStore {
  import opened Basics

  /** A slice in memory; its length never exceeds the largest signed 64-bit number. */
  type Buffer = b: Bytes | |b| < 0x8000_0000_0000_0000

  datatype StoredFragment = StoredFragment(
    fragmentId: string,
    ownerId: string,
    sizeBytes: U64,
    contentHash: string,
    createdAt: int,
    expiresAt: int,
    localPath: string,
    accessCount: nat,
    lastAccessed: int)

  type Index = map<string, StoredFragment>

  datatype Storage = Storage(
    root: Path,                // the storage directory
    maxBytes: U64,
    usedBytes: U64,
    index: Index,
    files: map<Path, Buffer>,  // fragment files on disk
    saved: Option<Index>)      // index.json on disk

  /** Which file system calls of one operation succeed; a failing call has no effect. */
  datatype Io = Io(createDirOk: bool, writeOk: bool, readOk: bool, removeOk: bool, saveIndexOk: bool)

  const OK: Io := Io(true, true, true, true, true)

  datatype StorageFailure =
    | InsufficientSpace | IdTooShort | CreateDirFailed | WriteFailed | SaveIndexFailed | LoadIndexFailed
    | FragmentNotFound | FragmentExpired | ReadFailed | IntegrityCheckFailed | RemoveFailed

  datatype Reply =
    | Stored(fragment: StoredFragment)
    | Data(bytes: Buffer)
    | Done
    | Count(n: nat)
    | Failed(failure: StorageFailure)

  /** The state and the reply after an operation. */
  datatype Outcome = Outcome(state: Storage, reply: Reply)

  /** BLAKE3 followed by base58. */
  type HashFn = Bytes -> string

  // ---- Paths --------------------------------------------------------------------------------

  /** The names of a file and of the directories around it, from the root of the file system. */
  type Path = seq<string>

  /** The names between the slashes of a path as it is written. */
  function Split(path: string): (names: seq<string>)
    ensures names != []
  {
    if path == "" then [""]
    else
      var rest := Split(path[1..]);
      if path[0] == '/' then [""] + rest else [[path[0]] + rest[0]] + rest[1..]
  }

  function Enter(dir: Path, name: string): Path {
    if name == "" || name == "." then dir
    else if name == ".." then dir[..Max(|dir| - 1, 0)]
    else dir + [name]
  }

  function Follow(dir: Path, names: seq<string>): Path
    decreases |names|
  {
    if names == [] then dir else Follow(Enter(dir, names[0]), names[1..])
  }

  /** The file that a path relative to the storage directory names. */
  function FileOf(root: Path, localPath: string): Path { Follow(root, Split(localPath)) }

  function LocalPath(id: string): string
    requires |id| >= 2
  {
    "fragments/" + id[..2] + "/" + id
  }

  predicate Plain(id: string) { '/' !in id }

  lemma {:induction false} SplitJoined(a: string, b: string)
    ensures Split(a + "/" + b) == Split(a) + Split(b)
  {
    var whole := a + "/" + b;
    if a == "" {
      assert whole[1..] == b;
    } else {
      assert whole[1..] == a[1..] + "/" + b;
      SplitJoined(a[1..], b);
    }
  }

  lemma {:induction false} SplitPlain(name: string)
    requires Plain(name)
    ensures Split(name) == [name]
  {
    if name != "" {
      assert name[0] in name && name == [name[0]] + name[1..];
      SplitPlain(name[1..]);
    }
  }

  lemma {:induction false} FollowJoined(dir: Path, a: seq<string>, b: seq<string>)
    ensures Follow(dir, a + b) == Follow(Follow(dir, a), b)
    decreases |a|
  {
    if a == [] {
      assert a + b == b;
    } else {
      assert (a + b)[1..] == a[1..] + b;
      FollowJoined(Enter(dir, a[0]), a[1..], b);
    }
  }

  lemma FollowOne(dir: Path, name: string, rest: seq<string>)
    ensures Follow(dir, [name]) == Enter(dir, name)
    ensures Follow(dir, [name] + rest) == Follow(Enter(dir, name), rest)
  {
    assert ([name] + rest)[1..] == rest;
  }

  /** Empty names and single dots lead nowhere else. */
  lemma EmptyAndDotNames(root: Path, a: string, b: string)
    ensures FileOf(root, a + "//" + b) == FileOf(root, a + "/" + b) == FileOf(root, a + "/./" + b)
  {
    hide Split, Follow;
    var dir := Follow(root, Split(a));
    assert a + "//" + b == a + "/" + ("" + "/" + b) && a + "/./" + b == a + "/" + ("." + "/" + b);
    SplitJoined(a, b); SplitJoined(a, "" + "/" + b); SplitJoined(a, "." + "/" + b);
    SplitJoined("", b); SplitJoined(".", b); SplitPlain(""); SplitPlain(".");
    FollowJoined(root, Split(a), Split(b));
    FollowJoined(root, Split(a), [""] + Split(b)); FollowJoined(root, Split(a), ["."] + Split(b));
    FollowOne(dir, "", Split(b)); FollowOne(dir, ".", Split(b));
  }

  /** The file of an id without slashes; two dots in front lead out of the fragments directory. */
  function PlainFile(root: Path, id: string): Path
    requires |id| >= 2
  {
    if id == ".." then root[..Max(|root| - 1, 0)]
    else if id[..2] == ".." then root + [id]
    else root + ["fragments", id[..2], id]
  }

  lemma FileOfPlain(root: Path, id: string)
    requires |id| >= 2 && Plain(id)
    ensures FileOf(root, LocalPath(id)) == PlainFile(root, id)
  {
    hide Split, Follow;
    var prefix := id[..2];
    var dir := root + ["fragments"];
    FileUnderFragments(root, prefix + "/" + id);
    assert LocalPath(id) == "fragments/" + (prefix + "/" + id);
    SplitJoined(prefix, id); SplitPlain(prefix); SplitPlain(id);
    FollowOne(dir, prefix, [id]);
    FollowOne(Enter(dir, prefix), id, []);
    assert prefix != "." && prefix != "" && id != "." && id != "";
    assert dir[..|dir| - 1] == root;
  }

  lemma FileUnderFragments(root: Path, rest: string)
    ensures FileOf(root, "fragments/" + rest) == Follow(root + ["fragments"], Split(rest))
  {
    hide Split, Follow;
    assert "fragments/" + rest == "fragments" + "/" + rest;
    SplitJoined("fragments", rest); SplitPlain("fragments");
    FollowOne(root, "fragments", Split(rest));
  }

  /** Different ids without slashes name different files, and none of them names index.json. */
  lemma PathsDistinct(root: Path, a: string, b: string)
    requires |a| >= 2 && |b| >= 2 && Plain(a) && Plain(b)
    ensures FileOf(root, LocalPath(a)) == FileOf(root, LocalPath(b)) ==> a == b
    ensures FileOf(root, LocalPath(a)) != root + ["index.json"]
  {
    hide FileOf, LocalPath;
    FileOfPlain(root, a);
    FileOfPlain(root, b);
    LastName(root, a);
    LastName(root, b);
  }

  lemma LastName(root: Path, id: string)
    requires |id| >= 2
    ensures var file := PlainFile(root, id);
            && (id == ".." ==> |file| <= |root|)
            && (id != ".." ==> |file| > |root| && file[|file| - 1] == id)
            && file != root + ["index.json"]
  {
    if id != ".." && id[..2] == ".." {
      assert (root + [id])[|root|] == id && (root + ["index.json"])[|root|] == "index.json";
      assert "index.json"[..2] == "in";
      assert ".."[0] != "in"[0];
    }
  }

  /** Another id, with slashes, for the same file. */
  function Alias(id: string): (alias: string)
    requires |id| >= 2
    ensures |alias| > |id|
  {
    "aa/../../" + id[..2] + "/" + id
  }

  /** With slashes allowed, every id shares its file with another one. */
  lemma AliasNamesSameFile(root: Path, id: string)
    requires |id| >= 2
    ensures !Plain(Alias(id)) && Alias(id) != id
    ensures FileOf(root, LocalPath(Alias(id))) == FileOf(root, LocalPath(id))
  {
    hide Split, Follow;
    var rest := id[..2] + "/" + id;
    var up1 := "../" + rest;
    var up2 := "../" + up1;
    var down := "aa/" + up2;
    assert Alias(id)[2] == '/';
    assert LocalPath(id) == "fragments/" + rest;
    assert LocalPath(Alias(id)) == "fragments/" + ("aa/" + down);
    FileUnderFragments(root, rest);
    FileUnderFragments(root, "aa/" + down);
    assert "aa" + "/" == "aa/";
    var dir := root + ["fragments"];
    EnterDown(dir, "aa", down);
    EnterDown(dir + ["aa"], "aa", up2);
    EnterUp(dir + ["aa"], "aa", up1);
    EnterUp(dir, "aa", rest);
  }

  lemma EnterDown(dir: Path, name: string, rest: string)
    requires Plain(name) && name !in {"", ".", ".."}
    ensures Follow(dir, Split(name + "/" + rest)) == Follow(dir + [name], Split(rest))
  {
    hide Split, Follow;
    SplitAfter(name, rest);
    FollowOne(dir, name, Split(rest));
  }

  lemma EnterUp(dir: Path, name: string, rest: string)
    ensures Follow(dir + [name], Split("../" + rest)) == Follow(dir, Split(rest))
  {
    hide Split, Follow;
    assert "../" + rest == ".." + "/" + rest;
    SplitAfter("..", rest);
    FollowOne(dir + [name], "..", Split(rest));
    assert (dir + [name])[..|dir|] == dir;
  }

  lemma SplitAfter(name: string, rest: string)
    requires Plain(name)
    ensures Split(name + "/" + rest) == [name] + Split(rest)
  {
    SplitJoined(name, rest);
    SplitPlain(name);
  }

  // ---- Operations ---------------------------------------------------------------------------

  function New(root: Path, maxBytes: U64, files: map<Path, Buffer>, saved: Option<Index>): Storage {
    Storage(root, maxBytes, 0, map[], files, saved)
  }

  function SaveIndex(s: Storage, io: Io, reply: Reply): Outcome {
    if io.saveIndexOk then Outcome(s.(saved := Some(s.index)), reply) else Outcome(s, Failed(SaveIndexFailed))
  }

  ghost function Initialize(s: Storage, io: Io): Outcome {
    if !io.createDirOk then Outcome(s, Failed(CreateDirFailed))
    else match s.saved
      case None => Outcome(s, Done)
      case Some(index) =>
        if !io.readOk then Outcome(s, Failed(LoadIndexFailed))
        else Outcome(s.(index := index, usedBytes := WrapAdd(SumSizes(index), 0)), Done)
  }

  function StoreFragment(hash: HashFn, s: Storage, id: string, owner: string, data: Buffer, expiresAt: int,
                         now: int, io: Io): Outcome
  {
    if WrapAdd(s.usedBytes, |data|) > s.maxBytes then Outcome(s, Failed(InsufficientSpace))
    else if |id| < 2 then Outcome(s, Failed(IdTooShort))
    else if !io.createDirOk then Outcome(s, Failed(CreateDirFailed))
    else if !io.writeOk then Outcome(s, Failed(WriteFailed))
    else
      var fragment := StoredFragment(id, owner, |data|, hash(data), now, expiresAt, LocalPath(id), 0, now);
      var s1 := s.(files := s.files[FileOf(s.root, LocalPath(id)) := data], index := s.index[id := fragment],
                   usedBytes := WrapAdd(s.usedBytes, |data|));
      SaveIndex(s1, io, Stored(fragment))
  }

  function DeleteFragment(s: Storage, id: string, io: Io): Outcome {
    if id !in s.index then Outcome(s, Done)
    else
      var fragment := s.index[id];
      var file := FileOf(s.root, fragment.localPath);
      var s1 := s.(index := s.index - {id});
      if file in s.files && !io.removeOk then Outcome(s1, Failed(RemoveFailed))
      else
        var s2 := s1.(files := s1.files - {file},
                      usedBytes := SaturatingSub(s.usedBytes, fragment.sizeBytes));
        SaveIndex(s2, io, Done)
  }

  /** Records an access in the index, but not in the saved index. */
  function Touched(s: Storage, id: string, now: int): Storage
    requires id in s.index
  {
    s.(index := s.index[id := s.index[id].(accessCount := s.index[id].accessCount + 1, lastAccessed := now)])
  }

  function RetrieveFragment(hash: HashFn, s: Storage, id: string, now: int, io: Io): Outcome {
    if id !in s.index then Outcome(s, Failed(FragmentNotFound))
    else if now > s.index[id].expiresAt then
      var deleted := DeleteFragment(s, id, io);
      if deleted.reply.Failed? then deleted else deleted.(reply := Failed(FragmentExpired))
    else
      var fragment := s.index[id];
      var file := FileOf(s.root, fragment.localPath);
      var s1 := Touched(s, id, now);
      if file !in s.files || !io.readOk then Outcome(s1, Failed(ReadFailed))
      else
        var data := s.files[file];
        Outcome(s1, if hash(data) == fragment.contentHash then Data(data) else Failed(IntegrityCheckFailed))
  }

  function ExtendFragment(s: Storage, id: string, newExpiresAt: int, io: Io): Outcome {
    if id !in s.index then Outcome(s, Done)
    else SaveIndex(s.(index := s.index[id := s.index[id].(expiresAt := newExpiresAt)]), io, Done)
  }

  function Extension(additionalDays: nat): nat { additionalDays * 24 * 60 * 60 }

  function OwnedBy(index: Index, owner: string): set<string> {
    set id | id in index && index[id].ownerId == owner
  }

  function Extended(index: Index, owner: string, expiresAt: int): Index {
    map id | id in index :: if index[id].ownerId == owner then index[id].(expiresAt := expiresAt) else index[id]
  }

  function ExtendOwnerFragments(s: Storage, owner: string, additionalDays: nat, now: int, io: Io): Outcome {
    var count := |OwnedBy(s.index, owner)|;
    var s1 := s.(index := Extended(s.index, owner, now + Extension(additionalDays)));
    if count > 0 then SaveIndex(s1, io, Count(count)) else Outcome(s1, Count(count))
  }

  function ExpiredIds(index: Index, now: int): set<string> {
    set id | id in index && now > index[id].expiresAt
  }

  /** Deletes in the given order and stops at the first failure; `io(i)` serves the `i`th deletion. */
  function DeleteAll(s: Storage, ids: seq<string>, io: nat -> Io, i: nat): Outcome
    decreases |ids|
  {
    if ids == [] then Outcome(s, Done)
    else
      var deleted := DeleteFragment(s, ids[0], io(i));
      if deleted.reply.Failed? then deleted else DeleteAll(deleted.state, ids[1..], io, i + 1)
  }

  /** The ids of a set, each once, in the order in which the hash map yields them. */
  ghost predicate Enumerates(ids: seq<string>, s: set<string>) {
    (forall i, j :: 0 <= i < j < |ids| ==> ids[i] != ids[j]) && (set id | id in ids) == s
  }

  function CleanupExpired(s: Storage, order: seq<string>, io: nat -> Io): Outcome {
    var deleted := DeleteAll(s, order, io, 0);
    if deleted.reply.Failed? then deleted else deleted.(reply := Count(|order|))
  }

  // ---- What each operation leaves behind ----------------------------------------------------

  /** A store that fails before the index is written changes nothing; after that it has taken place. */
  lemma StoreOutcome(hash: HashFn, s: Storage, id: string, owner: string, data: Buffer, expiresAt: int, now: int, io: Io)
    ensures var o := StoreFragment(hash, s, id, owner, data, expiresAt, now, io);
            var fits := (s.usedBytes + |data|) % 0x1_0000_0000_0000_0000 <= s.maxBytes;
            && (o.reply == Failed(InsufficientSpace) <==> !fits)
            && (o.reply == Failed(IdTooShort) <==> fits && |id| < 2)
            && (o.reply == Failed(CreateDirFailed) <==> fits && |id| >= 2 && !io.createDirOk)
            && (o.reply == Failed(WriteFailed) <==> fits && |id| >= 2 && io.createDirOk && !io.writeOk)
            && (o.reply.Failed? && o.reply != Failed(SaveIndexFailed) ==> o.state == s)
            && (fits && |id| >= 2 && io.createDirOk && io.writeOk ==>
                  && id in o.state.index && var f := o.state.index[id];
                  && f.fragmentId == id && f.ownerId == owner && f.sizeBytes == |data| && f.contentHash == hash(data)
                  && f.createdAt == f.lastAccessed == now && f.expiresAt == expiresAt && f.accessCount == 0
                  && f.localPath == "fragments/" + id[..2] + "/" + id
                  && o.state.index == s.index[id := f]
                  && o.state.files == s.files[FileOf(s.root, f.localPath) := data]
                  && o.state.usedBytes == (s.usedBytes + |data|) % 0x1_0000_0000_0000_0000
                  && o.state.maxBytes == s.maxBytes && o.state.root == s.root
                  && o.state.saved == (if io.saveIndexOk then Some(o.state.index) else s.saved)
                  && o.reply == (if io.saveIndexOk then Stored(f) else Failed(SaveIndexFailed)))
  {
    hide FileOf;
  }

  /** A delete forgets the fragment first: if its file stays, so do its bytes in the counter. */
  lemma DeleteOutcome(s: Storage, id: string, io: Io)
    ensures var o := DeleteFragment(s, id, io);
            && (id !in s.index ==> o == Outcome(s, Done))
            && (id in s.index ==>
                  var file := FileOf(s.root, s.index[id].localPath);
                  var left := s.usedBytes - s.index[id].sizeBytes;
                  && o.state.index == s.index - {id}
                  && o.state.maxBytes == s.maxBytes && o.state.root == s.root
                  && (file in s.files && !io.removeOk ==>
                        && o.reply == Failed(RemoveFailed) && o.state.files == s.files
                        && o.state.usedBytes == s.usedBytes && o.state.saved == s.saved)
                  && ((file in s.files ==> io.removeOk) ==>
                        && o.state.files == s.files - {file}
                        && o.state.usedBytes == (if left < 0 then 0 else left)
                        && o.state.saved == (if io.saveIndexOk then Some(o.state.index) else s.saved)
                        && o.reply == (if io.saveIndexOk then Done else Failed(SaveIndexFailed))))
  {
    hide FileOf;
  }

  /**
   What a retrieval returns has the recorded hash and an unexpired lease.  An access is counted as
   soon as the fragment is found, even if its file cannot be read or has changed.
   */
  lemma RetrieveOutcome(hash: HashFn, s: Storage, id: string, now: int, io: Io)
    ensures var o := RetrieveFragment(hash, s, id, now, io);
            && (id !in s.index ==> o == Outcome(s, Failed(FragmentNotFound)))
            && (id in s.index && now > s.index[id].expiresAt ==>
                  var deleted := DeleteFragment(s, id, io);
                  && o.state == deleted.state
                  && o.reply == if deleted.reply.Failed? then deleted.reply else Failed(FragmentExpired))
            && (id in s.index && now <= s.index[id].expiresAt ==>
                  var f := s.index[id];
                  var file := FileOf(s.root, f.localPath);
                  && o.state == s.(index := s.index[id := f.(accessCount := f.accessCount + 1, lastAccessed := now)])
                  && (o.reply == Failed(ReadFailed) <==> file !in s.files || !io.readOk)
                  && (o.reply == Failed(IntegrityCheckFailed) <==>
                        file in s.files && io.readOk && hash(s.files[file]) != f.contentHash)
                  && (o.reply.Data? <==> file in s.files && io.readOk && hash(s.files[file]) == f.contentHash)
                  && (o.reply.Data? ==> o.reply.bytes == s.files[file]))
  {
    hide FileOf, DeleteFragment;
  }

  /** Extensions take place in memory even if the index cannot be written. */
  lemma ExtendOutcome(s: Storage, id: string, newExpiresAt: int, owner: string, days: nat, now: int, io: Io)
    ensures var o := ExtendFragment(s, id, newExpiresAt, io);
            && (id !in s.index ==> o == Outcome(s, Done))
            && (id in s.index ==>
                  var index := s.index[id := s.index[id].(expiresAt := newExpiresAt)];
                  o == if io.saveIndexOk then Outcome(s.(index := index, saved := Some(index)), Done)
                       else Outcome(s.(index := index), Failed(SaveIndexFailed)))
    ensures var o := ExtendOwnerFragments(s, owner, days, now, io);
            var owned := set id | id in s.index && s.index[id].ownerId == owner;
            && o.state.index.Keys == s.index.Keys
            && (forall id :: id in s.index ==>
                  o.state.index[id] == (if id in owned then s.index[id].(expiresAt := now + 86400 * days) else s.index[id]))
            && o.state == s.(index := o.state.index, saved := o.state.saved)
            && o.state.saved == (if owned != {} && io.saveIndexOk then Some(o.state.index) else s.saved)
            && o.reply == (if owned != {} && !io.saveIndexOk then Failed(SaveIndexFailed) else Count(|owned|))
  {
    assert OwnedBy(s.index, owner) == set id | id in s.index && s.index[id].ownerId == owner;
  }

  /** Initialising loads the saved index if there is one, and counts its bytes. */
  lemma InitializeOutcome(s: Storage, io: Io)
    ensures var o := Initialize(s, io);
            && (o.reply == Failed(CreateDirFailed) <==> !io.createDirOk)
            && (o.reply == Failed(LoadIndexFailed) <==> io.createDirOk && s.saved.Some? && !io.readOk)
            && (o.reply.Failed? || s.saved.None? ==> o.state == s)
            && (!o.reply.Failed? ==> o.reply == Done)
            && (o.reply == Done && s.saved.Some? ==>
                  o.state == s.(index := s.saved.value, usedBytes := SumSizes(s.saved.value) % 0x1_0000_0000_0000_0000))
  {
    hide SumSizes;
  }

  /** A cleanup stops at the first deletion that fails. */
  lemma {:induction false} DeleteAllOutcome(s: Storage, ids: seq<string>, io: nat -> Io, i: nat)
    ensures var o := DeleteAll(s, ids, io, i);
            && (ids == [] ==> o == Outcome(s, Done))
            && (ids != [] ==>
                  var first := DeleteFragment(s, ids[0], io(i));
                  o == if first.reply.Failed? then first else DeleteAll(first.state, ids[1..], io, i + 1))
            && (o.reply.Failed? || o.reply == Done)
            && (o.reply == Done ==> o.state.index == map id | id in s.index && id !in ids :: s.index[id])
    decreases |ids|
  {
    hide FileOf, SaturatingSub;
    if ids != [] {
      DeleteAllOutcome(DeleteFragment(s, ids[0], io(i)).state, ids[1..], io, i + 1);
    }
  }

  /** A cleanup counts what it deleted, or fails as the deletion did that stopped it. */
  lemma CleanupOutcome(s: Storage, order: seq<string>, io: nat -> Io)
    ensures var o := CleanupExpired(s, order, io);
            var deleted := DeleteAll(s, order, io, 0);
            && o.state == deleted.state
            && (deleted.reply.Failed? ==> o.reply == deleted.reply)
            && (!deleted.reply.Failed? ==> o.reply == Count(|order|))
  {}

  // ---- The total size of an index -----------------------------------------------------------

  ghost function SumSizes(index: Index): nat
    decreases |index|
  {
    if index == map[] then 0
    else
      var id :| id in index;
      index[id].sizeBytes + SumSizes(index - {id})
  }

  lemma {:induction false} SumRemove(index: Index, id: string)
    requires id in index
    ensures SumSizes(index) == index[id].sizeBytes + SumSizes(index - {id})
    decreases |index|
  {
    var picked :| picked in index && SumSizes(index) == index[picked].sizeBytes + SumSizes(index - {picked});
    if picked != id {
      SumRemove(index - {picked}, id);
      SumRemove(index - {id}, picked);
      assert index - {picked} - {id} == index - {id} - {picked};
    }
  }

  lemma SumInsert(index: Index, id: string, f: StoredFragment)
    ensures SumSizes(index[id := f]) == f.sizeBytes + SumSizes(index - {id})
  {
    SumRemove(index[id := f], id);
    assert index[id := f] - {id} == index - {id};
  }

  /** Dropping an id never increases the sum. */
  lemma SumWithout(index: Index, id: string)
    ensures SumSizes(index - {id}) <= SumSizes(index)
  {
    if id in index {
      SumRemove(index, id);
    } else {
      assert index - {id} == index;
    }
  }

  /** The sum depends on the sizes alone. */
  lemma {:induction false} SumAgrees(a: Index, b: Index)
    requires a.Keys == b.Keys && forall id :: id in a ==> a[id].sizeBytes == b[id].sizeBytes
    ensures SumSizes(a) == SumSizes(b)
    decreases |a|
  {
    if a == map[] {
      assert b == map[];
    } else {
      var id :| id in a;
      SumRemove(a, id);
      SumRemove(b, id);
      SumAgrees(a - {id}, b - {id});
    }
  }
}
