/** What a host does to the database in one session: storages are mounted, folders are listed, objects are sent
    and deleted. Every one of these callers says 0 for the top level. */
module HandleSession {
  import opened Basics
  import opened HandleModel
  import opened HandlePaths
  import opened HandleDatabase
  import opened HandleListing

  // ---------- sending an object ----------

  /** `make` tells whether a file or folder can be created at a path. */
  datatype Upload = Upload(storage: Word32, parent: Word32, info: FileInfo, readOnly: bool,
                           make: string -> bool, reply: Reply)

  datatype Sent = BadStorage | ReadOnly | Failed | Denied(path: string) | Made(path: string, handle: Option<Word32>)

  /** A host says 0 or 0xFFFFFFFF for the top level; the database always says 0. */
  predicate Means(asked: Word32, parent: Word32) {
    if asked == 0 || asked == 0xFFFF_FFFF then parent == 0 else parent == asked
  }

  /** The live directory that the object goes to. */
  predicate GoesTo(db: Db, u: Upload, i: nat) {
    && i < |db.entries| && !db.entries[i].deleted && db.entries[i].isDir
    && db.entries[i].storage == u.storage && Means(u.parent, db.entries[i].handle)
  }

  ghost predicate MadeBelow(db: Db, roots: Roots, u: Upload, path: string)
    requires Wellfounded(db)
  {
    exists i: nat :: GoesTo(db, u, i) && path == FullPath(db, roots, i) + "/" + u.info.name
  }

  /** The object: live, with the name, the parent asked for and the storage. */
  predicate IsObject(db: Db, u: Upload, handle: Word32, i: nat) {
    && i < |db.entries| && !db.entries[i].deleted && db.entries[i].handle == handle
    && db.entries[i].name == u.info.name && Means(u.parent, db.entries[i].parent) && db.entries[i].storage == u.storage
  }

  /** A new entry is what was sent; one that was there before stays as it was. */
  ghost predicate Entered(was: Db, now: Db, u: Upload, handle: Word32) {
    exists i: nat :: IsObject(now, u, handle, i) && if i < |was.entries| then now == was else Describes(u.info, now.entries[i])
  }

  ghost predicate Received(was: Db, now: Db, roots: Roots, u: Upload, r: Sent)
    requires Wellfounded(was)
  {
    match r
    case BadStorage => u.storage !in roots && now == was
    case ReadOnly => u.storage in roots && u.readOnly && now == was
    case Failed => u.storage in roots && !u.readOnly && now == was && forall i: nat :: !GoesTo(was, u, i)
    case Denied(path) => !u.readOnly && MadeBelow(was, roots, u, path) && !u.make(path) && now == was
    case Made(path, None) => !u.readOnly && MadeBelow(was, roots, u, path) && u.make(path) && (!u.reply.block || !u.reply.copy)
    case Made(path, Some(handle)) => !u.readOnly && MadeBelow(was, roots, u, path) && u.make(path) && Entered(was, now, u, handle)
  }

  /** parse_incoming_dataset, behind the parsing. */
  method SendObjectInfo(db: HandleDb, roots: Roots, u: Upload) returns (r: Sent)
    requires db.Valid() && Invariant(db.Abs()) && Room(db.Abs(), 1)
    modifies db
    ensures db.Valid() && Invariant(db.Abs()) && Extends(old(db.Abs()), db.Abs())
    ensures Received(old(db.Abs()), db.Abs(), roots, u, r) && db.nextHandle <= old(db.nextHandle) + 1
    ensures (old(db.Idle()) ==> db.Idle()) && (OneTop(old(db.Abs())) ==> OneTop(db.Abs()))
  {
    var parent := if u.parent == NO_PARENT then 0 else u.parent;
    if u.storage !in roots { return BadStorage; }
    if u.readOnly { return ReadOnly; }
    var at; ghost var i;
    at, i := db.GetEntryByHandleAndStorage(parent, u.storage);
    if at.None? { return Failed; }
    assert Stored(db.mem, db.created, db.entries, i);
    if !db.mem[at.value].entry.isDir {
      NotThere(db.Abs(), u, i);
      return Failed;
    }
    var folder := db.BuildFullPath(roots, roots[u.storage], at.value, i);
    var path := folder[..folder.Length - 1] + "/" + u.info.name;
    assert folder[..folder.Length - 1] == FullPath(db.Abs(), roots, i);
    assert GoesTo(db.Abs(), u, i);
    if !u.make(path) { return Denied(path); }
    var handle := Enter(db, u, parent);
    r := Made(path, handle);
  }

  /** A handle that is a file's is no directory's. */
  lemma NotThere(db: Db, u: Upload, i: nat)
    requires HandlesOk(db) && i < |db.entries| && !db.entries[i].isDir && Means(u.parent, db.entries[i].handle)
    ensures forall k: nat :: !GoesTo(db, u, k)
  {
    assert db.entries[i].handle != 0;
  }

  /** What the database's addition means for the object sent. */
  lemma AddEntered(was: Db, u: Upload, parent: Word32, g: Grant, i: nat)
    requires Invariant(was) && Room(was, 1) && Means(u.parent, parent)
    requires var now := Add(was, u.info, parent, u.storage, g);
      && i < |now.entries| && KeyOf(now.entries[i]) == Key(u.info.name, parent, u.storage) && !now.entries[i].deleted
      && (i < |was.entries| <==> Present(was, Key(u.info.name, parent, u.storage)))
    ensures var now := Add(was, u.info, parent, u.storage, g); Entered(was, now, u, now.entries[i].handle)
  {
    var now := Add(was, u.info, parent, u.storage, g);
    assert IsObject(now, u, now.entries[i].handle, i);
  }

  lemma AddOneTop(was: Db, u: Upload, parent: Word32, g: Grant)
    requires Room(was, 1) && Means(u.parent, parent)
    ensures var now := Add(was, u.info, parent, u.storage, g);
      now.next <= was.next + 1 && (OneTop(was) ==> OneTop(now))
  {
  }

  /** The entry `e` holds the object sent. */
  ghost predicate HoldsObject(db: HandleDb, e: Ref, was: Db, u: Upload, parent: Word32)
    reads db
  {
    exists i :: 0 <= i < |db.created| && i < |db.entries| && db.created[i] == e
      && KeyOf(db.entries[i]) == Key(u.info.name, parent, u.storage) && !db.entries[i].deleted
      && (i < |was.entries| <==> Present(was, Key(u.info.name, parent, u.storage)))
  }

  method Enter(db: HandleDb, u: Upload, parent: Word32) returns (handle: Option<Word32>)
    requires db.Valid() && Invariant(db.Abs()) && Room(db.Abs(), 1) && Means(u.parent, parent) && ParentKnown(db.Abs(), parent)
    modifies db
    ensures db.Valid() && Invariant(db.Abs()) && Extends(old(db.Abs()), db.Abs()) && db.nextHandle <= old(db.nextHandle) + 1
    ensures (old(db.Idle()) ==> db.Idle()) && (OneTop(old(db.Abs())) ==> OneTop(db.Abs()))
    ensures match handle
            case None => !u.reply.block || !u.reply.copy
            case Some(h) => Entered(old(db.Abs()), db.Abs(), u, h)
  {
    ghost var was := db.Abs();
    var e; ghost var g;
    e, g := Record(db, u, parent);
    AddOneTop(was, u, parent, g);
    handle := None;
    if e.Some? { handle := HandleAt(db, e.value, was, u, parent, g); }
  }

  method Record(db: HandleDb, u: Upload, parent: Word32) returns (e: Option<Ref>, ghost g: Grant)
    requires db.Valid() && Invariant(db.Abs()) && Room(db.Abs(), 1) && ParentKnown(db.Abs(), parent)
    modifies db
    ensures db.Valid() && db.Abs() == Add(old(db.Abs()), u.info, parent, u.storage, g)
    ensures Invariant(db.Abs()) && Extends(old(db.Abs()), db.Abs()) && (old(db.Idle()) ==> db.Idle())
    ensures match e
            case None => !u.reply.block || !u.reply.copy
            case Some(q) => HoldsObject(db, q, old(db.Abs()), u, parent)
  {
    ghost var was := db.Abs();
    e, g := db.AddEntry(u.info, parent, u.storage, u.reply);
    AddKeeps(was, u.info, parent, u.storage, g);
  }

  method HandleAt(db: HandleDb, e: Ref, ghost was: Db, ghost u: Upload, ghost parent: Word32, ghost g: Grant)
      returns (handle: Option<Word32>)
    requires db.Valid() && Invariant(was) && Room(was, 1) && Means(u.parent, parent)
    requires db.Abs() == Add(was, u.info, parent, u.storage, g) && HoldsObject(db, e, was, u, parent)
    ensures handle.Some? && Entered(was, db.Abs(), u, handle.value)
  {
    ghost var i: nat :| i < |db.created| && i < |db.entries| && db.created[i] == e
      && KeyOf(db.entries[i]) == Key(u.info.name, parent, u.storage) && !db.entries[i].deleted
      && (i < |was.entries| <==> Present(was, Key(u.info.name, parent, u.storage)));
    assert Stored(db.mem, db.created, db.entries, i);
    handle := Some(db.mem[e].entry.handle);
    AddEntered(was, u, parent, g, i);
  }

  // ---------- deleting an object ----------

  /** `gone` tells whether the file or the whole folder could be removed from disk; if not, what is left of a folder
      is listed. */
  datatype Removal = Removal(handle: Word32, gone: bool, files: seq<FileInfo>, replies: seq<Reply>, showHidden: bool,
                             stat: string -> Option<int>)

  /** The list after the request: the object is marked, or its folder listed again, or nothing has changed. */
  ghost predicate Removed(was: Db, now: Db, roots: Roots, q: Removal, grants: seq<Grant>, i: nat)
    requires Invariant(was) && |q.replies| == |q.files| && Room(was, |q.files|)
  {
    && Resolves(was, roots, q.handle, i)
    && (if q.gone then now == was.(entries := was.entries[i := was.entries[i].(deleted := true)])
        else if was.entries[i].isDir then
          HandleKnown(was, roots, q.handle, i);
          && GrantedAll(q.replies, grants, |was.entries|)
          && now == Rescan(was, roots, q.files, grants, q.showHidden, q.handle, was.entries[i].storage, q.stat)
        else now == was)
  }

  lemma HandleKnown(db: Db, roots: Roots, handle: Word32, i: nat)
    requires HandlesOk(db) && Resolves(db, roots, handle, i)
    ensures ParentKnown(db, handle) && handle < db.next
  {
  }

  /** delete_tree: 0 when the object is gone. */
  method DeleteTree(db: HandleDb, roots: Roots, q: Removal) returns (ret: int, ghost grants: seq<Grant>)
    requires db.Valid() && Invariant(db.Abs()) && |q.replies| == |q.files| && Room(db.Abs(), |q.files|)
    modifies db
    ensures db.Valid() && Invariant(db.Abs()) && Extends(old(db.Abs()), db.Abs())
    ensures (old(db.Idle()) ==> db.Idle()) && (OneTop(old(db.Abs())) ==> OneTop(db.Abs()))
    ensures db.nextHandle <= old(db.nextHandle) + |q.files|
    ensures ret == 0 <==> q.gone && Known(old(db.Abs()), roots, q.handle)
    ensures if Known(old(db.Abs()), roots, q.handle)
            then exists i: nat :: Removed(old(db.Abs()), db.Abs(), roots, q, grants, i)
            else db.Abs() == old(db.Abs())
  {
    grants := [];
    var e; ghost var i;
    e, i := db.GetEntryByHandle(roots, q.handle);
    if e.None? { return -1, grants; }
    HandleKnown(db.Abs(), roots, q.handle, i);
    ret, grants := RemoveAt(db, roots, q, e.value, i);
  }

  method RemoveAt(db: HandleDb, roots: Roots, q: Removal, e: Ref, ghost i: nat) returns (ret: int, ghost grants: seq<Grant>)
    requires db.Valid() && Invariant(db.Abs()) && |q.replies| == |q.files| && Room(db.Abs(), |q.files|)
    requires i < |db.created| && e == db.created[i] && Resolves(db.Abs(), roots, q.handle, i)
    modifies db
    ensures db.Valid() && Invariant(db.Abs()) && Extends(old(db.Abs()), db.Abs())
    ensures (old(db.Idle()) ==> db.Idle()) && (OneTop(old(db.Abs())) ==> OneTop(db.Abs()))
    ensures db.nextHandle <= old(db.nextHandle) + |q.files|
    ensures ret == (if q.gone then 0 else -1) && Removed(old(db.Abs()), db.Abs(), roots, q, grants, i)
  {
    grants := [];
    ret := -1;
    ghost var was := db.Abs();
    assert Stored(db.mem, db.created, db.entries, i);
    var entry := db.mem[e].entry;
    HandleKnown(was, roots, q.handle, i);
    if q.gone {
      db.MarkEntryDeleted(e, i);
      DeleteKeeps(was, i);
      ret := 0;
    } else if entry.isDir {
      var scan;
      scan, grants := db.ScanAndAddFolder(roots, q.files, q.replies, q.showHidden, q.handle, entry.storage, q.stat);
      RescanOneTop(was, roots, q.files, grants, q.showHidden, q.handle, entry.storage, q.stat);
    }
  }

  // ---------- a session ----------

  datatype Event =
    | Mount(storage: Word32, reply: Reply)
    | List(request: Request, size: nat)
    | Send(upload: Upload)
    | Delete(removal: Removal)

  /** The handles an event may need, with an answer of the allocator for each. */
  function Needs(e: Event): nat {
    match e
    case Mount(_, _) => 0
    case List(q, _) => |q.files|
    case Send(_) => 1
    case Delete(q) => |q.files|
  }

  predicate Answered(e: Event) {
    match e
    case List(q, size) => |q.replies| == |q.files| && size > 0
    case Delete(q) => |q.replies| == |q.files|
    case _ => true
  }

  function NeedsAll(events: seq<Event>): nat { if events == [] then 0 else Needs(events[0]) + NeedsAll(events[1..]) }

  ghost predicate Sound(db: HandleDb)
    reads db
  {
    db.Valid() && Invariant(db.Abs()) && db.Idle() && OneTop(db.Abs())
  }

  /** A storage's root takes no handle; with memory for it, uploads to the storage's top level find it. */
  method MountStore(db: HandleDb, storage: Word32, reply: Reply)
    requires db.Valid() && Invariant(db.Abs())
    modifies db
    ensures db.Valid() && Invariant(db.Abs()) && Extends(old(db.Abs()), db.Abs()) && db.nextHandle == old(db.nextHandle)
    ensures (old(db.Idle()) ==> db.Idle()) && (OneTop(old(db.Abs())) ==> OneTop(db.Abs()))
    ensures !reply.copy ==> db.entries == old(db.entries)
    ensures reply.block && reply.copy ==> db.entries == old(db.entries) + [Entry(0, 0, storage, "/", true, false, 1)]
    ensures reply.block && reply.copy ==>
              forall u: Upload :: u.storage == storage && u.parent == 0xFFFF_FFFF ==> exists i: nat :: GoesTo(db.Abs(), u, i)
  {
    ghost var was := db.Abs();
    var r; ghost var g;
    r, g := db.AllocRootEntry(storage, reply);
    RootKeeps(was, storage, g);
    if reply.block && reply.copy {
      forall u: Upload | u.storage == storage && u.parent == 0xFFFF_FFFF ensures exists i: nat :: GoesTo(db.Abs(), u, i) {
        assert GoesTo(db.Abs(), u, |was.entries|);
      }
    }
  }

  method Handle(db: HandleDb, roots: Roots, e: Event)
    requires Sound(db) && Answered(e) && Room(db.Abs(), Needs(e))
    modifies db
    ensures Sound(db) && Extends(old(db.Abs()), db.Abs()) && db.nextHandle <= old(db.nextHandle) + Needs(e)
  {
    match e {
      case Mount(storage, reply) =>
        MountStore(db, storage, reply);
      case List(q, size) =>
        var r; ghost var g;
        r, g := GetObjectHandles(db, roots, q, size);
      case Send(u) =>
        var r := SendObjectInfo(db, roots, u);
      case Delete(q) =>
        var r; ghost var g;
        r, g := DeleteTree(db, roots, q);
    }
  }

  method HandleAll(db: HandleDb, roots: Roots, events: seq<Event>)
    requires Sound(db) && (forall k :: 0 <= k < |events| ==> Answered(events[k])) && Room(db.Abs(), NeedsAll(events))
    modifies db
    ensures Sound(db)
    decreases |events|
  {
    if events != [] {
      Handle(db, roots, events[0]);
      HandleAll(db, roots, events[1..]);
    }
  }

  /** Over every session from its start: the database keeps its invariant, no search is left open, and a path names
      one live entry of its storage, while handles last. */
  method Session(roots: Roots, events: seq<Event>) returns (db: HandleDb)
    requires (forall k :: 0 <= k < |events| ==> Answered(events[k])) && NeedsAll(events) < NO_PARENT
    ensures Sound(db) && forall storage: Word32 :: NoTwins(db.Abs(), storage)
    ensures forall storage: Word32, i: nat, j: nat :: SamePath(db.Abs(), roots, storage, i, j) ==> i == j
  {
    assert Invariant(EMPTY);
    db := new HandleDb();
    HandleAll(db, roots, events);
    ghost var last := db.Abs();
    forall storage: Word32 ensures NoTwins(last, storage) { assert OneTop(last); }
    forall storage: Word32, i: nat, j: nat | SamePath(last, roots, storage, i, j) ensures i == j {
      PathsDetermine(last, roots, storage);
    }
  }
}
