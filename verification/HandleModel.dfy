/** The object-handle database as a plain list: the simple specification that the hash
    indexes, the resumable iterator and the path builder of `HandleDb` must agree with.

    The list is kept oldest first, so that the position of an entry is its age and never
    changes when new entries are added (the program's linked list is newest first). */
module HandleModel {
  import opened Basics

  type Word32 = w: int | 0 <= w < 0x1_0000_0000

  const NO_PARENT: Word32 := 0xFFFF_FFFF

  datatype FileInfo = FileInfo(name: string, isDir: bool, size: int)

  datatype Entry = Entry(handle: Word32, parent: Word32, storage: Word32, name: string,
                         isDir: bool, deleted: bool, size: int)

  datatype Key = Key(name: string, parent: Word32, storage: Word32)

  /** `free` counts the unused slots of the newest pool block. `lostName` and `lostHandle` are
      the entries that a failed bucket allocation kept out of the name and handle index. */
  datatype Db = Db(entries: seq<Entry>, next: Word32, free: nat,
                   lostName: set<nat>, lostHandle: set<nat>)

  /** What the allocator answers to one `alloc_entry`: a new pool block (asked for only when the
      pool is empty), the copy of the name, and whether each index took the entry. */
  datatype Grant = Grant(block: bool, copy: bool, byHandle: bool, byName: bool)

  const POOL_BLOCK_SIZE: nat := 1024

  function KeyOf(e: Entry): Key { Key(e.name, e.parent, e.storage) }

  predicate Special(parent: Word32) { parent == 0 || parent == NO_PARENT }

  predicate Holds(db: Db, key: Key, i: nat) {
    i < |db.entries| && i !in db.lostName && !db.entries[i].deleted && KeyOf(db.entries[i]) == key
  }

  predicate Present(db: Db, key: Key) {
    exists i: nat :: i < |db.entries| && Holds(db, key, i)
  }

  // ---------- operations ----------

  predicate SlotGranted(db: Db, g: Grant) { db.free > 0 || g.block }

  function TakeSlot(free: nat): nat {
    if free > 0 then free - 1 else POOL_BLOCK_SIZE - 1
  }

  function Append(db: Db, e: Entry, g: Grant): Db {
    var n := |db.entries|;
    db.(entries := db.entries + [e],
        free := TakeSlot(db.free),
        lostName := if g.byName then db.lostName else db.lostName + {n},
        lostHandle := if g.byHandle then db.lostHandle else db.lostHandle + {n})
  }

  function RootEntry(storage: Word32): Entry {
    Entry(0, 0, storage, "/", true, false, 1)
  }

  function NewEntry(db: Db, info: FileInfo, parent: Word32, storage: Word32): Entry {
    Entry(db.next, parent, storage, info.name, info.isDir, false, info.size)
  }

  /** A failed name copy still costs a root its slot. */
  function AddRoot(db: Db, storage: Word32, g: Grant): Db {
    if !SlotGranted(db, g) then db
    else if !g.copy then db.(free := TakeSlot(db.free))
    else Append(db, RootEntry(storage), g)
  }

  /** A failed name copy gives the slot and the handle back; a block obtained meanwhile stays. */
  function Alloc(db: Db, info: FileInfo, parent: Word32, storage: Word32, g: Grant): Db {
    if !SlotGranted(db, g) then db
    else if !g.copy then db.(free := TakeSlot(db.free) + 1)
    else Append(db, NewEntry(db, info, parent, storage), g)
           .(next := (db.next + 1) % 0x1_0000_0000)
  }

  function Add(db: Db, info: FileInfo, parent: Word32, storage: Word32, g: Grant): Db {
    if Present(db, Key(info.name, parent, storage)) then db else Alloc(db, info, parent, storage, g)
  }

  function MarkDeleted(db: Db, i: nat): Db {
    if i < |db.entries| then db.(entries := db.entries[i := db.entries[i].(deleted := true)]) else db
  }

  function SetSize(db: Db, i: nat, size: int): Db {
    if i < |db.entries| then db.(entries := db.entries[i := db.entries[i].(size := size)]) else db
  }

  datatype Op =
    | OpRoot(storage: Word32, grant: Grant)
    | OpAdd(info: FileInfo, parent: Word32, storage: Word32, grant: Grant)
    | OpDelete(index: nat)
    | OpStat(index: nat, size: int)

  function Step(db: Db, op: Op): Db {
    match op
    case OpRoot(storage, g) => AddRoot(db, storage, g)
    case OpAdd(info, parent, storage, g) => Add(db, info, parent, storage, g)
    case OpDelete(i) => MarkDeleted(db, i)
    case OpStat(i, size) => SetSize(db, i, size)
  }

  function Run(db: Db, ops: seq<Op>): Db
    decreases |ops|
  {
    if ops == [] then db else Run(Step(db, ops[0]), ops[1..])
  }

  const EMPTY: Db := Db([], 1, 0, {}, {})

  // ---------- the pool ----------

  /** A slot is taken or a block of 1024 is asked for; a taken slot becomes an entry if its name can be copied, and
      otherwise `lost` slots are gone and the others free again. */
  predicate Slots(db: Db, after: Db, g: Grant, lost: nat) {
    var got, asks := db.free > 0 || g.block, db.free == 0 && g.block;
    && |after.entries| == |db.entries| + (if got && g.copy then 1 else 0)
    && |after.entries| + after.free + (if got && !g.copy then lost else 0) == |db.entries| + db.free + (if asks then 1024 else 0)
  }

  /** Slots are conserved by every operation, but for the one of a root whose name cannot be copied. */
  lemma SlotsConserved(db: Db, op: Op)
    ensures var after := Step(db, op);
      match op
      case OpRoot(_, g) => Slots(db, after, g, 1)
      case OpAdd(info, parent, storage, g) => if Present(db, Key(info.name, parent, storage)) then after == db else Slots(db, after, g, 0)
      case _ => |after.entries| == |db.entries| && after.free == db.free
  {
  }

  // ---------- invariants ----------

  /** Handles other than a root's 0 were given out in strictly increasing order, below `next`; a root is a directory without a parent. */
  predicate HandlesOk(db: Db) {
    && db.next >= 1
    && (forall i :: 0 <= i < |db.entries| ==> db.entries[i].handle < db.next)
    && (forall i, j :: 0 <= i < j < |db.entries| && db.entries[i].handle != 0 && db.entries[j].handle != 0
          ==> db.entries[i].handle < db.entries[j].handle)
    && (forall i :: 0 <= i < |db.entries| && db.entries[i].handle == 0 ==> db.entries[i].parent == 0 && db.entries[i].isDir)
  }

  predicate HasParent(entries: seq<Entry>, parent: Word32, before: nat) {
    Special(parent) || exists j :: 0 <= j < |entries| && j < before && entries[j].handle == parent
  }

  predicate ParentsOk(db: Db) {
    forall i {:trigger HasParent(db.entries, db.entries[i].parent, i)} ::
      0 <= i < |db.entries| ==> HasParent(db.entries, db.entries[i].parent, i)
  }

  predicate KeysUnique(db: Db) {
    forall i, j :: 0 <= i < j < |db.entries| && Unrooted(db, i) && Unrooted(db, j)
                   ==> KeyOf(db.entries[i]) != KeyOf(db.entries[j])
  }

  /** A live entry other than a storage root that the name index knows. */
  predicate Unrooted(db: Db, i: nat) {
    i < |db.entries| && i !in db.lostName && !db.entries[i].deleted && db.entries[i].handle != 0
  }

  predicate LostBounded(db: Db) {
    && (forall i :: i in db.lostName ==> i < |db.entries|)
    && (forall i :: i in db.lostHandle ==> i < |db.entries|)
  }

  predicate Invariant(db: Db) {
    HandlesOk(db) && ParentsOk(db) && KeysUnique(db) && LostBounded(db)
  }

  /** What the callers of `add_entry` guarantee about its parent argument. */
  predicate ParentKnown(db: Db, parent: Word32) { HasParent(db.entries, parent, |db.entries|) }

  predicate Admissible(db: Db, op: Op) {
    op.OpAdd? ==> ParentKnown(db, op.parent) && db.next < NO_PARENT
  }

  predicate AdmissibleRun(db: Db, ops: seq<Op>)
    decreases |ops|
  {
    ops == [] || (Admissible(db, ops[0]) && AdmissibleRun(Step(db, ops[0]), ops[1..]))
  }

  /** `later` still holds every entry of `earlier` at its place, with only the deleted mark
      and the size possibly changed, and never unmarks a deletion. */
  predicate Extends(earlier: Db, later: Db) {
    && |earlier.entries| <= |later.entries|
    && earlier.next <= later.next
    && (forall i :: 0 <= i < |earlier.entries| ==> SameIdentity(earlier.entries[i], later.entries[i]))
    && (forall i :: 0 <= i < |earlier.entries| ==> (i in later.lostHandle <==> i in earlier.lostHandle))
  }

  predicate SameIdentity(a: Entry, b: Entry) {
    && a.handle == b.handle && a.parent == b.parent && a.storage == b.storage && a.name == b.name
    && a.isDir == b.isDir && (a.deleted ==> b.deleted)
  }

  /** Parents stay known when entries keep their identity and a new one has a known parent. */
  lemma ParentsStay(db: Db, after: Db)
    requires ParentsOk(db) && |db.entries| <= |after.entries| <= |db.entries| + 1
    requires forall i :: 0 <= i < |db.entries| ==> SameIdentity(db.entries[i], after.entries[i])
    requires |db.entries| < |after.entries| ==> ParentKnown(db, after.entries[|db.entries|].parent)
    ensures ParentsOk(after)
  {
    forall i | 0 <= i < |after.entries|
      ensures HasParent(after.entries, after.entries[i].parent, i)
    {
      var parent := after.entries[i].parent;
      if i < |db.entries| {
        assert HasParent(db.entries, db.entries[i].parent, i);
        assert SameIdentity(db.entries[i], after.entries[i]);
      }
      if !Special(parent) {
        var j :| 0 <= j < |db.entries| && j < i && db.entries[j].handle == parent;
        assert SameIdentity(db.entries[j], after.entries[j]);
        assert after.entries[j].handle == parent;
      }
    }
  }

  lemma AddKeepsKeys(db: Db, info: FileInfo, parent: Word32, storage: Word32, g: Grant)
    requires Invariant(db)
    ensures KeysUnique(Add(db, info, parent, storage, g))
  {
    var after := Add(db, info, parent, storage, g);
    var n := |db.entries|;
    if |after.entries| != n {
      forall i, j | 0 <= i < j < |after.entries| && Unrooted(after, i) && Unrooted(after, j)
        ensures KeyOf(after.entries[i]) != KeyOf(after.entries[j])
      {
        assert after.entries[i] == db.entries[i] && Unrooted(db, i);
        if j < n {
          assert after.entries[j] == db.entries[j] && Unrooted(db, j);
        } else {
          assert !Holds(db, Key(info.name, parent, storage), i);
        }
      }
    } else {
      forall i, j | 0 <= i < j < n && Unrooted(after, i) && Unrooted(after, j)
        ensures KeyOf(after.entries[i]) != KeyOf(after.entries[j])
      {
        assert Unrooted(db, i) && Unrooted(db, j);
      }
    }
  }

  lemma RootKeeps(db: Db, storage: Word32, g: Grant)
    requires Invariant(db)
    ensures Invariant(AddRoot(db, storage, g)) && Extends(db, AddRoot(db, storage, g))
  {
    var after := AddRoot(db, storage, g);
    ParentsStay(db, after);
    KeysStay(db, after);
  }

  lemma DeleteKeeps(db: Db, k: nat)
    requires Invariant(db)
    ensures Invariant(MarkDeleted(db, k)) && Extends(db, MarkDeleted(db, k))
  {
    var after := MarkDeleted(db, k);
    ParentsStay(db, after);
    KeysStay(db, after);
  }

  lemma StatKeeps(db: Db, k: nat, size: int)
    requires Invariant(db)
    ensures Invariant(SetSize(db, k, size)) && Extends(db, SetSize(db, k, size))
  {
    var after := SetSize(db, k, size);
    ParentsStay(db, after);
    KeysStay(db, after);
  }

  lemma KeysStay(db: Db, after: Db)
    requires KeysUnique(db) && |db.entries| <= |after.entries|
    requires forall i :: 0 <= i < |after.entries| && Unrooted(after, i)
               ==> i < |db.entries| && Unrooted(db, i) && KeyOf(after.entries[i]) == KeyOf(db.entries[i])
    ensures KeysUnique(after)
  {
  }

  lemma AddKeeps(db: Db, info: FileInfo, parent: Word32, storage: Word32, g: Grant)
    requires Invariant(db) && ParentKnown(db, parent) && db.next < NO_PARENT
    ensures Invariant(Add(db, info, parent, storage, g)) && Extends(db, Add(db, info, parent, storage, g))
  {
    var after := Add(db, info, parent, storage, g);
    AddKeepsKeys(db, info, parent, storage, g);
    ParentsStay(db, after);
    assert HandlesOk(after) by {
      assert after.next == db.next || after.next == db.next + 1;
      assert forall i :: 0 <= i < |db.entries| ==> after.entries[i] == db.entries[i];
    }
  }

  lemma StepKeeps(db: Db, op: Op)
    requires Invariant(db) && Admissible(db, op)
    ensures Invariant(Step(db, op)) && Extends(db, Step(db, op))
  {
    match op
    case OpRoot(storage, g) => RootKeeps(db, storage, g);
    case OpAdd(info, parent, storage, g) => AddKeeps(db, info, parent, storage, g);
    case OpDelete(i) => DeleteKeeps(db, i);
    case OpStat(i, size) => StatKeeps(db, i, size);
  }

  /** Over every run of root, add and delete operations: handles stay unique, parents stay known,
      live keys stay unique, and every entry keeps its place, identity and deletion mark. */
  lemma {:induction false} RunKeeps(db: Db, ops: seq<Op>)
    requires Invariant(db) && AdmissibleRun(db, ops)
    ensures Invariant(Run(db, ops)) && Extends(db, Run(db, ops))
    decreases |ops|
  {
    if ops != [] {
      StepKeeps(db, ops[0]);
      RunKeeps(Step(db, ops[0]), ops[1..]);
      var mid, last := Step(db, ops[0]), Run(db, ops);
      forall i | 0 <= i < |db.entries| ensures SameIdentity(db.entries[i], last.entries[i]) {
        assert SameIdentity(db.entries[i], mid.entries[i]) && SameIdentity(mid.entries[i], last.entries[i]);
      }
    }
  }

  lemma {:induction false} RunSnoc(db: Db, ops: seq<Op>, op: Op)
    ensures Run(db, ops + [op]) == Step(Run(db, ops), op)
    decreases |ops|
  {
    if ops == [] {
      assert ops + [op] == [op];
    } else {
      assert (ops + [op])[1..] == ops[1..] + [op];
      RunSnoc(Step(db, ops[0]), ops[1..], op);
    }
  }

  lemma {:induction false} RunAppend(db: Db, a: seq<Op>, b: seq<Op>)
    ensures Run(db, a + b) == Run(Run(db, a), b)
    decreases |a|
  {
    if a == [] {
      assert a + b == b;
    } else {
      assert (a + b)[1..] == a[1..] + b;
      RunAppend(Step(db, a[0]), a[1..], b);
    }
  }

  lemma {:induction false} AdmissibleAppend(db: Db, a: seq<Op>, b: seq<Op>)
    requires AdmissibleRun(db, a) && AdmissibleRun(Run(db, a), b)
    ensures AdmissibleRun(db, a + b)
    decreases |a|
  {
    if a == [] {
      assert a + b == b;
    } else {
      assert (a + b)[1..] == a[1..] + b;
      AdmissibleAppend(Step(db, a[0]), a[1..], b);
    }
  }

  lemma {:induction false} RunSize(db: Db, ops: seq<Op>)
    ensures |Run(db, ops).entries| <= |db.entries| + |ops|
    decreases |ops|
  {
    if ops != [] { RunSize(Step(db, ops[0]), ops[1..]); }
  }

  lemma RunTwo(db: Db, a: Op, b: Op)
    ensures Run(db, [a, b]) == Step(Step(db, a), b)
    ensures Admissible(db, a) && Admissible(Step(db, a), b) ==> AdmissibleRun(db, [a, b])
  {
    assert [a, b][1..] == [b] && [b][1..] == [];
    assert Run(Step(db, a), [b]) == Step(Step(db, a), b);
    assert AdmissibleRun(Step(Step(db, a), b), []);
    assert Admissible(Step(db, a), b) ==> AdmissibleRun(Step(db, a), [b]);
  }

  predicate Indexed(op: Op) { op.OpDelete? || op.OpStat? || (op.grant.byName && op.grant.byHandle) }

  /** As long as the buckets can grow, no entry is lost to an index: a key or handle is then found exactly
      when a live entry of the list has it. */
  lemma {:induction false} NothingLost(db: Db, ops: seq<Op>)
    requires db.lostName == {} && db.lostHandle == {} && forall i :: 0 <= i < |ops| ==> Indexed(ops[i])
    ensures var last := Run(db, ops);
      && last.lostName == {} && last.lostHandle == {}
      && (forall key :: Present(last, key) <==> Live(last, key))
    decreases |ops|
  {
    if ops != [] { NothingLost(Step(db, ops[0]), ops[1..]); }
    else {
      forall key ensures Present(db, key) <==> Live(db, key) {
        if Live(db, key) {
          var i :| 0 <= i < |db.entries| && !db.entries[i].deleted && KeyOf(db.entries[i]) == key;
          assert Holds(db, key, i);
        }
      }
    }
  }

  /** Some entry of the list is live and has this key. */
  predicate Live(db: Db, key: Key) {
    exists i :: 0 <= i < |db.entries| && !db.entries[i].deleted && KeyOf(db.entries[i]) == key
  }

  // ---------- resolving handles ----------

  predicate Resolves(db: Db, roots: map<Word32, string>, handle: Word32, i: nat) {
    && i < |db.entries| && i !in db.lostHandle && !db.entries[i].deleted
    && db.entries[i].handle == handle && db.entries[i].storage in roots
  }

  /** A scan of the list from its newest entry. */
  function ScanHandle(db: Db, roots: map<Word32, string>, handle: Word32, below: nat): (r: Option<nat>)
    requires below <= |db.entries|
    ensures r.Some? ==> r.value < below && Resolves(db, roots, handle, r.value)
    ensures forall i: nat :: i < below && Resolves(db, roots, handle, i) ==> r.Some? && i <= r.value
  {
    if below == 0 then None
    else if Resolves(db, roots, handle, below - 1) then Some(below - 1)
    else ScanHandle(db, roots, handle, below - 1)
  }

  function Resolve(db: Db, roots: map<Word32, string>, handle: Word32): Option<nat> {
    ScanHandle(db, roots, handle, |db.entries|)
  }

  /** A nonzero handle names at most one entry, so any entry that resolves is the scan's result. */
  lemma ResolveUnique(db: Db, roots: map<Word32, string>, handle: Word32, i: nat)
    requires HandlesOk(db) && handle != 0
    requires Resolves(db, roots, handle, i)
    ensures Resolve(db, roots, handle) == Some(i)
  {
  }

  /** Once an entry is deleted, its nonzero handle resolves to nothing in any later state. */
  lemma DeletedNeverResolves(db: Db, ops: seq<Op>, roots: map<Word32, string>, i: nat)
    requires Invariant(db) && AdmissibleRun(db, ops)
    requires i < |db.entries| && db.entries[i].deleted && db.entries[i].handle != 0
    ensures Resolve(Run(db, ops), roots, db.entries[i].handle) == None
  {
    RunKeeps(db, ops);
    var last := Run(db, ops);
    assert SameIdentity(db.entries[i], last.entries[i]);
    var r := Resolve(last, roots, db.entries[i].handle);
    if r.Some? {
      assert false;
    }
  }

  /** A handle given out by an operation of the run is larger than every earlier one. */
  lemma HandlesNeverReassigned(db: Db, ops: seq<Op>, i: nat)
    requires Invariant(db) && AdmissibleRun(db, ops)
    requires |db.entries| <= i < |Run(db, ops).entries|
    ensures var h := Run(db, ops).entries[i].handle; h == 0 || h >= db.next
    decreases |ops|
  {
    if ops != [] {
      StepKeeps(db, ops[0]);
      var mid := Step(db, ops[0]);
      RunKeeps(mid, ops[1..]);
      if i < |mid.entries| {
        assert SameIdentity(mid.entries[i], Run(db, ops).entries[i]);
      } else {
        HandlesNeverReassigned(mid, ops[1..], i);
      }
    }
  }

  // ---------- the resumable child iterator ----------

  predicate IsChild(e: Entry, parent: Word32, storage: Word32) {
    !e.deleted && e.parent == parent && e.storage == storage && e.handle != e.parent
  }

  /** The newest child below position `k`. */
  function NextChild(entries: seq<Entry>, parent: Word32, storage: Word32, k: nat): (r: Option<nat>)
    requires k <= |entries|
    ensures r.Some? ==> r.value < k && IsChild(entries[r.value], parent, storage)
    ensures forall i :: (if r.Some? then r.value + 1 else 0) <= i < k ==> !IsChild(entries[i], parent, storage)
  {
    if k == 0 then None
    else if IsChild(entries[k - 1], parent, storage) then Some(k - 1)
    else NextChild(entries, parent, storage, k - 1)
  }

  datatype IterOp = Next | Mutate(op: Op)

  datatype Iter = Iter(db: Db, parent: Word32, storage: Word32, cursor: nat, returned: seq<nat>)

  predicate IterOk(it: Iter) { it.cursor <= |it.db.entries| }

  function IterStep(it: Iter, op: IterOp): (after: Iter)
    requires IterOk(it)
    ensures IterOk(after)
  {
    match op
    case Next =>
      (match NextChild(it.db.entries, it.parent, it.storage, it.cursor)
       case None => it.(cursor := 0)
       case Some(i) => it.(cursor := i, returned := it.returned + [i]))
    case Mutate(o) => it.(db := Step(it.db, o))
  }

  function IterRun(it: Iter, ops: seq<IterOp>): (after: Iter)
    requires IterOk(it)
    ensures IterOk(after)
    decreases |ops|
  {
    if ops == [] then it else IterRun(IterStep(it, ops[0]), ops[1..])
  }

  predicate Mutations(db: Db, ops: seq<IterOp>)
    decreases |ops|
  {
    ops == []
    || match ops[0]
       case Next => Mutations(db, ops[1..])
       case Mutate(o) => Admissible(db, o) && Mutations(Step(db, o), ops[1..])
  }

  /** What holds of an iteration begun over the first `n` entries. */
  predicate IterInv(it: Iter, n: nat) {
    && it.cursor <= n <= |it.db.entries|
    && (forall a, b :: 0 <= a < b < |it.returned| ==> it.returned[a] > it.returned[b])
    && (forall a :: 0 <= a < |it.returned| ==> it.cursor <= it.returned[a] < n)
    && (forall i :: it.cursor <= i < n && IsChild(it.db.entries[i], it.parent, it.storage) ==> i in it.returned)
    && (forall a :: 0 <= a < |it.returned|
          ==> var e := it.db.entries[it.returned[a]];
              IsChild(e.(deleted := false), it.parent, it.storage))
  }

  lemma IterNextKeeps(it: Iter, n: nat)
    requires IterInv(it, n)
    ensures IterInv(IterStep(it, Next), n)
  {
    var after := IterStep(it, Next);
    var r := NextChild(it.db.entries, it.parent, it.storage, it.cursor);
    if r.Some? {
      assert after.returned[|it.returned|] == r.value;
      forall i | after.cursor <= i < n && IsChild(it.db.entries[i], it.parent, it.storage)
        ensures i in after.returned
      {
        if i >= it.cursor { assert i in it.returned; }
      }
    }
  }

  lemma IterMutateKeeps(it: Iter, n: nat, op: Op)
    requires IterInv(it, n) && Invariant(it.db) && Admissible(it.db, op)
    ensures IterInv(IterStep(it, Mutate(op)), n) && Invariant(IterStep(it, Mutate(op)).db)
  {
    StepKeeps(it.db, op);
    var after := IterStep(it, Mutate(op));
    forall i | 0 <= i < |it.db.entries|
      ensures SameIdentity(it.db.entries[i], after.db.entries[i])
    {}
    forall a | 0 <= a < |after.returned|
      ensures var e := after.db.entries[after.returned[a]]; IsChild(e.(deleted := false), it.parent, it.storage)
    {
      assert SameIdentity(it.db.entries[it.returned[a]], after.db.entries[it.returned[a]]);
    }
  }

  lemma {:induction false} IterRunKeeps(it: Iter, n: nat, ops: seq<IterOp>)
    requires IterInv(it, n) && Invariant(it.db) && Mutations(it.db, ops)
    ensures IterInv(IterRun(it, ops), n)
    decreases |ops|
  {
    if ops != [] {
      match ops[0] {
        case Next => IterNextKeeps(it, n);
        case Mutate(o) => IterMutateKeeps(it, n, o);
      }
      IterRunKeeps(IterStep(it, ops[0]), n, ops[1..]);
    }
  }

  /** An iteration interleaved with any admissible additions and deletions returns every child at
      most once and newest first, and when it ends the entries of its starting snapshot that
      are still live children have all been returned. */
  lemma IterationComplete(db: Db, parent: Word32, storage: Word32, ops: seq<IterOp>)
    requires Invariant(db) && Mutations(db, ops)
    ensures var n := |db.entries|;
            var last := IterRun(Iter(db, parent, storage, n, []), ops);
            && n <= |last.db.entries|
            && (forall a, b :: 0 <= a < b < |last.returned| ==> last.returned[a] > last.returned[b])
            && (forall i :: i in last.returned ==> 0 <= i < n && IsChild(last.db.entries[i].(deleted := false), parent, storage))
            && (last.cursor == 0 ==>
                  forall i :: 0 <= i < n && IsChild(last.db.entries[i], parent, storage) ==> i in last.returned)
  {
    var it := Iter(db, parent, storage, |db.entries|, []);
    IterRunKeeps(it, |db.entries|, ops);
    IterKeepsQuery(it, ops);
  }

  lemma IterKeepsQuery(it: Iter, ops: seq<IterOp>)
    requires IterOk(it)
    ensures IterRun(it, ops).parent == it.parent && IterRun(it, ops).storage == it.storage
    decreases |ops|
  {
    if ops != [] { IterKeepsQuery(IterStep(it, ops[0]), ops[1..]); }
  }

  lemma {:induction false} IterSnoc(it: Iter, ops: seq<IterOp>, op: IterOp)
    requires IterOk(it)
    ensures IterRun(it, ops + [op]) == IterStep(IterRun(it, ops), op)
    decreases |ops|
  {
    if ops == [] {
      assert ops + [op] == [op] && [op][1..] == [];
    } else {
      assert (ops + [op])[1..] == ops[1..] + [op];
      IterSnoc(IterStep(it, ops[0]), ops[1..], op);
    }
  }
}
