/** The object-handle database as the program keeps it: entries in pool blocks linked newest
    first, two tables of growable buckets, and one resumable child search. A pointer to an
    entry is the place of its slot in the pool. */
module HandleDatabase {
  import opened Basics
  import opened HandleModel
  import opened HandlePaths

  datatype Ref = Ref(block: nat, index: nat)

  datatype Node = Node(entry: Entry, next: Option<Ref>)

  datatype HashNode = HashNode(entries: seq<Ref>, size: nat, capacity: nat)

  /** What malloc and realloc answer during one allocation of an entry. */
  datatype Reply = Reply(block: bool, copy: bool, growHandle: bool, growName: bool)

  const HASH_TABLE_SIZE: nat := 1024
  const INITIAL_NODE_CAPACITY: nat := 4
  const NODE_GROWTH_FACTOR: nat := 2
  const POINTER_SIZE: nat := 8
  const CAPACITY_LIMIT: nat := 0x8000_0000 / POINTER_SIZE

  function HashName(name: string): (h: Word32) {
    if name == "" then 5381
    else (HashName(name[..|name| - 1]) * 33 + name[|name| - 1] as int) % 0x1_0000_0000
  }

  method HashFunctionName(name: string) returns (slot: nat)
    ensures slot == HashName(name) % HASH_TABLE_SIZE
  {
    var hash := 5381;
    for i := 0 to |name|
      invariant hash == HashName(name[..i])
    {
      assert name[..i + 1][..i] == name[..i];
      hash := (hash * 33 + name[i] as int) % 0x1_0000_0000;
    }
    assert name[..|name|] == name;
    slot := hash % HASH_TABLE_SIZE;
  }

  predicate NodeOk(node: HashNode) { node.size <= node.capacity == |node.entries| }

  function Bucket(node: HashNode): seq<Ref>
    requires NodeOk(node)
  {
    node.entries[..node.size]
  }

  /** Appends to a bucket, growing it first when it is full; a refused growth drops the entry. */
  method InsertEntryGeneric(node: HashNode, r: Ref, granted: bool) returns (after: HashNode, stored: bool)
    requires NodeOk(node)
    ensures NodeOk(after)
    ensures stored <==> node.size < node.capacity || (granted && node.capacity < CAPACITY_LIMIT)
    ensures Bucket(after) == if stored then Bucket(node) + [r] else Bucket(node)
    ensures after.capacity <= node.capacity || after.capacity <= INITIAL_NODE_CAPACITY
            || after.capacity <= NODE_GROWTH_FACTOR * node.size
  {
    after := node;
    if after.capacity == 0 {
      if !granted { return after, false; }
      after := HashNode(seq(INITIAL_NODE_CAPACITY, _ => Ref(0, 0)), 0, INITIAL_NODE_CAPACITY);
    }
    if after.size >= after.capacity {
      if after.capacity >= CAPACITY_LIMIT || !granted { return after, false; }
      var bigger := after.capacity * NODE_GROWTH_FACTOR;
      after := HashNode(after.entries + seq(bigger - after.capacity, _ => Ref(0, 0)), after.size, bigger);
    }
    after := after.(entries := after.entries[after.size := r], size := after.size + 1);
    stored := true;
  }

  // ---------- index invariant ----------

  datatype Table = ByName | ByHandle

  ghost function SlotOf(t: Table, e: Entry): nat {
    if t.ByName? then HashName(e.name) % HASH_TABLE_SIZE else e.handle % HASH_TABLE_SIZE
  }

  ghost predicate Owns(t: Table, r: Ref, i: nat, b: nat, created: seq<Ref>, entries: seq<Entry>, lost: set<nat>) {
    i < |created| == |entries| && created[i] == r && SlotOf(t, entries[i]) == b && i !in lost
  }

  /** Which entries each bucket holds, in order, and which entries no bucket took. */
  datatype Index = Index(owners: seq<seq<nat>>, lost: set<nat>)

  /** Bucket `b` lists the entries at places `owners[b]`, in order: all of them hash to `b`, and
      every entry that was not lost is in its bucket. */
  ghost predicate IndexOk(t: Table, table: seq<HashNode>, ix: Index, created: seq<Ref>, entries: seq<Entry>) {
    && |table| == |ix.owners| == HASH_TABLE_SIZE
    && (forall b :: 0 <= b < HASH_TABLE_SIZE ==> NodeOk(table[b]) && |ix.owners[b]| == table[b].size)
    && (forall b, j {:trigger ix.owners[b][j]} :: 0 <= b < HASH_TABLE_SIZE && 0 <= j < |ix.owners[b]| ==>
          Owns(t, table[b].entries[j], ix.owners[b][j], b, created, entries, ix.lost))
    && (forall i {:trigger SlotOf(t, entries[i])} :: 0 <= i < |entries| && i !in ix.lost
                                                     ==> i in ix.owners[SlotOf(t, entries[i])])
    && (forall i :: i in ix.lost ==> i < |entries|)
  }

  ghost function IndexAfter(ix: Index, slot: nat, n: nat, stored: bool): Index
    requires slot < |ix.owners|
  {
    if stored then ix.(owners := ix.owners[slot := ix.owners[slot] + [n]]) else ix.(lost := ix.lost + {n})
  }

  lemma IndexInsert(t: Table, table: seq<HashNode>, ix: Index, created: seq<Ref>, entries: seq<Entry>,
                    r: Ref, e: Entry, node: HashNode, stored: bool)
    requires IndexOk(t, table, ix, created, entries) && |created| == |entries|
    requires NodeOk(node)
    requires var prior := table[SlotOf(t, e)];
             Bucket(node) == if stored then Bucket(prior) + [r] else Bucket(prior)
    ensures IndexOk(t, table[SlotOf(t, e) := node], IndexAfter(ix, SlotOf(t, e), |created|, stored),
                    created + [r], entries + [e])
  {
    var slot := SlotOf(t, e);
    var table', created', entries' := table[slot := node], created + [r], entries + [e];
    var ix' := IndexAfter(ix, slot, |created|, stored);
    assert forall j :: 0 <= j < table[slot].size ==> node.entries[j] == Bucket(node)[j] == table[slot].entries[j];
    assert stored ==> node.entries[table[slot].size] == Bucket(node)[table[slot].size] == r;
    forall b, j | 0 <= b < HASH_TABLE_SIZE && 0 <= j < |ix'.owners[b]|
      ensures Owns(t, table'[b].entries[j], ix'.owners[b][j], b, created', entries', ix'.lost)
    {
      if j < |ix.owners[b]| {
        assert Owns(t, table[b].entries[j], ix.owners[b][j], b, created, entries, ix.lost);
      }
    }
    IndexCovers(t, table, ix, created, entries, e, stored);
  }

  lemma IndexCovers(t: Table, table: seq<HashNode>, ix: Index, created: seq<Ref>, entries: seq<Entry>,
                    e: Entry, stored: bool)
    requires IndexOk(t, table, ix, created, entries) && |created| == |entries|
    ensures var after, entries' := IndexAfter(ix, SlotOf(t, e), |created|, stored), entries + [e];
            && (forall i {:trigger SlotOf(t, entries'[i])} :: 0 <= i < |entries'| && i !in after.lost
                                                             ==> i in after.owners[SlotOf(t, entries'[i])])
            && (forall i :: i in after.lost ==> i < |entries'|)
  {
    var n, slot := |created|, SlotOf(t, e);
    var after, entries' := IndexAfter(ix, slot, n, stored), entries + [e];
    forall i | 0 <= i < |entries'| && i !in after.lost ensures i in after.owners[SlotOf(t, entries'[i])] {
      if i < n {
        assert i in ix.owners[SlotOf(t, entries[i])];
      } else {
        assert after.owners[slot][|ix.owners[slot]|] == n;
      }
    }
  }

  /** What `n` entries can make of the buckets: none holds more than all of them, or has grown further
      than doubling asks for. */
  ghost predicate Compact(table: seq<HashNode>, n: nat) {
    forall b :: 0 <= b < |table| ==> table[b].size <= n && table[b].capacity <= INITIAL_NODE_CAPACITY + NODE_GROWTH_FACTOR * n
  }

  /** With so few entries no bucket has reached the size at which it stops growing. */
  predicate Small(n: nat) { INITIAL_NODE_CAPACITY + NODE_GROWTH_FACTOR * n < CAPACITY_LIMIT }

  /** Puts an entry in its bucket of one table. */
  method InsertInto(ghost t: Table, table: seq<HashNode>, ghost ix: Index, ghost created: seq<Ref>,
                    ghost entries: seq<Entry>, r: Ref, ghost e: Entry, slot: nat, granted: bool)
    returns (after: seq<HashNode>, stored: bool, ghost ix': Index)
    requires IndexOk(t, table, ix, created, entries) && |created| == |entries|
    requires slot == SlotOf(t, e) && Compact(table, |entries|)
    ensures IndexOk(t, after, ix', created + [r], entries + [e]) && Compact(after, |entries| + 1)
    ensures ix'.lost == if stored then ix.lost else ix.lost + {|created|}
    ensures granted && Small(|entries|) ==> stored
  {
    var node;
    node, stored := InsertEntryGeneric(table[slot], r, granted);
    IndexInsert(t, table, ix, created, entries, r, e, node, stored);
    after := table[slot := node];
    ix' := IndexAfter(ix, slot, |created|, stored);
  }

  /** The index depends only on the names and handles of the entries. */
  lemma IndexFrame(t: Table, table: seq<HashNode>, ix: Index, created: seq<Ref>, entries: seq<Entry>, i: nat, e: Entry)
    requires IndexOk(t, table, ix, created, entries) && |created| == |entries|
    requires i < |entries| && SameIdentity(entries[i], e)
    ensures IndexOk(t, table, ix, created, entries[i := e])
  {
    assert forall k :: 0 <= k < |entries| ==> SlotOf(t, entries[k]) == SlotOf(t, entries[i := e][k]);
    forall b, j | 0 <= b < HASH_TABLE_SIZE && 0 <= j < |ix.owners[b]|
      ensures Owns(t, table[b].entries[j], ix.owners[b][j], b, created, entries[i := e], ix.lost)
    {
      assert Owns(t, table[b].entries[j], ix.owners[b][j], b, created, entries, ix.lost);
    }
  }

  // ---------- list and pool invariants ----------

  /** A slot that has been handed out: in an older block, or above the free ones of the newest. */
  ghost predicate HandedOut(blocks: nat, free: nat, r: Ref) {
    r.block < blocks && r.index < POOL_BLOCK_SIZE && (r.block == blocks - 1 ==> r.index >= free)
  }

  ghost predicate PoolOk(blocks: nat, free: nat, created: seq<Ref>) {
    && free <= POOL_BLOCK_SIZE && (blocks == 0 ==> free == 0)
    && (forall i :: 0 <= i < |created| ==> HandedOut(blocks, free, created[i]))
  }

  ghost function RefBelow(created: seq<Ref>, k: nat): Option<Ref> {
    if 0 < k <= |created| then Some(created[k - 1]) else None
  }

  /** `created`, read backwards, is the linked list from `head`. */
  ghost predicate Linked(mem: map<Ref, Node>, created: seq<Ref>, entries: seq<Entry>, head: Option<Ref>) {
    && |created| == |entries|
    && (forall i, j :: 0 <= i < j < |created| ==> created[i] != created[j])
    && (forall i :: 0 <= i < |created| ==> Stored(mem, created, entries, i))
    && head == RefBelow(created, |created|)
  }

  ghost predicate Stored(mem: map<Ref, Node>, created: seq<Ref>, entries: seq<Entry>, i: nat) {
    && i < |created| == |entries| && created[i] in mem
    && mem[created[i]] == Node(entries[i], RefBelow(created, i))
  }

  lemma LinkedInsert(mem: map<Ref, Node>, created: seq<Ref>, entries: seq<Entry>, head: Option<Ref>, r: Ref, e: Entry)
    requires Linked(mem, created, entries, head) && r !in created
    ensures Linked(mem[r := Node(e, head)], created + [r], entries + [e], Some(r))
  {
    var mem', created', entries' := mem[r := Node(e, head)], created + [r], entries + [e];
    forall i | 0 <= i < |created'| ensures Stored(mem', created', entries', i) {
      if i < |created| { assert Stored(mem, created, entries, i); }
    }
  }

  lemma LinkedUpdate(mem: map<Ref, Node>, created: seq<Ref>, entries: seq<Entry>, head: Option<Ref>, i: nat, e: Entry)
    requires Linked(mem, created, entries, head) && i < |created| && created[i] in mem
    ensures Linked(mem[created[i] := mem[created[i]].(entry := e)], created, entries[i := e], head)
  {
    var mem', entries' := mem[created[i] := mem[created[i]].(entry := e)], entries[i := e];
    forall k | 0 <= k < |created| ensures Stored(mem', created, entries', k) {
      assert Stored(mem, created, entries, k) && Stored(mem, created, entries, i);
    }
  }

  /** The buffer from `offset` on holds the end of the path, before a terminating NUL. */
  ghost predicate Filled(buf: seq<char>, rootLen: nat, offset: nat, total: nat, full: string) {
    && rootLen <= offset <= total < |buf| && total == rootLen + |full|
    && buf[total] == '\0' && buf[offset..total] == full[offset - rootLen..]
  }

  lemma PathPiece(full: string, here: string, name: string)
    requires here <= full && |name| < |here|
    requires here == here[..|here| - |name| - 1] + "/" + name
    ensures full[|here| - |name| - 1..] == ['/'] + name + full[|here|..]
  {
    assert full == here + full[|here|..];
  }

  /** The entries from `done` on have been looked up, the older ones not yet. */
  ghost predicate HalfSwept(mid: Db, roots: Roots, parent: Word32, storage: Word32, stat: string -> Option<int>,
                            entries: seq<Entry>, done: nat)
  {
    && Wellfounded(mid) && done <= |entries| == |mid.entries|
    && (forall k :: 0 <= k < done ==> entries[k] == mid.entries[k])
    && (forall k :: done <= k < |entries| ==> entries[k] == SweepEntry(mid, roots, parent, storage, stat, k))
  }

  lemma FilledStep(before: seq<char>, after: seq<char>, rootLen: nat, offset: nat, total: nat,
                   full: string, here: string, name: string)
    requires Filled(before, rootLen, offset, total, full) && |after| == |before|
    requires here <= full && |here| == offset - rootLen && |name| < |here|
    requires here == here[..|here| - |name| - 1] + "/" + name
    requires after[offset - |name| - 1] == '/'
    requires forall n :: 0 <= n < |name| ==> after[offset - |name| + n] == name[n]
    requires forall n :: offset <= n < |before| ==> after[n] == before[n]
    ensures Filled(after, rootLen, offset - |name| - 1, total, full)
  {
    PathPiece(full, here, name);
    var start := offset - |name| - 1;
    assert after[offset..total] == before[offset..total];
    assert after[start + 1..offset] == name;
    Split(after, start, offset, total);
  }

  lemma Split(s: seq<char>, start: nat, offset: nat, total: nat)
    requires start < offset <= total <= |s|
    ensures s[start..total] == [s[start]] + s[start + 1..offset] + s[offset..total]
  {
  }

  /** Entries that the search passes over need no lookup. */
  lemma HalfSweptSkip(mid: Db, roots: Roots, parent: Word32, storage: Word32, stat: string -> Option<int>,
                      entries: seq<Entry>, k: nat)
    requires HalfSwept(mid, roots, parent, storage, stat, entries, k)
    ensures var next := NextChild(entries, parent, storage, k);
            HalfSwept(mid, roots, parent, storage, stat, entries, if next.Some? then next.value + 1 else 0)
  {
  }

  /** The allocator's answers as the list specification sees them. */
  ghost predicate Granted(reply: Reply, g: Grant, n: nat) {
    && g.block == reply.block && g.copy == reply.copy
    && (reply.growHandle && Small(n) ==> g.byHandle) && (reply.growName && Small(n) ==> g.byName)
  }

  datatype Command =
    | Root(storage: Word32, reply: Reply)
    | AddFile(info: FileInfo, parent: Word32, storage: Word32, reply: Reply)
    | Delete(name: string, parent: Word32, storage: Word32)
    | Scan(roots: Roots, files: seq<FileInfo>, replies: seq<Reply>, showHidden: bool,
           parent: Word32, storage: Word32, stat: string -> Option<int>)

  /** `op` is what a command other than a scan does to a list `db`. */
  ghost predicate MatchesOne(db: Db, c: Command, op: Op)
    requires !c.Scan?
  {
    match c
    case Root(storage, reply) => op.OpRoot? && op.storage == storage && Granted(reply, op.grant, |db.entries|)
    case AddFile(info, parent, storage, reply) =>
      op.OpAdd? && op.info == info && op.parent == parent && op.storage == storage && Granted(reply, op.grant, |db.entries|)
    case Delete(name, parent, storage) =>
      && op.OpDelete?
      && (if Present(db, Key(name, parent, storage)) then Holds(db, Key(name, parent, storage), op.index)
          else op.index == |db.entries|)
  }

  /** The scanned folder exists, and there are handles for all its files. */
  predicate CanScan(db: Db, c: Command)
    requires c.Scan?
  {
    Invariant(db) && |c.replies| == |c.files| && ParentKnown(db, c.parent) && Room(db, |c.files|)
  }

  ghost predicate GrantedAll(replies: seq<Reply>, grants: seq<Grant>, n: nat) {
    |grants| == |replies| && forall k :: 0 <= k < |grants| ==> Granted(replies[k], grants[k], n + k)
  }

  /** The run `ops` has the effect of the scan `c` on `db`, with these answers of the allocator. */
  ghost predicate ScanRun(db: Db, c: Command, ops: seq<Op>, grants: seq<Grant>)
    requires c.Scan? && CanScan(db, c)
  {
    && GrantedAll(c.replies, grants, |db.entries|) && AdmissibleRun(db, ops)
    && Run(db, ops) == Rescan(db, c.roots, c.files, grants, c.showHidden, c.parent, c.storage, c.stat)
    && ((forall k :: 0 <= k < |grants| ==> grants[k].byName && grants[k].byHandle) ==> forall k :: 0 <= k < |ops| ==> Indexed(ops[k]))
    && |Run(db, ops).entries| <= |db.entries| + |c.files|
  }

  /** The same for some answers, kept folded `fold` times so that proofs open it only by ScansIs. */
  ghost predicate Scans(db: Db, c: Command, ops: seq<Op>, fold: nat)
    requires c.Scan?
  {
    if fold > 0 then Scans(db, c, ops, fold - 1) else CanScan(db, c) && exists grants: seq<Grant> :: ScanRun(db, c, ops, grants)
  }

  lemma {:induction false} ScansIs(db: Db, c: Command, ops: seq<Op>, fold: nat)
    requires c.Scan?
    ensures Scans(db, c, ops, fold) <==> CanScan(db, c) && exists grants: seq<Grant> :: ScanRun(db, c, ops, grants)
  {
    if fold > 0 { ScansIs(db, c, ops, fold - 1); }
  }

  /** The run `ops` is what the command does to a list `db`. */
  ghost predicate Matches(db: Db, c: Command, ops: seq<Op>) {
    if c.Scan? then Scans(db, c, ops, |c.files| + 1) else |ops| == 1 && MatchesOne(db, c, ops[0])
  }

  /** The operations of the first `n` blocks. */
  function Flat(blocks: seq<seq<Op>>, n: nat): seq<Op>
    requires n <= |blocks|
  {
    if n == 0 then [] else Flat(blocks, n - 1) + blocks[n - 1]
  }

  function Reached(db: Db, blocks: seq<seq<Op>>, n: nat): Db
    requires n <= |blocks|
  {
    if n == 0 then db else Run(Reached(db, blocks, n - 1), blocks[n - 1])
  }

  lemma {:induction false} ReachedRuns(db: Db, blocks: seq<seq<Op>>, n: nat)
    requires n <= |blocks|
    ensures Reached(db, blocks, n) == Run(db, Flat(blocks, n))
  {
    if n > 0 {
      ReachedRuns(db, blocks, n - 1);
      RunAppend(db, Flat(blocks, n - 1), blocks[n - 1]);
    }
  }

  /** The blocks carry out the first of the commands one after the other, from `db` on. */
  ghost predicate Carried(db: Db, commands: seq<Command>, blocks: seq<seq<Op>>) {
    && |blocks| <= |commands|
    && (forall n {:trigger Matches(Reached(db, blocks, n), commands[n], blocks[n])} ::
          0 <= n < |blocks| ==> Matches(Reached(db, blocks, n), commands[n], blocks[n]))
  }

  /** Files are only ever added below a parent that exists by then, and while handles last, whatever the
      allocator has answered. */
  ghost predicate Allowed(db: Db, commands: seq<Command>, n: nat)
    requires n <= |commands|
    decreases |commands| - n
  {
    n == |commands| ||
    ( && (commands[n].AddFile? ==> ParentKnown(db, commands[n].parent) && db.next < NO_PARENT)
      && (commands[n].Scan? ==> CanScan(db, commands[n]))
      && (forall ops :: Matches(db, commands[n], ops) ==> Allowed(Run(db, ops), commands, n + 1)))
  }

  predicate HasScan(commands: seq<Command>) { exists n :: 0 <= n < |commands| && commands[n].Scan? }

  /** The commands are given to a list that keeps its invariant, and are all allowed. */
  ghost predicate Calm(db: Db, commands: seq<Command>) { Invariant(db) && Allowed(db, commands, 0) }

  /** A command that is allowed keeps the invariant of the list. */
  lemma MatchedKeeps(db: Db, commands: seq<Command>, n: nat, ops: seq<Op>)
    requires Invariant(db) && n < |commands| && Allowed(db, commands, n) && Matches(db, commands[n], ops)
    ensures AdmissibleRun(db, ops) && Invariant(Run(db, ops)) && Extends(db, Run(db, ops)) && Allowed(Run(db, ops), commands, n + 1)
  {
    var c := commands[n];
    if c.Scan? {
      ScansIs(db, c, ops, |c.files| + 1);
      var grants: seq<Grant> :| ScanRun(db, c, ops, grants);
    } else {
      assert ops == [ops[0]] && [ops[0]][1..] == [];
      assert AdmissibleRun(Step(db, ops[0]), []) && Admissible(db, ops[0]);
    }
    RunKeeps(db, ops);
  }

  lemma MatchedExtends(db: Db, commands: seq<Command>, n: nat, ops: seq<Op>)
    requires Invariant(db) && n < |commands| && Allowed(db, commands, n) && Matches(db, commands[n], ops)
    ensures Extends(db, Run(db, ops))
  {
    MatchedKeeps(db, commands, n, ops);
  }

  lemma AllowedStep(db: Db, commands: seq<Command>, blocks: seq<seq<Op>>, n: nat)
    requires Carried(db, commands, blocks) && n < |blocks|
    requires Invariant(Reached(db, blocks, n)) && Allowed(Reached(db, blocks, n), commands, n)
    ensures AdmissibleRun(Reached(db, blocks, n), blocks[n])
    ensures Invariant(Reached(db, blocks, n + 1)) && Allowed(Reached(db, blocks, n + 1), commands, n + 1)
  {
    MatchedKeeps(Reached(db, blocks, n), commands, n, blocks[n]);
  }

  lemma {:induction false} AllowedAll(db: Db, commands: seq<Command>, blocks: seq<seq<Op>>, n: nat)
    requires Invariant(db) && Allowed(db, commands, 0) && Carried(db, commands, blocks) && n <= |blocks|
    ensures Invariant(Reached(db, blocks, n)) && Allowed(Reached(db, blocks, n), commands, n)
  {
    if n > 0 {
      AllowedAll(db, commands, blocks, n - 1);
      AllowedStep(db, commands, blocks, n - 1);
    }
  }

  /** Commands that are allowed, whatever the allocator answers, are admissible runs. */
  lemma AllowedRuns(db: Db, commands: seq<Command>, blocks: seq<seq<Op>>)
    requires Invariant(db) && Allowed(db, commands, 0) && Carried(db, commands, blocks)
    ensures AdmissibleRun(db, Flat(blocks, |blocks|))
  {
    BlocksAdmissible(db, commands, blocks, |blocks|);
  }

  lemma {:induction false} BlocksAdmissible(db: Db, commands: seq<Command>, blocks: seq<seq<Op>>, n: nat)
    requires Calm(db, commands) && Carried(db, commands, blocks) && n <= |blocks|
    ensures AdmissibleRun(db, Flat(blocks, n))
  {
    if n > 0 {
      BlocksAdmissible(db, commands, blocks, n - 1);
      NextAdmissible(db, commands, blocks, n);
    }
  }

  lemma NextAdmissible(db: Db, commands: seq<Command>, blocks: seq<seq<Op>>, n: nat)
    requires Calm(db, commands) && Carried(db, commands, blocks) && 0 < n <= |blocks|
    requires AdmissibleRun(db, Flat(blocks, n - 1))
    ensures AdmissibleRun(db, Flat(blocks, n))
  {
    AllowedBlock(db, commands, blocks, n - 1);
    AdmissibleMore(db, blocks, n - 1);
  }

  predicate BlockAdmissible(db: Db, blocks: seq<seq<Op>>, n: nat) {
    n < |blocks| && AdmissibleRun(Reached(db, blocks, n), blocks[n])
  }

  lemma AllowedBlock(db: Db, commands: seq<Command>, blocks: seq<seq<Op>>, n: nat)
    requires Invariant(db) && Allowed(db, commands, 0) && Carried(db, commands, blocks) && n < |blocks|
    ensures BlockAdmissible(db, blocks, n)
  {
    AllowedAll(db, commands, blocks, n);
    AllowedStep(db, commands, blocks, n);
  }

  lemma AdmissibleMore(db: Db, blocks: seq<seq<Op>>, n: nat)
    requires n < |blocks| && AdmissibleRun(db, Flat(blocks, n)) && BlockAdmissible(db, blocks, n)
    ensures AdmissibleRun(db, Flat(blocks, n + 1))
  {
    ReachedRuns(db, blocks, n);
    AdmissibleAppend(db, Flat(blocks, n), blocks[n]);
  }

  lemma CarriedKeeps(db: Db, commands: seq<Command>, blocks: seq<seq<Op>>)
    requires Invariant(db) && Allowed(db, commands, 0) && Carried(db, commands, blocks)
    ensures Invariant(Reached(db, blocks, |blocks|)) && Extends(db, Reached(db, blocks, |blocks|))
  {
    AllowedRuns(db, commands, blocks);
    ReachedRuns(db, blocks, |blocks|);
    RunKeeps(db, Flat(blocks, |blocks|));
  }

  lemma CarriedMore(db: Db, commands: seq<Command>, blocks: seq<seq<Op>>, ops: seq<Op>)
    requires Carried(db, commands, blocks) && |blocks| < |commands|
    requires Matches(Reached(db, blocks, |blocks|), commands[|blocks|], ops)
    ensures Carried(db, commands, blocks + [ops])
    ensures Reached(db, blocks + [ops], |blocks| + 1) == Run(Reached(db, blocks, |blocks|), ops)
  {
    ReachedSame(db, blocks, blocks + [ops], |blocks|);
    forall n | 0 <= n < |blocks + [ops]| ensures Matches(Reached(db, blocks + [ops], n), commands[n], (blocks + [ops])[n]) {
      ReachedSame(db, blocks, blocks + [ops], n);
      if n < |blocks| { assert Matches(Reached(db, blocks, n), commands[n], blocks[n]); }
    }
  }

  lemma {:induction false} ReachedSame(db: Db, blocks: seq<seq<Op>>, more: seq<seq<Op>>, n: nat)
    requires n <= |blocks| <= |more| && forall k :: 0 <= k < n ==> blocks[k] == more[k]
    ensures Reached(db, blocks, n) == Reached(db, more, n)
  {
    if n > 0 { ReachedSame(db, blocks, more, n - 1); }
  }

  /** The allocator lets the buckets grow. */
  predicate Generous(c: Command) {
    match c
    case Root(_, reply) => reply.growName && reply.growHandle
    case AddFile(_, _, _, reply) => reply.growName && reply.growHandle
    case Delete(_, _, _) => true
    case Scan(_, _, replies, _, _, _, _) => forall k :: 0 <= k < |replies| ==> replies[k].growName && replies[k].growHandle
  }

  /** The most entries that the first `n` commands can add. */
  function Weight(commands: seq<Command>, n: nat): nat
    requires n <= |commands|
  {
    if n == 0 then 0 else Weight(commands, n - 1) + if commands[n - 1].Scan? then |commands[n - 1].files| else 1
  }

  lemma {:induction false} WeightGrows(commands: seq<Command>, n: nat, m: nat)
    requires n <= m <= |commands|
    ensures Weight(commands, n) <= Weight(commands, m)
  {
    if n < m { WeightGrows(commands, n, m - 1); }
  }

  /** Then no entry is lost, up to some hundred million additions. */
  lemma {:induction false} GenerousIndexed(commands: seq<Command>, blocks: seq<seq<Op>>, n: nat)
    requires Carried(EMPTY, commands, blocks) && n <= |blocks| && Small(Weight(commands, n))
    requires forall k :: 0 <= k < |commands| ==> Generous(commands[k])
    ensures |Reached(EMPTY, blocks, n).entries| <= Weight(commands, n)
    ensures forall k :: 0 <= k < |Flat(blocks, n)| ==> Indexed(Flat(blocks, n)[k])
  {
    if n > 0 {
      GenerousIndexed(commands, blocks, n - 1);
      assert Generous(commands[n - 1]);
      BlockIndexed(Reached(EMPTY, blocks, n - 1), commands[n - 1], blocks[n - 1], Weight(commands, n - 1));
    }
  }

  lemma BlockIndexed(db: Db, c: Command, ops: seq<Op>, w: nat)
    requires Matches(db, c, ops) && Generous(c) && |db.entries| <= w && Small(w + if c.Scan? then |c.files| else 1)
    ensures |Run(db, ops).entries| <= w + if c.Scan? then |c.files| else 1
    ensures forall k :: 0 <= k < |ops| ==> Indexed(ops[k])
  {
    if c.Scan? {
      ScansIs(db, c, ops, |c.files| + 1);
      var grants: seq<Grant> :| ScanRun(db, c, ops, grants);
      forall k | 0 <= k < |grants| ensures grants[k].byName && grants[k].byHandle {
        assert Granted(c.replies[k], grants[k], |db.entries| + k);
      }
    } else {
      RunSize(db, ops);
    }
  }

  /** A client lists a folder: it asks for the next child, or something else happens to the database. */
  datatype Turn = Ask | Other(command: Command)

  /** `op` is the turn in the terms of the list. */
  ghost predicate TurnIs(it: Iter, turn: Turn, op: IterOp) {
    if turn.Ask? then op == IterOp.Next
    else !turn.command.Scan? && op.Mutate? && MatchesOne(it.db, turn.command, op.op)
  }

  ghost predicate Turns(it: Iter, turns: seq<Turn>, ops: seq<IterOp>)
    requires IterOk(it)
  {
    && |ops| <= |turns|
    && (forall n {:trigger TurnIs(IterRun(it, ops[..n]), turns[n], ops[n])} ::
          0 <= n < |ops| ==> TurnIs(IterRun(it, ops[..n]), turns[n], ops[n]))
  }

  lemma TurnsMore(it: Iter, turns: seq<Turn>, ops: seq<IterOp>, op: IterOp)
    requires IterOk(it) && Turns(it, turns, ops) && |ops| < |turns| && TurnIs(IterRun(it, ops), turns[|ops|], op)
    ensures Turns(it, turns, ops + [op]) && IterRun(it, ops + [op]) == IterStep(IterRun(it, ops), op)
  {
    IterSnoc(it, ops, op);
    forall n | 0 <= n < |ops + [op]| ensures TurnIs(IterRun(it, (ops + [op])[..n]), turns[n], (ops + [op])[n]) {
      if n < |ops| {
        assert (ops + [op])[..n] == ops[..n];
        assert TurnIs(IterRun(it, ops[..n]), turns[n], ops[n]);
      } else {
        assert (ops + [op])[..n] == ops;
      }
    }
  }

  lemma BrowseComplete(it: Iter, ops: seq<IterOp>, created: seq<Ref>, found: seq<Ref>, ended: bool)
    requires it == Iter(it.db, it.parent, it.storage, |it.db.entries|, []) && Invariant(it.db) && Mutations(it.db, ops)
    requires Found(created, IterRun(it, ops).returned, found) && (ended ==> IterRun(it, ops).cursor == 0)
    requires forall i, j :: 0 <= i < j < |created| ==> created[i] != created[j]
    requires |it.db.entries| <= |created| == |IterRun(it, ops).db.entries|
    ensures forall a, b :: 0 <= a < b < |found| ==> found[a] != found[b]
    ensures ended ==> forall i :: 0 <= i < |it.db.entries| && IsChild(IterRun(it, ops).db.entries[i], it.parent, it.storage)
                                 ==> created[i] in found
  {
    var last := IterRun(it, ops);
    IterationComplete(it.db, it.parent, it.storage, ops);
    forall a, b | 0 <= a < b < |found| ensures found[a] != found[b] {
      assert last.returned[a] > last.returned[b];
    }
    if ended {
      forall i | 0 <= i < |it.db.entries| && IsChild(last.db.entries[i], it.parent, it.storage) ensures created[i] in found {
        assert i in last.returned;
        var k :| 0 <= k < |last.returned| && last.returned[k] == i;
        assert found[k] == created[i];
      }
    }
  }

  /** The slots found are those of the children returned. */
  predicate Found(created: seq<Ref>, returned: seq<nat>, found: seq<Ref>) {
    |found| == |returned| && forall k :: 0 <= k < |found| ==> returned[k] < |created| && found[k] == created[returned[k]]
  }

  class HandleDb {
    var blocks: nat
    var freeCount: nat
    var mem: map<Ref, Node>
    var entryList: Option<Ref>
    var byName: seq<HashNode>
    var byHandle: seq<HashNode>
    var nextHandle: Word32
    var searchEntry: Option<Ref>
    var handleSearch: Word32
    var storageSearch: Word32

    ghost var created: seq<Ref>      // the slots of the entries, oldest first
    ghost var entries: seq<Entry>    // and what they hold
    ghost var names: Index
    ghost var handles: Index
    ghost var cursor: nat            // how many entries the current search has still to visit

    ghost predicate Used(r: Ref)
      reads this
    {
      HandedOut(blocks, freeCount, r)
    }

    ghost function RefAt(k: nat): Option<Ref>
      reads this
    {
      RefBelow(created, k)
    }

    ghost predicate ListOk()
      reads this
    {
      && Linked(mem, created, entries, entryList)
      && PoolOk(blocks, freeCount, created)
      && cursor <= |created| && searchEntry == RefBelow(created, cursor)
    }

    ghost predicate Valid()
      reads this
    {
      && ListOk()
      && IndexOk(ByName, byName, names, created, entries) && Compact(byName, |entries|)
      && IndexOk(ByHandle, byHandle, handles, created, entries) && Compact(byHandle, |entries|)
    }

    ghost function Abs(): Db
      reads this
    {
      Db(entries, nextHandle, freeCount, names.lost, handles.lost)
    }

    /** The child search has nothing left to find. */
    ghost predicate Idle()
      reads this
    {
      forall i :: 0 <= i < cursor && i < |entries| ==> !IsChild(entries[i], handleSearch, storageSearch)
    }

    constructor ()
      ensures Valid() && Abs() == EMPTY && created == [] && Idle()
    {
      blocks, freeCount, mem, entryList := 0, 0, map[], None;
      byName := seq(HASH_TABLE_SIZE, _ => HashNode([], 0, 0));
      byHandle := seq(HASH_TABLE_SIZE, _ => HashNode([], 0, 0));
      nextHandle := 1;
      searchEntry, handleSearch, storageSearch := None, 0, 0;
      created, entries, cursor := [], [], 0;
      names := Index(seq(HASH_TABLE_SIZE, _ => []), {});
      handles := Index(seq(HASH_TABLE_SIZE, _ => []), {});
    }

    /** Takes the next free slot, asking for a new block when there is none. */
    method TakePoolSlot(granted: bool) returns (r: Option<Ref>)
      requires Valid()
      modifies this`blocks, this`freeCount
      ensures Valid()
      ensures r.Some? <==> old(freeCount) > 0 || granted
      ensures Abs() == old(Abs()).(free := if r.Some? then TakeSlot(old(freeCount)) else old(freeCount))
      ensures r.Some? ==> Used(r.value) && !old(Used(r.value)) && r.value !in created
      ensures r.Some? ==> freeCount < POOL_BLOCK_SIZE && r.value == Ref(blocks - 1, freeCount)
      ensures forall q :: old(Used(q)) ==> Used(q)
    {
      if freeCount == 0 {
        if !granted { return None; }
        blocks := blocks + 1;
        freeCount := freeCount + POOL_BLOCK_SIZE;
      }
      freeCount := freeCount - 1;
      r := Some(Ref(blocks - 1, freeCount));
    }

    /** Stores the entry in its slot, adds it to both indexes and links it in front of the list. */
    method Link(r: Ref, e: Entry, reply: Reply) returns (ghost byHandleStored: bool, ghost byNameStored: bool)
      requires Valid() && r !in created && Used(r)
      modifies this`mem, this`byName, this`byHandle, this`entryList, this`created, this`entries, this`names, this`handles
      ensures Valid() && created == old(created) + [r]
      ensures entries == old(entries) + [e]
      ensures names.lost == if byNameStored then old(names.lost) else old(names.lost) + {|old(created)|}
      ensures handles.lost == if byHandleStored then old(handles.lost) else old(handles.lost) + {|old(created)|}
      ensures reply.growHandle && Small(|old(entries)|) ==> byHandleStored
      ensures reply.growName && Small(|old(entries)|) ==> byNameStored
    {
      var nameSlot := HashFunctionName(e.name);
      LinkedInsert(mem, created, entries, entryList, r, e);
      var byHandle', stored, handles' :=
        InsertInto(ByHandle, byHandle, handles, created, entries, r, e, e.handle % HASH_TABLE_SIZE, reply.growHandle);
      var byName', stored', names' :=
        InsertInto(ByName, byName, names, created, entries, r, e, nameSlot, reply.growName);
      byHandleStored, byNameStored := stored, stored';
      byHandle, handles := byHandle', handles';
      byName, names := byName', names';
      mem := mem[r := Node(e, entryList)];
      entryList := Some(r);
      created, entries := created + [r], entries + [e];
      assert Linked(mem, created, entries, entryList);
      assert PoolOk(blocks, freeCount, created);
    }

    method AllocRootEntry(storage: Word32, reply: Reply) returns (r: Option<Ref>, ghost g: Grant)
      requires Valid()
      modifies this`blocks, this`freeCount, this`mem, this`byName, this`byHandle, this`entryList,
               this`created, this`entries, this`names, this`handles
      ensures Valid() && Abs() == AddRoot(old(Abs()), storage, g)
      ensures Granted(reply, g, |old(entries)|)
      ensures r.Some? <==> SlotGranted(old(Abs()), g) && g.copy
      ensures created == old(created) + if r.Some? then [r.value] else []
      ensures r.Some? ==> r.value !in old(created) && !old(Used(r.value))
    {
      g := Grant(reply.block, reply.copy, true, true);
      var slot := TakePoolSlot(reply.block);
      if slot.None? { return None, g; }
      if !reply.copy { return None, g; }
      ghost var h, n := Link(slot.value, RootEntry(storage), reply);
      g := Grant(reply.block, reply.copy, h, n);
      r := slot;
    }

    method AllocEntry(info: FileInfo, parent: Word32, storage: Word32, reply: Reply)
      returns (r: Option<Ref>, ghost g: Grant)
      requires Valid()
      modifies this`blocks, this`freeCount, this`mem, this`byName, this`byHandle, this`entryList,
               this`created, this`entries, this`names, this`handles, this`nextHandle
      ensures Valid() && Abs() == Alloc(old(Abs()), info, parent, storage, g)
      ensures Granted(reply, g, |old(entries)|)
      ensures r.Some? <==> SlotGranted(old(Abs()), g) && g.copy
      ensures created == old(created) + if r.Some? then [r.value] else []
      ensures r.Some? ==> r.value !in old(created) && !old(Used(r.value))
      ensures r.None? ==> mem == old(mem) && byName == old(byName) && byHandle == old(byHandle)
                          && entryList == old(entryList) && nextHandle == old(nextHandle)
    {
      g := Grant(reply.block, reply.copy, true, true);
      var slot := TakePoolSlot(reply.block);
      if slot.None? { return None, g; }
      var handle := nextHandle;
      nextHandle := (nextHandle + 1) % 0x1_0000_0000;
      if !reply.copy {
        freeCount := freeCount + 1;
        nextHandle := (nextHandle - 1) % 0x1_0000_0000;
        return None, g;
      }
      ghost var h, n := Link(slot.value, Entry(handle, parent, storage, info.name, info.isDir, false, info.size), reply);
      g := Grant(reply.block, reply.copy, h, n);
      r := slot;
    }

    /** The bucket scan finds an entry exactly when a live indexed entry of the list has the key. */
    method FindEntry(name: string, parent: Word32, storage: Word32) returns (r: Option<Ref>, ghost i: nat)
      requires Valid()
      ensures r.Some? <==> Present(Abs(), Key(name, parent, storage))
      ensures r.Some? ==> i < |created| && r.value == created[i] && Holds(Abs(), Key(name, parent, storage), i)
    {
      var slot := HashFunctionName(name);
      var node := byName[slot];
      ghost var key := Key(name, parent, storage);
      i := 0;
      for j := 0 to node.size
        invariant forall k :: 0 <= k < j ==>
                    var q := node.entries[k]; q in mem && !(KeyOf(mem[q].entry) == key && !mem[q].entry.deleted)
      {
        var q := node.entries[j];
        ghost var n := names.owners[slot][j];
        assert Stored(mem, created, entries, n);
        var e := mem[q].entry;
        if e.name == name && e.parent == parent && e.storage == storage && !e.deleted {
          assert Holds(Abs(), key, n);
          return Some(q), n;
        }
      }
      r := None;
      forall n: nat | n < |created| ensures !Holds(Abs(), key, n) {
        assert Stored(mem, created, entries, n);
        if n !in names.lost && SlotOf(ByName, entries[n]) == slot {
          var j :| 0 <= j < |names.owners[slot]| && names.owners[slot][j] == n;
          assert node.entries[j] == created[n];
        }
      }
    }

    method AddEntry(info: FileInfo, parent: Word32, storage: Word32, reply: Reply)
      returns (r: Option<Ref>, ghost g: Grant)
      requires Valid()
      modifies this`blocks, this`freeCount, this`mem, this`byName, this`byHandle, this`entryList,
               this`created, this`entries, this`names, this`handles, this`nextHandle
      ensures Valid() && Abs() == Add(old(Abs()), info, parent, storage, g)
      ensures Granted(reply, g, |old(entries)|)
      ensures old(created) <= created
      ensures r.Some? <==> Present(old(Abs()), Key(info.name, parent, storage)) || (SlotGranted(old(Abs()), g) && g.copy)
      ensures r.Some? ==> exists i :: 0 <= i < |created| && created[i] == r.value
                            && KeyOf(entries[i]) == Key(info.name, parent, storage) && !entries[i].deleted
                            && (i < |old(entries)| <==> Present(old(Abs()), Key(info.name, parent, storage)))
    {
      g := Grant(reply.block, reply.copy, true, true);
      ghost var i;
      r, i := FindEntry(info.name, parent, storage);
      if r.None? {
        r, g := AllocEntry(info, parent, storage, reply);
        i := |old(created)|;
      }
    }

    method MarkEntryDeleted(r: Ref, ghost i: nat)
      requires Valid() && i < |created| && r == created[i]
      modifies this`mem, this`entries
      ensures Valid() && Abs() == MarkDeleted(old(Abs()), i)
    {
      assert Stored(mem, created, entries, i);
      SetEntry(r, i, mem[r].entry.(deleted := true));
    }

    /** Changes only the deletion mark and the size of one entry. */
    method SetEntry(r: Ref, ghost i: nat, e: Entry)
      requires Valid() && i < |created| && r == created[i]
      requires SameIdentity(entries[i], e)
      modifies this`mem, this`entries
      ensures Valid() && entries == old(entries)[i := e]
    {
      assert Stored(mem, created, entries, i);
      IndexFrame(ByName, byName, names, created, entries, i, e);
      IndexFrame(ByHandle, byHandle, handles, created, entries, i, e);
      LinkedUpdate(mem, created, entries, entryList, i, e);
      mem := mem[r := mem[r].(entry := e)];
      entries := entries[i := e];
    }

    /** Any sequence of commands, with any answers of the allocator, does to the list what the
        specification's runs do, and so keeps its invariant. A scan walks up the tree, so it needs the
        invariant to begin with. */
    method Execute(commands: seq<Command>) returns (ghost blocks: seq<seq<Op>>)
      requires Valid()
      requires HasScan(commands) ==> Calm(Abs(), commands)
      modifies this
      ensures Valid() && |blocks| == |commands|
      ensures Carried(old(Abs()), commands, blocks) && Abs() == Reached(old(Abs()), blocks, |blocks|)
      ensures Calm(old(Abs()), commands) ==> Invariant(Abs()) && Extends(old(Abs()), Abs()) && (old(Idle()) ==> Idle())
    {
      ghost var start := Abs();
      blocks := ExecuteFrom(commands, 0, start, []);
      if Calm(start, commands) { CarriedKeeps(start, commands, blocks); }
    }

    method ExecuteFrom(commands: seq<Command>, n: nat, ghost start: Db, ghost blocks: seq<seq<Op>>)
        returns (ghost all: seq<seq<Op>>)
      requires Valid() && n == |blocks| <= |commands| && Carried(start, commands, blocks) && Abs() == Reached(start, blocks, n)
      requires HasScan(commands) ==> Calm(start, commands)
      modifies this
      ensures Valid() && |all| == |commands| && Carried(start, commands, all) && Abs() == Reached(start, all, |all|)
      ensures Calm(start, commands) && old(Idle()) ==> Idle()
      decreases |commands| - n
    {
      all := blocks;
      if n < |commands| {
        all := ExecuteNext(commands, n, start, blocks);
        all := ExecuteFrom(commands, n + 1, start, all);
      }
    }

    method ExecuteNext(commands: seq<Command>, n: nat, ghost start: Db, ghost blocks: seq<seq<Op>>)
        returns (ghost blocks': seq<seq<Op>>)
      requires Valid() && n == |blocks| < |commands| && Carried(start, commands, blocks) && Abs() == Reached(start, blocks, n)
      requires HasScan(commands) ==> Calm(start, commands)
      modifies this
      ensures Valid() && |blocks'| == n + 1 && Carried(start, commands, blocks') && Abs() == Reached(start, blocks', n + 1)
      ensures Calm(start, commands) && old(Idle()) ==> Idle()
    {
      if Calm(start, commands) { AllowedAll(start, commands, blocks, n); }
      ghost var ops := ExecuteOne(commands[n]);
      if Calm(start, commands) { MatchedExtends(Reached(start, blocks, n), commands, n, ops); }
      CarriedMore(start, commands, blocks, ops);
      blocks' := blocks + [ops];
    }

    /** Every command but a scan leaves a search of children in progress where it is. */
    method ExecuteOne(command: Command) returns (ghost ops: seq<Op>)
      requires Valid() && (command.Scan? ==> CanScan(Abs(), command))
      modifies this
      ensures Valid() && Matches(old(Abs()), command, ops) && Abs() == Run(old(Abs()), ops) && old(created) <= created
      ensures if command.Scan? then cursor == 0
              else cursor == old(cursor) && handleSearch == old(handleSearch) && storageSearch == old(storageSearch)
    {
      if command.Scan? {
        ghost var db := Abs();
        var ret; ghost var grants;
        ret, grants := ScanAndAddFolder(command.roots, command.files, command.replies, command.showHidden,
                                        command.parent, command.storage, command.stat);
        ops := RescanAsRun(db, command.roots, command.files, grants, command.showHidden, command.parent, command.storage, command.stat);
        assert ScanRun(db, command, ops, grants);
        ScansIs(db, command, ops, |command.files| + 1);
      } else {
        ghost var op := ExecuteSmall(command);
        ops := [op];
        assert ops[1..] == [];
      }
    }

    method ExecuteSmall(command: Command) returns (ghost op: Op)
      requires Valid() && !command.Scan?
      modifies this
      ensures Valid() && MatchesOne(old(Abs()), command, op) && Abs() == Step(old(Abs()), op) && old(created) <= created
      ensures cursor == old(cursor) && handleSearch == old(handleSearch) && storageSearch == old(storageSearch)
    {
      var r; ghost var g; ghost var i;
      match command
      case Root(storage, reply) =>
        r, g := AllocRootEntry(storage, reply);
        op := OpRoot(storage, g);
      case AddFile(info, parent, storage, reply) =>
        r, g := AddEntry(info, parent, storage, reply);
        op := OpAdd(info, parent, storage, g);
      case Delete(name, parent, storage) =>
        r, i := FindEntry(name, parent, storage);
        op := OpDelete(if r.Some? then i else |entries|);
        if r.Some? { MarkEntryDeleted(r.value, i); }
    }

    method EntryByKey(name: string, parent: Word32, storage: Word32) returns (e: Option<Entry>)
      requires Valid()
      ensures e.Some? <==> Present(Abs(), Key(name, parent, storage))
      ensures e.Some? ==> e.value in entries && !e.value.deleted && KeyOf(e.value) == Key(name, parent, storage)
    {
      var r; ghost var i;
      r, i := FindEntry(name, parent, storage);
      e := None;
      if r.Some? {
        assert Stored(mem, created, entries, i);
        e := Some(mem[r.value].entry);
      }
    }

    method EntryByHandle(roots: Roots, handle: Word32) returns (e: Option<Entry>)
      requires Valid()
      ensures e.Some? <==> Resolve(Abs(), roots, handle).Some?
      ensures HandlesOk(Abs()) && handle != 0 && e.Some? ==> e.value == entries[Resolve(Abs(), roots, handle).value]
    {
      var r; ghost var i;
      r, i := GetEntryByHandle(roots, handle);
      e := None;
      if r.Some? {
        assert Stored(mem, created, entries, i);
        e := Some(mem[r.value].entry);
      }
    }

    method InitSearchHandle(parent: Word32, storage: Word32) returns (r: Option<Ref>)
      requires Valid()
      modifies this`searchEntry, this`handleSearch, this`storageSearch, this`cursor
      ensures Valid() && Abs() == old(Abs())
      ensures cursor == |created| && handleSearch == parent && storageSearch == storage
      ensures r == entryList
    {
      searchEntry := entryList;
      handleSearch := parent;
      storageSearch := storage;
      cursor := |created|;
      r := searchEntry;
    }

    method GetNextChildHandle() returns (r: Option<Ref>, ghost i: nat)
      requires Valid()
      modifies this`searchEntry, this`cursor
      ensures Valid() && Abs() == old(Abs())
      ensures match HandleModel.NextChild(entries, handleSearch, storageSearch, old(cursor))
              case None => r == None && cursor == 0
              case Some(k) => i == k && r == Some(created[k]) && cursor == k
    {
      var at := searchEntry;
      ghost var k := cursor;
      i := 0;
      while at.Some?
        invariant 0 <= k <= cursor && at == RefAt(k)
        invariant HandleModel.NextChild(entries, handleSearch, storageSearch, k)
                  == HandleModel.NextChild(entries, handleSearch, storageSearch, cursor)
        decreases k
      {
        assert k > 0 && Stored(mem, created, entries, k - 1);
        var e := mem[at.value].entry;
        if !e.deleted && e.parent == handleSearch && e.storage == storageSearch && e.handle != e.parent {
          searchEntry := mem[at.value].next;
          r, i := at, k - 1;
          cursor := k - 1;
          return;
        }
        at := mem[at.value].next;
        k := k - 1;
      }
      searchEntry := None;
      cursor := 0;
      r := None;
    }

    /** A listing of a folder while the database changes, scans apart: every child at most once, and at its
        end every child that was there when it began and still is. */
    method Browse(parent: Word32, storage: Word32, turns: seq<Turn>) returns (found: seq<Ref>, ended: bool, ghost ops: seq<IterOp>)
      requires Valid() && forall n :: 0 <= n < |turns| ==> turns[n].Ask? || !turns[n].command.Scan?
      modifies this
      ensures Valid() && |ops| == |turns| && old(created) <= created
      ensures var it := Iter(old(Abs()), parent, storage, |old(entries)|, []);
        Turns(it, turns, ops) && IterRun(it, ops).db == Abs() && Found(created, IterRun(it, ops).returned, found)
      ensures Invariant(old(Abs())) && Mutations(old(Abs()), ops) ==>
        && (forall a, b :: 0 <= a < b < |found| ==> found[a] != found[b])
        && (ended ==> forall i :: 0 <= i < |old(entries)| && IsChild(entries[i], parent, storage) ==> created[i] in found)
    {
      var first := InitSearchHandle(parent, storage);
      ghost var it := Iter(Abs(), parent, storage, |entries|, []);
      found, ended, ops := BrowseFrom(turns, 0, [], false, it, []);
      if Invariant(it.db) && Mutations(it.db, ops) { BrowseComplete(it, ops, created, found, ended); }
    }

    method BrowseFrom(turns: seq<Turn>, n: nat, found: seq<Ref>, ended: bool, ghost it: Iter, ghost ops: seq<IterOp>)
        returns (found': seq<Ref>, ended': bool, ghost all: seq<IterOp>)
      requires Valid() && n == |ops| <= |turns| && forall k :: 0 <= k < |turns| ==> turns[k].Ask? || !turns[k].command.Scan?
      requires IterOk(it) && Turns(it, turns, ops)
      requires IterRun(it, ops) == Iter(Abs(), handleSearch, storageSearch, cursor, IterRun(it, ops).returned)
      requires Found(created, IterRun(it, ops).returned, found) && (ended ==> cursor == 0)
      modifies this
      ensures Valid() && |all| == |turns| && Turns(it, turns, all) && old(created) <= created
      ensures IterRun(it, all) == Iter(Abs(), handleSearch, storageSearch, cursor, IterRun(it, all).returned)
      ensures Found(created, IterRun(it, all).returned, found') && (ended' ==> cursor == 0)
      decreases |turns| - n
    {
      found', ended', all := found, ended, ops;
      if n < |turns| {
        found', ended', all := BrowseTurn(turns, n, found, ended, it, ops);
        found', ended', all := BrowseFrom(turns, n + 1, found', ended', it, all);
      }
    }

    method BrowseTurn(turns: seq<Turn>, n: nat, found: seq<Ref>, ended: bool, ghost it: Iter, ghost ops: seq<IterOp>)
        returns (found': seq<Ref>, ended': bool, ghost all: seq<IterOp>)
      requires Valid() && n == |ops| < |turns| && (turns[n].Ask? || !turns[n].command.Scan?)
      requires IterOk(it) && Turns(it, turns, ops)
      requires IterRun(it, ops) == Iter(Abs(), handleSearch, storageSearch, cursor, IterRun(it, ops).returned)
      requires Found(created, IterRun(it, ops).returned, found) && (ended ==> cursor == 0)
      modifies this
      ensures Valid() && |all| == n + 1 && Turns(it, turns, all) && old(created) <= created
      ensures IterRun(it, all) == Iter(Abs(), handleSearch, storageSearch, cursor, IterRun(it, all).returned)
      ensures Found(created, IterRun(it, all).returned, found') && (ended' ==> cursor == 0)
    {
      ghost var op: IterOp := IterOp.Next;
      found', ended' := found, ended;
      if turns[n].Ask? {
        var r; ghost var i;
        r, i := GetNextChildHandle();
        if r.Some? { found' := found + [r.value]; } else { ended' := true; }
      } else {
        ghost var o := ExecuteSmall(turns[n].command);
        op := Mutate(o);
      }
      TurnsMore(it, turns, ops, op);
      all := ops + [op];
    }

    /** For a handle other than a root's, the bucket scan gives what a scan of the list gives. */
    method GetEntryByHandle(roots: Roots, handle: Word32) returns (r: Option<Ref>, ghost i: nat)
      requires Valid()
      ensures r.Some? ==> i < |created| && r.value == created[i] && Resolves(Abs(), roots, handle, i)
      ensures r.Some? <==> Resolve(Abs(), roots, handle).Some?
      ensures HandlesOk(Abs()) && handle != 0 && r.Some? ==> Resolve(Abs(), roots, handle) == Some(i)
    {
      var slot: nat := handle % HASH_TABLE_SIZE;
      var node := byHandle[slot];
      i := 0;
      for j := 0 to node.size
        invariant forall k :: 0 <= k < j ==>
                    var q := node.entries[k];
                    q in mem && !(mem[q].entry.handle == handle && !mem[q].entry.deleted && mem[q].entry.storage in roots)
      {
        var q := node.entries[j];
        ghost var n := handles.owners[slot][j];
        assert Stored(mem, created, entries, n);
        var e := mem[q].entry;
        if !e.deleted && e.handle == handle {
          if e.storage in roots {
            assert Resolves(Abs(), roots, handle, n);
            return Some(q), n;
          }
        }
      }
      r := None;
      forall n: nat | n < |created| ensures !Resolves(Abs(), roots, handle, n) {
        assert Stored(mem, created, entries, n);
        if n !in handles.lost && SlotOf(ByHandle, entries[n]) == slot {
          var j :| 0 <= j < |handles.owners[slot]| && handles.owners[slot][j] == n;
          assert node.entries[j] == created[n];
        }
      }
    }

    /** The walk over the list that `get_entry_by_handle` must agree with. */
    method GetEntryByHandleAndStorage(handle: Word32, storage: Word32) returns (r: Option<Ref>, ghost i: nat)
      requires Valid()
      ensures r.Some? ==> && i < |created| && r.value == created[i] && !entries[i].deleted
                          && entries[i].handle == handle && entries[i].storage == storage
      ensures r.None? ==> forall k :: 0 <= k < |created| ==>
                var e := entries[k]; e.deleted || e.handle != handle || e.storage != storage
    {
      var at := entryList;
      ghost var k := |created|;
      i := 0;
      while at.Some?
        invariant 0 <= k <= |created| && at == RefAt(k)
        invariant forall n :: k <= n < |created| ==>
                    var e := entries[n]; e.deleted || e.handle != handle || e.storage != storage
        decreases k
      {
        assert k > 0 && Stored(mem, created, entries, k - 1);
        var e := mem[at.value].entry;
        if !e.deleted && e.handle == handle && e.storage == storage { return at, k - 1; }
        at := mem[at.value].next;
        k := k - 1;
      }
      r := None;
    }

    /** The parent to continue with when walking up from an entry. */
    method GoUp(roots: Roots, r: Ref, ghost i: nat) returns (up: Option<Ref>, ghost j: nat)
      requires Valid() && Wellfounded(Abs()) && i < |created| && r == created[i]
      ensures match ParentOf(Abs(), roots, i)
              case None => up == None
              case Some(k) => j == k && up == Some(created[k])
    {
      assert Stored(mem, created, entries, i);
      var parent := mem[r].entry.parent;
      up, j := None, 0;
      if parent != 0 && parent != NO_PARENT {
        up, j := GetEntryByHandle(roots, parent);
      }
    }

    /** Writes one name and its '/' in front of what is already in the buffer. */
    static method PutComponent(path: array<char>, offset: nat, total: nat, name: string,
                               ghost rootLen: nat, ghost full: string, ghost here: string)
      returns (start: nat)
      requires Filled(path[..], rootLen, offset, total, full)
      requires here <= full && |here| == offset - rootLen && |name| < |here|
      requires here == here[..|here| - |name| - 1] + "/" + name
      modifies path
      ensures start == offset - |name| - 1 && Filled(path[..], rootLen, start, total, full)
    {
      ghost var before := path[..];
      forall n | 0 <= n < |name| { path[offset - |name| + n] := name[n]; }
      start := offset - |name| - 1;
      path[start] := '/';
      FilledStep(before, path[..], rootLen, offset, total, full, here, name);
    }

    static method PutRoot(path: array<char>, root: string, total: nat, ghost full: string)
      requires Filled(path[..], |root|, |root|, total, full) && total + 1 == path.Length
      modifies path
      ensures path[..] == root + full + ['\0']
    {
      forall n | 0 <= n < |root| { path[n] := root[n]; }
      assert path[..] == path[..|root|] + path[|root|..total] + [path[total]];
    }

    /** First walk: the length of the path. */
    method PathLength(roots: Roots, r: Ref, ghost i: nat) returns (total: nat)
      requires Valid() && Wellfounded(Abs()) && i < |created| && r == created[i]
      ensures total == |PathOf(Abs(), roots, i)|
    {
      total := 0;
      var at, k := Some(r), i;
      while at.Some?
        invariant at.Some? ==> 0 <= k <= i && at.value == created[k]
                               && total + |PathOf(Abs(), roots, k)| == |PathOf(Abs(), roots, i)|
        invariant at.None? ==> total == |PathOf(Abs(), roots, i)|
        decreases if at.Some? then k + 1 else 0
      {
        assert Stored(mem, created, entries, k);
        total := total + |mem[at.value].entry.name| + 1;
        at, k := GoUp(roots, at.value, k);
      }
    }

    /** Second walk: the buffer is filled from its end, entry by entry, and is exactly the root
        followed by the path, with a terminating NUL. */
    method BuildFullPath(roots: Roots, root: string, r: Ref, ghost i: nat) returns (path: array<char>)
      requires Valid() && Wellfounded(Abs()) && i < |created| && r == created[i]
      ensures fresh(path)
      ensures path[..] == root + PathOf(Abs(), roots, i) + ['\0']
    {
      var length := PathLength(roots, r, i);
      var total := length + |root|;
      path := new char[total + 1](_ => '\0');
      FillPath(roots, |root|, path, total, r, i);
      PutRoot(path, root, total, PathOf(Abs(), roots, i));
    }

    /** The entries from the last to the topmost, each in front of what is there. */
    method FillPath(roots: Roots, ghost rootLen: nat, path: array<char>, total: nat, r: Ref, ghost i: nat)
      requires Valid() && Wellfounded(Abs()) && i < |created| && r == created[i]
      requires Filled(path[..], rootLen, total, total, PathOf(Abs(), roots, i))
      modifies path
      ensures Filled(path[..], rootLen, rootLen, total, PathOf(Abs(), roots, i))
    {
      ghost var db := Abs();
      ghost var full := PathOf(db, roots, i);
      var offset := total;
      var at, k := Some(r), i;
      while at.Some?
        invariant at.Some? ==> 0 <= k <= i && at.value == created[k]
        invariant at.Some? ==> PathOf(db, roots, k) <= full && offset == rootLen + |PathOf(db, roots, k)|
        invariant at.None? ==> offset == rootLen
        invariant Filled(path[..], rootLen, offset, total, full)
        decreases if at.Some? then k + 1 else 0
      {
        offset, at, k := PutEntry(roots, path, offset, total, at.value, k, rootLen, full);
      }
    }

    method PutEntry(roots: Roots, path: array<char>, offset: nat, total: nat, q: Ref, ghost k: nat, ghost rootLen: nat, ghost full: string)
      returns (offset': nat, up: Option<Ref>, ghost j: nat)
      requires Valid() && Wellfounded(Abs()) && k < |created| && q == created[k]
      requires PathOf(Abs(), roots, k) <= full && offset == rootLen + |PathOf(Abs(), roots, k)|
      requires Filled(path[..], rootLen, offset, total, full)
      modifies path
      ensures Filled(path[..], rootLen, offset', total, full)
      ensures if up.None? then offset' == rootLen
              else j < k && up.value == created[j] && PathOf(Abs(), roots, j) <= full && offset' == rootLen + |PathOf(Abs(), roots, j)|
    {
      assert Stored(mem, created, entries, k);
      var name := mem[q].entry.name;
      offset' := PutComponent(path, offset, total, name, rootLen, full, PathOf(Abs(), roots, k));
      up, j := GoUp(roots, q, k);
    }

    /** Adds the listed files, then revisits the children and marks those that are gone. */
    method ScanAndAddFolder(roots: Roots, files: seq<FileInfo>, replies: seq<Reply>, showHidden: bool,
                            parent: Word32, storage: Word32, stat: string -> Option<int>)
      returns (ret: int, ghost grants: seq<Grant>)
      requires Valid() && Invariant(Abs()) && ParentKnown(Abs(), parent) && Room(Abs(), |files|)
      requires |replies| == |files|
      modifies this
      ensures Valid() && |grants| == |files| && GrantedAll(replies, grants, |old(entries)|) && old(created) <= created
      ensures Invariant(Abs()) && Extends(old(Abs()), Abs())
      ensures Abs() == Rescan(old(Abs()), roots, files, grants, showHidden, parent, storage, stat)
      ensures ret == (if files == [] then -1 else 0) && cursor == 0
    {
      grants := AddListed(files, replies, showHidden, parent, storage);
      AddAllKeeps(old(Abs()), files, grants, showHidden, parent, storage);
      DropMissing(roots, parent, storage, stat);
      RescanKeeps(old(Abs()), roots, files, grants, showHidden, parent, storage, stat);
      ret := if files == [] then -1 else 0;
    }

    /** Adds every listed file that is neither ".", nor "..", nor hidden. */
    method AddListed(files: seq<FileInfo>, replies: seq<Reply>, showHidden: bool, parent: Word32, storage: Word32)
      returns (ghost grants: seq<Grant>)
      requires Valid() && |replies| == |files|
      modifies this`blocks, this`freeCount, this`mem, this`byName, this`byHandle, this`entryList,
               this`created, this`entries, this`names, this`handles, this`nextHandle
      ensures Valid() && |grants| == |files| && GrantedAll(replies, grants, |old(entries)|) && old(created) <= created
      ensures Abs() == AddAll(old(Abs()), files, grants, showHidden, parent, storage)
    {
      grants := [];
      for n := 0 to |files|
        invariant Valid() && |grants| == n && |entries| <= |old(entries)| + n && old(created) <= created
        invariant forall m :: 0 <= m < n ==> Granted(replies[m], grants[m], |old(entries)| + m)
        invariant Abs() == AddAll(old(Abs()), files[..n], grants, showHidden, parent, storage)
      {
        ghost var g := AddVisible(files[n], replies[n], showHidden, parent, storage);
        AddAllSnoc(old(Abs()), files[..n], grants, showHidden, parent, storage, files[n], g);
        assert files[..n + 1] == files[..n] + [files[n]];
        grants := grants + [g];
      }
      assert files[..|files|] == files;
    }

    method AddVisible(file: FileInfo, reply: Reply, showHidden: bool, parent: Word32, storage: Word32) returns (ghost g: Grant)
      requires Valid()
      modifies this`blocks, this`freeCount, this`mem, this`byName, this`byHandle, this`entryList,
               this`created, this`entries, this`names, this`handles, this`nextHandle
      ensures Valid() && Granted(reply, g, |old(entries)|) && old(created) <= created && |entries| <= |old(entries)| + 1
      ensures Abs() == AddOne(old(Abs()), file, g, showHidden, parent, storage)
    {
      g := Grant(reply.block, reply.copy, true, true);
      var name := file.name;
      if name != ".." && name != "." && (showHidden || name == "" || name[0] != '.') {
        var added;
        added, g := AddEntry(file, parent, storage, reply);
      }
    }

    /** Looks one child up on disk and marks it when it is gone. */
    method StatChild(roots: Roots, parent: Word32, storage: Word32, stat: string -> Option<int>,
                     r: Ref, ghost i: nat, ghost mid: Db)
      requires Valid() && Wellfounded(mid) && Abs() == mid.(entries := entries)
      requires i < |entries| && Some(r) == RefBelow(created, i + 1) && IsChild(entries[i], parent, storage)
      requires HalfSwept(mid, roots, parent, storage, stat, entries, i + 1)
      modifies this`mem, this`entries
      ensures Valid() && Abs() == mid.(entries := entries)
      ensures HalfSwept(mid, roots, parent, storage, stat, entries, i) && |entries| == |old(entries)|
    {
      WellfoundedStays(mid, Abs());
      PathStable(mid, Abs(), roots, i);
      assert Stored(mem, created, entries, i);
      var e := mem[r].entry;
      var root := if e.storage in roots then roots[e.storage] else "";
      var path := BuildFullPath(roots, root, r, i);
      var found := stat(path[..path.Length - 1]);
      assert path[..path.Length - 1] == FullPath(mid, roots, i);
      if found.None? {
        SetEntry(r, i, e.(deleted := true));
      } else {
        SetEntry(r, i, e.(size := found.value));
      }
    }

    method DropMissing(roots: Roots, parent: Word32, storage: Word32, stat: string -> Option<int>)
      requires Valid() && Wellfounded(Abs())
      modifies this`mem, this`entries, this`searchEntry, this`handleSearch, this`storageSearch, this`cursor
      ensures Valid() && Abs() == Sweep(old(Abs()), roots, parent, storage, stat) && cursor == 0
    {
      ghost var mid := Abs();
      var _ := InitSearchHandle(parent, storage);
      ghost var i: nat;
      var r;
      r, i := NextToStat(roots, parent, storage, stat, mid);
      while r.Some?
        invariant Valid() && Sweeping(roots, parent, storage, stat, mid, r, i)
        decreases if r.Some? then i + 1 else 0
      {
        r, i := StatAndNext(roots, parent, storage, stat, r.value, i, mid);
      }
      assert entries == Swept(mid, roots, parent, storage, stat, |mid.entries|);
    }

    /** The search has reached the child `r` at place `i`, and the younger ones have been looked up. */
    ghost predicate Sweeping(roots: Roots, parent: Word32, storage: Word32, stat: string -> Option<int>, mid: Db,
                             r: Option<Ref>, i: nat)
      reads this
    {
      && handleSearch == parent && storageSearch == storage && Abs() == mid.(entries := entries)
      && HalfSwept(mid, roots, parent, storage, stat, entries, if r.Some? then i + 1 else 0)
      && (if r.None? then cursor == 0
          else i < |entries| && r == RefBelow(created, i + 1) && cursor == i && IsChild(entries[i], parent, storage))
    }

    method StatAndNext(roots: Roots, parent: Word32, storage: Word32, stat: string -> Option<int>, q: Ref, ghost i: nat, ghost mid: Db)
      returns (r: Option<Ref>, ghost i': nat)
      requires Valid() && Sweeping(roots, parent, storage, stat, mid, Some(q), i)
      modifies this`mem, this`entries, this`searchEntry, this`cursor
      ensures Valid() && Sweeping(roots, parent, storage, stat, mid, r, i') && (r.Some? ==> i' < i)
    {
      StatChild(roots, parent, storage, stat, q, i, mid);
      r, i' := NextToStat(roots, parent, storage, stat, mid);
    }

    method NextToStat(ghost roots: Roots, ghost parent: Word32, ghost storage: Word32,
                      ghost stat: string -> Option<int>, ghost mid: Db)
      returns (r: Option<Ref>, ghost i: nat)
      requires Valid() && handleSearch == parent && storageSearch == storage
      requires HalfSwept(mid, roots, parent, storage, stat, entries, cursor)
      modifies this`searchEntry, this`cursor
      ensures Valid() && Abs() == old(Abs())
      ensures HalfSwept(mid, roots, parent, storage, stat, entries, if r.Some? then i + 1 else 0)
      ensures r.None? ==> cursor == 0
      ensures r.Some? ==> i < old(cursor) && r == RefBelow(created, i + 1) && cursor == i
                          && IsChild(entries[i], parent, storage)
    {
      HalfSweptSkip(mid, roots, parent, storage, stat, entries, cursor);
      r, i := GetNextChildHandle();
    }
  }

  /** A database from its start, any commands, and then a lookup by key and one by handle: each finds what
      a scan of the list finds. When the buckets could grow, nothing live is missed. */
  method Serve(commands: seq<Command>, roots: Roots, name: string, parent: Word32, storage: Word32, handle: Word32)
      returns (byKey: Option<Entry>, byHandle: Option<Entry>, ghost blocks: seq<seq<Op>>, ghost last: Db)
    requires HasScan(commands) ==> Allowed(EMPTY, commands, 0)
    ensures |blocks| == |commands| && Carried(EMPTY, commands, blocks) && last == Run(EMPTY, Flat(blocks, |blocks|))
    ensures Allowed(EMPTY, commands, 0) ==> Invariant(last)
    ensures byKey.Some? <==> Present(last, Key(name, parent, storage))
    ensures byKey.Some? ==> byKey.value in last.entries && !byKey.value.deleted && KeyOf(byKey.value) == Key(name, parent, storage)
    ensures byHandle.Some? <==> Resolve(last, roots, handle).Some?
    ensures Allowed(EMPTY, commands, 0) && handle != 0 && byHandle.Some? ==>
              byHandle.value == last.entries[Resolve(last, roots, handle).value]
    ensures Small(Weight(commands, |commands|)) && (forall n :: 0 <= n < |commands| ==> Generous(commands[n])) ==>
              && last.lostHandle == {}
              && (byKey.Some? <==> Live(last, Key(name, parent, storage)))
  {
    assert Invariant(EMPTY);
    var db := new HandleDb();
    blocks := db.Execute(commands);
    ReachedRuns(EMPTY, blocks, |blocks|);
    last := db.Abs();
    byKey := db.EntryByKey(name, parent, storage);
    byHandle := db.EntryByHandle(roots, handle);
    if Small(Weight(commands, |commands|)) && (forall n :: 0 <= n < |commands| ==> Generous(commands[n])) {
      GenerousIndexed(commands, blocks, |commands|);
      NothingLost(EMPTY, Flat(blocks, |blocks|));
    }
  }
}
