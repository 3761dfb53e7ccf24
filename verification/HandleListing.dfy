/** The answer to a request for the contents of a folder: a rescan, one pass of the child search that counts, and
    a second one that sends the handles in packets. */
module HandleListing {
  import opened Basics
  import opened HandleModel
  import opened HandlePaths
  import opened HandleDatabase

  // ---------- the children of a folder ----------

  /** The places of the children below `k`, newest first. */
  function Children(entries: seq<Entry>, parent: Word32, storage: Word32, k: nat): seq<nat>
    requires k <= |entries|
  {
    if k == 0 then []
    else if IsChild(entries[k - 1], parent, storage) then [k - 1] + Children(entries, parent, storage, k - 1)
    else Children(entries, parent, storage, k - 1)
  }

  predicate Falling(s: seq<nat>, bound: nat) {
    (forall a :: 0 <= a < |s| ==> s[a] < bound) && forall a, b :: 0 <= a < b < |s| ==> s[a] > s[b]
  }

  /** Every child once, newest first. */
  lemma {:induction false} ChildrenExact(entries: seq<Entry>, parent: Word32, storage: Word32, k: nat)
    requires k <= |entries|
    ensures Falling(Children(entries, parent, storage, k), k)
    ensures forall i :: i in Children(entries, parent, storage, k) <==> 0 <= i < k && IsChild(entries[i], parent, storage)
  {
    if k > 0 { ChildrenExact(entries, parent, storage, k - 1); }
  }

  /** The child search takes them one by one. */
  lemma {:induction false} ChildrenNext(entries: seq<Entry>, parent: Word32, storage: Word32, k: nat)
    requires k <= |entries|
    ensures match NextChild(entries, parent, storage, k)
            case None => Children(entries, parent, storage, k) == []
            case Some(i) => Children(entries, parent, storage, k) == [i] + Children(entries, parent, storage, i)
  {
    if k > 0 && !IsChild(entries[k - 1], parent, storage) { ChildrenNext(entries, parent, storage, k - 1); }
  }

  function Handles(entries: seq<Entry>, places: seq<nat>): (h: seq<Word32>)
    requires forall a :: 0 <= a < |places| ==> places[a] < |entries|
    ensures |h| == |places| && forall a :: 0 <= a < |h| ==> h[a] == entries[places[a]].handle
  {
    seq(|places|, a requires 0 <= a < |places| => entries[places[a]].handle)
  }

  /** The handles of the children below `k`. */
  function Listing(entries: seq<Entry>, parent: Word32, storage: Word32, k: nat): seq<Word32>
    requires k <= |entries|
  {
    ChildrenExact(entries, parent, storage, k);
    Handles(entries, Children(entries, parent, storage, k))
  }

  /** The children's handles fall strictly, so no handle is listed twice, and their number fits a 32-bit word. */
  lemma {:induction false} ListingFalls(db: Db, parent: Word32, storage: Word32, k: nat)
    requires HandlesOk(db) && k <= |db.entries|
    ensures var h := Listing(db.entries, parent, storage, k);
            (forall a, b :: 0 <= a < b < |h| ==> h[a] > h[b]) && |h| < 0x1_0000_0000
  {
    var c, h := Children(db.entries, parent, storage, k), Listing(db.entries, parent, storage, k);
    ChildrenExact(db.entries, parent, storage, k);
    forall a, b | 0 <= a < b < |h| ensures h[a] > h[b] {
      assert c[a] in c && c[b] in c && c[b] < c[a];
    }
    FewFalling(h, 0x1_0000_0000);
  }

  lemma {:induction false} FewFalling(h: seq<Word32>, bound: nat)
    requires forall a :: 0 <= a < |h| ==> 0 < h[a] < bound
    requires forall a, b :: 0 <= a < b < |h| ==> h[a] > h[b]
    requires bound > 0
    ensures |h| < bound
  {
    if h != [] {
      forall a | 0 <= a < |h[1..]| ensures 0 < h[1..][a] < h[0] { assert h[1..][a] == h[a + 1]; }
      FewFalling(h[1..], h[0]);
    }
  }

  // ---------- packets ----------

  const HEADER: nat := 12

  /** The words of all packets, without the header of the first. */
  function Words(packets: seq<seq<Word32>>): seq<Word32> {
    if packets == [] then [] else Words(packets[..|packets| - 1]) + packets[|packets| - 1]
  }

  function Bytes(packets: seq<seq<Word32>>, j: nat): nat
    requires j < |packets|
  {
    4 * |packets[j]| + if j == 0 then HEADER else 0
  }

  /** A packet is sent when it has reached the packet size, and only the last may be shorter. */
  predicate Framed(packets: seq<seq<Word32>>, size: nat) {
    && packets != []
    && (forall j :: 0 <= j < |packets| ==> packets[j] != [] && Bytes(packets, j) < size + 4)
    && (forall j :: 0 <= j < |packets| - 1 ==> Bytes(packets, j) >= size)
  }

  /** check_and_send_USB_ZLP. */
  predicate EmptyPacket(total: nat, size: nat)
    requires size > 0
  {
    total >= size && total % size == 0
  }

  lemma {:induction false} FullPacket(packets: seq<seq<Word32>>, size: nat, j: nat)
    requires Framed(packets, size) && size % 4 == 0 && j < |packets| - 1
    ensures Bytes(packets, j) == size
  {
    assert size <= Bytes(packets, j) < size + 4;
  }

  lemma {:induction false} FullPackets(packets: seq<seq<Word32>>, size: nat, n: nat)
    requires Framed(packets, size) && size % 4 == 0 && 0 < n < |packets|
    ensures HEADER + 4 * |Words(packets[..n])| == n * size
  {
    FullPacket(packets, size, n - 1);
    assert packets[..n][..n - 1] == packets[..n - 1] && packets[..n][n - 1] == packets[n - 1];
    if n > 1 { FullPackets(packets, size, n - 1); }
  }

  /** The size of all packets, when only the last may be short. */
  lemma {:induction false} TotalSize(packets: seq<seq<Word32>>, size: nat)
    requires Framed(packets, size) && size % 4 == 0
    ensures HEADER + 4 * |Words(packets)| == (|packets| - 1) * size + Bytes(packets, |packets| - 1)
  {
    var n := |packets| - 1;
    if n > 0 { FullPackets(packets, size, n); }
  }

  lemma Remainder(n: nat, size: nat, last: nat)
    requires 0 < last <= size
    ensures EmptyPacket(n * size + last, size) <==> last == size
  {
    if last == size { Multiple(n + 1, size, 0); } else { Multiple(n, size, last); }
  }

  lemma Multiple(n: nat, size: nat, r: nat)
    requires r < size
    ensures (n * size + r) % size == r
  {
    var total := n * size + r;
    var q := total / size;
    if n > q { MulMono(q + 1, n, size); }
    if q > n { MulMono(n + 1, q, size); }
  }

  /** Packets of whole words are exactly full but the last, and the empty packet follows exactly when that one
      is full too: so the host always sees the end of the data in a short packet. */
  lemma {:induction false} ShortEnd(packets: seq<seq<Word32>>, size: nat)
    requires Framed(packets, size) && size % 4 == 0 && size > 0
    ensures forall j :: 0 <= j < |packets| - 1 ==> Bytes(packets, j) == size
    ensures 0 < Bytes(packets, |packets| - 1) <= size
    ensures EmptyPacket(HEADER + 4 * |Words(packets)|, size) <==> Bytes(packets, |packets| - 1) == size
  {
    var n := |packets| - 1;
    forall j | 0 <= j < n ensures Bytes(packets, j) == size { FullPacket(packets, size, j); }
    assert 0 < Bytes(packets, n) <= size by { assert Bytes(packets, n) < size + 4 && packets[n] != []; }
    TotalSize(packets, size);
    Remainder(n, size, Bytes(packets, n));
  }

  lemma {:induction false} WordsMore(packets: seq<seq<Word32>>, words: seq<Word32>)
    ensures Words(packets + [words]) == Words(packets) + words
  {
    assert (packets + [words])[..|packets|] == packets;
  }

  lemma {:induction false} FramedMore(packets: seq<seq<Word32>>, words: seq<Word32>, size: nat)
    requires Framed(packets, size) && Bytes(packets, |packets| - 1) >= size && words != [] && 4 * |words| < size + 4
    ensures Framed(packets + [words], size)
  {
    var more := packets + [words];
    forall j | 0 <= j < |packets| ensures more[j] == packets[j] && Bytes(more, j) == Bytes(packets, j) { }
  }

  // ---------- the search and the packets ----------

  /** The handles that the child search has still to find. */
  ghost function Ahead(db: HandleDb): seq<Word32>
    requires db.Valid()
    reads db
  {
    Listing(db.entries, db.handleSearch, db.storageSearch, db.cursor)
  }

  method Next(db: HandleDb) returns (h: Option<Word32>)
    requires db.Valid()
    modifies db`searchEntry, db`cursor
    ensures db.Valid() && db.Abs() == old(db.Abs())
    ensures if old(Ahead(db)) == [] then h == None && Ahead(db) == []
            else h == Some(old(Ahead(db))[0]) && Ahead(db) == old(Ahead(db))[1..]
  {
    ChildrenNext(db.entries, db.handleSearch, db.storageSearch, db.cursor);
    var r; ghost var i;
    r, i := db.GetNextChildHandle();
    h := None;
    if r.Some? {
      assert Stored(db.mem, db.created, db.entries, i);
      h := Some(db.mem[r.value].entry.handle);
    }
  }

  /** The first pass. */
  method Count(db: HandleDb) returns (n: nat)
    requires db.Valid()
    modifies db`searchEntry, db`cursor
    ensures db.Valid() && db.Abs() == old(db.Abs()) && n == |old(Ahead(db))|
  {
    n := 0;
    var h := Next(db);
    while h.Some?
      invariant db.Valid() && db.Abs() == old(db.Abs())
      invariant n + (if h.Some? then 1 else 0) + |Ahead(db)| == |old(Ahead(db))|
      invariant h.None? ==> Ahead(db) == []
      decreases |Ahead(db)|, h.Some?
    {
      n := n + 1;
      h := Next(db);
    }
  }

  method PutNext(db: HandleDb, words: seq<Word32>, ghost all: seq<Word32>) returns (words': seq<Word32>)
    requires db.Valid() && words + Ahead(db) == all
    modifies db`searchEntry, db`cursor
    ensures db.Valid() && db.Abs() == old(db.Abs()) && words' + Ahead(db) == all
    ensures |words'| == |words| + if old(Ahead(db)) == [] then 0 else 1
  {
    words' := words;
    var h := Next(db);
    if h.Some? { words' := words + [h.value]; }
  }

  /** The inner loop: one packet, begun with `ofs` bytes, when `index` handles of `count` have been sent. */
  method FillPacket(db: HandleDb, ofs: nat, index: nat, count: nat, size: nat) returns (words: seq<Word32>)
    requires db.Valid() && count <= index + |Ahead(db)|
    modifies db`searchEntry, db`cursor
    ensures db.Valid() && db.Abs() == old(db.Abs()) && words + Ahead(db) == old(Ahead(db))
    ensures words == [] <==> old(Ahead(db)) == []
    ensures ofs + 4 * |words| >= size || index + |words| >= count
    ensures |words| > 1 ==> ofs + 4 * (|words| - 1) < size && index + |words| <= count
  {
    ghost var all := Ahead(db);
    words := PutNext(db, [], all);
    while ofs + 4 * |words| < size && index + |words| < count
      invariant db.Valid() && db.Abs() == old(db.Abs()) && words + Ahead(db) == all
      invariant words == [] <==> all == []
      invariant |words| > 1 ==> ofs + 4 * (|words| - 1) < size && index + |words| <= count
      decreases count - index - |words|
    {
      words := PutNext(db, words, all);
    }
  }

  /** What has been sent of `all`, what is still ahead, and the packets so far. */
  ghost predicate Sending(packets: seq<seq<Word32>>, ahead: seq<Word32>, all: seq<Word32>, size: nat) {
    && packets != [] && Words(packets) + ahead == all && (size > 16 ==> Framed(packets, size))
    && (ahead != [] ==> Bytes(packets, |packets| - 1) >= size)
  }

  lemma {:induction false} SendingFirst(words: seq<Word32>, ahead: seq<Word32>, all: seq<Word32>, size: nat)
    requires words != [] && words + ahead == all && (ahead != [] ==> HEADER + 4 * |words| >= size)
    requires size > 16 ==> HEADER + 4 * |words| < size + 4
    ensures Sending([words], ahead, all, size)
  {
    WordsMore([], words);
  }

  lemma {:induction false} SendingMore(packets: seq<seq<Word32>>, words: seq<Word32>, ahead: seq<Word32>, all: seq<Word32>, size: nat)
    requires words != [] && Sending(packets, words + ahead, all, size)
    requires ahead != [] ==> 4 * |words| >= size
    requires size > 16 ==> 4 * |words| < size + 4
    ensures Sending(packets + [words], ahead, all, size)
  {
    WordsMore(packets, words);
    if size > 16 { FramedMore(packets, words, size); }
  }

  /** The second pass. */
  method Send(db: HandleDb, count: Word32, size: nat) returns (packets: seq<seq<Word32>>)
    requires db.Valid() && count == |Ahead(db)|
    modifies db`searchEntry, db`cursor
    ensures db.Valid() && db.Abs() == old(db.Abs()) && Ahead(db) == []
    ensures Words(packets) == [count] + old(Ahead(db)) && (size > 16 ==> Framed(packets, size))
  {
    ghost var all := [count] + Ahead(db);
    var words := FillPacket(db, HEADER + 4, 0, count, size);
    packets := [[count] + words];
    SendingFirst([count] + words, Ahead(db), all, size);
    var index := |words|;
    while index < count
      invariant db.Valid() && db.Abs() == old(db.Abs())
      invariant index + |Ahead(db)| == count && Sending(packets, Ahead(db), all, size)
      decreases count - index
    {
      words := FillPacket(db, 0, index, count, size);
      SendingMore(packets, words, Ahead(db), all, size);
      packets := packets + [words];
      index := index + |words|;
    }
  }

  // ---------- the request ----------

  /** A request, with what the directory and the allocator answer to it. */
  datatype Request = Request(storage: Word32, parent: Word32, access: bool, files: seq<FileInfo>, replies: seq<Reply>,
                             showHidden: bool, stat: string -> Option<int>)

  datatype Response = InvalidStorage | AccessDenied | Data(packets: seq<seq<Word32>>, empty: bool)

  /** The folder that is listed: the top level for 0 and 0xFFFFFFFF, else the parent if there is such an entry. */
  ghost function Target(db: Db, roots: Roots, parent: Word32): Option<Word32> {
    if Special(parent) then Some(0) else if Resolve(db, roots, parent).Some? then Some(parent) else None
  }

  lemma IdleIs(db: HandleDb)
    requires db.Valid()
    ensures db.Idle() <==> Ahead(db) == []
  {
    var c := Children(db.entries, db.handleSearch, db.storageSearch, db.cursor);
    ChildrenExact(db.entries, db.handleSearch, db.storageSearch, db.cursor);
    if c != [] { assert c[0] in c; }
  }

  lemma TargetKnown(db: Db, roots: Roots, parent: Word32)
    requires Target(db, roots, parent).Some?
    ensures ParentKnown(db, Target(db, roots, parent).value)
  {
    if !Special(parent) {
      var i := Resolve(db, roots, parent).value;
      assert db.entries[i].handle == parent;
    }
  }

  /** Both passes over a folder. */
  method ListFolder(db: HandleDb, parent: Word32, storage: Word32, size: nat) returns (packets: seq<seq<Word32>>, count: nat)
    requires db.Valid() && HandlesOk(db.Abs())
    modifies db`searchEntry, db`handleSearch, db`storageSearch, db`cursor
    ensures db.Valid() && db.Abs() == old(db.Abs()) && db.Idle()
    ensures var h := Listing(db.entries, parent, storage, |db.entries|);
            count == |h| && Words(packets) == [count] + h && (size > 16 ==> Framed(packets, size))
  {
    ListingFalls(db.Abs(), parent, storage, |db.entries|);
    var first := db.InitSearchHandle(parent, storage);
    count := Count(db);
    first := db.InitSearchHandle(parent, storage);
    packets := Send(db, count, size);
    IdleIs(db);
  }

  method FindFolder(db: HandleDb, roots: Roots, parent: Word32) returns (target: Option<Word32>)
    requires db.Valid()
    ensures target == Target(db.Abs(), roots, parent) && (target.Some? ==> ParentKnown(db.Abs(), target.value))
  {
    if Special(parent) { return Some(0); }
    var e; ghost var i;
    e, i := db.GetEntryByHandle(roots, parent);
    target := if e.Some? then Some(parent) else None;
    if e.Some? { TargetKnown(db.Abs(), roots, parent); }
  }

  /** The packets hold the number of the handles `h` and then these, and the empty packet is sent where due. */
  ghost predicate Answers(r: Response, h: seq<Word32>, size: nat)
    requires r.Data? && size > 0
  {
    && Words(r.packets) == [|h|] + h
    && (size > 16 ==> Framed(r.packets, size))
    && (r.empty <==> EmptyPacket(HEADER + 4 * |Words(r.packets)|, size))
  }

  method Close(packets: seq<seq<Word32>>, count: Word32, size: nat, ghost h: seq<Word32>) returns (r: Response)
    requires size > 0 && count == |h| && Words(packets) == [count] + h && (size > 16 ==> Framed(packets, size))
    ensures r.Data? && Answers(r, h, size)
  {
    var total := HEADER + 4 + count * 4;
    r := Data(packets, total >= size && total % size == 0);
  }

  /** A folder that is there. */
  method AnswerFolder(db: HandleDb, roots: Roots, q: Request, target: Word32, size: nat)
      returns (r: Response, ghost grants: seq<Grant>)
    requires db.Valid() && Invariant(db.Abs()) && size > 0
    requires |q.replies| == |q.files| && Room(db.Abs(), |q.files|) && ParentKnown(db.Abs(), target)
    modifies db
    ensures db.Valid() && Invariant(db.Abs()) && Extends(old(db.Abs()), db.Abs()) && db.Idle()
    ensures GrantedAll(q.replies, grants, |old(db.entries)|) && |grants| == |q.files|
    ensures db.Abs() == Rescan(old(db.Abs()), roots, q.files, grants, q.showHidden, target, q.storage, q.stat)
    ensures if q.files == [] then r.AccessDenied?
            else r.Data? && Answers(r, Listing(db.entries, target, q.storage, |db.entries|), size)
  {
    var ret;
    ret, grants := db.ScanAndAddFolder(roots, q.files, q.replies, q.showHidden, target, q.storage, q.stat);
    if ret < 0 { return AccessDenied, grants; }
    var packets, count := ListFolder(db, target, q.storage, size);
    ListingFalls(db.Abs(), target, q.storage, |db.entries|);
    r := Close(packets, count, size, Listing(db.entries, target, q.storage, |db.entries|));
  }

  /** A folder that is not there: the count is 0, and the search is asked once where it was left. */
  method AnswerMissing(db: HandleDb, size: nat) returns (r: Response)
    requires db.Valid() && db.Idle() && size > 0
    modifies db`searchEntry, db`cursor
    ensures db.Valid() && db.Abs() == old(db.Abs()) && db.Idle()
    ensures r.Data? && Answers(r, [], size)
  {
    IdleIs(db);
    var packets := Send(db, 0, size);
    IdleIs(db);
    r := Close(packets, 0, size, []);
  }

  /** What the request does to the list, and what it answers. */
  ghost predicate Served(was: Db, now: Db, roots: Roots, q: Request, size: nat, r: Response, grants: seq<Grant>)
    requires Invariant(was) && size > 0 && |q.replies| == |q.files| && Room(was, |q.files|)
  {
    var target := Target(was, roots, q.parent);
    if q.storage !in roots then r.InvalidStorage? && now == was
    else if target.None? then r.Data? && Answers(r, [], size) && now == was
    else if !q.access then r.AccessDenied? && now == was
    else
      TargetKnown(was, roots, q.parent);
      && GrantedAll(q.replies, grants, |was.entries|)
      && now == Rescan(was, roots, q.files, grants, q.showHidden, target.value, q.storage, q.stat)
      && (if q.files == [] then r.AccessDenied?
          else r.Data? && Answers(r, Listing(now.entries, target.value, q.storage, |now.entries|), size))
  }

  /** mtp_op_GetObjectHandles. An idle search stays idle, and this is why the answer for a folder that is not
      there, which restarts no search, has no handle after its count of 0. */
  method GetObjectHandles(db: HandleDb, roots: Roots, q: Request, size: nat) returns (r: Response, ghost grants: seq<Grant>)
    requires db.Valid() && Invariant(db.Abs()) && db.Idle() && size > 0
    requires |q.replies| == |q.files| && Room(db.Abs(), |q.files|)
    modifies db
    ensures db.Valid() && Invariant(db.Abs()) && Extends(old(db.Abs()), db.Abs()) && db.Idle()
    ensures Served(old(db.Abs()), db.Abs(), roots, q, size, r, grants)
    ensures Placed(old(db.Abs()), db.Abs(), roots, q, r) && db.nextHandle <= old(db.nextHandle) + |q.files|
    ensures OneTop(old(db.Abs())) ==> OneTop(db.Abs())
  {
    ghost var was := db.Abs();
    r, grants := Answer(db, roots, q, size);
    ServedPlaced(was, db.Abs(), roots, q, size, r, grants);
  }

  method Answer(db: HandleDb, roots: Roots, q: Request, size: nat) returns (r: Response, ghost grants: seq<Grant>)
    requires db.Valid() && Invariant(db.Abs()) && db.Idle() && size > 0
    requires |q.replies| == |q.files| && Room(db.Abs(), |q.files|)
    modifies db
    ensures db.Valid() && Invariant(db.Abs()) && Extends(old(db.Abs()), db.Abs()) && db.Idle()
    ensures Served(old(db.Abs()), db.Abs(), roots, q, size, r, grants)
  {
    grants := [];
    if q.storage !in roots { return InvalidStorage, grants; }
    var target := FindFolder(db, roots, q.parent);
    if target.None? { r := AnswerMissing(db, size); }
    else if !q.access { r := AccessDenied; }
    else { r, grants := AnswerFolder(db, roots, q, target.value, size); }
  }

  /** Some live entry that the handle index knows, on a mounted storage, has the handle. */
  predicate Known(db: Db, roots: Roots, handle: Word32) {
    exists i: nat :: i < |db.entries| && Resolves(db, roots, handle, i)
  }

  /** Which children are sent: for 0 and for 0xFFFFFFFF those whose parent is 0, for the handle of an entry those
      whose parent is that handle, and for any other none. */
  ghost predicate Placed(was: Db, now: Db, roots: Roots, q: Request, r: Response) {
    r.Data? ==>
      var sent := Words(r.packets);
      && (q.parent == 0 || q.parent == 0xFFFF_FFFF ==> SentOf(now, 0, q.storage, sent))
      && (q.parent != 0 && q.parent != 0xFFFF_FFFF ==>
            if Known(was, roots, q.parent) then SentOf(now, q.parent, q.storage, sent) else sent == [0] && now == was)
  }

  /** The number and the handles of the live entries with this parent and storage, newest first. */
  ghost predicate SentOf(db: Db, parent: Word32, storage: Word32, sent: seq<Word32>) {
    && |sent| > 0 && sent[0] == |sent| - 1
    && (forall a, b :: 1 <= a < b < |sent| ==> sent[a] > sent[b])
    && (forall h :: h in sent[1..] <==> exists i: nat :: LiveChild(db, parent, storage, h, i))
  }

  predicate LiveChild(db: Db, parent: Word32, storage: Word32, h: Word32, i: nat) {
    && i < |db.entries| && !db.entries[i].deleted && db.entries[i].handle == h != parent
    && db.entries[i].parent == parent && db.entries[i].storage == storage
  }

  lemma {:induction false} ListingSent(db: Db, parent: Word32, storage: Word32, sent: seq<Word32>)
    requires HandlesOk(db)
    requires var h := Listing(db.entries, parent, storage, |db.entries|); |h| < 0x1_0000_0000 && sent == [|h|] + h
    ensures SentOf(db, parent, storage, sent)
  {
    var h := Listing(db.entries, parent, storage, |db.entries|);
    ListingFalls(db, parent, storage, |db.entries|);
    ListingIs(db, parent, storage);
    assert sent[1..] == h;
    forall x ensures x in h <==> exists i: nat :: LiveChild(db, parent, storage, x, i) {
      if x in h {
        var i: nat :| i < |db.entries| && IsChild(db.entries[i], parent, storage) && db.entries[i].handle == x;
        assert LiveChild(db, parent, storage, x, i);
      }
      if i: nat :| LiveChild(db, parent, storage, x, i) {
        assert IsChild(db.entries[i], parent, storage);
      }
    }
  }

  lemma {:induction false} ServedPlaced(was: Db, now: Db, roots: Roots, q: Request, size: nat, r: Response, grants: seq<Grant>)
    requires Invariant(was) && Invariant(now) && size > 0 && |q.replies| == |q.files| && Room(was, |q.files|)
    requires Served(was, now, roots, q, size, r, grants)
    ensures Placed(was, now, roots, q, r) && now.next <= was.next + |q.files| && (OneTop(was) ==> OneTop(now))
  {
    var target := Target(was, roots, q.parent);
    if q.parent != 0 && q.parent != 0xFFFF_FFFF { TargetIs(was, roots, q.parent); }
    if q.storage in roots && target.Some? && q.access {
      TargetKnown(was, roots, q.parent);
      RescanOneTop(was, roots, q.files, grants, q.showHidden, target.value, q.storage, q.stat);
      if r.Data? {
        ListingFalls(now, target.value, q.storage, |now.entries|);
        ListingSent(now, target.value, q.storage, Words(r.packets));
      }
    }
  }

  lemma TargetIs(db: Db, roots: Roots, parent: Word32)
    requires HandlesOk(db) && parent != 0 && parent != 0xFFFF_FFFF
    ensures Target(db, roots, parent) == if Known(db, roots, parent) then Some(parent) else None
  {
    if i: nat :| i < |db.entries| && Resolves(db, roots, parent, i) { ResolveUnique(db, roots, parent, i); }
  }

  /** The handles `h` are those of the visible names: every such name has one, nothing else has, none comes twice,
      and no name has two while nothing is lost to the name index. */
  ghost predicate ListsExactly(db: Db, files: seq<FileInfo>, showHidden: bool, parent: Word32, storage: Word32, h: seq<Word32>) {
    && (forall a, b :: 0 <= a < b < |h| ==> h[a] > h[b])
    && (forall name :: Listed(files, showHidden, name) <==> exists i: nat :: Given(db, parent, storage, name, h, i))
    && (forall x :: x in h ==> exists i: nat :: GivenAs(db, files, showHidden, parent, storage, x, i))
    && (db.lostName == {} ==> OneEach(db, parent, storage))
  }

  predicate Given(db: Db, parent: Word32, storage: Word32, name: string, h: seq<Word32>, i: nat) {
    NamedChild(db, parent, storage, name, i) && db.entries[i].handle in h
  }

  predicate GivenAs(db: Db, files: seq<FileInfo>, showHidden: bool, parent: Word32, storage: Word32, x: Word32, i: nat) {
    && i < |db.entries| && IsChild(db.entries[i], parent, storage)
    && db.entries[i].handle == x && Listed(files, showHidden, db.entries[i].name)
  }

  ghost predicate OneEach(db: Db, parent: Word32, storage: Word32) {
    forall i: nat, j: nat :: i < j < |db.entries| && IsChild(db.entries[i], parent, storage) && IsChild(db.entries[j], parent, storage)
                             ==> db.entries[i].name != db.entries[j].name
  }

  lemma OneEachNamed(db: Db, parent: Word32, storage: Word32)
    requires Invariant(db) && db.lostName == {}
    ensures OneEach(db, parent, storage)
  {
    forall i: nat, j: nat | i < j < |db.entries| && IsChild(db.entries[i], parent, storage) && IsChild(db.entries[j], parent, storage)
      ensures db.entries[i].name != db.entries[j].name
    {
      assert Unrooted(db, i) && Unrooted(db, j);
    }
  }

  ghost predicate ChildrenListed(db: Db, files: seq<FileInfo>, showHidden: bool, parent: Word32, storage: Word32) {
    forall name :: Listed(files, showHidden, name) <==>
      exists i :: 0 <= i < |db.entries| && NamedChild(db, parent, storage, name, i)
  }

  lemma {:induction false} NameGiven(db: Db, parent: Word32, storage: Word32, name: string, i: nat)
    requires NamedChild(db, parent, storage, name, i)
    ensures Given(db, parent, storage, name, Listing(db.entries, parent, storage, |db.entries|), i)
  {
    ListingIs(db, parent, storage);
  }

  lemma {:induction false} HandleGiven(db: Db, files: seq<FileInfo>, showHidden: bool, parent: Word32, storage: Word32, x: Word32)
      returns (i: nat)
    requires ChildrenListed(db, files, showHidden, parent, storage) && x in Listing(db.entries, parent, storage, |db.entries|)
    ensures GivenAs(db, files, showHidden, parent, storage, x, i)
  {
    ListingIs(db, parent, storage);
    i :| i < |db.entries| && IsChild(db.entries[i], parent, storage) && db.entries[i].handle == x;
    assert NamedChild(db, parent, storage, db.entries[i].name, i);
  }

  /** The names of a list's children are those of the handles listed. */
  lemma {:induction false} NamesListed(db: Db, files: seq<FileInfo>, showHidden: bool, parent: Word32, storage: Word32)
    requires Invariant(db) && ChildrenListed(db, files, showHidden, parent, storage)
    ensures ListsExactly(db, files, showHidden, parent, storage, Listing(db.entries, parent, storage, |db.entries|))
  {
    var h := Listing(db.entries, parent, storage, |db.entries|);
    ListingFalls(db, parent, storage, |db.entries|);
    if db.lostName == {} { OneEachNamed(db, parent, storage); }
    forall name ensures Listed(files, showHidden, name) <==> exists i: nat :: Given(db, parent, storage, name, h, i) {
      if Listed(files, showHidden, name) {
        var i :| 0 <= i < |db.entries| && NamedChild(db, parent, storage, name, i);
        NameGiven(db, parent, storage, name, i);
      }
    }
    forall x | x in h ensures exists i: nat :: GivenAs(db, files, showHidden, parent, storage, x, i) {
      var i := HandleGiven(db, files, showHidden, parent, storage, x);
    }
  }

  /** Memory for all entries, and a directory that does not change meanwhile. */
  ghost predicate Settled(db: Db, roots: Roots, q: Request, target: Word32)
    requires Invariant(db)
  {
    && (forall k :: 0 <= k < |q.replies| ==> q.replies[k].block && q.replies[k].copy)
    && (forall i :: 0 <= i < |db.entries| && db.entries[i].handle == 0 ==> db.entries[i].name == "/")
    && Folder(db, roots, target, q.storage)
    && Snapshot(db, q.files, q.showHidden, FolderPath(db, roots, target, q.storage), target, q.storage, q.stat)
  }

  /** Then the handles sent are those of the directory's visible names; the top level is the folder 0. */
  lemma {:induction false} ServedExact(was: Db, now: Db, roots: Roots, q: Request, size: nat, r: Response, grants: seq<Grant>)
    requires Invariant(was) && size > 0 && |q.replies| == |q.files| && Room(was, |q.files|)
    requires Served(was, now, roots, q, size, r, grants) && r.Data?
    requires Target(was, roots, q.parent).Some? && Settled(was, roots, q, Target(was, roots, q.parent).value)
    ensures var sent := Words(r.packets);
      && sent != [] && sent[0] == |sent| - 1
      && ListsExactly(now, q.files, q.showHidden, Target(was, roots, q.parent).value, q.storage, sent[1..])
      && (q.parent == 0 || q.parent == 0xFFFF_FFFF ==> ListsExactly(now, q.files, q.showHidden, 0, q.storage, sent[1..]))
      && (q.parent != 0 && q.parent != 0xFFFF_FFFF ==> ListsExactly(now, q.files, q.showHidden, q.parent, q.storage, sent[1..]))
  {
    var target := Target(was, roots, q.parent).value;
    TargetKnown(was, roots, q.parent);
    forall g | 0 <= g < |grants| ensures grants[g].block && grants[g].copy {
      assert Granted(q.replies[g], grants[g], |was.entries| + g);
    }
    RescanLists(was, roots, q.files, grants, q.showHidden, target, q.storage, q.stat);
    assert Words(r.packets)[1..] == Listing(now.entries, target, q.storage, |now.entries|);
  }

  lemma {:induction false} RescanLists(db: Db, roots: Roots, files: seq<FileInfo>, grants: seq<Grant>, showHidden: bool,
                    parent: Word32, storage: Word32, stat: string -> Option<int>)
    requires |files| == |grants| && Invariant(db) && ParentKnown(db, parent) && Room(db, |files|)
    requires forall g :: 0 <= g < |grants| ==> grants[g].block && grants[g].copy
    requires forall i :: 0 <= i < |db.entries| && db.entries[i].handle == 0 ==> db.entries[i].name == "/"
    requires Folder(db, roots, parent, storage)
    requires Snapshot(db, files, showHidden, FolderPath(db, roots, parent, storage), parent, storage, stat)
    ensures var after := Rescan(db, roots, files, grants, showHidden, parent, storage, stat);
            ListsExactly(after, files, showHidden, parent, storage, Listing(after.entries, parent, storage, |after.entries|))
  {
    RescanExact(db, roots, files, grants, showHidden, parent, storage, stat);
    RescanKeeps(db, roots, files, grants, showHidden, parent, storage, stat);
    NamesListed(Rescan(db, roots, files, grants, showHidden, parent, storage, stat), files, showHidden, parent, storage);
  }

  lemma {:induction false} ListingIs(db: Db, parent: Word32, storage: Word32)
    ensures var h := Listing(db.entries, parent, storage, |db.entries|);
      && (forall i :: 0 <= i < |db.entries| && IsChild(db.entries[i], parent, storage) ==> db.entries[i].handle in h)
      && (forall x :: x in h ==> exists i :: 0 <= i < |db.entries| && IsChild(db.entries[i], parent, storage) && db.entries[i].handle == x)
  {
    var c, h := Children(db.entries, parent, storage, |db.entries|), Listing(db.entries, parent, storage, |db.entries|);
    ChildrenExact(db.entries, parent, storage, |db.entries|);
    forall i | 0 <= i < |db.entries| && IsChild(db.entries[i], parent, storage) ensures db.entries[i].handle in h {
      assert i in c;
      var a :| 0 <= a < |c| && c[a] == i;
      assert h[a] == db.entries[i].handle;
    }
    forall x | x in h ensures exists i :: 0 <= i < |db.entries| && IsChild(db.entries[i], parent, storage) && db.entries[i].handle == x {
      var a :| 0 <= a < |h| && h[a] == x;
      assert c[a] in c;
    }
  }
}
