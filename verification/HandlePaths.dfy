/** Full paths of database entries, and what a rescan of one folder does to the list. */
module HandlePaths {
  import opened Basics
  import opened HandleModel

  type Roots = map<Word32, string>

  predicate Wellfounded(db: Db) { HandlesOk(db) && ParentsOk(db) }

  /** A resolved parent is older than its child: this is why walking up ends. */
  lemma ParentOlder(db: Db, roots: Roots, i: nat)
    requires Wellfounded(db) && i < |db.entries| && !Special(db.entries[i].parent)
    ensures var up := Resolve(db, roots, db.entries[i].parent); up.Some? ==> up.value < i
  {
    var parent := db.entries[i].parent;
    var up := Resolve(db, roots, parent);
    if up.Some? {
      assert HasParent(db.entries, parent, i);
      var j :| 0 <= j < |db.entries| && j < i && db.entries[j].handle == parent;
      assert up.value == j;
    }
  }

  function ParentOf(db: Db, roots: Roots, i: nat): (up: Option<nat>)
    requires Wellfounded(db) && i < |db.entries|
    ensures up.Some? ==> up.value < i && Resolves(db, roots, db.entries[i].parent, up.value)
  {
    if Special(db.entries[i].parent) then None
    else
      ParentOlder(db, roots, i);
      Resolve(db, roots, db.entries[i].parent)
  }

  /** The names from the topmost reachable ancestor down to entry `i`, each after a '/'. */
  function PathOf(db: Db, roots: Roots, i: nat): (path: string)
    requires Wellfounded(db) && i < |db.entries|
    ensures |path| > |db.entries[i].name|
    decreases i
  {
    var up := ParentOf(db, roots, i);
    (if up.Some? then PathOf(db, roots, up.value) else "") + "/" + db.entries[i].name
  }

  function RootPath(roots: Roots, storage: Word32): string {
    if storage in roots then roots[storage] else ""
  }

  function FullPath(db: Db, roots: Roots, i: nat): string
    requires Wellfounded(db) && i < |db.entries|
  {
    RootPath(roots, db.entries[i].storage) + PathOf(db, roots, i)
  }

  /** A path starts at its storage's root, and a top-level entry's ends with its name right behind it. */
  lemma RootFirst(db: Db, roots: Roots, i: nat)
    requires Wellfounded(db) && i < |db.entries| && db.entries[i].storage in roots
    ensures var e := db.entries[i]; var root, path := roots[e.storage], FullPath(db, roots, i);
      && root <= path && |root| + |e.name| < |path| && path[|path| - |e.name|..] == e.name && path[|path| - |e.name| - 1] == '/'
      && (e.parent == 0 || e.parent == 0xFFFF_FFFF ==> path == root + "/" + e.name)
  {
  }

  /** A path depends on no entry younger than the one it names, nor on that one's deletion mark. */
  lemma {:induction false} PathStable(db: Db, later: Db, roots: Roots, i: nat)
    requires Wellfounded(db) && Wellfounded(later)
    requires i < |db.entries| <= |later.entries|
    requires forall k :: 0 <= k <= i ==> SameIdentity(db.entries[k], later.entries[k])
    requires forall k :: 0 <= k < i ==> db.entries[k].deleted == later.entries[k].deleted
    requires forall k :: 0 <= k < i ==> (k in db.lostHandle <==> k in later.lostHandle)
    ensures PathOf(db, roots, i) == PathOf(later, roots, i)
    decreases i
  {
    var e := db.entries[i];
    assert SameIdentity(e, later.entries[i]);
    var up, up' := ParentOf(db, roots, i), ParentOf(later, roots, i);
    if up.Some? {
      assert SameIdentity(db.entries[up.value], later.entries[up.value]);
      ResolveUnique(later, roots, e.parent, up.value);
      PathStable(db, later, roots, up.value);
    } else if up'.Some? {
      assert SameIdentity(db.entries[up'.value], later.entries[up'.value]);
      assert Resolves(db, roots, e.parent, up'.value);
      assert false;
    }
  }

  // ---------- the path determines the entry ----------

  predicate ProperName(name: string) { name != "" && '/' !in name }

  /** A live indexed entry of `storage` all of whose ancestors are too, below the top `top`. */
  predicate Anchored(db: Db, roots: Roots, storage: Word32, top: Word32, i: nat)
    requires Wellfounded(db)
    decreases i
  {
    && Unrooted(db, i) && db.entries[i].storage == storage && ProperName(db.entries[i].name)
    && (db.entries[i].parent == top ||
        (ParentOf(db, roots, i).Some? && Anchored(db, roots, storage, top, ParentOf(db, roots, i).value)))
  }

  lemma {:induction false} SlashSplit(p: string, n: string, q: string, m: string)
    requires p + "/" + n == q + "/" + m
    requires '/' !in n && '/' !in m
    ensures p == q && n == m
  {
    var s := p + "/" + n;
    assert s == q + "/" + m;
    assert forall k :: |p| < k < |s| ==> s[k] == n[k - |p| - 1] != '/';
    assert forall k :: |q| < k < |s| ==> s[k] == m[k - |q| - 1] != '/';
    assert s[|p|] == '/' && s[|q|] == '/';
    assert p == s[..|p|] && q == s[..|p|];
    assert n == s[|p| + 1..] && m == s[|p| + 1..];
  }

  predicate AnchoredSomewhere(db: Db, roots: Roots, storage: Word32, i: nat)
    requires Wellfounded(db)
  {
    Anchored(db, roots, storage, 0, i) || Anchored(db, roots, storage, NO_PARENT, i)
  }

  ghost predicate SamePath(db: Db, roots: Roots, storage: Word32, i: nat, j: nat)
    requires Wellfounded(db)
  {
    && AnchoredSomewhere(db, roots, storage, i) && AnchoredSomewhere(db, roots, storage, j)
    && FullPath(db, roots, i) == FullPath(db, roots, j)
  }

  /** Both 0 and 0xFFFFFFFF mark a top-level entry, and a path does not tell them apart. */
  predicate Twins(db: Db, storage: Word32, i: nat, j: nat) {
    && Unrooted(db, i) && Unrooted(db, j) && db.entries[i].storage == storage && db.entries[j].storage == storage
    && db.entries[i].parent == 0 && db.entries[j].parent == NO_PARENT
    && db.entries[i].name == db.entries[j].name && ProperName(db.entries[i].name)
  }

  predicate NoTwins(db: Db, storage: Word32) {
    forall i: nat, j: nat :: i < |db.entries| && j < |db.entries| ==> !Twins(db, storage, i, j)
  }

  lemma {:induction false} PathInjective(db: Db, roots: Roots, storage: Word32, top: Word32, top': Word32, i: nat, j: nat)
    requires Invariant(db) && Special(top) && Special(top') && (top == top' || NoTwins(db, storage))
    requires Anchored(db, roots, storage, top, i) && Anchored(db, roots, storage, top', j)
    requires FullPath(db, roots, i) == FullPath(db, roots, j)
    ensures i == j
    decreases i
  {
    var root := RootPath(roots, storage);
    assert PathOf(db, roots, i) == FullPath(db, roots, i)[|root|..];
    assert PathOf(db, roots, j) == FullPath(db, roots, j)[|root|..];
    var up, up' := ParentOf(db, roots, i), ParentOf(db, roots, j);
    SlashSplit(if up.Some? then PathOf(db, roots, up.value) else "", db.entries[i].name,
               if up'.Some? then PathOf(db, roots, up'.value) else "", db.entries[j].name);
    if up.Some? && up'.Some? {
      PathInjective(db, roots, storage, top, top', up.value, up'.value);
    } else {
      assert top != top' ==> !Twins(db, storage, i, j) && !Twins(db, storage, j, i);
    }
    assert KeyOf(db.entries[i]) == KeyOf(db.entries[j]);
  }

  /** Paths determine the live entries of a storage exactly when no name stands at the top level twice, once
      below 0 and once below 0xFFFFFFFF. */
  lemma PathsDetermine(db: Db, roots: Roots, storage: Word32)
    requires Invariant(db)
    ensures (forall i, j :: SamePath(db, roots, storage, i, j) ==> i == j) <==> NoTwins(db, storage)
  {
    if NoTwins(db, storage) {
      forall i, j | SamePath(db, roots, storage, i, j) ensures i == j {
        PathInjective(db, roots, storage, if Anchored(db, roots, storage, 0, i) then 0 else NO_PARENT,
                      if Anchored(db, roots, storage, 0, j) then 0 else NO_PARENT, i, j);
      }
    } else {
      var i: nat, j: nat :| i < |db.entries| && j < |db.entries| && Twins(db, storage, i, j);
      assert SamePath(db, roots, storage, i, j) && i != j;
    }
  }

  predicate OneTop(db: Db) { forall i :: 0 <= i < |db.entries| ==> db.entries[i].parent != 0xFFFF_FFFF }

  /** Callers that always say 0 for the top level never meet the exception. */
  lemma {:induction false} OneTopNoTwins(db: Db, ops: seq<Op>, storage: Word32)
    requires OneTop(db)
    requires forall n :: 0 <= n < |ops| ==> ops[n].OpAdd? ==> ops[n].parent != NO_PARENT
    ensures NoTwins(Run(db, ops), storage)
    decreases |ops|
  {
    if ops != [] {
      assert ops[0].OpAdd? ==> ops[0].parent != NO_PARENT;
      OneTopNoTwins(Step(db, ops[0]), ops[1..], storage);
    }
  }

  /** A caller that says both does. */
  lemma TwinsReachable() returns (ops: seq<Op>, roots: Roots)
    ensures AdmissibleRun(EMPTY, ops) && Invariant(Run(EMPTY, ops))
    ensures SamePath(Run(EMPTY, ops), roots, 7, 0, 1)
  {
    var info, g := FileInfo("a", false, 0), Grant(true, true, true, true);
    var first, second := OpAdd(info, 0, 7, g), OpAdd(info, NO_PARENT, 7, g);
    ops, roots := [first, second], map[7 := "/mnt"];
    var one := Step(EMPTY, first);
    assert one.entries == [Entry(1, 0, 7, "a", false, false, 0)];
    assert !Present(one, Key("a", NO_PARENT, 7));
    var two := Step(one, second);
    assert two.entries == one.entries + [Entry(2, NO_PARENT, 7, "a", false, false, 0)];
    RunTwo(EMPTY, first, second);
    RunKeeps(EMPTY, ops);
    assert Special(two.entries[0].parent) && Special(two.entries[1].parent);
  }

  // ---------- rescanning a folder ----------

  predicate Visible(name: string, showHidden: bool) {
    name != ".." && name != "." && (showHidden || name == "" || name[0] != '.')
  }

  /** The two links every directory holds are never listed; other names with a leading dot only where hidden files
      are shown. */
  lemma VisibleExactly(name: string, showHidden: bool)
    ensures name == "." || name == ".." ==> !Visible(name, showHidden)
    ensures showHidden && name != "." && name != ".." ==> Visible(name, showHidden)
    ensures !showHidden ==> (Visible(name, showHidden) <==> name == "" || name[0] != '.')
  {
  }

  function AddAll(db: Db, files: seq<FileInfo>, grants: seq<Grant>, showHidden: bool,
                  parent: Word32, storage: Word32): Db
    requires |files| == |grants|
    decreases |files|
  {
    if files == [] then db
    else
      AddAll(AddOne(db, files[0], grants[0], showHidden, parent, storage), files[1..], grants[1..], showHidden, parent, storage)
  }

  function SweepEntry(db: Db, roots: Roots, parent: Word32, storage: Word32,
                      stat: string -> Option<int>, i: nat): Entry
    requires Wellfounded(db) && i < |db.entries|
  {
    var e := db.entries[i];
    if !IsChild(e, parent, storage) then e
    else match stat(FullPath(db, roots, i))
      case None => e.(deleted := true)
      case Some(size) => e.(size := size)
  }

  function Swept(db: Db, roots: Roots, parent: Word32, storage: Word32, stat: string -> Option<int>, k: nat): (es: seq<Entry>)
    requires Wellfounded(db) && k <= |db.entries|
    ensures |es| == k && forall i :: 0 <= i < k ==> es[i] == SweepEntry(db, roots, parent, storage, stat, i)
  {
    if k == 0 then []
    else Swept(db, roots, parent, storage, stat, k - 1) + [SweepEntry(db, roots, parent, storage, stat, k - 1)]
  }

  /** Every live child whose path no longer exists is marked, the others get their current size. */
  function Sweep(db: Db, roots: Roots, parent: Word32, storage: Word32, stat: string -> Option<int>): Db
    requires Wellfounded(db)
  {
    db.(entries := Swept(db, roots, parent, storage, stat, |db.entries|))
  }

  /** Room for `count` more handles before the 32-bit counter reaches 0xFFFFFFFF. */
  predicate Room(db: Db, count: nat) { db.next + count <= NO_PARENT }

  /** The state after one file of the listing. */
  function AddOne(db: Db, file: FileInfo, g: Grant, showHidden: bool, parent: Word32, storage: Word32): Db {
    if Visible(file.name, showHidden) then Add(db, file, parent, storage, g) else db
  }

  lemma AddOneKeeps(db: Db, file: FileInfo, g: Grant, showHidden: bool, parent: Word32, storage: Word32)
    requires Invariant(db) && ParentKnown(db, parent) && Room(db, 1)
    ensures var after := AddOne(db, file, g, showHidden, parent, storage);
            && Invariant(after) && ParentKnown(after, parent) && Grows(db, after)
            && after.next <= db.next + 1
            && (forall i :: |db.entries| <= i < |after.entries| ==>
                  IsChild(after.entries[i], parent, storage) && Describes(file, after.entries[i])
                  && Visible(file.name, showHidden))
  {
    if Visible(file.name, showHidden) {
      var after := AddOne(db, file, g, showHidden, parent, storage);
      AddKeeps(db, file, parent, storage, g);
      KnownStays(db, after, parent);
      ParentBelowNext(db, parent);
    }
  }

  /** The entry is a file or folder, of that name and size, as the listing says. */
  predicate Describes(file: FileInfo, e: Entry) { e.name == file.name && e.isDir == file.isDir && e.size == file.size }

  predicate FromFiles(files: seq<FileInfo>, e: Entry) { exists f :: 0 <= f < |files| && Describes(files[f], e) }

  /** `later` only has entries added at the end. */
  predicate Grows(db: Db, later: Db) { Extends(db, later) && db.entries <= later.entries }

  predicate Listed(files: seq<FileInfo>, showHidden: bool, name: string) {
    Visible(name, showHidden) && exists f :: 0 <= f < |files| && files[f].name == name
  }

  lemma {:induction false} AddAllKeeps(db: Db, files: seq<FileInfo>, grants: seq<Grant>, showHidden: bool,
                                       parent: Word32, storage: Word32)
    requires |files| == |grants| && Invariant(db) && ParentKnown(db, parent) && Room(db, |files|)
    ensures var after := AddAll(db, files, grants, showHidden, parent, storage);
            && Invariant(after) && Grows(db, after)
            && (forall i :: |db.entries| <= i < |after.entries| ==>
                  IsChild(after.entries[i], parent, storage) && Listed(files, showHidden, after.entries[i].name)
                  && FromFiles(files, after.entries[i]))
            && after.next <= db.next + |files|
    decreases |files|
  {
    if files != [] {
      var first := AddOne(db, files[0], grants[0], showHidden, parent, storage);
      AddOneKeeps(db, files[0], grants[0], showHidden, parent, storage);
      AddAllKeeps(first, files[1..], grants[1..], showHidden, parent, storage);
      var after := AddAll(first, files[1..], grants[1..], showHidden, parent, storage);
      GrowsTransitive(db, first, after);
      forall i | |db.entries| <= i < |after.entries|
        ensures IsChild(after.entries[i], parent, storage) && Listed(files, showHidden, after.entries[i].name)
                && FromFiles(files, after.entries[i])
      {
        if i < |first.entries| {
          assert after.entries[i] == first.entries[i] && Describes(files[0], after.entries[i]);
        } else {
          var f :| 0 <= f < |files[1..]| && Describes(files[1..][f], after.entries[i]);
          assert Describes(files[f + 1], after.entries[i]);
        }
      }
    }
  }

  /** Handling the files one after the other is handling the list. */
  lemma {:induction false} AddAllSnoc(db: Db, files: seq<FileInfo>, grants: seq<Grant>, showHidden: bool,
                                      parent: Word32, storage: Word32, f: FileInfo, g: Grant)
    requires |files| == |grants|
    ensures AddAll(db, files + [f], grants + [g], showHidden, parent, storage)
            == AddOne(AddAll(db, files, grants, showHidden, parent, storage), f, g, showHidden, parent, storage)
    decreases |files|
  {
    if files == [] {
      assert files + [f] == [f] && grants + [g] == [g];
    } else {
      assert (files + [f])[1..] == files[1..] + [f] && (grants + [g])[1..] == grants[1..] + [g];
      AddAllSnoc(AddOne(db, files[0], grants[0], showHidden, parent, storage),
                 files[1..], grants[1..], showHidden, parent, storage, f, g);
    }
  }

  lemma WellfoundedStays(db: Db, later: Db)
    requires Wellfounded(db) && |later.entries| == |db.entries| && later.next == db.next
    requires forall i :: 0 <= i < |db.entries| ==> SameIdentity(db.entries[i], later.entries[i])
    ensures Wellfounded(later)
  {
    ParentsStay(db, later);
    forall i, j | 0 <= i < j < |later.entries| && later.entries[i].handle != 0 && later.entries[j].handle != 0
      ensures later.entries[i].handle < later.entries[j].handle
    {
      assert SameIdentity(db.entries[i], later.entries[i]) && SameIdentity(db.entries[j], later.entries[j]);
    }
  }

  lemma GrowsTransitive(a: Db, b: Db, c: Db)
    requires Grows(a, b) && Grows(b, c)
    ensures Grows(a, c)
  {
    forall i | 0 <= i < |a.entries| ensures SameIdentity(a.entries[i], c.entries[i]) {
      assert a.entries[i] == b.entries[i] == c.entries[i];
    }
  }

  lemma ParentBelowNext(db: Db, parent: Word32)
    requires Invariant(db) && ParentKnown(db, parent) && Room(db, 1)
    ensures parent != db.next
  {
    if !Special(parent) {
      var j :| 0 <= j < |db.entries| && j < |db.entries| && db.entries[j].handle == parent;
    }
  }

  lemma KnownStays(db: Db, later: Db, parent: Word32)
    requires ParentKnown(db, parent) && |db.entries| <= |later.entries|
    requires forall i :: 0 <= i < |db.entries| ==> SameIdentity(db.entries[i], later.entries[i])
    ensures ParentKnown(later, parent)
  {
    if !Special(parent) {
      var j :| 0 <= j < |db.entries| && j < |db.entries| && db.entries[j].handle == parent;
      assert SameIdentity(db.entries[j], later.entries[j]);
      assert later.entries[j].handle == parent;
    }
  }

  /** A live child carrying `name` and found by the name index. */
  predicate NamedChild(db: Db, parent: Word32, storage: Word32, name: string, i: nat) {
    i < |db.entries| && IsChild(db.entries[i], parent, storage) && db.entries[i].name == name
  }

  lemma {:induction false} AddAllCovers(db: Db, files: seq<FileInfo>, grants: seq<Grant>, showHidden: bool,
                                        parent: Word32, storage: Word32, f: nat) returns (i: nat)
    requires |files| == |grants| && Invariant(db) && ParentKnown(db, parent) && Room(db, |files|)
    requires f < |files| && Visible(files[f].name, showHidden) && files[f].name != "/"
    requires forall g :: 0 <= g < |grants| ==> grants[g].block && grants[g].copy
    requires forall i :: 0 <= i < |db.entries| && db.entries[i].handle == 0 ==> db.entries[i].name == "/"
    ensures NamedChild(AddAll(db, files, grants, showHidden, parent, storage), parent, storage, files[f].name, i)
    decreases |files|
  {
    var first := AddOne(db, files[0], grants[0], showHidden, parent, storage);
    AddOneKeeps(db, files[0], grants[0], showHidden, parent, storage);
    AddAllKeeps(first, files[1..], grants[1..], showHidden, parent, storage);
    var after := AddAll(first, files[1..], grants[1..], showHidden, parent, storage);
    if f == 0 {
      var key := Key(files[0].name, parent, storage);
      i := |db.entries|;
      if Present(db, key) {
        i :| 0 <= i < |db.entries| && Holds(db, key, i);
        HandleNotParent(db, i);
      } else {
        ParentBelowNext(db, parent);
      }
      assert after.entries[i] == first.entries[i];
    } else {
      i := AddAllCovers(first, files[1..], grants[1..], showHidden, parent, storage, f - 1);
    }
  }

  lemma HandleNotParent(db: Db, i: nat)
    requires Invariant(db) && i < |db.entries| && db.entries[i].handle != 0
    ensures db.entries[i].handle != db.entries[i].parent
  {
    if !Special(db.entries[i].parent) {
      assert HasParent(db.entries, db.entries[i].parent, i);
      var j :| 0 <= j < |db.entries| && j < i && db.entries[j].handle == db.entries[i].parent;
    }
  }

  /** The folder being scanned: a top of the storage, or a live mounted entry of it. */
  predicate Folder(db: Db, roots: Roots, parent: Word32, storage: Word32) {
    Special(parent) ||
    (Resolve(db, roots, parent).Some? && db.entries[Resolve(db, roots, parent).value].storage == storage)
  }

  function FolderPath(db: Db, roots: Roots, parent: Word32, storage: Word32): string
    requires Wellfounded(db) && Folder(db, roots, parent, storage)
  {
    if Special(parent) then RootPath(roots, storage)
    else FullPath(db, roots, Resolve(db, roots, parent).value)
  }

  /** Adding files to a folder does not move it. */
  lemma FolderPathStable(db: Db, later: Db, roots: Roots, parent: Word32, storage: Word32)
    requires Invariant(db) && Invariant(later) && Folder(db, roots, parent, storage) && Grows(db, later)
    ensures Folder(later, roots, parent, storage)
    ensures FolderPath(later, roots, parent, storage) == FolderPath(db, roots, parent, storage)
  {
    if !Special(parent) {
      var p := Resolve(db, roots, parent).value;
      ResolveUnique(later, roots, parent, p);
      PathStable(db, later, roots, p);
    }
  }

  lemma ChildPath(db: Db, roots: Roots, parent: Word32, storage: Word32, i: nat)
    requires Wellfounded(db) && Folder(db, roots, parent, storage)
    requires i < |db.entries| && db.entries[i].parent == parent && db.entries[i].storage == storage
    ensures FullPath(db, roots, i) == FolderPath(db, roots, parent, storage) + "/" + db.entries[i].name
  {
  }

  /** The directory snapshot and `stat` tell the same story about the folder. */
  predicate Snapshot(db: Db, files: seq<FileInfo>, showHidden: bool, base: string,
                     parent: Word32, storage: Word32, stat: string -> Option<int>) {
    && (forall f :: 0 <= f < |files| ==> files[f].name != "/")
    && (forall f :: 0 <= f < |files| && Visible(files[f].name, showHidden)
                    ==> stat(base + "/" + files[f].name).Some?)
    && (forall i :: 0 <= i < |db.entries| && IsChild(db.entries[i], parent, storage)
                    && stat(base + "/" + db.entries[i].name).Some?
                    ==> Listed(files, showHidden, db.entries[i].name))
  }

  function Rescan(db: Db, roots: Roots, files: seq<FileInfo>, grants: seq<Grant>, showHidden: bool,
                  parent: Word32, storage: Word32, stat: string -> Option<int>): Db
    requires |files| == |grants| && Invariant(db) && ParentKnown(db, parent) && Room(db, |files|)
  {
    AddAllKeeps(db, files, grants, showHidden, parent, storage);
    Sweep(AddAll(db, files, grants, showHidden, parent, storage), roots, parent, storage, stat)
  }

  /** When every allocation succeeds, a rescan leaves exactly the snapshot's names as live children;
      a child that was live and is still listed keeps its place and handle, and every entry
      outside the folder is untouched. */
  lemma RescanExact(db: Db, roots: Roots, files: seq<FileInfo>, grants: seq<Grant>, showHidden: bool,
                    parent: Word32, storage: Word32, stat: string -> Option<int>)
    requires |files| == |grants| && Invariant(db) && ParentKnown(db, parent) && Room(db, |files|)
    requires forall g :: 0 <= g < |grants| ==> grants[g].block && grants[g].copy
    requires forall i :: 0 <= i < |db.entries| && db.entries[i].handle == 0 ==> db.entries[i].name == "/"
    requires Folder(db, roots, parent, storage)
    requires Snapshot(db, files, showHidden, FolderPath(db, roots, parent, storage), parent, storage, stat)
    ensures var after := Rescan(db, roots, files, grants, showHidden, parent, storage, stat);
            && (forall name :: Listed(files, showHidden, name) <==>
                  exists i :: 0 <= i < |after.entries| && NamedChild(after, parent, storage, name, i))
            && |db.entries| <= |after.entries|
            && (forall i :: 0 <= i < |db.entries| ==>
                  if IsChild(db.entries[i], parent, storage)
                  then after.entries[i].handle == db.entries[i].handle
                       && (Listed(files, showHidden, db.entries[i].name) <==> !after.entries[i].deleted)
                  else after.entries[i] == db.entries[i])
  {
    AddAllKeeps(db, files, grants, showHidden, parent, storage);
    var mid := AddAll(db, files, grants, showHidden, parent, storage);
    var after := Sweep(mid, roots, parent, storage, stat);
    SweptExact(db, mid, roots, files, showHidden, parent, storage, stat);
    AllCovered(db, files, grants, showHidden, parent, storage, mid);
    NamesExact(mid, after, files, showHidden, parent, storage);
    assert Rescan(db, roots, files, grants, showHidden, parent, storage, stat) == after;
  }

  lemma AllCovered(db: Db, files: seq<FileInfo>, grants: seq<Grant>, showHidden: bool,
                   parent: Word32, storage: Word32, mid: Db)
    requires |files| == |grants| && Invariant(db) && ParentKnown(db, parent) && Room(db, |files|)
    requires forall g :: 0 <= g < |grants| ==> grants[g].block && grants[g].copy
    requires forall f :: 0 <= f < |files| ==> files[f].name != "/"
    requires forall i :: 0 <= i < |db.entries| && db.entries[i].handle == 0 ==> db.entries[i].name == "/"
    requires mid == AddAll(db, files, grants, showHidden, parent, storage)
    ensures forall name :: Listed(files, showHidden, name)
              ==> exists i :: 0 <= i < |mid.entries| && NamedChild(mid, parent, storage, name, i)
  {
    forall name | Listed(files, showHidden, name)
      ensures exists i :: 0 <= i < |mid.entries| && NamedChild(mid, parent, storage, name, i)
    {
      var f :| 0 <= f < |files| && files[f].name == name;
      var i := AddAllCovers(db, files, grants, showHidden, parent, storage, f);
      assert 0 <= i < |mid.entries|;
    }
  }

  lemma SweptExact(db: Db, mid: Db, roots: Roots, files: seq<FileInfo>, showHidden: bool,
                   parent: Word32, storage: Word32, stat: string -> Option<int>)
    requires Invariant(db) && Invariant(mid) && Grows(db, mid)
    requires Folder(db, roots, parent, storage)
    requires Snapshot(db, files, showHidden, FolderPath(db, roots, parent, storage), parent, storage, stat)
    requires forall i :: |db.entries| <= i < |mid.entries| ==> Listed(files, showHidden, mid.entries[i].name)
    ensures forall i :: 0 <= i < |mid.entries| ==>
              SameIdentity(mid.entries[i], SweepEntry(mid, roots, parent, storage, stat, i))
    ensures forall i :: 0 <= i < |mid.entries| && IsChild(mid.entries[i], parent, storage) ==>
              (Listed(files, showHidden, mid.entries[i].name)
               <==> !SweepEntry(mid, roots, parent, storage, stat, i).deleted)
  {
    FolderPathStable(db, mid, roots, parent, storage);
    forall i | 0 <= i < |mid.entries| && IsChild(mid.entries[i], parent, storage)
      ensures Listed(files, showHidden, mid.entries[i].name)
              <==> !SweepEntry(mid, roots, parent, storage, stat, i).deleted
    {
      SweptChild(db, mid, roots, files, showHidden, parent, storage, stat, i);
    }
  }

  lemma NamesExact(mid: Db, after: Db, files: seq<FileInfo>, showHidden: bool, parent: Word32, storage: Word32)
    requires |mid.entries| == |after.entries|
    requires forall i :: 0 <= i < |mid.entries| ==> SameIdentity(mid.entries[i], after.entries[i])
    requires forall i :: 0 <= i < |mid.entries| && IsChild(mid.entries[i], parent, storage)
               ==> (Listed(files, showHidden, mid.entries[i].name) <==> !after.entries[i].deleted)
    requires forall name :: Listed(files, showHidden, name)
               ==> exists i :: 0 <= i < |mid.entries| && NamedChild(mid, parent, storage, name, i)
    ensures forall name :: Listed(files, showHidden, name) <==>
                           exists i :: 0 <= i < |after.entries| && NamedChild(after, parent, storage, name, i)
  {
    forall name ensures Listed(files, showHidden, name) <==>
                        exists i :: 0 <= i < |after.entries| && NamedChild(after, parent, storage, name, i)
    {
      if Listed(files, showHidden, name) {
        var i :| 0 <= i < |mid.entries| && NamedChild(mid, parent, storage, name, i);
        assert SameIdentity(mid.entries[i], after.entries[i]);
        assert NamedChild(after, parent, storage, name, i);
      }
      if i :| 0 <= i < |after.entries| && NamedChild(after, parent, storage, name, i) {
        assert SameIdentity(mid.entries[i], after.entries[i]);
      }
    }
  }

  lemma SweptChild(db: Db, mid: Db, roots: Roots, files: seq<FileInfo>, showHidden: bool,
                   parent: Word32, storage: Word32, stat: string -> Option<int>, i: nat)
    requires Invariant(db) && Invariant(mid) && |db.entries| <= |mid.entries|
    requires Folder(db, roots, parent, storage) && Folder(mid, roots, parent, storage)
    requires FolderPath(mid, roots, parent, storage) == FolderPath(db, roots, parent, storage)
    requires Snapshot(db, files, showHidden, FolderPath(db, roots, parent, storage), parent, storage, stat)
    requires i < |mid.entries| && IsChild(mid.entries[i], parent, storage)
    requires i < |db.entries| ==> mid.entries[i] == db.entries[i]
    requires i >= |db.entries| ==> Listed(files, showHidden, mid.entries[i].name)
    ensures Listed(files, showHidden, mid.entries[i].name)
            <==> !SweepEntry(mid, roots, parent, storage, stat, i).deleted
  {
    ChildPath(mid, roots, parent, storage, i);
    var base := FolderPath(db, roots, parent, storage);
    var name := mid.entries[i].name;
    if Listed(files, showHidden, name) {
      var f :| 0 <= f < |files| && files[f].name == name;
      assert stat(base + "/" + files[f].name).Some?;
    }
    if i < |db.entries| && stat(base + "/" + name).Some? {
      assert stat(base + "/" + db.entries[i].name).Some?;
    }
  }

  /** What a rescan writes into the folder's entries: a live child has the size that stat gives for its path, and
      a new one is a file or a folder as the listing says. */
  lemma RescanDetails(db: Db, roots: Roots, files: seq<FileInfo>, grants: seq<Grant>, showHidden: bool,
                      parent: Word32, storage: Word32, stat: string -> Option<int>, i: nat)
    requires |files| == |grants| && Invariant(db) && ParentKnown(db, parent) && Room(db, |files|)
    requires Folder(db, roots, parent, storage)
    requires var after := Rescan(db, roots, files, grants, showHidden, parent, storage, stat);
      i < |after.entries| && IsChild(after.entries[i], parent, storage)
    ensures var e := Rescan(db, roots, files, grants, showHidden, parent, storage, stat).entries[i];
      && stat(FolderPath(db, roots, parent, storage) + "/" + e.name) == Some(e.size)
      && (if i < |db.entries| then e.isDir == db.entries[i].isDir
          else exists f :: 0 <= f < |files| && files[f].name == e.name && files[f].isDir == e.isDir)
  {
    AddAllKeeps(db, files, grants, showHidden, parent, storage);
    var mid := AddAll(db, files, grants, showHidden, parent, storage);
    FolderPathStable(db, mid, roots, parent, storage);
    var e := Sweep(mid, roots, parent, storage, stat).entries[i];
    assert e == SweepEntry(mid, roots, parent, storage, stat, i);
    ChildPath(mid, roots, parent, storage, i);
    if i >= |db.entries| {
      var f :| 0 <= f < |files| && Describes(files[f], mid.entries[i]);
      assert files[f].name == e.name;
    }
  }

  /** A rescan below one top leaves no entry below the other, and uses at most one handle for each file. */
  lemma RescanOneTop(db: Db, roots: Roots, files: seq<FileInfo>, grants: seq<Grant>, showHidden: bool,
                     parent: Word32, storage: Word32, stat: string -> Option<int>)
    requires |files| == |grants| && Invariant(db) && ParentKnown(db, parent) && Room(db, |files|)
    ensures var after := Rescan(db, roots, files, grants, showHidden, parent, storage, stat);
      (OneTop(db) && parent != NO_PARENT ==> OneTop(after)) && after.next <= db.next + |files|
  {
    AddAllKeeps(db, files, grants, showHidden, parent, storage);
    var mid, after := AddAll(db, files, grants, showHidden, parent, storage),
                      Rescan(db, roots, files, grants, showHidden, parent, storage, stat);
    if OneTop(db) && parent != NO_PARENT {
      forall i | 0 <= i < |after.entries| ensures after.entries[i].parent != NO_PARENT {
        assert after.entries[i] == SweepEntry(mid, roots, parent, storage, stat, i);
        if i < |db.entries| { assert mid.entries[i] == db.entries[i]; }
      }
    }
  }

  // ---------- a rescan as a run ----------

  lemma {:induction false} AddAllAsRun(db: Db, files: seq<FileInfo>, grants: seq<Grant>, showHidden: bool,
                                       parent: Word32, storage: Word32) returns (ops: seq<Op>)
    requires |files| == |grants| && Invariant(db) && ParentKnown(db, parent) && Room(db, |files|)
    ensures Run(db, ops) == AddAll(db, files, grants, showHidden, parent, storage) && AdmissibleRun(db, ops)
    ensures |ops| <= |files|
    ensures (forall n :: 0 <= n < |grants| ==> grants[n].byName && grants[n].byHandle) ==> forall k :: 0 <= k < |ops| ==> Indexed(ops[k])
    decreases |files|
  {
    ops := [];
    if files != [] {
      AddOneKeeps(db, files[0], grants[0], showHidden, parent, storage);
      var first := AddOne(db, files[0], grants[0], showHidden, parent, storage);
      ops := AddAllAsRun(first, files[1..], grants[1..], showHidden, parent, storage);
      if Visible(files[0].name, showHidden) {
        var op := OpAdd(files[0], parent, storage, grants[0]);
        assert ([op] + ops)[1..] == ops;
        ops := [op] + ops;
      }
    }
  }

  /** The first `k` entries looked up. */
  lemma {:induction false} SweepAsRun(mid: Db, roots: Roots, parent: Word32, storage: Word32, stat: string -> Option<int>, k: nat)
      returns (ops: seq<Op>)
    requires Wellfounded(mid) && k <= |mid.entries|
    ensures AdmissibleRun(mid, ops) && forall j :: 0 <= j < |ops| ==> ops[j].OpDelete? || ops[j].OpStat?
    ensures var after := Run(mid, ops);
      && after == mid.(entries := after.entries) && |after.entries| == |mid.entries|
      && (forall i :: 0 <= i < |mid.entries| ==>
            after.entries[i] == if i < k then SweepEntry(mid, roots, parent, storage, stat, i) else mid.entries[i])
  {
    ops := [];
    if k > 0 {
      ops := SweepAsRun(mid, roots, parent, storage, stat, k - 1);
      var i, e := k - 1, mid.entries[k - 1];
      if IsChild(e, parent, storage) {
        var found := stat(FullPath(mid, roots, i));
        var op := if found.None? then OpDelete(i) else OpStat(i, found.value);
        RunSnoc(mid, ops, op);
        assert AdmissibleRun(Run(mid, ops), [op]) by { assert [op][1..] == []; assert AdmissibleRun(Step(Run(mid, ops), op), []); }
        AdmissibleAppend(mid, ops, [op]);
        ops := ops + [op];
      }
    }
  }

  /** A rescan is a run of additions, deletions and size updates: so it keeps everything that runs keep. */
  lemma RescanAsRun(db: Db, roots: Roots, files: seq<FileInfo>, grants: seq<Grant>, showHidden: bool,
                    parent: Word32, storage: Word32, stat: string -> Option<int>) returns (ops: seq<Op>)
    requires |files| == |grants| && Invariant(db) && ParentKnown(db, parent) && Room(db, |files|)
    ensures Run(db, ops) == Rescan(db, roots, files, grants, showHidden, parent, storage, stat) && AdmissibleRun(db, ops)
    ensures (forall n :: 0 <= n < |grants| ==> grants[n].byName && grants[n].byHandle) ==> forall k :: 0 <= k < |ops| ==> Indexed(ops[k])
    ensures |Run(db, ops).entries| <= |db.entries| + |files|
  {
    AddAllKeeps(db, files, grants, showHidden, parent, storage);
    var mid := AddAll(db, files, grants, showHidden, parent, storage);
    var adds := AddAllAsRun(db, files, grants, showHidden, parent, storage);
    var looks := SweepAsRun(mid, roots, parent, storage, stat, |mid.entries|);
    assert Run(mid, looks).entries == Swept(mid, roots, parent, storage, stat, |mid.entries|);
    RunAppend(db, adds, looks);
    AdmissibleAppend(db, adds, looks);
    RunSize(db, adds);
    ops := adds + looks;
  }

  lemma RescanKeeps(db: Db, roots: Roots, files: seq<FileInfo>, grants: seq<Grant>, showHidden: bool,
                    parent: Word32, storage: Word32, stat: string -> Option<int>)
    requires |files| == |grants| && Invariant(db) && ParentKnown(db, parent) && Room(db, |files|)
    ensures var after := Rescan(db, roots, files, grants, showHidden, parent, storage, stat); Invariant(after) && Extends(db, after)
  {
    var ops := RescanAsRun(db, roots, files, grants, showHidden, parent, storage, stat);
    RunKeeps(db, ops);
  }
}
