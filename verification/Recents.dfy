/** The recently opened games: a growable array and the move-to-front list kept in it. */
module Recents {

  const MAX_RECENTS: nat := 24

  datatype Slot = Null | Recent(path: string, alias: string)

  function Path(s: Slot): string { if s.Recent? then s.path else "" }

  // ---------- the list as a value ----------

  /** The first entry with this path from `i` on, or -1. */
  function Find(s: seq<Slot>, path: string, i: nat): (id: int)
    ensures id == -1 || (i <= id < |s| && Path(s[id]) == path)
    ensures forall k :: i <= k < |s| && (id == -1 || k < id) ==> Path(s[k]) != path
    decreases |s| - i
  {
    if i >= |s| then -1 else if Path(s[i]) == path then i else Find(s, path, i + 1)
  }

  /** The entry at `id` in front, everything before it one place further back. */
  function Bumped(s: seq<Slot>, id: nat): seq<Slot>
    requires id < |s|
  {
    [s[id]] + s[..id] + s[id + 1..]
  }

  /** What opening a game makes of the list. */
  function Added(s: seq<Slot>, path: string, alias: string): seq<Slot> {
    var id := Find(s, path, 0);
    if id >= 0 then Bumped(s, id)
    else [Recent(path, alias)] + if |s| >= MAX_RECENTS then s[..MAX_RECENTS - 1] else s
  }

  // ---------- what it is for ----------

  /** When a path was last opened, -1 for never. */
  function LastUse(history: seq<string>, path: string): int {
    if history == [] then -1
    else if history[|history| - 1] == path then |history| - 1
    else LastUse(history[..|history| - 1], path)
  }

  /** The most recently opened games, latest first: at most 24, none twice, and whatever was opened but is
      not listed was last opened before everything listed. */
  ghost predicate MostRecent(s: seq<Slot>, history: seq<string>) {
    |s| <= MAX_RECENTS && Ordered(s, UseIn(history)) && Rest(s, UseIn(history))
  }

  function UseIn(history: seq<string>): string -> int { p => LastUse(history, p) }

  /** `use` says when a path was last opened. */
  ghost predicate Ordered(s: seq<Slot>, use: string -> int) {
    && (forall i :: 0 <= i < |s| ==> s[i].Recent? && use(Path(s[i])) >= 0)
    && (forall i, j :: 0 <= i < j < |s| ==> use(Path(s[i])) > use(Path(s[j])))
  }

  predicate Lists(s: seq<Slot>, p: string) { exists i :: 0 <= i < |s| && Path(s[i]) == p }

  ghost predicate Rest(s: seq<Slot>, use: string -> int) {
    forall p: string :: use(p) >= 0 && !Lists(s, p) ==> |s| == MAX_RECENTS && use(p) < use(Path(s[|s| - 1]))
  }

  /** `path` is used now, at time `n`. */
  ghost predicate Later(use: string -> int, use': string -> int, path: string, n: int) {
    forall p: string :: use'(p) == (if p == path then n else use(p)) && use(p) < n && n >= 0
  }

  lemma UseLater(history: seq<string>, path: string)
    ensures Later(UseIn(history), UseIn(history + [path]), path, |history|)
  {
    forall p: string
      ensures LastUse(history + [path], p) == (if p == path then |history| else LastUse(history, p)) && LastUse(history, p) < |history|
    {
      assert (history + [path])[..|history|] == history;
      UseBelow(history, p);
    }
  }

  lemma {:induction false} UseBelow(history: seq<string>, p: string)
    ensures LastUse(history, p) < |history|
  {
    if history != [] { UseBelow(history[..|history| - 1], p); }
  }

  predicate BumpedTo(s: seq<Slot>, id: nat, t: seq<Slot>) {
    && id < |s| && |t| == |s| && t[0] == s[id]
    && (forall i :: 0 < i <= id ==> t[i] == s[i - 1])
    && (forall i :: id < i < |t| ==> t[i] == s[i])
  }

  predicate PushedTo(s: seq<Slot>, item: Slot, t: seq<Slot>) {
    && |t| == (if |s| >= MAX_RECENTS then MAX_RECENTS else |s| + 1)
    && t[0] == item && (forall i :: 0 < i < |t| ==> t[i] == s[i - 1])
  }

  /** Opening a listed game keeps the order, */
  lemma BumpedOrdered(s: seq<Slot>, id: nat, t: seq<Slot>, use: string -> int, use': string -> int, n: int)
    requires BumpedTo(s, id, t) && Ordered(s, use) && Later(use, use', Path(s[id]), n)
    ensures Ordered(t, use')
  {
    assert forall i :: 0 <= i < |s| && i != id ==> use(Path(s[i])) != use(Path(s[id]));
    forall i, j | 0 <= i < j < |t| ensures use'(Path(t[i])) > use'(Path(t[j])) {
      assert use'(Path(t[j])) == use(Path(t[j]));
    }
    forall i | 0 <= i < |t| ensures t[i].Recent? && use'(Path(t[i])) >= 0 {
      assert use(Path(t[i])) >= 0;
    }
  }

  /** and what is not listed stays behind. */
  lemma BumpedRest(s: seq<Slot>, id: nat, t: seq<Slot>, use: string -> int, use': string -> int, n: int)
    requires BumpedTo(s, id, t) && Ordered(s, use) && Rest(s, use) && Later(use, use', Path(s[id]), n)
    ensures Rest(t, use')
  {
    forall p: string | use'(p) >= 0 && !Lists(t, p)
      ensures |t| == MAX_RECENTS && use'(p) < use'(Path(t[|t| - 1]))
    {
      assert Path(t[0]) == Path(s[id]);
      forall i | 0 <= i < |s| ensures Path(s[i]) != p {
        var k := if i == id then 0 else if i < id then i + 1 else i;
        assert t[k] == s[i] && Path(t[k]) != p;
      }
      assert use(p) == use'(p) && !Lists(s, p);
      var m := |t| - 1;
      if id == m {
        assert m > 0;
        assert t[m] == s[m - 1] && use(Path(s[m - 1])) > use(Path(s[m]));
      }
    }
  }

  /** So does opening a new one, which pushes out the oldest when the list is full. */
  lemma PushedOrdered(s: seq<Slot>, item: Slot, t: seq<Slot>, use: string -> int, use': string -> int, n: int)
    requires PushedTo(s, item, t) && item.Recent? && !Lists(s, item.path) && Ordered(s, use) && Later(use, use', item.path, n)
    ensures Ordered(t, use')
  {
    forall i, j | 0 <= i < j < |t| ensures use'(Path(t[i])) > use'(Path(t[j])) {
      assert Path(s[j - 1]) != item.path;
    }
    forall i | 0 <= i < |t| ensures use'(Path(t[i])) >= 0 {
      if i > 0 { assert use(Path(s[i - 1])) >= 0; }
    }
  }

  lemma PushedRest(s: seq<Slot>, item: Slot, t: seq<Slot>, use: string -> int, use': string -> int, n: int)
    requires PushedTo(s, item, t) && item.Recent? && !Lists(s, item.path) && |s| <= MAX_RECENTS
    requires Ordered(s, use) && Rest(s, use) && Later(use, use', item.path, n)
    ensures Rest(t, use')
  {
    forall p: string | use'(p) >= 0 && !Lists(t, p)
      ensures |t| == MAX_RECENTS && use'(p) < use'(Path(t[|t| - 1]))
    {
      assert Path(t[0]) == item.path;
      assert forall i :: 0 <= i < |t| - 1 ==> t[i + 1] == s[i];
    }
  }

  lemma AddedRecent(s: seq<Slot>, history: seq<string>, path: string, alias: string)
    requires MostRecent(s, history)
    ensures MostRecent(Added(s, path, alias), history + [path])
  {
    UseLater(history, path);
    AddedShape(s, path, alias);
    AddedKeeps(s, path, alias, Added(s, path, alias), UseIn(history), UseIn(history + [path]), |history|);
  }

  lemma AddedShape(s: seq<Slot>, path: string, alias: string)
    ensures var id, t := Find(s, path, 0), Added(s, path, alias);
      if id >= 0 then BumpedTo(s, id, t) && Path(s[id]) == path
      else PushedTo(s, Recent(path, alias), t) && !Lists(s, path)
  {
    var id := Find(s, path, 0);
    if id >= 0 { BumpedShape(s, id); } else { PushedShape(s, Recent(path, alias)); }
  }

  lemma BumpedShape(s: seq<Slot>, id: nat)
    requires id < |s|
    ensures BumpedTo(s, id, Bumped(s, id))
  {
  }

  lemma PushedShape(s: seq<Slot>, item: Slot)
    ensures PushedTo(s, item, [item] + if |s| >= MAX_RECENTS then s[..MAX_RECENTS - 1] else s)
  {
  }

  lemma AddedKeeps(s: seq<Slot>, path: string, alias: string, t: seq<Slot>, use: string -> int, use': string -> int, n: int)
    requires |s| <= MAX_RECENTS && Ordered(s, use) && Rest(s, use) && Later(use, use', path, n)
    requires var id := Find(s, path, 0);
      if id >= 0 then BumpedTo(s, id, t) && Path(s[id]) == path
      else PushedTo(s, Recent(path, alias), t) && !Lists(s, path)
    ensures |t| <= MAX_RECENTS && Ordered(t, use') && Rest(t, use')
  {
    var id := Find(s, path, 0);
    if id >= 0 {
      BumpedOrdered(s, id, t, use, use', n);
      BumpedRest(s, id, t, use, use', n);
    } else {
      PushedOrdered(s, Recent(path, alias), t, use, use', n);
      PushedRest(s, Recent(path, alias), t, use, use', n);
    }
  }

  /** The history leaves no choice: two lists of its most recent games have the same paths. */
  lemma {:induction false} MostRecentUnique(s: seq<Slot>, t: seq<Slot>, history: seq<string>, i: nat)
    requires MostRecent(s, history) && MostRecent(t, history) && i < |s|
    ensures i < |t| && t[i].path == s[i].path
  {
    forall k | 0 <= k < i ensures k < |t| && Path(t[k]) == Path(s[k]) { MostRecentUnique(s, t, history, k); }
    var use := UseIn(history);
    SamePrefix(s, t, use, i);
    if use(Path(s[i])) < use(Path(t[i])) {
      NotAhead(t, s, use, i);
    } else if use(Path(s[i])) > use(Path(t[i])) {
      NotAhead(s, t, use, i);
    }
    LastUseIs(history, Path(s[i]));
    LastUseIs(history, Path(t[i]));
  }

  lemma SamePrefix(s: seq<Slot>, t: seq<Slot>, use: string -> int, i: nat)
    requires Ordered(s, use) && Rest(t, use) && i < |s| <= MAX_RECENTS && i <= |t|
    requires forall k :: 0 <= k < i ==> Path(t[k]) == Path(s[k])
    ensures i < |t|
  {
    if i == |t| {
      forall k | 0 <= k < |t| ensures Path(t[k]) != Path(s[i]) { assert use(Path(s[k])) > use(Path(s[i])); }
      assert use(Path(s[i])) >= 0 && !Lists(t, Path(s[i]));
    }
  }

  /** The newer of two candidates for a place would be missing from the other list. */
  lemma NotAhead(s: seq<Slot>, t: seq<Slot>, use: string -> int, i: nat)
    requires Ordered(s, use) && Ordered(t, use) && Rest(t, use) && i < |s| && i < |t|
    requires forall k :: 0 <= k < i ==> Path(t[k]) == Path(s[k])
    ensures use(Path(s[i])) <= use(Path(t[i]))
  {
    if use(Path(s[i])) > use(Path(t[i])) {
      forall k | 0 <= k < |t| ensures Path(t[k]) != Path(s[i]) {
        if k < i { assert use(Path(s[k])) > use(Path(s[i])); }
        else if k > i { assert use(Path(t[i])) > use(Path(t[k])); }
      }
    }
  }

  lemma {:induction false} LastUseIs(history: seq<string>, p: string)
    ensures var n := LastUse(history, p); -1 <= n < |history| && (n >= 0 ==> history[n] == p)
  {
    if history != [] { LastUseIs(history[..|history| - 1], p); }
  }

  class RecentArray {
    var items: array<Slot>
    var count: nat
    ghost var history: seq<string>

    ghost predicate Sound()
      reads this
    {
      count <= items.Length && items.Length >= 8
    }

    ghost function Contents(): seq<Slot>
      requires Sound()
      reads this, items
    {
      items[..count]
    }

    ghost predicate Valid()
      reads this, items
    {
      Sound() && MostRecent(Contents(), history)
    }

    constructor ()
      ensures Valid() && Contents() == [] && history == [] && fresh(items)
    {
      items := new Slot[8](_ => Null);
      count := 0;
      history := [];
    }

    /** Array_push: the storage doubles when it is full. */
    method Push(item: Slot)
      requires Sound()
      modifies this`items, this`count, items
      ensures Sound() && Contents() == old(Contents()) + [item]
      ensures items == old(items) || fresh(items)
    {
      if count >= items.Length {
        var bigger := new Slot[items.Length * 2](_ => Null);
        forall i | 0 <= i < count { bigger[i] := items[i]; }
        items := bigger;
      }
      items[count] := item;
      count := count + 1;
    }

    /** Array_unshift. */
    method Unshift(item: Slot)
      requires Sound()
      modifies this`items, this`count, items
      ensures Sound() && Contents() == [item] + old(Contents())
      ensures items == old(items) || fresh(items)
    {
      ghost var before := Contents();
      if count == 0 {
        Push(item);
        return;
      }
      Push(Null);
      assert forall k :: 0 <= k < |before| ==> Contents()[k] == before[k];
      ShiftUp();
      items[0] := item;
      assert forall k :: 0 < k < count ==> items[k] == before[k - 1];
    }

    /** Every item but the last moves up by one. */
    method ShiftUp()
      requires Sound() && count > 0
      modifies items
      ensures forall k :: 0 < k < count ==> items[k] == old(Contents())[k - 1]
    {
      var i := count - 2;
      while i >= 0
        invariant -1 <= i <= count - 2
        invariant forall k :: 0 <= k <= i + 1 ==> items[k] == old(items[k])
        invariant forall k :: i + 1 < k < count ==> items[k] == old(items[k - 1])
      {
        items[i + 1] := items[i];
        i := i - 1;
      }
    }

    /** Array_pop. */
    method Pop() returns (item: Slot)
      requires Sound()
      modifies this`count
      ensures Sound()
      ensures old(count) == 0 ==> item == Null && count == 0
      ensures old(count) > 0 ==> old(Contents()) == Contents() + [item]
    {
      if count == 0 { return Null; }
      count := count - 1;
      item := items[count];
    }

    method IndexOf(path: string) returns (id: int)
      requires Sound()
      ensures id == Find(Contents(), path, 0)
    {
      for i := 0 to count
        invariant Find(Contents(), path, 0) == Find(Contents(), path, i)
      {
        if Path(items[i]) == path { return i; }
      }
      id := -1;
    }

    /** Swaps the entry at `id` forward, place by place. */
    method Bump(id: nat)
      requires Sound() && id < count
      modifies items
      ensures Sound() && Contents() == Bumped(old(Contents()), id)
    {
      ghost var before := Contents();
      var i := id;
      while i > 0
        invariant 0 <= i <= id
        invariant items[i] == before[id]
        invariant forall k :: 0 <= k < i ==> items[k] == before[k]
        invariant forall k :: i < k <= id ==> items[k] == before[k - 1]
        invariant forall k :: id < k < count ==> items[k] == before[k]
      {
        items[i - 1], items[i] := items[i], items[i - 1];
        i := i - 1;
      }
    }

    /** addRecent, without the file it is saved to. */
    method AddRecent(path: string, alias: string)
      requires Valid()
      modifies this, items
      ensures Valid() && Contents() == Added(old(Contents()), path, alias) && history == old(history) + [path]
      ensures items == old(items) || fresh(items)
    {
      AddedRecent(Contents(), history, path, alias);
      Insert(path, alias);
      history := history + [path];
    }

    method Insert(path: string, alias: string)
      requires Sound() && count <= MAX_RECENTS
      modifies this`items, this`count, items
      ensures Sound() && Contents() == Added(old(Contents()), path, alias)
      ensures items == old(items) || fresh(items)
    {
      ghost var before := Contents();
      var id := IndexOf(path);
      if id == -1 {
        MakeRoom();
        Unshift(Recent(path, alias));
        assert Contents() == [Recent(path, alias)] + before[..if |before| < MAX_RECENTS then |before| else MAX_RECENTS - 1];
      } else if id > 0 {
        Bump(id);
      } else {
        assert Bumped(before, 0) == before;
      }
    }

    method MakeRoom()
      requires Sound()
      modifies this`count
      ensures count == (if old(count) < MAX_RECENTS then old(count) else MAX_RECENTS - 1) <= old(count)
      ensures Sound() && Contents() == old(Contents())[..count]
    {
      while count >= MAX_RECENTS
        invariant Sound() && count <= old(count)
        invariant count >= MAX_RECENTS - 1 || count == old(count)
      {
        var dropped := Pop();
      }
    }
  }
}
