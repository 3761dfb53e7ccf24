/** The launcher's list: a window of rows that follows the selection, and an index of the initial letters. */
module ListWindow {

  const INT_ARRAY_MAX: nat := 27

  // ---------- the index ----------

  /** getIndexChar: 1 to 26 for a letter of either case, 0 for anything else. */
  function IndexChar(name: string): int {
    if name == "" then 0
    else if 'a' <= name[0] <= 'z' then name[0] as int - 'a' as int + 1
    else if 'A' <= name[0] <= 'Z' then name[0] as int - 'A' as int + 1
    else 0
  }

  const LOWER: string := "abcdefghijklmnopqrstuvwxyz"
  const UPPER: string := "ABCDEFGHIJKLMNOPQRSTUVWXYZ"

  /** The number of a letter in the alphabet, whatever its case. */
  lemma IndexCharExactly(name: string, k: nat)
    requires k < 26
    ensures IndexChar(name) == k + 1 <==> name != "" && (name[0] == LOWER[k] || name[0] == UPPER[k])
    ensures 0 <= IndexChar(name) <= 26
  {
    LettersInOrder(k);
  }

  lemma LettersInOrder(k: nat)
    requires k < 26
    ensures LOWER[k] as int == 'a' as int + k && UPPER[k] as int == 'A' as int + k
  {
  }

  function CharAt(names: seq<string>, i: nat): int { if i < |names| then IndexChar(names[i]) else -1 }

  /** A run is a longest stretch of neighbours with the same index character. */
  predicate Starts(names: seq<string>, i: nat) { i == 0 || CharAt(names, i) != CharAt(names, i - 1) }

  /** The number of the run an entry is in. */
  function RunNo(names: seq<string>, i: nat): nat {
    if i == 0 then 0 else RunNo(names, i - 1) + if Starts(names, i) then 1 else 0
  }

  lemma {:induction false} RunsGrow(names: seq<string>, i: nat, j: nat)
    requires i <= j
    ensures RunNo(names, i) <= RunNo(names, j) <= RunNo(names, i) + j - i
    ensures i < j && Starts(names, j) ==> RunNo(names, i) < RunNo(names, j)
    decreases j
  {
    if i < j { RunsGrow(names, i, j - 1); }
  }

  /** All entries of a run have the same letter, and where the letter changes another run begins. */
  lemma {:induction false} RunLetters(names: seq<string>, i: nat, j: nat)
    requires i <= j
    ensures RunNo(names, i) == RunNo(names, j) <==> forall k :: i <= k < j ==> CharAt(names, k) == CharAt(names, k + 1)
    decreases j
  {
    if i < j {
      RunLetters(names, i, j - 1);
      RunsGrow(names, i, j - 1);
    }
  }

  /** What the index says after the first `n` entries: the entry `alphas[r]` is the first of run `r`, for the
      first 27 runs, and every entry knows its run, or 27 if it is further on. */
  predicate Indexed(names: seq<string>, n: nat, alphas: seq<int>, alpha: seq<int>) {
    && n <= |names| && |alpha| == |names|
    && |alphas| == (if n == 0 then 0 else Limit(RunNo(names, n - 1) + 1))
    && (forall r :: 0 <= r < |alphas| ==> RunStart(names, r, alphas[r]) && alphas[r] < n)
    && (forall i :: 0 <= i < n ==> alpha[i] == Limit(RunNo(names, i)))
  }

  lemma IndexedMore(names: seq<string>, i: nat, alphas: seq<int>, alpha: seq<int>, alphas': seq<int>, alpha': seq<int>)
    requires i < |names| && Indexed(names, i, alphas, alpha) && |alpha'| == |alpha|
    requires alphas' == if Starts(names, i) && |alphas| < INT_ARRAY_MAX then alphas + [i] else alphas
    requires alpha' == alpha[i := Limit(RunNo(names, i))]
    ensures Indexed(names, i + 1, alphas', alpha')
  {
    forall r | 0 <= r < |alphas'| ensures RunStart(names, r, alphas'[r]) && alphas'[r] < i + 1 {
      if r < |alphas| { assert RunStart(names, r, alphas[r]); }
    }
  }

  function Limit(r: nat): nat { if r < INT_ARRAY_MAX then r else INT_ARRAY_MAX }

  /** `i` is the first entry of run `r`. */
  predicate RunStart(names: seq<string>, r: nat, i: int) {
    0 <= i < |names| && Starts(names, i) && RunNo(names, i) == r
  }

  lemma RunStartIsFirst(names: seq<string>, r: nat, i: int, j: nat)
    requires RunStart(names, r, i)
    ensures RunNo(names, j) == r ==> i <= j
    ensures RunNo(names, j) < r ==> j < i
  {
    if j < i { RunsGrow(names, j, i); } else { RunsGrow(names, i, j); }
  }

  lemma AlphasIncrease(names: seq<string>, n: nat, alphas: seq<int>, alpha: seq<int>, q: nat, r: nat)
    requires Indexed(names, n, alphas, alpha) && q < r < |alphas|
    ensures alphas[q] < alphas[r]
  {
    assert RunStart(names, q, alphas[q]) && RunStart(names, r, alphas[r]);
    RunStartIsFirst(names, r, alphas[r], alphas[q]);
  }

  // ---------- the window ----------

  function Min(a: int, b: int): int { if a < b then a else b }

  function Max(a: int, b: int): int { if a > b then a else b }

  /** The buttons of one frame; `previous` and `next` are L1 and R1 alone. */
  datatype Input = Input(up: bool, down: bool, pressed: bool, left: bool, right: bool, previous: bool, next: bool)

  /** What is on screen, and which entry is selected. */
  datatype Window = Window(selected: int, start: int, end: int)

  /** Where the row buttons lead: they wrap around, but not while held. */
  function Row(sel: int, total: int, input: Input): int {
    if input.up then (if sel > 0 then sel - 1 else if input.pressed then total - 1 else sel)
    else if input.down then (if sel < total - 1 then sel + 1 else if input.pressed then 0 else sel)
    else sel
  }

  /** Where the page buttons lead: they stop at the ends. */
  function Page(sel: int, total: int, rows: int, input: Input): int {
    if input.left then Max(0, sel - rows) else if input.right then Min(total - 1, sel + rows) else sel
  }

  class Directory {
    const rows: nat
    var names: seq<string>
    var alphas: seq<int>
    var alpha: seq<int>
    var selected: int
    var start: int
    var end: int

    /** The selected entry is on screen, and the screen is as full as the list allows. */
    ghost predicate Shows(sel: int)
      reads this
    {
      0 <= start <= sel < end <= |names| && end - start == Min(|names|, rows)
    }

    /** The window moves only as far as it must. */
    ghost predicate Follows(before: int, past: int, sel: int)
      reads this
    {
      if sel < before then start == sel else if sel >= past then end == sel + 1 else start == before && end == past
    }

    /** The previous letter: the first entry of the run before, or of run 26 from beyond the index. */
    ghost predicate Back(sel: int, sel': int)
      reads this`names, this`alphas, this`alpha
    {
      && (alphas == [] ==> sel' == sel)
      && (Indexed(names, |names|, alphas, alpha) && sel >= 0 ==>
            if RunNo(names, sel) == 0 then sel' == sel else RunStart(names, Limit(RunNo(names, sel)) - 1, sel'))
    }

    /** The next letter: the first entry of the run after, unless it is the last run or past the index. */
    ghost predicate Forward(sel: int, sel': int)
      reads this`names, this`alphas, this`alpha
    {
      && (alphas == [] ==> sel' == sel)
      && (Indexed(names, |names|, alphas, alpha) && 0 <= sel < |names| ==>
            if RunNo(names, sel) < RunNo(names, |names| - 1) && RunNo(names, sel) + 1 < INT_ARRAY_MAX
            then RunStart(names, RunNo(names, sel) + 1, sel') else sel' == sel)
    }

    ghost predicate Lettered(sel: int, sel': int, input: Input)
      reads this`names, this`alphas, this`alpha
    {
      if input.previous then Back(sel, sel') else if input.next then Forward(sel, sel') else sel' == sel
    }

    /** The index fits the names; a list that is not alphabetical has none. */
    ghost predicate HasIndex()
      reads this
    {
      Indexed(names, |names|, alphas, alpha) || (alphas == [] && |alpha| == |names| && forall i :: 0 <= i < |alpha| ==> alpha[i] == 0)
    }

    ghost predicate Valid()
      reads this
    {
      rows >= 1 && HasIndex() && (names != [] ==> Shows(selected))
    }

    /** A directory opened with its first entry selected. */
    constructor (names: seq<string>, rows: nat, skipIndex: bool)
      requires rows >= 1
      ensures Valid() && this.names == names && this.rows == rows && selected == 0
      ensures !skipIndex ==> Indexed(names, |names|, alphas, alpha)
    {
      this.names, this.rows := names, rows;
      selected, start, end := 0, 0, if |names| < rows then |names| else rows;
      new;
      alpha := seq(|names|, i => 0);
      alphas := [];
      if !skipIndex { Index(); }
    }

    /** The indexing loop of Directory_index. */
    method Index()
      requires alphas == [] && |alpha| == |names|
      modifies this`alphas, this`alpha
      ensures Indexed(names, |names|, alphas, alpha)
    {
      var current, index := -1, 0;
      for i := 0 to |names|
        invariant Indexed(names, i, alphas, alpha)
        invariant if i == 0 then current == -1 else current == CharAt(names, i - 1) && index == Limit(RunNo(names, i - 1))
      {
        current, index := IndexEntry(i, current, index);
      }
    }

    method IndexEntry(i: nat, current: int, index: nat) returns (current': int, index': nat)
      requires i < |names| && Indexed(names, i, alphas, alpha)
      requires if i == 0 then current == -1 else current == CharAt(names, i - 1) && index == Limit(RunNo(names, i - 1))
      modifies this`alphas, this`alpha
      ensures Indexed(names, i + 1, alphas, alpha)
      ensures current' == CharAt(names, i) && index' == Limit(RunNo(names, i))
    {
      current', index' := current, index;
      var a := IndexChar(names[i]);
      if a != current {
        index' := |alphas|;
        PushAlpha(i);
        current' := a;
      }
      alpha := alpha[i := index'];
      IndexedMore(names, i, old(alphas), old(alpha), alphas, alpha);
    }

    /** IntArray_push: full is full. */
    method PushAlpha(i: int)
      modifies this`alphas
      ensures alphas == if |old(alphas)| >= INT_ARRAY_MAX then old(alphas) else old(alphas) + [i]
    {
      if |alphas| >= INT_ARRAY_MAX { return; }
      alphas := alphas + [i];
    }

    method FirstPage()
      modifies this`start, this`end
      ensures start == 0 && end == Min(|names|, rows)
    {
      start := 0;
      end := if |names| < rows then |names| else rows;
    }

    method LastPage()
      modifies this`start, this`end
      ensures end == |names| && start == Max(0, |names| - rows)
    {
      var first := |names| - rows;
      start := if first < 0 then 0 else first;
      end := |names|;
    }

    /** One row up or down; `pressed` tells a fresh press, which wraps around, from a repetition, which does not. */
    method Up(sel: int, pressed: bool) returns (sel': int)
      requires rows >= 1 && Shows(sel)
      modifies this`start, this`end
      ensures Shows(sel')
      ensures sel' == if sel > 0 then sel - 1 else if pressed then |names| - 1 else 0
      ensures Follows(old(start), old(end), sel')
    {
      if sel == 0 && !pressed { return sel; }
      sel' := sel - 1;
      if sel' < 0 {
        sel' := |names| - 1;
        LastPage();
      } else if sel' < start {
        start := start - 1;
        end := end - 1;
      }
    }

    method Down(sel: int, pressed: bool) returns (sel': int)
      requires rows >= 1 && Shows(sel)
      modifies this`start, this`end
      ensures Shows(sel')
      ensures sel' == if sel < |names| - 1 then sel + 1 else if pressed then 0 else sel
      ensures Follows(old(start), old(end), sel')
    {
      if sel == |names| - 1 && !pressed { return sel; }
      sel' := sel + 1;
      if sel' >= |names| {
        sel' := 0;
        FirstPage();
      } else if sel' >= end {
        start := start + 1;
        end := end + 1;
      }
    }

    /** A page back or forward, stopping at the ends. */
    method Left(sel: int) returns (sel': int)
      requires rows >= 1 && Shows(sel)
      modifies this`start, this`end
      ensures Shows(sel') && sel' == Max(0, sel - rows) && start == Max(0, old(start) - rows)
    {
      sel' := sel - rows;
      if sel' < 0 {
        sel' := 0;
        FirstPage();
      } else if sel' < start {
        start := start - rows;
        if start < 0 { start := 0; }
        end := start + rows;
      }
    }

    method Right(sel: int) returns (sel': int)
      requires rows >= 1 && Shows(sel)
      modifies this`start, this`end
      ensures Shows(sel') && sel' == Min(|names| - 1, sel + rows) && end == Min(|names|, old(end) + rows)
    {
      sel' := sel + rows;
      if sel' >= |names| {
        sel' := |names| - 1;
        LastPage();
      } else if sel' >= end {
        end := end + rows;
        if end > |names| { end := |names|; }
        start := end - rows;
      }
    }

    /** The first entry of the run `i`, if the index has it. */
    method JumpTo(sel: int, i: int) returns (sel': int)
      requires rows >= 1 && HasIndex() && Shows(sel)
      modifies this`start, this`end
      ensures Shows(sel')
      ensures sel' == if 0 <= i < |alphas| then alphas[i] else sel
      ensures start == if 0 <= i < |alphas| && |names| > rows then Min(alphas[i], |names| - rows) else old(start)
    {
      sel' := sel;
      if 0 <= i < |alphas| {
        sel' := alphas[i];
        if |names| > rows {
          start := sel';
          end := start + rows;
          if end > |names| { end := |names|; }
          start := end - rows;
        }
      }
    }

    method PreviousAlpha(sel: int) returns (sel': int)
      requires rows >= 1 && HasIndex() && Shows(sel)
      modifies this`start, this`end
      ensures Shows(sel') && Back(sel, sel')
    {
      if Indexed(names, |names|, alphas, alpha) { RunsGrow(names, sel, |names| - 1); }
      sel' := JumpTo(sel, alpha[sel] - 1);
    }

    method NextAlpha(sel: int) returns (sel': int)
      requires rows >= 1 && HasIndex() && Shows(sel)
      modifies this`start, this`end
      ensures Shows(sel') && Forward(sel, sel')
    {
      if Indexed(names, |names|, alphas, alpha) { RunsGrow(names, sel, |names| - 1); }
      sel' := JumpTo(sel, alpha[sel] + 1);
    }

    /** One frame of Menu_handleInput: a row, a page and a letter, in this order. */
    method HandleInput(input: Input)
      requires Valid()
      modifies this`start, this`end, this`selected
      ensures Valid()
      ensures names == [] ==> selected == old(selected) && start == old(start) && end == old(end)
      ensures names != [] ==> Lettered(Page(Row(old(selected), |names|, input), |names|, rows, input), selected, input)
    {
      if names == [] { return; }
      var sel := MoveRow(selected, input);
      sel := MovePage(sel, input);
      sel := MoveAlpha(sel, input);
      selected := sel;
    }

    method MoveRow(sel: int, input: Input) returns (sel': int)
      requires rows >= 1 && Shows(sel)
      modifies this`start, this`end
      ensures Shows(sel') && sel' == Row(sel, |names|, input)
    {
      sel' := sel;
      if input.up { sel' := Up(sel, input.pressed); }
      else if input.down { sel' := Down(sel, input.pressed); }
    }

    method MovePage(sel: int, input: Input) returns (sel': int)
      requires rows >= 1 && Shows(sel)
      modifies this`start, this`end
      ensures Shows(sel') && sel' == Page(sel, |names|, rows, input)
    {
      sel' := sel;
      if input.left { sel' := Left(sel); }
      else if input.right { sel' := Right(sel); }
    }

    method MoveAlpha(sel: int, input: Input) returns (sel': int)
      requires rows >= 1 && HasIndex() && Shows(sel)
      modifies this`start, this`end
      ensures Shows(sel') && Lettered(sel, sel', input)
    {
      sel' := sel;
      if input.previous { sel' := PreviousAlpha(sel); }
      else if input.next { sel' := NextAlpha(sel); }
    }

    /** Whatever is pressed, for however long: from screen to screen, every frame of input makes its moves, and
        the selection is always on screen. */
    method Navigate(inputs: seq<Input>) returns (ghost path: seq<Window>)
      requires Valid()
      modifies this`start, this`end, this`selected
      ensures Valid() && |path| == |inputs| + 1
      ensures path[0] == old(Window(selected, start, end)) && path[|inputs|] == Window(selected, start, end)
      ensures Travels(path, inputs)
    {
      path := [Window(selected, start, end)];
      for i := 0 to |inputs|
        invariant Valid() && |path| == i + 1 && path[0] == old(Window(selected, start, end))
        invariant path[i] == Window(selected, start, end) && Travels(path, inputs)
      {
        HandleInput(inputs[i]);
        TravelsMore(path, Window(selected, start, end), inputs);
        path := path + [Window(selected, start, end)];
      }
    }

    /** Every window of the path is full and has its selection in it, and follows from the one before by the
        moves of one frame. */
    ghost predicate Travels(path: seq<Window>, inputs: seq<Input>)
      reads this`names, this`alphas, this`alpha
    {
      && 0 < |path| <= |inputs| + 1
      && (forall k :: 0 <= k < |path| ==> Full(path[k]))
      && (forall k :: 0 <= k < |path| - 1 ==> Moves(path[k], path[k + 1], inputs[k]))
    }

    lemma TravelsMore(path: seq<Window>, next: Window, inputs: seq<Input>)
      requires Travels(path, inputs) && |path| <= |inputs| && Full(next) && Moves(path[|path| - 1], next, inputs[|path| - 1])
      ensures Travels(path + [next], inputs)
    {
      var more, n := path + [next], |path|;
      forall k | 0 <= k < n ensures Moves(more[k], more[k + 1], inputs[k]) {
        if k < n - 1 { assert Moves(path[k], path[k + 1], inputs[k]); }
      }
    }

    ghost predicate Full(w: Window)
      reads this`names, this`alphas, this`alpha
    {
      names != [] ==> 0 <= w.start <= w.selected < w.end <= |names| && w.end - w.start == Min(|names|, rows)
    }

    ghost predicate Moves(w: Window, next: Window, input: Input)
      reads this`names, this`alphas, this`alpha
    {
      if names == [] then next == w
      else Lettered(Page(Row(w.selected, |names|, input), |names|, rows, input), next.selected, input)
    }
  }
}
