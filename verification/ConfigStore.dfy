/** Writing the configuration to its text and reading the text into a configuration. */
module ConfigStore {
  import opened Basics
  import opened ConfigText

  const LOCAL_BUTTON_COUNT: nat := 16

  datatype Opt = Opt(key: string, values: seq<string>, value: nat)

  /** A button binding; local -1 is unbound, `mod` asks for the menu button. */
  datatype Binding = Binding(name: string, local: int, mod: bool)

  // ---------- button labels ----------

  const PLAIN_LABELS: seq<string> := [
    "NONE", "UP", "DOWN", "LEFT", "RIGHT", "A", "B", "X", "Y", "START", "SELECT", "L1", "R1", "L2", "R2", "L3", "R3"]

  const LABELS: nat := 33

  function Label(j: nat): string
    requires j < LABELS
  {
    if j <= LOCAL_BUTTON_COUNT then PLAIN_LABELS[j] else "MENU+" + PLAIN_LABELS[j - LOCAL_BUTTON_COUNT]
  }

  /** The plain label with this length, first and last character. */
  function Which(s: string): int {
    if |s| == 1 then (if s[0] == 'A' then 5 else if s[0] == 'B' then 6 else if s[0] == 'X' then 7 else 8)
    else if |s| == 2 then
      if s[0] == 'U' then 1
      else (if s[1] == '1' then 11 else if s[1] == '2' then 13 else 15) + (if s[0] == 'R' then 1 else 0)
    else if |s| == 4 then (if s[0] == 'N' then 0 else if s[0] == 'D' then 2 else 3)
    else if |s| == 5 then (if s[0] == 'R' then 4 else 9)
    else 10
  }

  lemma PlainLabel(j: nat)
    requires j <= LOCAL_BUTTON_COUNT
    ensures var s := PLAIN_LABELS[j]; Which(s) == j && 0 < |s| <= 6 && (|s| > 4 ==> s[4] != '+')
  {
  }

  lemma PlainLabelClean(j: nat, k: nat)
    requires j <= LOCAL_BUTTON_COUNT && k < |PLAIN_LABELS[j]|
    ensures PLAIN_LABELS[j][k] != ':' && PLAIN_LABELS[j][k] != NL
  {
  }

  lemma LabelClean(j: nat)
    requires j < LABELS
    ensures !Has(Label(j), ':') && !Has(Label(j), NL) && |Label(j)| <= 11
  {
    var n := if j <= LOCAL_BUTTON_COUNT then j else j - LOCAL_BUTTON_COUNT;
    PlainLabel(n);
    forall k | 0 <= k < |Label(j)| ensures Label(j)[k] != ':' && Label(j)[k] != NL {
      if j <= LOCAL_BUTTON_COUNT { PlainLabelClean(n, k); }
      else if k >= 5 { PlainLabelClean(n, k - 5); assert Label(j)[k] == PLAIN_LABELS[n][k - 5]; }
    }
  }

  lemma LabelsDiffer(i: nat, j: nat)
    requires i < j < LABELS
    ensures Label(i) != Label(j)
  {
    PlainLabel(if i <= LOCAL_BUTTON_COUNT then i else i - LOCAL_BUTTON_COUNT);
    PlainLabel(if j <= LOCAL_BUTTON_COUNT then j else j - LOCAL_BUTTON_COUNT);
    if i > LOCAL_BUTTON_COUNT {
      assert Label(i)[5..] == PLAIN_LABELS[i - LOCAL_BUTTON_COUNT] && Label(j)[5..] == PLAIN_LABELS[j - LOCAL_BUTTON_COUNT];
    } else if j > LOCAL_BUTTON_COUNT {
      assert Label(j)[4] == '+' && |Label(j)| > 5;
    }
  }

  /** The first label from `j` on that is `v`, less one; -1 if there is none. */
  function LabelId(v: string, j: nat): int
    requires j <= LABELS
    decreases LABELS - j
  {
    if j == LABELS then -1 else if Label(j) == v then j - 1 else LabelId(v, j + 1)
  }

  lemma {:induction false} LabelIdBack(j: nat, k: nat)
    requires j <= k < LABELS
    ensures LabelId(Label(k), j) == k - 1
    decreases k - j
  {
    if j < k {
      LabelsDiffer(j, k);
      LabelIdBack(j + 1, k);
    }
  }

  method FindLabel(v: string) returns (id: int)
    ensures id == LabelId(v, 0)
  {
    id := -1;
    for j := 0 to LABELS
      invariant id == -1 && LabelId(v, 0) == LabelId(v, j)
    {
      if Label(j) == v {
        id := j - 1;
        break;
      }
    }
  }

  /** The label a binding is written as. */
  function Written(b: Binding): string {
    if -1 <= b.local < LOCAL_BUTTON_COUNT then Label(b.local + 1 + if b.mod then LOCAL_BUTTON_COUNT else 0) else ""
  }

  /** The binding an id stands for. */
  function Bound(b: Binding, id: int): Binding {
    if id >= LOCAL_BUTTON_COUNT then b.(local := id - LOCAL_BUTTON_COUNT, mod := true) else b.(local := id, mod := false)
  }

  predicate Unbound(b: Binding) { b.local == -1 && b.mod }

  /** Written and read, a binding is the same again unless it was the unbound one with the menu button,
      which comes back as R3. */
  lemma BindingBack(b: Binding, was: Binding)
    requires -1 <= b.local < LOCAL_BUTTON_COUNT && was.name == b.name
    ensures Bound(was, LabelId(Written(b), 0)) == b <==> !Unbound(b)
    ensures Unbound(b) ==> Bound(was, LabelId(Written(b), 0)) == Binding(b.name, 15, false)
  {
    LabelIdBack(0, b.local + 1 + if b.mod then LOCAL_BUTTON_COUNT else 0);
  }

  // ---------- options ----------

  /** Option_getValueIndex: the first equal value, or 0. */
  function ValueIndex(values: seq<string>, v: string, i: nat): nat
    decreases |values| - i
  {
    if i >= |values| then 0 else if values[i] == v then i else ValueIndex(values, v, i + 1)
  }

  /** A value that is not offered selects the first one. */
  lemma {:induction false} UnknownIndex(values: seq<string>, v: string, i: nat)
    requires forall k :: i <= k < |values| ==> values[k] != v
    ensures ValueIndex(values, v, i) == 0
    decreases |values| - i
  {
    if i < |values| { UnknownIndex(values, v, i + 1); }
  }

  method GetValueIndex(values: seq<string>, v: string) returns (r: nat)
    ensures r == ValueIndex(values, v, 0)
  {
    for i := 0 to |values|
      invariant ValueIndex(values, v, 0) == ValueIndex(values, v, i)
    {
      if values[i] == v { return i; }
    }
    r := 0;
  }

  predicate NewValue(o: Opt) { o.value < |o.values| && forall j :: 0 <= j < o.value ==> o.values[j] != o.values[o.value] }

  /** An index is found again exactly when no earlier value is the same. */
  lemma {:induction false} IndexBack(o: Opt, i: nat)
    requires i <= o.value < |o.values| && forall j :: 0 <= j < i ==> o.values[j] != o.values[o.value]
    ensures ValueIndex(o.values, o.values[o.value], i) == o.value <==> NewValue(o)
    ensures i <= ValueIndex(o.values, o.values[o.value], i) <= o.value
    decreases o.value - i
  {
    if o.values[i] != o.values[o.value] { IndexBack(o, i + 1); }
  }

  // ---------- writing ----------

  function Chosen(o: Opt): string { if o.value < |o.values| then o.values[o.value] else "" }

  function OptLine(o: Opt): Line { Line(o.key, Chosen(o)) }

  function BindLine(b: Binding): Line { Line("bind " + b.name, Written(b)) }

  predicate OptLines(lines: seq<Line>, at: nat, opts: seq<Opt>, n: nat) {
    n <= |opts| && at + n <= |lines| && forall i :: 0 <= i < n ==> lines[at + i] == OptLine(opts[i])
  }

  predicate BindLines(lines: seq<Line>, at: nat, binds: seq<Binding>, n: nat) {
    n <= |binds| && at + n <= |lines| && forall i :: 0 <= i < n ==> lines[at + i] == BindLine(binds[i])
  }

  predicate PlainLines(lines: seq<Line>, at: nat, part: seq<Line>, n: nat) {
    n <= |part| && at + n <= |lines| && forall i :: 0 <= i < n ==> lines[at + i] == part[i]
  }

  lemma {:induction false} TextSame(a: seq<Line>, b: seq<Line>, n: nat)
    requires n <= |a| && n <= |b| && a[..n] == b[..n]
    ensures Text(a, n) == Text(b, n)
  {
    if n > 0 {
      assert a[..n - 1] == a[..n][..n - 1] && b[..n - 1] == b[..n][..n - 1] && a[..n][n - 1] == b[..n][n - 1];
      TextSame(a, b, n - 1);
    }
  }

  lemma TextSnoc(lines: seq<Line>, line: Line)
    ensures Text(lines + [line], |lines| + 1) == Text(lines, |lines|) + (Body(line) + [NL])
  {
    TextSame(lines + [line], lines, |lines|);
  }

  /** Where the options and the gamepad stand among the lines, */
  predicate Settings(lines: seq<Line>, frontend: seq<Opt>, core: seq<Opt>, gamepad: seq<Line>) {
    && OptLines(lines, 0, frontend, |frontend|) && OptLines(lines, |frontend|, core, |core|)
    && PlainLines(lines, |frontend| + |core|, gamepad, |gamepad|)
  }

  /** and where the buttons. */
  predicate Buttons(lines: seq<Line>, at: nat, controls: seq<Binding>, shortcuts: seq<Binding>) {
    BindLines(lines, at, controls, |controls|) && BindLines(lines, at + |controls|, shortcuts, |shortcuts|)
  }

  lemma SettingsStay(lines: seq<Line>, more: seq<Line>, frontend: seq<Opt>, core: seq<Opt>, gamepad: seq<Line>)
    requires lines <= more && Settings(lines, frontend, core, gamepad)
    ensures Settings(more, frontend, core, gamepad)
  {
    LinesStay(lines, more, 0, frontend, [], []);
    LinesStay(lines, more, |frontend|, core, [], []);
    LinesStay(lines, more, |frontend| + |core|, [], gamepad, []);
  }

  lemma LinesStay(lines: seq<Line>, more: seq<Line>, at: nat, opts: seq<Opt>, part: seq<Line>, binds: seq<Binding>)
    requires lines <= more
    ensures OptLines(lines, at, opts, |opts|) ==> OptLines(more, at, opts, |opts|)
    ensures PlainLines(lines, at, part, |part|) ==> PlainLines(more, at, part, |part|)
    ensures BindLines(lines, at, binds, |binds|) ==> BindLines(more, at, binds, |binds|)
  {
  }

  method AddLine(text: string, ghost lines: seq<Line>, line: Line) returns (text': string, ghost lines': seq<Line>)
    requires text == Text(lines, |lines|)
    ensures lines' == lines + [line] && text' == Text(lines', |lines'|)
  {
    TextSnoc(lines, line);
    text', lines' := text + (line.key + EQ + line.value + [NL]), lines + [line];
  }

  method WriteOptions(opts: seq<Opt>, text: string, ghost lines: seq<Line>) returns (text': string, ghost lines': seq<Line>)
    requires text == Text(lines, |lines|)
    ensures text' == Text(lines', |lines'|) && lines <= lines' && |lines'| == |lines| + |opts|
    ensures OptLines(lines', |lines|, opts, |opts|)
  {
    text', lines' := text, lines;
    for i := 0 to |opts|
      invariant text' == Text(lines', |lines'|) && lines <= lines' && |lines'| == |lines| + i
      invariant OptLines(lines', |lines|, opts, i)
    {
      text', lines' := AddLine(text', lines', OptLine(opts[i]));
    }
  }

  method WriteLines(part: seq<Line>, text: string, ghost lines: seq<Line>) returns (text': string, ghost lines': seq<Line>)
    requires text == Text(lines, |lines|)
    ensures text' == Text(lines', |lines'|) && lines <= lines' && |lines'| == |lines| + |part|
    ensures PlainLines(lines', |lines|, part, |part|)
  {
    text', lines' := text, lines;
    for i := 0 to |part|
      invariant text' == Text(lines', |lines'|) && lines <= lines' && |lines'| == |lines| + i
      invariant PlainLines(lines', |lines|, part, i)
    {
      text', lines' := AddLine(text', lines', part[i]);
    }
  }

  method WriteBindings(binds: seq<Binding>, text: string, ghost lines: seq<Line>) returns (text': string, ghost lines': seq<Line>)
    requires text == Text(lines, |lines|)
    ensures text' == Text(lines', |lines'|) && lines <= lines' && |lines'| == |lines| + |binds|
    ensures BindLines(lines', |lines|, binds, |binds|)
  {
    text', lines' := text, lines;
    for i := 0 to |binds|
      invariant text' == Text(lines', |lines'|) && lines <= lines' && |lines'| == |lines| + i
      invariant BindLines(lines', |lines|, binds, i)
    {
      text', lines' := AddLine(text', lines', BindLine(binds[i]));
    }
  }

  method WriteSettings(frontend: seq<Opt>, core: seq<Opt>, gamepad: seq<Line>) returns (text: string, ghost lines: seq<Line>)
    ensures text == Text(lines, |lines|) && |lines| == |frontend| + |core| + |gamepad|
    ensures Settings(lines, frontend, core, gamepad)
  {
    ghost var l1, l2;
    text, l1 := WriteOptions(frontend, "", []);
    text, l2 := WriteOptions(core, text, l1);
    text, lines := WriteLines(gamepad, text, l2);
    LinesStay(l1, lines, 0, frontend, [], []);
    LinesStay(l2, lines, |l1|, core, [], []);
  }

  method WriteButtons(controls: seq<Binding>, shortcuts: seq<Binding>, text: string, ghost lines: seq<Line>)
      returns (text': string, ghost lines': seq<Line>)
    requires text == Text(lines, |lines|)
    ensures text' == Text(lines', |lines'|) && |lines'| == |lines| + |controls| + |shortcuts| && lines <= lines'
    ensures Buttons(lines', |lines|, controls, shortcuts)
  {
    ghost var l1;
    text', l1 := WriteBindings(controls, text, lines);
    text', lines' := WriteBindings(shortcuts, text', l1);
    LinesStay(l1, lines', |lines|, [], [], controls);
  }

  // ---------- reading ----------

  function Restored(o: Opt, cfg: string): Opt {
    if |o.key| == 0 then o else
      match Lookup(cfg, o.key)
      case None => o
      case Some(v) => o.(value := ValueIndex(o.values, v, 0))
  }

  /** The option a key names is the first that has it. */
  predicate FirstOfKey(opts: seq<Opt>, i: nat) {
    i < |opts| && forall j :: 0 <= j < i ==> opts[j].key != opts[i].key
  }

  predicate AllRead(now: seq<Opt>, before: seq<Opt>, cfg: string, n: nat) {
    |now| == |before| &&
    forall k :: 0 <= k < |now| ==> now[k] == if k < n && FirstOfKey(before, k) then Restored(before[k], cfg) else before[k]
  }

  /** OptionList_setOptionValue for the option at `i`. */
  method SetOptionValue(opts: seq<Opt>, i: nat, v: string) returns (opts': seq<Opt>, k: nat)
    requires i < |opts|
    ensures k <= i && FirstOfKey(opts, k) && opts[k].key == opts[i].key
    ensures opts' == opts[k := opts[k].(value := ValueIndex(opts[k].values, v, 0))]
  {
    k := 0;
    while opts[k].key != opts[i].key
      invariant k <= i && forall j :: 0 <= j < k ==> opts[j].key != opts[i].key
      decreases i - k
    {
      k := k + 1;
    }
    var index := GetValueIndex(opts[k].values, v);
    opts' := opts[k := opts[k].(value := index)];
  }

  /** One of the two option loops of Config_readOptionsString. */
  method ReadOptions(opts: seq<Opt>, cfg: string) returns (opts': seq<Opt>)
    requires forall i :: 0 <= i < |opts| ==> |opts[i].key| > 0
    ensures AllRead(opts', opts, cfg, |opts|)
  {
    opts' := opts;
    for i := 0 to |opts|
      invariant AllRead(opts', opts, cfg, i)
    {
      opts' := ReadOption(opts', i, cfg, opts);
    }
  }

  method ReadOption(opts: seq<Opt>, i: nat, cfg: string, ghost before: seq<Opt>) returns (opts': seq<Opt>)
    requires i < |opts| && |opts[i].key| > 0 && AllRead(opts, before, cfg, i)
    requires |before[i].key| > 0
    ensures AllRead(opts', before, cfg, i + 1)
  {
    SameKeys(opts, before, cfg, i);
    var r, lock := GetValue(cfg, opts[i].key);
    opts' := opts;
    if r.Some? {
      var k;
      opts', k := SetOptionValue(opts, i, r.value);
      assert FirstOfKey(before, k);
      assert forall m :: 0 <= m < |opts| && m != k ==> opts'[m] == opts[m];
      assert opts'[k] == Restored(before[k], cfg);
    }
    forall k | 0 <= k < |opts'| ensures opts'[k] == if k < i + 1 && FirstOfKey(before, k) then Restored(before[k], cfg) else before[k] {
    }
  }

  lemma SameKeys(opts: seq<Opt>, before: seq<Opt>, cfg: string, n: nat)
    requires AllRead(opts, before, cfg, n)
    ensures forall k :: 0 <= k < |opts| ==> opts[k].key == before[k].key && opts[k].values == before[k].values
  {
  }

  function LastAt(v: string, c: char, n: nat): (r: int)
    requires n <= |v|
    ensures -1 <= r < n
  {
    if n == 0 then -1 else if v[n - 1] == c then n - 1 else LastAt(v, c, n - 1)
  }

  /** The value up to its last colon. */
  function CutLast(v: string): string {
    if LastAt(v, ':', |v|) < 0 then v else v[..LastAt(v, ':', |v|)]
  }

  lemma {:induction false} NoColon(v: string, n: nat)
    requires n <= |v| && !Has(v, ':')
    ensures LastAt(v, ':', n) == -1
  {
    if n > 0 { NoColon(v, n - 1); }
  }

  /** What stands behind the last colon is not part of the value. */
  lemma CutLastColon(v: string, note: string)
    requires !Has(note, ':')
    ensures CutLast(v + ":" + note) == v && (!Has(v, ':') ==> CutLast(v) == v)
  {
    LastColon(v + ":" + note, |v|, |v + ":" + note|);
    if !Has(v, ':') { NoColon(v, |v|); }
  }

  lemma {:induction false} LastColon(s: string, p: nat, n: nat)
    requires p < n <= |s| && s[p] == ':' && forall i :: p < i < n ==> s[i] != ':'
    ensures LastAt(s, ':', n) == p
  {
    if p < n - 1 { LastColon(s, p, n - 1); }
  }

  /** A control written with a note behind its label, as in default.cfg, is read as that label; a shortcut is not. */
  lemma NotedBinding(b: Binding, cfg: string, l: nat, note: string)
    requires l < LABELS && !Has(note, ':') && Lookup(cfg, "bind " + b.name) == Some(Label(l) + ":" + note)
    ensures ReadAs(b, cfg, true) == if l <= 16 then b.(local := l - 1, mod := false) else b.(local := l - 17, mod := true)
    ensures ReadAs(b, cfg, false) == b.(local := -1, mod := false)
  {
    CutLastColon(Label(l), note);
    LabelIdBack(0, l);
    forall k | 0 <= k < LABELS ensures Label(k) != Label(l) + ":" + note {
      LabelClean(k);
      assert (Label(l) + ":" + note)[|Label(l)|] == ':';
    }
    NoLabel(Label(l) + ":" + note, 0);
  }

  lemma {:induction false} NoLabel(v: string, j: nat)
    requires j <= LABELS && forall k :: j <= k < LABELS ==> Label(k) != v
    ensures LabelId(v, j) == -1
    decreases LABELS - j
  {
    if j < LABELS { NoLabel(v, j + 1); }
  }

  /** A control's value is cut at its last colon, a shortcut's is not. */
  function ReadAs(b: Binding, cfg: string, control: bool): Binding {
    match Lookup(cfg, "bind " + b.name)
    case None => b
    case Some(v) => Bound(b, LabelId(if control then CutLast(v) else v, 0))
  }

  predicate BindsRead(now: seq<Binding>, before: seq<Binding>, cfg: string, control: bool) {
    |now| == |before| && forall i :: 0 <= i < |now| ==> now[i] == ReadAs(before[i], cfg, control)
  }

  method ReadBindings(binds: seq<Binding>, cfg: string, control: bool) returns (binds': seq<Binding>)
    ensures BindsRead(binds', binds, cfg, control)
  {
    binds' := binds;
    for i := 0 to |binds|
      invariant |binds'| == |binds| && forall k :: 0 <= k < |binds| ==> binds'[k] == if k < i then ReadAs(binds[k], cfg, control) else binds[k]
    {
      var b := ReadOne(binds[i], cfg, control);
      binds' := binds'[i := b];
    }
  }

  method ReadOne(b: Binding, cfg: string, control: bool) returns (b': Binding)
    ensures b' == ReadAs(b, cfg, control)
  {
    var r, lock := GetValue(cfg, "bind " + b.name);
    if r.None? { return b; }
    var value := r.value;
    if control { value := CutLast(value); }
    var id := FindLabel(value);
    var mod := false;
    if id >= LOCAL_BUTTON_COUNT {
      id := id - LOCAL_BUTTON_COUNT;
      mod := true;
    }
    b' := b.(local := id, mod := mod);
  }

  // ---------- back again ----------

  /** Line `i` is reached by the search for its key, and its value fits the reader's buffer. */
  ghost predicate CleanLine(lines: seq<Line>, i: nat) {
    i < |lines| && Plain(lines[i]) && Reached(lines, i) && Fits(lines[i].value)
  }

  lemma {:induction false} OptionBack(lines: seq<Line>, i: nat, o: Opt, was: Opt)
    requires CleanLine(lines, i) && lines[i] == OptLine(o) && o.value < |o.values|
    requires was == o.(value := was.value)
    ensures Restored(was, Text(lines, |lines|)) == o <==> NewValue(o)
  {
    LineBack(lines, i);
    IndexBack(o, 0);
  }

  lemma {:induction false} ControlBack(lines: seq<Line>, i: nat, b: Binding, was: Binding, control: bool)
    requires CleanLine(lines, i) && lines[i] == BindLine(b) && -1 <= b.local < LOCAL_BUTTON_COUNT
    requires was.name == b.name
    ensures ReadAs(was, Text(lines, |lines|), control) == b <==> !Unbound(b)
  {
    LabelClean(b.local + 1 + if b.mod then LOCAL_BUTTON_COUNT else 0);
    LineBack(lines, i);
    ValueRead(b, was, Written(b), control);
  }

  lemma {:induction false} ValueRead(b: Binding, was: Binding, v: string, control: bool)
    requires -1 <= b.local < LOCAL_BUTTON_COUNT && was.name == b.name && v == Written(b)
    ensures Bound(was, LabelId(if control then CutLast(v) else v, 0)) == b <==> !Unbound(b)
  {
    LabelClean(b.local + 1 + if b.mod then LOCAL_BUTTON_COUNT else 0);
    NoColon(v, |v|);
    BindingBack(b, was);
  }

  /** An earlier option of the same list with the same key would shadow the line. */
  lemma {:induction false} KeysDiffer(lines: seq<Line>, at: nat, opts: seq<Opt>, i: nat)
    requires OptLines(lines, at, opts, |opts|) && i < |opts| && CleanLine(lines, at + i)
    ensures FirstOfKey(opts, i)
  {
    forall j | 0 <= j < i ensures opts[j].key != opts[i].key {
      assert lines[at + j] == OptLine(opts[j]) && lines[at + i] == OptLine(opts[i]);
      if lines[at + i].key == lines[at + j].key { LineCaught(lines, at + i, at + j); }
    }
  }

  /** Same options and buttons, perhaps set differently. */
  predicate SameOpts(a: seq<Opt>, b: seq<Opt>) {
    |a| == |b| && forall i :: 0 <= i < |a| ==> a[i] == b[i].(value := a[i].value)
  }

  predicate SameBinds(a: seq<Binding>, b: seq<Binding>) {
    |a| == |b| && forall i :: 0 <= i < |a| ==> a[i].name == b[i].name
  }

  predicate OptsValid(opts: seq<Opt>) { forall i :: 0 <= i < |opts| ==> |opts[i].key| > 0 && opts[i].value < |opts[i].values| }

  predicate BindsValid(binds: seq<Binding>) { forall i :: 0 <= i < |binds| ==> -1 <= binds[i].local < LOCAL_BUTTON_COUNT }

  lemma {:induction false} KeysGiven(was: seq<Opt>, opts: seq<Opt>)
    requires OptsValid(opts) && SameOpts(was, opts)
    ensures forall i :: 0 <= i < |was| ==> |was[i].key| > 0
  {
    forall i | 0 <= i < |was| ensures |was[i].key| > 0 { assert was[i] == opts[i].(value := was[i].value); }
  }

  /** Every option whose own line is clean is back if and only if its value repeats no earlier one. */
  ghost predicate OptionsKept(lines: seq<Line>, at: nat, opts: seq<Opt>, now: seq<Opt>) {
    && |now| == |opts|
    && forall i :: 0 <= i < |opts| && CleanLine(lines, at + i) ==> (now[i] == opts[i] <==> NewValue(opts[i]))
  }

  lemma {:induction false} OptionsBack(lines: seq<Line>, at: nat, opts: seq<Opt>, was: seq<Opt>, now: seq<Opt>)
    requires OptLines(lines, at, opts, |opts|) && OptsValid(opts) && SameOpts(was, opts)
    requires AllRead(now, was, Text(lines, |lines|), |was|)
    ensures OptionsKept(lines, at, opts, now)
  {
    forall i | 0 <= i < |opts| && CleanLine(lines, at + i) ensures now[i] == opts[i] <==> NewValue(opts[i]) {
      OptionAtBack(lines, at, opts, was, i);
    }
  }

  lemma {:induction false} OptionAtBack(lines: seq<Line>, at: nat, opts: seq<Opt>, was: seq<Opt>, i: nat)
    requires OptLines(lines, at, opts, |opts|) && OptsValid(opts) && SameOpts(was, opts)
    requires i < |opts| && CleanLine(lines, at + i)
    ensures FirstOfKey(was, i) && (Restored(was[i], Text(lines, |lines|)) == opts[i] <==> NewValue(opts[i]))
  {
    assert lines[at + i] == OptLine(opts[i]);
    OptionBack(lines, at + i, opts[i], was[i]);
    KeysDiffer(lines, at, opts, i);
  }

  /** Every binding whose own line is clean is back if and only if it is not the unbound one with the menu button. */
  ghost predicate BindingsKept(lines: seq<Line>, at: nat, binds: seq<Binding>, now: seq<Binding>) {
    && |now| == |binds|
    && forall i :: 0 <= i < |binds| && CleanLine(lines, at + i) ==> (now[i] == binds[i] <==> !Unbound(binds[i]))
  }

  lemma {:induction false} BindingsBack(lines: seq<Line>, at: nat, binds: seq<Binding>, was: seq<Binding>, now: seq<Binding>, control: bool)
    requires BindLines(lines, at, binds, |binds|) && BindsValid(binds) && SameBinds(was, binds)
    requires BindsRead(now, was, Text(lines, |lines|), control)
    ensures BindingsKept(lines, at, binds, now)
  {
    forall i | 0 <= i < |binds| && CleanLine(lines, at + i) ensures now[i] == binds[i] <==> !Unbound(binds[i]) {
      BindingAtBack(lines, at, binds, was, i, control);
    }
  }

  lemma {:induction false} BindingAtBack(lines: seq<Line>, at: nat, binds: seq<Binding>, was: seq<Binding>, i: nat, control: bool)
    requires BindLines(lines, at, binds, |binds|) && BindsValid(binds) && SameBinds(was, binds)
    requires i < |binds| && CleanLine(lines, at + i)
    ensures ReadAs(was[i], Text(lines, |lines|), control) == binds[i] <==> !Unbound(binds[i])
  {
    assert lines[at + i] == BindLine(binds[i]);
    ControlBack(lines, at + i, binds[i], was[i], control);
  }

  ghost predicate SettingsKept(lines: seq<Line>, frontend: seq<Opt>, core: seq<Opt>, frontend': seq<Opt>, core': seq<Opt>) {
    OptionsKept(lines, 0, frontend, frontend') && OptionsKept(lines, |frontend|, core, core')
  }

  ghost predicate ButtonsKept(lines: seq<Line>, at: nat, controls: seq<Binding>, shortcuts: seq<Binding>,
                              controls': seq<Binding>, shortcuts': seq<Binding>) {
    BindingsKept(lines, at, controls, controls') && BindingsKept(lines, at + |controls|, shortcuts, shortcuts')
  }

  lemma {:induction false} SettingsBack(lines: seq<Line>, frontend: seq<Opt>, core: seq<Opt>, gamepad: seq<Line>,
                                        f: seq<Opt>, c: seq<Opt>, frontend': seq<Opt>, core': seq<Opt>)
    requires Settings(lines, frontend, core, gamepad) && OptsValid(frontend) && OptsValid(core)
    requires SameOpts(f, frontend) && SameOpts(c, core)
    requires AllRead(frontend', f, Text(lines, |lines|), |f|) && AllRead(core', c, Text(lines, |lines|), |c|)
    ensures SettingsKept(lines, frontend, core, frontend', core')
  {
    OptionsBack(lines, 0, frontend, f, frontend');
    OptionsBack(lines, |frontend|, core, c, core');
  }

  lemma {:induction false} ButtonsBack(lines: seq<Line>, at: nat, controls: seq<Binding>, shortcuts: seq<Binding>,
                                       b: seq<Binding>, s: seq<Binding>, controls': seq<Binding>, shortcuts': seq<Binding>)
    requires Buttons(lines, at, controls, shortcuts) && BindsValid(controls) && BindsValid(shortcuts)
    requires SameBinds(b, controls) && SameBinds(s, shortcuts)
    requires BindsRead(controls', b, Text(lines, |lines|), true) && BindsRead(shortcuts', s, Text(lines, |lines|), false)
    ensures ButtonsKept(lines, at, controls, shortcuts, controls', shortcuts')
  {
    assert BindingsKept(lines, at, controls, controls') by { BindingsBack(lines, at, controls, b, controls', true); }
    assert BindingsKept(lines, at + |controls|, shortcuts, shortcuts') by {
      BindingsBack(lines, at + |controls|, shortcuts, s, shortcuts', false);
    }
  }

  class Config {
    var frontend: seq<Opt>
    var core: seq<Opt>
    var gamepad: seq<Line>     // the gamepad type, when the core has custom controllers
    var controls: seq<Binding>
    var shortcuts: seq<Binding>

    constructor (frontend: seq<Opt>, core: seq<Opt>, gamepad: seq<Line>, controls: seq<Binding>, shortcuts: seq<Binding>)
      ensures this.frontend == frontend && this.core == core && this.gamepad == gamepad
      ensures this.controls == controls && this.shortcuts == shortcuts
    {
      this.frontend, this.core, this.gamepad, this.controls, this.shortcuts := frontend, core, gamepad, controls, shortcuts;
    }

    ghost predicate Layout(lines: seq<Line>)
      reads this
    {
      && Settings(lines, frontend, core, gamepad)
      && Buttons(lines, |frontend| + |core| + |gamepad|, controls, shortcuts)
      && |lines| == |frontend| + |core| + |gamepad| + |controls| + |shortcuts|
    }

    /** Config_write. */
    method Write() returns (text: string, ghost lines: seq<Line>)
      ensures text == Text(lines, |lines|) && Layout(lines)
    {
      ghost var head;
      text, head := WriteSettings(frontend, core, gamepad);
      text, lines := WriteButtons(controls, shortcuts, text, head);
      SettingsStay(head, lines, frontend, core, gamepad);
    }

    /** Config_readOptionsString and Config_readControlsString. */
    method Read(cfg: string)
      requires forall i :: 0 <= i < |frontend| ==> |frontend[i].key| > 0
      requires forall i :: 0 <= i < |core| ==> |core[i].key| > 0
      modifies this
      ensures AllRead(frontend, old(frontend), cfg, |frontend|) && AllRead(core, old(core), cfg, |core|)
      ensures BindsRead(controls, old(controls), cfg, true) && BindsRead(shortcuts, old(shortcuts), cfg, false)
      ensures gamepad == old(gamepad)
    {
      frontend := ReadOptions(frontend, cfg);
      core := ReadOptions(core, cfg);
      controls := ReadBindings(controls, cfg, true);
      shortcuts := ReadBindings(shortcuts, cfg, false);
    }

    /** What one session writes, the next one reads. Line by line: where the line is clean, an option whose
        value is not a repetition of an earlier one, and a binding but the unbound one with the menu button, is
        as it was, whatever became of the other lines. */
    method Reload(next: Config) returns (ghost lines: seq<Line>)
      requires next != this && OptsValid(frontend) && OptsValid(core) && BindsValid(controls) && BindsValid(shortcuts)
      requires SameOpts(next.frontend, frontend) && SameOpts(next.core, core)
      requires SameBinds(next.controls, controls) && SameBinds(next.shortcuts, shortcuts)
      modifies next
      ensures Layout(lines)
      ensures SettingsKept(lines, frontend, core, next.frontend, next.core)
      ensures ButtonsKept(lines, |frontend| + |core| + |gamepad|, controls, shortcuts, next.controls, next.shortcuts)
    {
      var text;
      text, lines := Write();
      ghost var f, c, b, s := next.frontend, next.core, next.controls, next.shortcuts;
      KeysGiven(f, frontend);
      KeysGiven(c, core);
      next.Read(text);
      SettingsBack(lines, frontend, core, gamepad, f, c, next.frontend, next.core);
      ButtonsBack(lines, |frontend| + |core| + |gamepad|, controls, shortcuts, b, s, next.controls, next.shortcuts);
    }
  }

  /** A key that ends an earlier key is read from that line, */
  lemma {:induction false} TailExample()
    ensures Lookup(Text([Line("ab", "1"), Line("b", "2")], 2), "b") == Some("1")
  {
    var lines := [Line("ab", "1"), Line("b", "2")];
    var text := "ab = 1\nb = 2\n";
    assert Text(lines, 1) == "ab = 1\n";
    assert Text(lines, 2) == text;
    assert text[0] != "b"[0] && OccursAt(text, "b", 1) && OccursAt(text, EQ, 2);
    assert First(text, "b", 0) == 1 && Scan(text, "b", 0) == 1;
    ValueBack("1", text[5..]);
  }

  /** unless the search, which skips every match as a whole, skips over it. */
  lemma {:induction false} OverlapExample()
    ensures var lines := [Line("aaa", "1"), Line("aa", "2")]; Reached(lines, 1) && !Unshadowed(lines, 1) && Overlaps("aa")
  {
    var lines := [Line("aaa", "1"), Line("aa", "2")];
    assert Text(lines, 1) == "aaa = 1\n";
    SkippedOver("aaa = 1\n");
    assert OccursAt(Body(lines[0]), "aa" + EQ, 1);
    assert OccursAt("aa", "aa"[1..], 0);
  }

  lemma {:induction false} SkippedOver(text: string)
    requires text == "aaa = 1\n"
    ensures Scan(text, "aa", 0) == -1
  {
    assert OccursAt(text, "aa", 0) && First(text, "aa", 0) == 0 && text[2] != EQ[0];
    NoneFrom(text, 2);
  }

  lemma {:induction false} NoneFrom(text: string, from: nat)
    requires 2 <= from && |text| == 8 && text[3] != 'a' && text[4] != 'a' && text[5] != 'a' && text[6] != 'a' && text[7] != 'a'
    ensures First(text, "aa", from) == -1
    decreases 8 - from
  {
    if from + 2 <= 8 {
      assert "aa"[1] == 'a' && text[from + 1] != "aa"[1];
      NoneFrom(text, from + 1);
    }
  }
}
