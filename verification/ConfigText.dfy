/** The frontend's configuration file: options and button bindings written as "key = value" lines, and
    read back by searching the text for each key. */
module ConfigText {
  import opened Basics

  const NL: char := '\n'
  const CR: char := '\r'
  const EQ: string := " = "

  // ---------- searching ----------

  predicate Has(s: string, c: char) { exists i :: 0 <= i < |s| && s[i] == c }

  predicate OccursAt(text: string, w: string, p: int) {
    0 <= p && p + |w| <= |text| && forall i :: 0 <= i < |w| ==> text[p + i] == w[i]
  }

  /** strstr from `from` on: the first occurrence, or -1. */
  function First(text: string, w: string, from: nat): (p: int)
    ensures p == -1 || (from <= p && OccursAt(text, w, p))
    decreases |text| - from
  {
    if from + |w| > |text| then -1
    else if OccursAt(text, w, from) then from
    else First(text, w, from + 1)
  }

  lemma {:induction false} FirstIsFirst(text: string, w: string, from: nat, q: nat)
    requires from <= q && OccursAt(text, w, q)
    ensures 0 <= First(text, w, from) <= q
    decreases |text| - from
  {
    if !OccursAt(text, w, from) { FirstIsFirst(text, w, from + 1, q); }
  }

  /** Where the scan for `key` followed by " = " stops: matches without it are skipped as a whole. */
  function Scan(text: string, key: string, from: nat): (p: int)
    requires |key| > 0
    ensures p == -1 || (from <= p && OccursAt(text, key, p) && OccursAt(text, EQ, p + |key|))
    decreases |text| - from
  {
    var p := First(text, key, from);
    if p < 0 then -1 else if OccursAt(text, EQ, p + |key|) then p else Scan(text, key, p + |key|)
  }

  function Cut(s: string, c: char): string {
    if First(s, [c], 0) < 0 then s else s[..First(s, [c], 0)]
  }

  /** What the reader keeps of the rest of the text: at most 255 characters, up to the end of the line. */
  function Value(rest: string): string {
    var v := if |rest| > 255 then rest[..255] else rest;
    if First(v, [NL], 0) >= 0 then Cut(v, NL) else Cut(v, CR)
  }

  method StrStr(text: string, w: string, from: nat) returns (p: int)
    ensures p == First(text, w, from)
  {
    var at := from;
    while at + |w| <= |text|
      invariant from <= at && First(text, w, from) == First(text, w, at)
    {
      if OccursAt(text, w, at) { return at; }
      at := at + 1;
    }
    p := -1;
  }

  /** Whether some occurrence that the scan visits has a '-' in front of it. */
  function Locks(text: string, key: string, from: nat): bool
    requires |key| > 0
    decreases |text| - from
  {
    var p := First(text, key, from);
    p >= 0 && (Dashed(text, p) || (!OccursAt(text, EQ, p + |key|) && Locks(text, key, p + |key|)))
  }

  predicate Dashed(text: string, p: int) { 0 < p <= |text| && text[p - 1] == '-' }

  /** The while loop of Config_getValue. */
  method FindKey(cfg: string, key: string) returns (at: int, lock: bool)
    requires |key| > 0
    ensures at == Scan(cfg, key, 0) && lock == Locks(cfg, key, 0)
  {
    at := StrStr(cfg, key, 0);
    lock := false;
    ghost var from: nat := 0;
    while at >= 0
      invariant at == First(cfg, key, from)
      invariant Scan(cfg, key, 0) == Scan(cfg, key, from) && Locks(cfg, key, 0) == (lock || Locks(cfg, key, from))
      decreases if at < 0 then 0 else 1 + |cfg| - at
    {
      if Dashed(cfg, at) { lock := true; }
      if OccursAt(cfg, EQ, at + |key|) { return; }
      from := at + |key|;
      at := StrStr(cfg, key, at + |key|);
    }
  }

  /** Config_getValue: the value, and whether the caller's lock is to be set. */
  method GetValue(cfg: string, key: string) returns (r: Option<string>, lock: bool)
    requires |key| > 0
    ensures r == Lookup(cfg, key) && lock == Locks(cfg, key, 0)
  {
    var at;
    at, lock := FindKey(cfg, key);
    if at < 0 { return None, lock; }
    var v := ReadValue(cfg[at + |key| + 3..]);
    r := Some(v);
  }

  method ReadValue(rest: string) returns (v: string)
    ensures v == Value(rest)
  {
    v := if |rest| > 255 then rest[..255] else rest;
    var end := StrStr(v, [NL], 0);
    if end < 0 { end := StrStr(v, [CR], 0); }
    if end >= 0 { v := v[..end]; }
  }

  function Lookup(cfg: string, key: string): Option<string>
    requires |key| > 0
  {
    var p := Scan(cfg, key, 0);
    if p < 0 then None else Some(Value(cfg[p + |key| + 3..]))
  }

  // ---------- lines ----------

  datatype Line = Line(key: string, value: string)

  function Body(line: Line): string { line.key + EQ + line.value }

  /** The text of the first `n` lines. */
  function Text(lines: seq<Line>, n: nat): string
    requires n <= |lines|
  {
    if n == 0 then "" else Text(lines, n - 1) + (Body(lines[n - 1]) + [NL])
  }

  /** Key and value can be told apart when they are read: a nonempty key and no line breaks. */
  predicate Plain(line: Line) { |line.key| > 0 && !Has(line.key, NL) && !Has(line.value, NL) }

  /** A value that survives the 256-byte buffer of the reader. */
  predicate Fits(v: string) { |v| < 255 || (|v| == 255 && !Has(v, CR)) }

  ghost predicate Contains(s: string, w: string) { exists q :: OccursAt(s, w, q) }

  /** No earlier line contains the key of line `i` followed by " = ". */
  ghost predicate Unshadowed(lines: seq<Line>, i: nat)
    requires i < |lines|
  {
    forall j :: 0 <= j < i ==> !Contains(Body(lines[j]), lines[i].key + EQ)
  }

  lemma CutBefore(v: string, rest: string, c: char)
    requires !Has(v, c) && |rest| > |v| && rest[..|v|] == v && rest[|v|] == c
    ensures Cut(rest, c) == v && First(rest, [c], 0) == |v|
  {
    FirstIsFirst(rest, [c], 0, |v|);
    var p := First(rest, [c], 0);
    assert rest[p + 0] == [c][0];
    assert forall k :: 0 <= k < |v| ==> rest[k] == v[k] != c;
  }

  lemma CutNone(v: string, c: char)
    ensures First(v, [c], 0) < 0 <==> !Has(v, c)
  {
    var p := First(v, [c], 0);
    if p >= 0 { assert v[p + 0] == [c][0]; }
    else if Has(v, c) {
      var i :| 0 <= i < |v| && v[i] == c;
      FirstIsFirst(v, [c], 0, i);
    }
  }

  /** A value comes back from its line exactly when it fits. */
  lemma ValueBack(v: string, rest: string)
    requires !Has(v, NL) && |rest| > |v| && rest[..|v|] == v && rest[|v|] == NL
    ensures Value(rest) == v <==> Fits(v)
  {
    var w := if |rest| > 255 then rest[..255] else rest;
    if |v| < 255 {
      assert w[..|v|] == v;
      CutBefore(v, w, NL);
    } else {
      assert w == v[..255];
      assert !Has(w, NL);
      CutNone(w, NL);
      CutNone(w, CR);
      if |v| == 255 { assert w == v; }
    }
  }

  /** `pre` is the text in front of the line at `at`. */
  predicate Before(pre: string, text: string, at: nat) {
    |pre| == at <= |text| && (forall k :: 0 <= k < at ==> text[k] == pre[k]) && (at == 0 || text[at - 1] == NL)
  }

  /** The scan stops at a line exactly when it finds nothing in the text in front of it, and otherwise stops
      where it does in that text: what it skips never reaches across a line break. */
  lemma ScanStops(text: string, key: string, from: nat, pre: string, at: nat)
    requires |key| > 0 && !Has(key, NL) && from <= at && OccursAt(text, key + EQ, at) && Before(pre, text, at)
    ensures Scan(text, key, from) == if Scan(pre, key, from) == -1 then at else Scan(pre, key, from)
  {
    OccursSplit(text, key, at);
    forall f: nat | f <= at ensures Agree(Finds(text, key), Ends(text), Finds(pre, key), Ends(pre), |key|, at, f) {
      StepsAgree(text, key, f, pre, at);
    }
    ScanIsWalk(text, key, from);
    ScanIsWalk(pre, key, from);
    WalksAgree(Finds(text, key), Ends(text), |text|, Finds(pre, key), Ends(pre), |key|, at, from);
  }

  /** The scan with its search and its test as parameters. */
  function Walk(find: nat -> int, ends: nat -> bool, len: nat, limit: nat, from: nat): int
    requires len > 0
    decreases limit - from
  {
    var p := find(from);
    if p < 0 || p < from || p + len > limit then -1
    else if ends(p + len) then p else Walk(find, ends, len, limit, p + len)
  }

  function Finds(text: string, key: string): nat -> int { (from: nat) => First(text, key, from) }

  function Ends(text: string): nat -> bool { (q: nat) => OccursAt(text, EQ, q) }

  lemma {:induction false} ScanIsWalk(text: string, key: string, from: nat)
    requires |key| > 0
    ensures Scan(text, key, from) == Walk(Finds(text, key), Ends(text), |key|, |text|, from)
    decreases |text| - from
  {
    var p := First(text, key, from);
    var find, ends := Finds(text, key), Ends(text);
    assert find(from) == p;
    if p >= 0 {
      assert ends(p + |key|) == OccursAt(text, EQ, p + |key|);
      if !OccursAt(text, EQ, p + |key|) {
        ScanIsWalk(text, key, p + |key|);
        assert Walk(find, ends, |key|, |text|, from) == Walk(find, ends, |key|, |text|, p + |key|);
      }
    }
  }

  predicate Agree(find: nat -> int, ends: nat -> bool, find': nat -> int, ends': nat -> bool, len: nat, at: nat, f: nat) {
    var p := find(f);
    && f <= p <= at && (p == at ==> find'(f) == -1 && ends(at + len))
    && (p < at ==> find'(f) == p && p + len <= at && ends(p + len) == ends'(p + len))
  }

  lemma {:induction false} WalksAgree(find: nat -> int, ends: nat -> bool, limit: nat, find': nat -> int, ends': nat -> bool,
                                      len: nat, at: nat, from: nat)
    requires len > 0 && from <= at && at + len <= limit
    requires forall f: nat :: f <= at ==> Agree(find, ends, find', ends', len, at, f)
    ensures var w := Walk(find', ends', len, at, from); Walk(find, ends, len, limit, from) == if w == -1 then at else w
    decreases at - from
  {
    assert Agree(find, ends, find', ends', len, at, from);
    var p := find(from);
    if p < at && !ends(p + len) { WalksAgree(find, ends, limit, find', ends', len, at, p + len); }
  }

  /** One step of the scan is the same in both texts, or reaches the line. */
  lemma StepsAgree(text: string, key: string, from: nat, pre: string, at: nat)
    requires |key| > 0 && !Has(key, NL) && from <= at && OccursAt(text, key + EQ, at) && Before(pre, text, at)
    ensures Agree(Finds(text, key), Ends(text), Finds(pre, key), Ends(pre), |key|, at, from)
  {
    OccursSplit(text, key, at);
    FirstIsFirst(text, key, from, at);
    var p := First(text, key, from);
    if p < at {
      SkipsNoBreak(text, key, p, at);
      FirstBefore(text, key, from, pre, at);
      EqBefore(text, key, p, pre, at);
    } else {
      NoneBefore(text, key, from, pre, at);
    }
  }

  lemma FirstBefore(text: string, key: string, from: nat, pre: string, at: nat)
    requires Before(pre, text, at) && 0 <= First(text, key, from) && First(text, key, from) + |key| <= at
    ensures First(pre, key, from) == First(text, key, from)
  {
    var p := First(text, key, from);
    assert OccursAt(pre, key, p);
    FirstIsFirst(pre, key, from, p);
    OccursLater(text, key, First(pre, key, from), pre, at);
    FirstIsFirst(text, key, from, First(pre, key, from));
  }

  lemma NoneBefore(text: string, key: string, from: nat, pre: string, at: nat)
    requires |key| > 0 && Before(pre, text, at) && First(text, key, from) == at
    ensures First(pre, key, from) == -1
  {
    var q := First(pre, key, from);
    if q >= 0 {
      OccursLater(text, key, q, pre, at);
      FirstIsFirst(text, key, from, q);
    }
  }

  lemma OccursLater(text: string, w: string, q: nat, pre: string, at: nat)
    requires Before(pre, text, at) && OccursAt(pre, w, q)
    ensures OccursAt(text, w, q)
  {
    forall i | 0 <= i < |w| ensures text[q + i] == w[i] { assert pre[q + i] == w[i]; }
  }

  lemma EqBefore(text: string, key: string, p: nat, pre: string, at: nat)
    requires Before(pre, text, at) && p + |key| < at
    ensures OccursAt(text, EQ, p + |key|) <==> OccursAt(pre, EQ, p + |key|)
  {
    var q := p + |key|;
    if OccursAt(text, EQ, q) {
      forall k | q <= k < q + 3 ensures text[k] != NL { assert text[q + (k - q)] == EQ[k - q]; }
      forall i | 0 <= i < 3 ensures q + 3 <= at && pre[q + i] == EQ[i] { assert text[q + i] == EQ[i]; }
    }
    if OccursAt(pre, EQ, q) { OccursLater(text, EQ, q, pre, at); }
  }

  /** The key occurs in itself, shifted. */
  ghost predicate Overlaps(key: string) { exists d :: 0 < d < |key| && OccursAt(key, key[d..], 0) }

  /** If no earlier text has the key followed by " = ", the scan finds nothing there; for a key that does not
      overlap itself, only then. */
  lemma {:induction false} ScanFinds(text: string, key: string, from: nat)
    requires |key| > 0
    ensures (forall q :: from <= q ==> !OccursAt(text, key + EQ, q)) ==> Scan(text, key, from) == -1
    ensures !Overlaps(key) && Scan(text, key, from) == -1 ==> forall q :: from <= q ==> !OccursAt(text, key + EQ, q)
    decreases |text| - from
  {
    var p := First(text, key, from);
    if p >= 0 {
      if OccursAt(text, EQ, p + |key|) { OccursJoin(text, key, p); } else { ScanFinds(text, key, p + |key|); }
    }
    if !Overlaps(key) && Scan(text, key, from) == -1 {
      forall q | from <= q ensures !OccursAt(text, key + EQ, q) {
        if OccursAt(text, key + EQ, q) {
          OccursSplit(text, key, q);
          FirstIsFirst(text, key, from, q);
          if p < q < p + |key| { Overlapping(text, key, p, q); }
        }
      }
    }
  }

  lemma Overlapping(text: string, key: string, p: nat, q: nat)
    requires OccursAt(text, key, p) && OccursAt(text, key, q) && p < q < p + |key|
    ensures Overlaps(key)
  {
    var d := q - p;
    forall i | 0 <= i < |key[d..]| ensures key[0 + i] == key[d..][i] {
      assert text[p + (d + i)] == key[d + i] && text[q + i] == key[i];
    }
    assert OccursAt(key, key[d..], 0);
  }

  /** A line of one's own locks nothing: only a '-' in front of the key on an earlier line would. */
  lemma {:induction false} NoLock(text: string, key: string, from: nat, at: nat)
    requires |key| > 0 && !Has(key, NL) && from <= at && OccursAt(text, key + EQ, at)
    requires at == 0 || text[at - 1] == NL
    requires forall q :: 0 <= q < at ==> !OccursAt(text, key + EQ, q) && !(OccursAt(text, key, q) && Dashed(text, q))
    ensures !Locks(text, key, from)
    decreases |text| - from
  {
    OccursSplit(text, key, at);
    FirstIsFirst(text, key, from, at);
    var p := First(text, key, from);
    if p < at {
      SkipsNoBreak(text, key, p, at);
      NoLock(text, key, p + |key|, at);
    }
  }

  /** A '-' in front of the key's own line locks the option, and so does one in front of the key's first occurrence. */
  lemma {:induction false} DashLocks(text: string, key: string, from: nat)
    requires |key| > 0
    requires var p, q := First(text, key, from), Scan(text, key, from);
      (p > 0 && text[p - 1] == '-') || (q > 0 && text[q - 1] == '-')
    ensures Locks(text, key, from)
    decreases |text| - from
  {
    var p := First(text, key, from);
    if !Dashed(text, p) && !OccursAt(text, EQ, p + |key|) { DashLocks(text, key, p + |key|); }
  }

  lemma SkipsNoBreak(text: string, key: string, p: nat, at: nat)
    requires !Has(key, NL) && p < at <= |text| && text[at - 1] == NL && OccursAt(text, key, p)
    ensures p + |key| < at
    ensures !OccursAt(text, key + EQ, p) ==> !OccursAt(text, EQ, p + |key|)
  {
    if OccursAt(text, EQ, p + |key|) { OccursJoin(text, key, p); }
    forall q | p <= q < p + |key| ensures text[q] != NL { assert text[p + (q - p)] == key[q - p]; }
  }

  lemma OccursSplit(text: string, key: string, p: nat)
    requires OccursAt(text, key + EQ, p)
    ensures OccursAt(text, key, p) && OccursAt(text, EQ, p + |key|)
  {
    forall i | 0 <= i < |key| ensures text[p + i] == key[i] { assert (key + EQ)[i] == key[i]; }
    forall i | 0 <= i < |EQ| ensures text[p + |key| + i] == EQ[i] { assert (key + EQ)[|key| + i] == EQ[i]; }
  }

  lemma OccursJoin(text: string, key: string, p: nat)
    requires OccursAt(text, key, p) && OccursAt(text, EQ, p + |key|)
    ensures OccursAt(text, key + EQ, p)
  {
    forall i | 0 <= i < |key + EQ| ensures text[p + i] == (key + EQ)[i] {
      if i >= |key| { assert text[p + |key| + (i - |key|)] == EQ[i - |key|]; }
    }
  }

  // ---------- where a line stands ----------

  lemma {:induction false} TextGrows(lines: seq<Line>, m: nat, n: nat)
    requires m <= n <= |lines|
    ensures |Text(lines, m)| <= |Text(lines, n)| && Text(lines, n)[..|Text(lines, m)|] == Text(lines, m)
    decreases n
  {
    if m < n { TextGrows(lines, m, n - 1); }
  }

  /** `part` stands in `text` at `p`. */
  lemma PartOccurs(text: string, before: string, part: string, after: string)
    requires |before + part + after| <= |text| && text[..|before + part + after|] == before + part + after
    ensures OccursAt(text, part, |before|)
  {
    forall i | 0 <= i < |part| ensures text[|before| + i] == part[i] {
      assert (before + part + after)[|before| + i] == text[|before| + i];
    }
  }

  lemma {:induction false} LineIn(lines: seq<Line>, n: nat, j: nat)
    requires j < n <= |lines|
    ensures OccursAt(Text(lines, n), Body(lines[j]) + [NL], |Text(lines, j)|)
  {
    TextGrows(lines, j + 1, n);
    PrefixSplit(Text(lines, n), Text(lines, j), Body(lines[j]) + [NL]);
  }

  lemma {:induction false} LineStands(lines: seq<Line>, n: nat, i: nat)
    requires i < n <= |lines|
    ensures var text := Text(lines, n); var at := |Text(lines, i)|;
      && OccursAt(text, Body(lines[i]) + [NL], at)
      && (at == 0 || (at <= |text| && text[at - 1] == NL))
  {
    LineIn(lines, n, i);
    TextGrows(lines, i, n);
    if i > 0 { assert Text(lines, i)[|Text(lines, i)| - 1] == NL; }
  }

  /** A word without line breaks that starts in the first `n` lines lies inside one of them. */
  lemma {:induction false} InsideLine(lines: seq<Line>, n: nat, text: string, w: string, q: nat) returns (j: nat)
    requires n <= |lines| && |Text(lines, n)| <= |text| && text[..|Text(lines, n)|] == Text(lines, n)
    requires OccursAt(text, w, q) && q < |Text(lines, n)| && !Has(w, NL)
    ensures j < n && Contains(Body(lines[j]), w)
  {
    var before, body := Text(lines, n - 1), Body(lines[n - 1]);
    PrefixSplit(text, before, body + [NL]);
    if q < |before| { j := InsideLine(lines, n - 1, text, w, q); }
    else {
      j := n - 1;
      InsideBody(text, |before|, body, w, q);
    }
  }

  lemma PrefixSplit(text: string, before: string, part: string)
    requires |before + part| <= |text| && text[..|before + part|] == before + part
    ensures text[..|before|] == before && OccursAt(text, part, |before|)
  {
    assert before + part == before + part + [];
    PartOccurs(text, before, part, []);
    assert text[..|before|] == text[..|before + part|][..|before|];
  }

  lemma InsideBody(text: string, at: nat, body: string, w: string, q: nat)
    requires OccursAt(text, body + [NL], at) && OccursAt(text, w, q) && at <= q <= at + |body| && !Has(w, NL)
    ensures Contains(body, w)
  {
    assert text[at + |body|] == (body + [NL])[|body|];
    forall i | q <= i < q + |w| ensures text[i] != NL { assert text[q + (i - q)] == w[i - q]; }
    forall i | 0 <= i < |w| ensures q - at + |w| <= |body| && body[q - at + i] == w[i] {
      assert text[at + (q - at + i)] == (body + [NL])[q - at + i];
      assert text[q + i] == w[i];
    }
    assert OccursAt(body, w, q - at);
  }

  /** The scan for the key of line `i` finds nothing in the lines before it. */
  predicate Reached(lines: seq<Line>, i: nat) {
    i < |lines| && |lines[i].key| > 0 && Scan(Text(lines, i), lines[i].key, 0) == -1
  }

  /** A key is looked up on its own line exactly when that line is reached; otherwise on an earlier one. */
  lemma LineScanned(lines: seq<Line>, i: nat)
    requires i < |lines| && Plain(lines[i])
    ensures Scan(Text(lines, |lines|), lines[i].key, 0) == |Text(lines, i)| <==> Reached(lines, i)
    ensures !Reached(lines, i) ==> Scan(Text(lines, |lines|), lines[i].key, 0) == Scan(Text(lines, i), lines[i].key, 0)
  {
    var text, key, at := Text(lines, |lines|), lines[i].key, |Text(lines, i)|;
    LineStands(lines, |lines|, i);
    LinePart(text, at, lines[i]);
    TextGrows(lines, i, |lines|);
    ScanStops(text, key, 0, Text(lines, i), at);
  }

  /** A line that is reached is read back exactly when its value fits the buffer. */
  lemma LineBack(lines: seq<Line>, i: nat)
    requires i < |lines| && Plain(lines[i]) && Reached(lines, i)
    ensures var r := Lookup(Text(lines, |lines|), lines[i].key);
            r.Some? && (r == Some(lines[i].value) <==> Fits(lines[i].value))
  {
    LineStands(lines, |lines|, i);
    LineScanned(lines, i);
    LookupLine(Text(lines, |lines|), |Text(lines, i)|, lines[i]);
  }

  lemma LookupLine(text: string, at: nat, line: Line)
    requires Plain(line) && OccursAt(text, Body(line) + [NL], at) && Scan(text, line.key, 0) == at
    ensures Lookup(text, line.key).Some? && (Lookup(text, line.key) == Some(line.value) <==> Fits(line.value))
  {
    RestOfLine(text, at, line);
    ValueBack(line.value, text[at + |line.key| + 3..]);
  }

  /** In terms of lines: one is reached if no earlier line contains its key followed by " = ", and, for a key
      that does not overlap itself, only then. */
  lemma ReachedExactly(lines: seq<Line>, i: nat)
    requires i < |lines| && Plain(lines[i])
    ensures Unshadowed(lines, i) ==> Reached(lines, i)
    ensures !Overlaps(lines[i].key) && Reached(lines, i) ==> Unshadowed(lines, i)
  {
    var w, text := lines[i].key + EQ, Text(lines, i);
    ScanFinds(text, lines[i].key, 0);
    KeyPlain(lines[i].key);
    if Unshadowed(lines, i) {
      forall q | 0 <= q ensures !OccursAt(text, w, q) {
        if OccursAt(text, w, q) { var j := InsideLine(lines, i, text, w, q); }
      }
    }
    if !Overlaps(lines[i].key) && Reached(lines, i) {
      forall j | 0 <= j < i ensures !Contains(Body(lines[j]), w) {
        if Contains(Body(lines[j]), w) {
          var q :| OccursAt(Body(lines[j]), w, q);
          InText(lines, i, j, w, q);
        }
      }
    }
  }

  /** What a line contains, the text contains. */
  lemma {:induction false} InText(lines: seq<Line>, n: nat, j: nat, w: string, q: nat)
    requires j < n <= |lines| && OccursAt(Body(lines[j]), w, q)
    ensures OccursAt(Text(lines, n), w, |Text(lines, j)| + q)
  {
    LineIn(lines, n, j);
    OccursWithin(Text(lines, n), |Text(lines, j)|, Body(lines[j]), w, q);
  }

  lemma OccursWithin(text: string, at: nat, body: string, w: string, q: nat)
    requires OccursAt(text, body + [NL], at) && OccursAt(body, w, q)
    ensures OccursAt(text, w, at + q)
  {
    forall i | 0 <= i < |w| ensures text[at + q + i] == w[i] {
      assert body[q + i] == w[i] && (body + [NL])[q + i] == body[q + i];
      assert text[at + (q + i)] == (body + [NL])[q + i];
    }
  }

  /** The scan cannot miss a line that begins with the key. */
  lemma LineCaught(lines: seq<Line>, i: nat, j: nat)
    requires j < i < |lines| && |lines[i].key| > 0 && !Has(lines[i].key, NL) && lines[i].key == lines[j].key
    ensures !Reached(lines, i)
  {
    var text, key, at := Text(lines, i), lines[j].key, |Text(lines, j)|;
    LineStands(lines, i, j);
    LinePart(text, at, lines[j]);
    TextGrows(lines, j, i);
    ScanStops(text, key, 0, Text(lines, j), at);
  }

  /** So a key that is the tail of an earlier key, and does not overlap itself, is read from another line. */
  lemma TailMisread(lines: seq<Line>, i: nat, j: nat, front: string)
    requires j < i < |lines| && Plain(lines[i]) && lines[j].key == front + lines[i].key && !Overlaps(lines[i].key)
    ensures !Reached(lines, i)
  {
    var w, body := lines[i].key + EQ, Body(lines[j]);
    assert body == front + w + lines[j].value;
    forall k | 0 <= k < |w| ensures body[|front| + k] == w[k] { assert (front + w)[|front| + k] == w[k]; }
    assert OccursAt(body, w, |front|);
    ReachedExactly(lines, i);
  }

  lemma KeyPlain(key: string)
    requires !Has(key, NL)
    ensures !Has(key + EQ, NL)
  {
    forall i | 0 <= i < |key + EQ| ensures (key + EQ)[i] != NL {
      if i >= |key| { assert (key + EQ)[i] == EQ[i - |key|]; }
    }
  }

  lemma LinePart(text: string, at: nat, line: Line)
    requires OccursAt(text, Body(line) + [NL], at)
    ensures OccursAt(text, line.key + EQ, at)
  {
    forall i | 0 <= i < |line.key + EQ| ensures text[at + i] == (line.key + EQ)[i] {
      assert (Body(line) + [NL])[i] == (line.key + EQ)[i];
    }
  }

  lemma RestOfLine(text: string, at: nat, line: Line)
    requires OccursAt(text, Body(line) + [NL], at)
    ensures var rest := text[at + |line.key| + 3..];
            |rest| > |line.value| && rest[..|line.value|] == line.value && rest[|line.value|] == NL
  {
    var whole, k := Body(line) + [NL], |line.key| + 3;
    var rest := text[at + k..];
    assert rest[|line.value|] == text[at + (k + |line.value|)] == whole[k + |line.value|];
    forall i | 0 <= i < |line.value| ensures rest[i] == line.value[i] {
      assert text[at + (k + i)] == whole[k + i];
    }
  }
}
