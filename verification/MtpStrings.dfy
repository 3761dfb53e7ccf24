/** MTP strings: UTF-16LE units from the host become UTF-8 names, and names go back to the host as
    counted, null-terminated UTF-16LE. Masks and shifts of the source are written as / and %. */
module MtpStrings {

  type byte = x: int | 0 <= x < 256
  type unit = x: int | 0 <= x < 0x10000

  const MAX_UNITS: nat := 255

  // ---------- one character ----------

  /** UTF-8 of a code point (section 3 of RFC 3629); empty above U+10FFFF. */
  function Utf8(u: nat): seq<byte> {
    if u <= 0x7F then [u]
    else if u <= 0x7FF then [192 + u / 64, 128 + u % 64]
    else if u <= 0xFFFF then [224 + u / 4096, 128 + u / 64 % 64, 128 + u % 64]
    else if u <= 0x10FFFF then [240 + u / 262144, 128 + u / 4096 % 64, 128 + u / 64 % 64, 128 + u % 64]
    else []
  }

  /** Writes the bytes and a terminating zero. */
  method Utf8Encode(out: array<byte>, u: nat) returns (n: nat)
    requires out.Length >= 5 && u < 0x1_0000_0000
    modifies out
    ensures n == |Utf8(u)| <= 4 && out[..n] == Utf8(u)
    ensures n > 0 ==> out[n] == 0
    ensures n == 0 ==> out[..] == old(out[..])
  {
    if u <= 0x7F {
      out[0], out[1] := u, 0;
      return 1;
    } else if u <= 0x7FF {
      out[0], out[1], out[2] := u / 64 % 32 + 0xC0, u % 64 + 0x80, 0;
      return 2;
    } else if u <= 0xFFFF {
      out[0], out[1], out[2], out[3] := u / 4096 % 16 + 0xE0, u / 64 % 64 + 0x80, u % 64 + 0x80, 0;
      return 3;
    } else if u <= 0x10FFFF {
      out[0], out[1], out[2], out[3] :=
        u / 262144 % 8 + 0xF0, u / 4096 % 64 + 0x80, u / 64 % 64 + 0x80, u % 64 + 0x80;
      out[4] := 0;
      return 4;
    } else {
      return 0;
    }
  }

  predicate Tail(c: byte) { 0x80 <= c <= 0xBF }

  /** The byte sequences of section 4 of RFC 3629. */
  predicate WellFormed(t: seq<byte>) {
    match |t|
    case 1 => t[0] <= 0x7F
    case 2 => 0xC2 <= t[0] <= 0xDF && Tail(t[1])
    case 3 =>
      && (t[0] == 0xE0 ==> 0xA0 <= t[1]) && (t[0] == 0xED ==> t[1] <= 0x9F)
      && 0xE0 <= t[0] <= 0xEF && Tail(t[1]) && Tail(t[2])
    case 4 =>
      && (t[0] == 0xF0 ==> 0x90 <= t[1]) && (t[0] == 0xF4 ==> t[1] <= 0x8F)
      && 0xF0 <= t[0] <= 0xF4 && Tail(t[1]) && Tail(t[2]) && Tail(t[3])
    case _ => false
  }

  /** What a byte carries above its mark. */
  function Bits(c: byte, mark: int): int { c - mark }

  /** The bits that the bytes carry above their marks, read as one number. */
  function Carried(t: seq<byte>): int {
    match |t|
    case 1 => t[0]
    case 2 => Bits(t[0], 0xC0) * 64 + Bits(t[1], 0x80)
    case 3 => (Bits(t[0], 0xE0) * 64 + Bits(t[1], 0x80)) * 64 + Bits(t[2], 0x80)
    case 4 => ((Bits(t[0], 0xF0) * 64 + Bits(t[1], 0x80)) * 64 + Bits(t[2], 0x80)) * 64 + Bits(t[3], 0x80)
    case _ => -1
  }

  predicate Surrogate(u: nat) { 0xD800 <= u <= 0xDFFF }

  /** The bytes carry the code point, and are well-formed if and only if it is a character: up to U+10FFFF and no
      surrogate. */
  lemma Utf8Exact(u: nat)
    ensures WellFormed(Utf8(u)) <==> u <= 0x10FFFF && !Surrogate(u)
    ensures if u <= 0x10FFFF then Carried(Utf8(u)) == u else Utf8(u) == []
  {
    Split64(u);
    Split64(u / 64);
    Split64(u / 4096);
    Utf8Bytes(u, u / 64, u / 4096, u / 262144);
  }

  lemma Split64(u: nat)
    ensures u == u / 64 * 64 + u % 64 && u / 64 / 64 == u / 4096 && u / 64 / 64 / 64 == u / 262144
  {
  }

  /** With the quotients given, only sums are left. */
  lemma Utf8Bytes(u: nat, v: nat, w: nat, x: nat)
    requires v == u / 64 && w == u / 4096 && x == u / 262144
    requires u == v * 64 + u % 64 && v == w * 64 + v % 64 && w == x * 64 + w % 64
    ensures WellFormed(Utf8(u)) <==> u <= 0x10FFFF && !Surrogate(u)
    ensures u <= 0x10FFFF ==> Carried(Utf8(u)) == u
  {
    var t := Utf8(u);
    if u <= 0x7F {
    } else if u <= 0x7FF {
      assert Bits(t[0], 0xC0) == v;
    } else if u <= 0xFFFF {
      assert Bits(t[0], 0xE0) == w && Bits(t[1], 0x80) == v % 64;
    } else if u <= 0x10FFFF {
      assert Bits(t[0], 0xF0) == x && Bits(t[1], 0x80) == w % 64 && Bits(t[2], 0x80) == v % 64;
    }
  }

  /** No other well-formed bytes carry it. */
  lemma Utf8Unique(t: seq<byte>)
    requires WellFormed(t)
    ensures 0 <= Carried(t) <= 0x10FFFF && t == Utf8(Carried(t))
  {
    match |t| {
      case 2 => Base64(Bits(t[0], 0xC0), Bits(t[1], 0x80));
      case 3 => UniqueOf3(t);
      case 4 => UniqueOf4(t);
      case _ =>
    }
  }

  lemma UniqueOf3(t: seq<byte>)
    requires WellFormed(t) && |t| == 3
    ensures 0x800 <= Carried(t) <= 0xFFFF && t == Utf8(Carried(t))
  {
    var v := Bits(t[0], 0xE0) * 64 + Bits(t[1], 0x80);
    Base64(Bits(t[0], 0xE0), Bits(t[1], 0x80));
    Base64(v, Bits(t[2], 0x80));
    Split64(Carried(t));
  }

  lemma UniqueOf4(t: seq<byte>)
    requires WellFormed(t) && |t| == 4
    ensures 0x10000 <= Carried(t) <= 0x10FFFF && t == Utf8(Carried(t))
  {
    var w := Bits(t[0], 0xF0) * 64 + Bits(t[1], 0x80);
    var v := w * 64 + Bits(t[2], 0x80);
    Base64(Bits(t[0], 0xF0), Bits(t[1], 0x80));
    Base64(w, Bits(t[2], 0x80));
    Base64(v, Bits(t[3], 0x80));
    Split64(Carried(t));
  }

  lemma Base64(x: nat, y: nat)
    requires y < 64
    ensures (x * 64 + y) / 64 == x && (x * 64 + y) % 64 == y
  {
  }

  /** How many bytes a first byte announces: its leading ones, or 1. */
  function Size(c: byte): nat {
    if c < 128 then 1 else Ones(c)
  }

  function Ones(c: byte): nat {
    if c < 128 then 0 else if c < 192 then 1 else if c < 224 then 2 else if c < 240 then 3
    else if c < 248 then 4 else if c < 252 then 5 else if c < 254 then 6 else if c < 255 then 7 else 8
  }

  method Utf8Size(c: byte) returns (count: nat)
    ensures count == Size(c)
  {
    var rest: byte := c;
    count := 0;
    while rest / 128 % 2 == 1
      invariant count + Ones(rest) == Ones(c)
      decreases Ones(rest)
    {
      rest := rest * 2 % 256;
      count := count + 1;
    }
    if count == 0 { count := 1; }
  }

  /** A byte of a C string; what lies behind the terminator never matters. */
  function At(s: seq<byte>, i: nat): byte {
    if i < |s| then s[i] else 0
  }

  predicate Continues(c: byte) { 128 <= c < 192 }

  datatype Step = Step(unit: unit, ofs: nat)

  const BAD: Step := Step(0, 0)

  /** The unit at `p` and how far to advance; longer sequences and broken ones give nothing. */
  function Decode(s: seq<byte>, p: nat): Step {
    var b1, b2, b3 := At(s, p), At(s, p + 1), At(s, p + 2);
    if Size(b1) == 1 then Step(b1, 1)
    else if Size(b1) == 2 && Continues(b2) then Step(b1 % 32 * 64 + b2 % 64, 2)
    else if Size(b1) == 3 && Continues(b2) && Continues(b3) then Step(b1 % 16 * 4096 + b2 % 64 * 64 + b3 % 64, 3)
    else BAD
  }

  /** Two bytes of a unit put together from its sextets. */
  lemma Halves(x: nat, y: nat, z: nat)
    requires x < 32 && y < 64 && z < 64
    ensures (x * 64 + y) % 256 + x / 4 * 256 == x * 64 + y
    ensures (y * 64 + z) % 256 + (x * 16 + y / 4) * 256 == x * 4096 + y * 64 + z
    ensures (x * 64 + y) % 256 == x % 4 * 64 + y
  {
    Half(x, y);
    Half(y, z);
  }

  lemma Half(x: nat, y: nat)
    requires y < 64
    ensures (x * 64 + y) % 256 == x % 4 * 64 + y && x / 4 * 256 + x % 4 * 64 == x * 64
  {
    assert (x * 64 + y) == x / 4 * 256 + (x % 4 * 64 + y);
  }

  /** No sequence that decodes is shorter than the encoding, a single byte from 80 to BF apart, which is taken as
      it stands. */
  lemma ShortestForm(s: seq<byte>, p: nat)
    requires Decode(s, p).ofs > 0
    ensures |Utf8(Decode(s, p).unit)| <= Decode(s, p).ofs <==> !Continues(At(s, p))
  {
  }

  /** utf2unicode, with the two halves of the unit put together as it does. */
  method Utf2Unicode(s: seq<byte>, p: nat) returns (u: unit, ofs: nat)
    ensures Step(u, ofs) == Decode(s, p)
  {
    u, ofs := 0, 0;
    var size := Utf8Size(At(s, p));
    match size {
      case 1 =>
        u, ofs := At(s, p), 1;
      case 2 =>
        var b1: int, b2: int := At(s, p), At(s, p + 1);
        if b2 / 64 != 2 { return 0, 0; }
        Halves(b1 % 32, b2 % 64, 0);
        u := (b1 % 32 * 64 + b2 % 64) % 256;
        u := u + b1 % 32 / 4 * 256;
        ofs := 2;
      case 3 =>
        var b1: int, b2: int, b3: int := At(s, p), At(s, p + 1), At(s, p + 2);
        if b2 / 64 != 2 || b3 / 64 != 2 { return 0, 0; }
        Halves(b1 % 16, b2 % 64, b3 % 64);
        u := (b2 % 64 * 64 + b3 % 64) % 256;
        u := u + (b1 % 16 * 16 + b2 % 64 / 4) * 256;
        ofs := 3;
      case _ =>
    }
  }

  lemma Sextets(u: unit)
    ensures u == u / 4096 * 4096 + u / 64 % 64 * 64 + u % 64 && u / 64 == u / 4096 * 64 + u / 64 % 64
    ensures u / 4096 < 16 && (u <= 0x7FF ==> u / 64 < 32)
  {
  }

  lemma LeadByte(x: int)
    ensures 0 <= x < 32 ==> (192 + x) % 32 == x
    ensures 0 <= x < 16 ==> (224 + x) % 16 == x
    ensures 0 <= x < 64 ==> (128 + x) % 64 == x
  {
  }

  /** Decoding undoes encoding for every 16-bit unit, surrogates included. */
  lemma DecodeUtf8(s: seq<byte>, p: nat, u: unit)
    requires Holds(s, p, Utf8(u))
    ensures Decode(s, p) == Step(u, |Utf8(u)|)
  {
    var e := Utf8(u);
    assert forall i :: 0 <= i < |e| ==> e[i] == s[p..p + |e|][i] == s[p + i];
    assert At(s, p) == e[0];
    if |e| > 1 { assert At(s, p + 1) == e[1]; }
    if |e| > 2 { assert At(s, p + 2) == e[2]; }
    Sextets(u);
    LeadByte(u / 64); LeadByte(u / 4096); LeadByte(u / 64 % 64); LeadByte(u % 64);
  }

  /** A character outside the basic plane reads as the end of the string. */
  lemma BeyondPlaneEnds(s: seq<byte>, p: nat, u: nat)
    requires 0xFFFF < u <= 0x10FFFF && Holds(s, p, Utf8(u))
    ensures Decode(s, p) == BAD
  {
    assert s[p] == s[p..p + 4][0];
  }

  // ---------- from the host: UTF-16LE to UTF-8 ----------

  /** UTF-8 of the first `n` units. */
  function Encoded(units: seq<unit>, n: nat): (s: seq<byte>)
    requires n <= |units|
    ensures |s| >= n
  {
    if n == 0 then [] else Encoded(units, n - 1) + Utf8(units[n - 1])
  }

  /** A unit from its low and high byte. */
  function Pair(low: int, high: int): int { low + 256 * high }

  predicate NonZero(units: seq<unit>) { forall i :: 0 <= i < |units| ==> units[i] != 0 }

  /** `units` in little-endian order at `p`. */
  predicate Little(bytes: seq<byte>, p: nat, units: seq<unit>) {
    && p + 2 * |units| <= |bytes|
    && (forall i :: 0 <= i < |units| ==> Pair(bytes[p + 2 * i], bytes[p + 2 * i + 1]) == units[i])
  }

  /** Every unit has its low byte first. */
  lemma LowByteFirst(b: seq<byte>, p: nat, us: seq<unit>, i: nat)
    requires Little(b, p, us) && i < |us|
    ensures p + 2 * i + 1 < |b| && b[p + 2 * i] == us[i] % 256 && b[p + 2 * i + 1] == us[i] / 256
  {
    assert Pair(b[p + 2 * i], b[p + 2 * i + 1]) == us[i];
  }

  lemma EncodedGrows(units: seq<unit>, m: nat, n: nat)
    requires m <= n <= |units|
    ensures |Encoded(units, m)| <= |Encoded(units, n)| && Encoded(units, n)[..|Encoded(units, m)|] == Encoded(units, m)
    decreases n - m
  {
    if m < n { EncodedGrows(units, m, n - 1); }
  }

  /** The name gets as many whole characters as fit with a terminating zero, and 1 tells that some did not. */
  method Unicode2CharString(str: array<byte>, source: seq<byte>, max: nat, ghost units: seq<unit>)
      returns (ret: nat, ghost n: nat)
    requires 1 <= max <= str.Length
    requires NonZero(units) && Little(source, 0, units + [0])
    modifies str
    ensures n <= |units| && |Encoded(units, n)| < max
    ensures n < |units| ==> |Encoded(units, n + 1)| >= max
    ensures ret == if n < |units| then 1 else 0
    ensures str[..|Encoded(units, n)|] == Encoded(units, n) && str[|Encoded(units, n)|] == 0
    ensures forall j :: |Encoded(units, n)| < j < str.Length && (ret == 1 ==> j != max - 1) ==> str[j] == old(str[j])
  {
    var i, fits;
    forall k: nat | k <= |units| ensures UnitIs(source, units, k) { UnitAt(source, units, k); }
    i, fits, n := PutChars(str, source, max, units);
    ret := 0;
    if !fits {
      str[max - 1] := 0;
      ret := 1;
    }
    if i < max { str[i] := 0; }
  }

  /** The loop: characters until the null unit, or until one does not fit. */
  method PutChars(str: array<byte>, source: seq<byte>, max: nat, ghost units: seq<unit>) returns (i: nat, fits: bool, ghost n: nat)
    requires 1 <= max <= str.Length
    requires NonZero(units) && forall k: nat :: k <= |units| ==> UnitIs(source, units, k)
    modifies str
    ensures n <= |units| && i == |Encoded(units, n)| < max && str[..i] == Encoded(units, n)
    ensures fits <==> n == |units|
    ensures !fits ==> |Encoded(units, n + 1)| >= max
    ensures Rest(old(str[..]), str[..], i)
  {
    i, fits, n := 0, true, 0;
    var at := 0;
    assert UnitIs(source, units, 0);
    while source[at] != 0 || source[at + 1] != 0
      invariant n <= |units| && at == 2 * n && i == |Encoded(units, n)| < max && fits
      invariant str[..i] == Encoded(units, n)
      invariant Rest(old(str[..]), str[..], i)
      invariant UnitIs(source, units, n)
      decreases |units| - n
    {
      i, fits := PutNext(str, i, Pair(source[at], source[at + 1]), max, units, n, old(str[..]));
      at := at + 2;
      if !fits { return; }
      n := n + 1;
      assert UnitIs(source, units, n);
    }
  }

  /** From `i` on nothing has changed. */
  predicate Rest(before: seq<byte>, after: seq<byte>, i: nat) {
    |after| == |before| && forall j :: i <= j < |after| ==> after[j] == before[j]
  }

  lemma RestSame(a: seq<byte>, b: seq<byte>, c: seq<byte>, i: nat, k: nat)
    requires Rest(a, b, i) && Rest(b, c, k) && i <= k
    ensures Rest(a, c, k)
  {
  }

  method PutNext(str: array<byte>, start: nat, u: unit, max: nat, ghost units: seq<unit>, ghost n: nat, ghost first: seq<byte>)
      returns (i: nat, fits: bool)
    requires max <= str.Length && n < |units| && u == units[n] && start == |Encoded(units, n)| < max
    requires str[..start] == Encoded(units, n) && Rest(first, str[..], start)
    modifies str
    ensures fits <==> |Encoded(units, n + 1)| < max
    ensures i == |Encoded(units, if fits then n + 1 else n)| < max && str[..i] == Encoded(units, if fits then n + 1 else n)
    ensures Rest(first, str[..], i)
  {
    ghost var was := str[..];
    i, fits := PutChar(str, start, u, max);
    RestSame(first, was, str[..], start, i);
  }

  /** The source has unit `n` at its place, and the null unit behind the last. */
  predicate UnitIs(source: seq<byte>, units: seq<unit>, n: nat) {
    2 * n + 1 < |source| && Pair(source[2 * n], source[2 * n + 1]) == if n < |units| then units[n] else 0
  }

  lemma UnitAt(source: seq<byte>, units: seq<unit>, n: nat)
    requires Little(source, 0, units + [0]) && n <= |units|
    ensures UnitIs(source, units, n)
  {
    assert (units + [0])[n] == Pair(source[0 + 2 * n], source[0 + 2 * n + 1]);
  }

  /** One character, whole or not at all. */
  method PutChar(str: array<byte>, start: nat, u: unit, max: nat) returns (i: nat, fits: bool)
    requires start < max <= str.Length
    modifies str
    ensures fits <==> start + |Utf8(u)| < max
    ensures i == (if fits then start + |Utf8(u)| else start) < max
    ensures str[..i] == old(str[..start]) + (if fits then Utf8(u) else [])
    ensures forall j :: i <= j < str.Length ==> str[j] == old(str[j])
  {
    var tmp := new byte[8](_ => 0);
    var chunk := Utf8Encode(tmp, u);
    if chunk == 0 { assert false; }   // the '?' for a failed encoding: 16-bit units never fail
    i, fits := start, start + chunk < max;
    if fits { i := AppendChunk(str, i, tmp, chunk); }
  }

  method AppendChunk(str: array<byte>, start: nat, tmp: array<byte>, chunk: nat) returns (i: nat)
    requires str != tmp && chunk <= tmp.Length && start + chunk <= str.Length
    modifies str
    ensures i == start + chunk && str[..i] == old(str[..start]) + tmp[..chunk]
    ensures forall j :: i <= j < str.Length ==> str[j] == old(str[j])
  {
    i := start;
    var j := 0;
    while j < chunk
      invariant 0 <= j <= chunk && i == start + j
      invariant str[..i] == old(str[..start]) + tmp[..j]
      invariant forall k :: i <= k < str.Length ==> str[k] == old(str[k])
    {
      str[i] := tmp[j];
      i := i + 1;
      j := j + 1;
    }
  }

  // ---------- to the host: UTF-8 to counted UTF-16LE ----------

  function Position(s: seq<byte>, k: nat): nat {
    if k == 0 then 0 else Position(s, k - 1) + Decode(s, Position(s, k - 1)).ofs
  }

  /** The k-th unit decoded from `s`. */
  function Unit(s: seq<byte>, k: nat): unit { Decode(s, Position(s, k)).unit }

  /** The units the loop goes through when it may write `cap`: up to the first null, and at least one. */
  predicate Run(s: seq<byte>, us: seq<unit>, cap: int) {
    && |us| >= 1 && (|us| == 1 || |us| <= cap) && (us[|us| - 1] == 0 || |us| >= cap)
    && (forall k :: 0 <= k < |us| ==> us[k] == Unit(s, k))
    && (forall k :: 0 <= k < |us| - 1 ==> us[k] != 0)
  }

  /** The writer goes on to the first null, to `size` units or to 255, whichever comes first. */
  lemma RunEnds(s: seq<byte>, us: seq<unit>, size: int)
    requires Run(s, us, Cap(size))
    ensures 1 <= |us| <= 255 && (|us| == 1 || |us| <= size)
    ensures us[|us| - 1] == 0 || |us| >= size || |us| == 255
  {
  }

  /** There is always such a list of units, */
  lemma MakeRun(s: seq<byte>, us: seq<unit>, cap: int) returns (all: seq<unit>)
    requires NonZero(us) && (us == [] || |us| < cap) && forall k :: 0 <= k < |us| ==> us[k] == Unit(s, k)
    ensures us < all && Run(s, all, cap)
    decreases cap - |us|
  {
    all := us + [Unit(s, |us|)];
    if Unit(s, |us|) != 0 && |all| < cap { all := MakeRun(s, all, cap); }
  }

  /** and only one. */
  lemma RunUnique(s: seq<byte>, us: seq<unit>, vs: seq<unit>, cap: int)
    requires Run(s, us, cap) && Run(s, vs, cap)
    ensures us == vs
  {
    NotShorter(s, us, vs, cap);
    NotShorter(s, vs, us, cap);
    assert forall k :: 0 <= k < |us| && k < |vs| ==> us[k] == Unit(s, k) == vs[k];
  }

  lemma NotShorter(s: seq<byte>, us: seq<unit>, vs: seq<unit>, cap: int)
    requires Run(s, us, cap) && Run(s, vs, cap)
    ensures |us| >= |vs|
  {
    assert forall k :: 0 <= k < |us| && k < |vs| ==> us[k] == Unit(s, k) == vs[k];
  }

  function Cap(size: int): int { if size < MAX_UNITS then size else MAX_UNITS }

  /** Nothing outside [from, to) differs. */
  predicate Only(now: seq<byte>, before: seq<byte>, from: nat, to: int) {
    |now| == |before| && forall j :: 0 <= j < |now| && (j < from || j >= to) ==> now[j] == before[j]
  }

  lemma OnlyChain(a: seq<byte>, b: seq<byte>, c: seq<byte>, f1: nat, t1: int, f2: nat, t2: int, f: nat, t: int)
    requires Only(a, b, f1, t1) && Only(b, c, f2, t2) && f <= f1 && f <= f2 && t1 <= t && t2 <= t
    ensures Only(a, c, f, t)
  {
  }

  method PutUnit(buf: array<byte>, start: nat, k: nat, u: unit, ghost us: seq<unit>, ghost before: seq<byte>)
    requires start + 2 * k + 2 <= buf.Length && k < |us| && u == us[k]
    requires Little(buf[..], start, us[..k]) && Only(buf[..], before, start, start + 2 * k)
    modifies buf
    ensures Little(buf[..], start, us[..k + 1]) && Only(buf[..], before, start, start + 2 * k + 2)
  {
    buf[start + 2 * k] := u % 256;
    buf[start + 2 * k + 1] := u / 256;
  }

  /** Writes the units of `s`, at most `size` and at most 255 of them, the 255th as a null; -1 when they
      do not stay below maxsize. */
  method Char2UnicodeString(buf: array<byte>, start: nat, maxsize: int, s: seq<byte>, size: int, ghost us: seq<unit>)
      returns (len: int)
    requires maxsize <= buf.Length && Run(s, us, Cap(size))
    modifies buf
    ensures len == if start + 2 * |us| >= maxsize || (|us| == MAX_UNITS && start + 2 * size - 2 >= maxsize) then -1 else |us|
    ensures len >= 0 && len < MAX_UNITS ==> Little(buf[..], start, us)
    ensures len == MAX_UNITS ==> Little(buf[..], start, us[..len - 1] + [0])
    ensures Only(buf[..], old(buf[..]), start, if len >= 0 then start + 2 * len else maxsize - 1)
  {
    ghost var before := buf[..];
    len := PutUnits(buf, start, maxsize, s, size, us);
    if len >= 255 {
      if start + size * 2 - 2 >= maxsize { return -1; }
      EndAtLimit(buf, start, us);
    }
  }

  /** The loop. */
  method PutUnits(buf: array<byte>, start: nat, maxsize: int, s: seq<byte>, size: int, ghost us: seq<unit>) returns (len: int)
    requires maxsize <= buf.Length && Run(s, us, Cap(size))
    modifies buf
    ensures len == if start + 2 * |us| >= maxsize then -1 else |us|
    ensures len >= 0 ==> Little(buf[..], start, us)
    ensures Only(buf[..], old(buf[..]), start, if len >= 0 then start + 2 * len else maxsize - 1)
  {
    ghost var before := buf[..];
    var at, used, index := 0, 0, start;
    var u: unit, ofs: nat;
    len := 0;
    var more := true;
    while more
      invariant 0 <= len <= |us| <= MAX_UNITS && used == 2 * len && index == start + used
      invariant len == 0 || index < maxsize
      invariant more ==> at == Position(s, len)
      invariant index <= buf.Length ==> Little(buf[..], start, us[..len])
      invariant Only(buf[..], before, start, index)
      invariant more <==> len < |us|
      decreases |us| - len
    {
      assert us[len] == Unit(s, len);
      u, ofs := Utf2Unicode(s, at);
      at := at + ofs;
      if index + 2 >= maxsize { return -1; }
      PutUnit(buf, start, len, u, us, before);
      index, used, len := index + 2, used + 2, len + 1;
      more := u != 0 && ofs != 0 && used < size * 2 && used < 255 * 2;
    }
    assert us[..len] == us;
  }

  method EndAtLimit(buf: array<byte>, start: nat, ghost us: seq<unit>)
    requires |us| == MAX_UNITS && Little(buf[..], start, us)
    modifies buf
    ensures Little(buf[..], start, us[..254] + [0]) && Only(buf[..], old(buf[..]), start, start + 510)
  {
    buf[start + 508] := 0;
    buf[start + 509] := 0;
  }

  // ---------- the whole string ----------

  /** The units the host gets for the name `s`: those before the first null, and at most 254. */
  predicate Sends(s: seq<byte>, us: seq<unit>) {
    && |us| < MAX_UNITS && NonZero(us)
    && (forall k :: 0 <= k < |us| ==> us[k] == Unit(s, k))
    && (|us| == MAX_UNITS - 1 || Unit(s, |us|) == 0)
  }

  /** A counted string (section 3.2.3 of the MTP Specification v1.1): units plus null, then the units. */
  predicate Counted(bytes: seq<byte>, p: nat, us: seq<unit>) {
    p < |bytes| && bytes[p] == |us| + 1 && Little(bytes, p + 1, us + [0])
  }

  lemma MakeSent(s: seq<byte>, us: seq<unit>) returns (all: seq<unit>)
    requires |us| < MAX_UNITS && NonZero(us) && forall k :: 0 <= k < |us| ==> us[k] == Unit(s, k)
    ensures Sends(s, all)
    decreases MAX_UNITS - |us|
  {
    if |us| == MAX_UNITS - 1 || Unit(s, |us|) == 0 { all := us; }
    else { all := MakeSent(s, us + [Unit(s, |us|)]); }
  }

  /** The loop goes over the units sent and one more, which is a null or becomes one. */
  lemma SendsRun(s: seq<byte>, us: seq<unit>) returns (last: unit)
    requires Sends(s, us)
    ensures Run(s, us + [last], MAX_UNITS) && (last == 0 || |us| + 1 == MAX_UNITS)
  {
    last := Unit(s, |us|);
  }

  /** poke_string: the count goes in last, so a string that does not fit leaves a zero count behind. */
  method PokeString(buf: array<byte>, index: int, maxsize: int, s: seq<byte>, ghost us: seq<unit>) returns (r: int)
    requires maxsize <= buf.Length && |s| > 0 && Sends(s, us)
    modifies buf
    ensures index < 0 ==> r == index
    ensures index >= 0 ==> r == (if index + 1 >= maxsize then -1 else if s[0] == 0 then index + 1
                                 else if index + 1 + 2 * (|us| + 1) >= maxsize then -1
                                 else index + 1 + 2 * (|us| + 1))
    ensures r >= 0 && s[0] == 0 ==> us == [] && buf[index] == 0
    ensures r >= 0 && s[0] != 0 ==> Counted(buf[..], index, us)
    ensures if r >= 0 then Only(buf[..], old(buf[..]), index, r)
            else if index < 0 then buf[..] == old(buf[..])
            else Only(buf[..], old(buf[..]), index, maxsize - 1)
  {
    if index < 0 { return index; }
    if index + 1 >= maxsize { return -1; }
    buf[index] := 0;
    ghost var zeroed := buf[..];
    assert Only(zeroed, old(buf[..]), index, index + 1);
    if s[0] == 0 {
      EmptySends(s, us);
      return index + 1;
    }
    ghost var m := |us| + 1;
    ghost var last := SendsRun(s, us);
    var len := Char2UnicodeString(buf, index + 1, maxsize, s, MAX_UNITS, us + [last]);
    assert (us + [last])[..|us|] == us;
    if len < 0 {
      OnlyChain(buf[..], zeroed, old(buf[..]), index + 1, maxsize - 1, index, index + 1, index, maxsize - 1);
      return -1;
    }
    OnlyChain(buf[..], zeroed, old(buf[..]), index + 1, index + 1 + 2 * m, index, index + 1, index, index + 1 + 2 * m);
    ghost var filled := buf[..];
    PutCount(buf, index, len, us);
    OnlyChain(buf[..], filled, old(buf[..]), index, index + 1, index, index + 1 + 2 * m, index, index + 1 + 2 * m);
    r := index + 1 + len * 2;
  }

  lemma EmptySends(s: seq<byte>, us: seq<unit>)
    requires |s| > 0 && s[0] == 0 && Sends(s, us)
    ensures us == []
  {
    assert Unit(s, 0) == 0;
  }

  method PutCount(buf: array<byte>, index: nat, len: byte, ghost us: seq<unit>)
    requires len == |us| + 1 && Little(buf[..], index + 1, us + [0])
    modifies buf
    ensures Counted(buf[..], index, us) && Only(buf[..], old(buf[..]), index, index + 1)
  {
    buf[index] := len;
    LittleFrame(old(buf[..]), buf[..], index + 1, us + [0]);
  }

  lemma LittleFrame(a: seq<byte>, b: seq<byte>, p: nat, us: seq<unit>)
    requires Little(a, p, us) && |a| == |b| && forall j :: p <= j < |a| ==> a[j] == b[j]
    ensures Little(b, p, us)
  {
    forall i | 0 <= i < |us| ensures Pair(b[p + 2 * i], b[p + 2 * i + 1]) == us[i] {
      assert Pair(a[p + 2 * i], a[p + 2 * i + 1]) == us[i];
    }
  }

  // ---------- the round trip ----------

  /** The name that holds the first `n` units. */
  predicate Names(s: seq<byte>, units: seq<unit>, n: nat) {
    && n <= |units| && |Encoded(units, n)| < |s|
    && s[..|Encoded(units, n)|] == Encoded(units, n) && s[|Encoded(units, n)|] == 0
  }

  lemma PositionNext(s: seq<byte>, k: nat, p: nat, ofs: nat)
    requires k > 0 && Position(s, k - 1) == p && Decode(s, p).ofs == ofs
    ensures Position(s, k) == p + ofs
  {
  }

  lemma {:induction false} EncodedPosition(s: seq<byte>, units: seq<unit>, n: nat, k: nat)
    requires Names(s, units, n) && k <= n
    ensures Position(s, k) == |Encoded(units, k)|
  {
    if k > 0 {
      EncodedPosition(s, units, n, k - 1);
      NextUnit(s, units, n, k - 1);
      PositionNext(s, k, |Encoded(units, k - 1)|, |Utf8(units[k - 1])|);
    }
  }

  lemma EncodedUnit(s: seq<byte>, units: seq<unit>, n: nat, k: nat)
    requires Names(s, units, n) && k <= n
    ensures Unit(s, k) == if k < n then units[k] else 0
  {
    EncodedPosition(s, units, n, k);
    if k < n { NextUnit(s, units, n, k); }
  }

  lemma NextUnit(s: seq<byte>, units: seq<unit>, n: nat, k: nat)
    requires Names(s, units, n) && k < n
    ensures Decode(s, |Encoded(units, k)|) == Step(units[k], |Utf8(units[k])|)
  {
    EncodedMiddle(s, units, n, k);
    DecodeUtf8(s, |Encoded(units, k)|, units[k]);
  }

  lemma {:induction false} EncodedMiddle(s: seq<byte>, units: seq<unit>, n: nat, k: nat)
    requires k < n <= |units| && |Encoded(units, n)| <= |s| && s[..|Encoded(units, n)|] == Encoded(units, n)
    ensures Holds(s, |Encoded(units, k)|, Utf8(units[k]))
    decreases n
  {
    Split(s, Encoded(units, n), Encoded(units, n - 1), Utf8(units[n - 1]));
    if k < n - 1 { EncodedMiddle(s, units, n - 1, k); }
  }

  /** `e` stands in `s` at `p`. */
  predicate Holds(s: seq<byte>, p: nat, e: seq<byte>) { p + |e| <= |s| && s[p..p + |e|] == e }

  lemma Split(s: seq<byte>, both: seq<byte>, before: seq<byte>, e: seq<byte>)
    requires both == before + e && |both| <= |s| && s[..|both|] == both
    ensures s[..|before|] == before && Holds(s, |before|, e)
  {
    assert s[|before|..|before| + |e|] == s[..|both|][|before|..];
    assert s[..|before|] == s[..|both|][..|before|];
  }

  /** Every string of nonzero 16-bit units comes back: whole up to 254 units, else its first 254. */
  lemma RoundTrip(s: seq<byte>, units: seq<unit>, n: nat)
    requires NonZero(units) && Names(s, units, n)
    ensures Sends(s, units[..if n < MAX_UNITS then n else MAX_UNITS - 1])
  {
    forall k | 0 <= k <= n ensures Unit(s, k) == if k < n then units[k] else 0 {
      EncodedUnit(s, units, n, k);
    }
  }

  /** A name set by the host and reported back: what does not fit the name buffer is cut between
      characters, what exceeds 254 units is cut there, and everything else is unchanged. */
  method Echo(source: seq<byte>, max: nat, buf: array<byte>, index: int, maxsize: int, ghost units: seq<unit>)
      returns (r: int, ghost kept: nat)
    requires NonZero(units) && Little(source, 0, units + [0]) && max >= 1 && 0 <= index && maxsize <= buf.Length
    modifies buf
    ensures kept <= |units| && kept < MAX_UNITS
    ensures kept == |units| || kept == MAX_UNITS - 1 || |Encoded(units, kept + 1)| >= max
    ensures |units| < MAX_UNITS && |Encoded(units, |units|)| < max ==> kept == |units|
    ensures units != [] && r >= 0 && kept > 0 ==> Counted(buf[..], index, units[..kept])
    ensures r >= 0 <==> index + 1 < maxsize && (kept == 0 || index + 1 + 2 * (kept + 1) < maxsize)
    ensures forall j :: 0 <= j < buf.Length && j >= maxsize ==> buf[j] == old(buf[j])
  {
    var name;
    name, kept := NameOf(source, max, units);
    r := PokeString(buf, index, maxsize, name, units[..kept]);
  }

  /** The name made from the host's units, and how many of them it will send back. */
  method NameOf(source: seq<byte>, max: nat, ghost units: seq<unit>) returns (name: seq<byte>, ghost kept: nat)
    requires NonZero(units) && Little(source, 0, units + [0]) && max >= 1
    ensures kept <= |units| && kept < MAX_UNITS && Sends(name, units[..kept])
    ensures kept == |units| || kept == MAX_UNITS - 1 || |Encoded(units, kept + 1)| >= max
    ensures |units| < MAX_UNITS && |Encoded(units, |units|)| < max ==> kept == |units|
    ensures |name| == max && (name[0] == 0 <==> kept == 0)
  {
    var str := new byte[max](_ => 0);
    var cut; ghost var n;
    cut, n := Unicode2CharString(str, source, max, units);
    name := str[..];
    RoundTrip(name, units, n);
    kept := if n < MAX_UNITS then n else MAX_UNITS - 1;
    AllFits(units, n, max);
    FirstByte(name, units, n);
  }

  lemma AllFits(units: seq<unit>, n: nat, max: nat)
    requires n <= |units| && (n < |units| ==> |Encoded(units, n + 1)| >= max)
    ensures |Encoded(units, |units|)| < max ==> n == |units|
  {
    if n < |units| { EncodedGrows(units, n + 1, |units|); }
  }

  lemma FirstByte(s: seq<byte>, units: seq<unit>, n: nat)
    requires NonZero(units) && Names(s, units, n)
    ensures s[0] == 0 <==> n == 0
  {
    EncodedUnit(s, units, n, 0);
  }
}
