/** Strings on their way into a shell command or a configuration file, and the readers that undo it. */
module Quoting {

  const QUOTE: char := '\''
  const BACKSLASH: char := '\\'
  const NUL: char := '\0'

  // ---------- the shell's reader ----------

  /** One word being read: outside quotes, after a backslash, or inside single quotes (sections 2.2.1 and
      2.2.2 of IEEE Std 1003.1-2017, Shell & Utilities). Anything else outside quotes is not plain text. */
  datatype Shell = Bare(word: string) | Escape(word: string) | Quoted(word: string) | Other

  function Next(st: Shell, c: char): Shell {
    match st
    case Bare(w) => if c == QUOTE then Quoted(w) else if c == BACKSLASH then Escape(w) else Other
    case Escape(w) => Bare(w + [c])
    case Quoted(w) => if c == QUOTE then Bare(w) else Quoted(w + [c])
    case Other => Other
  }

  /** Where the reader is after `s`. */
  function Feed(s: string): Shell {
    if s == "" then Bare("") else Next(Feed(s[..|s| - 1]), s[|s| - 1])
  }

  /** The text is one word, and this is what it stands for. */
  predicate ReadsAs(s: string, word: string) { Feed(s) == Bare(word) }

  // ---------- escapes ----------

  function Escaped(c: char): string { if c == QUOTE then "'\\''" else [c] }

  /** The first `n` characters with every quote escaped. */
  function EscapedText(src: string, n: nat): (s: string)
    requires n <= |src|
    ensures n <= |s| <= 4 * n
  {
    if n == 0 then "" else EscapedText(src, n - 1) + Escaped(src[n - 1])
  }

  lemma {:induction false} FeedSnoc(s: string, c: char, t: string)
    requires t == s + [c]
    ensures Feed(t) == Next(Feed(s), c)
  {
    assert t[..|s|] == s;
  }

  lemma {:induction false} FeedQuote(s: string, w: string, t: string)
    requires Feed(s) == Quoted(w) && t == s + "'\\''"
    ensures Feed(t) == Quoted(w + "'")
  {
    FeedSnoc(s, QUOTE, t[..|s| + 1]);
    FeedSnoc(t[..|s| + 1], BACKSLASH, t[..|s| + 2]);
    FeedSnoc(t[..|s| + 2], QUOTE, t[..|s| + 3]);
    FeedSnoc(t[..|s| + 3], QUOTE, t);
  }

  lemma {:induction false} FeedEscaped(s: string, w: string, c: char, t: string)
    requires Feed(s) == Quoted(w) && t == s + Escaped(c)
    ensures Feed(t) == Quoted(w + [c])
  {
    if c == QUOTE { FeedQuote(s, w, t); } else { FeedSnoc(s, c, t); }
  }

  /** Inside quotes, the escaped text reads as the text itself. */
  lemma {:induction false} EscapedReads(src: string, n: nat, t: string)
    requires n <= |src| && t == "'" + EscapedText(src, n)
    ensures Feed(t) == Quoted(src[..n])
  {
    if n == 0 {
      FeedSnoc("", QUOTE, t);
    } else {
      var before := EscapedText(src, n - 1);
      EscapedReads(src, n - 1, "'" + before);
      EscapedMore(before, src[..n - 1], src[n - 1], t);
      PrefixMore(src, n);
    }
  }

  lemma {:induction false} PrefixMore(src: string, n: nat)
    requires 0 < n <= |src|
    ensures src[..n] == src[..n - 1] + [src[n - 1]]
  {
  }

  lemma {:induction false} EscapedMore(text: string, w: string, c: char, t: string)
    requires Feed("'" + text) == Quoted(w) && t == "'" + (text + Escaped(c))
    ensures Feed(t) == Quoted(w + [c])
  {
    assert t == "'" + text + Escaped(c);
    FeedEscaped("'" + text, w, c, t);
  }

  /** Quoted with the quotes around it, it is one word: the text, up to where it was cut. */
  lemma {:induction false} QuotedReads(src: string, n: nat)
    requires n <= |src|
    ensures ReadsAs("'" + EscapedText(src, n) + "'", src[..n])
  {
    EscapedReads(src, n, "'" + EscapedText(src, n));
    FeedSnoc("'" + EscapedText(src, n), QUOTE, "'" + EscapedText(src, n) + "'");
  }

  // ---------- the two quoters ----------

  method PutEscaped(dst: array<char>, di: nat, c: char) returns (end: nat)
    requires di + |Escaped(c)| <= dst.Length
    modifies dst
    ensures end == di + |Escaped(c)| && dst[..end] == old(dst[..di]) + Escaped(c)
  {
    if c == QUOTE {
      dst[di], dst[di + 1], dst[di + 2], dst[di + 3] := QUOTE, BACKSLASH, QUOTE, QUOTE;
      end := di + 4;
    } else {
      dst[di] := c;
      end := di + 1;
    }
  }

  /** escapeSingleQuotes: as many whole escapes as fit below `size`, and a terminating zero. */
  method EscapeSingleQuotes(dst: array<char>, size: nat, src: string) returns (ghost n: nat)
    requires size <= dst.Length
    modifies dst
    ensures n <= |src|
    ensures size == 0 ==> dst[..] == old(dst[..])
    ensures size > 0 ==>
      && |EscapedText(src, n)| < size && dst[..|EscapedText(src, n)| + 1] == EscapedText(src, n) + [NUL]
      && (n == |src| || |EscapedText(src, n + 1)| >= size)
    ensures size > 0 ==> ReadsAs("'" + dst[..|EscapedText(src, n)|] + "'", src[..n])
  {
    n := 0;
    if size == 0 { return; }
    var di := 0;
    for si := 0 to |src|
      invariant n == si && di == |EscapedText(src, n)| < size && dst[..di] == EscapedText(src, n)
    {
      var needed := if src[si] == QUOTE then 4 else 1;
      if di + needed >= size { break; }
      di := PutEscaped(dst, di, src[si]);
      n := n + 1;
    }
    dst[di] := NUL;
    QuotedReads(src, n);
    assert dst[..di + 1] == EscapedText(src, n) + [NUL];
  }

  /** Wifi_shellQuote: stops as soon as an escape, the closing quote and the zero might not fit. */
  method ShellQuote(dst: array<char>, size: nat, src: string) returns (ghost n: nat)
    requires size <= dst.Length
    modifies dst
    ensures n <= |src|
    ensures 0 < size < 3 ==> dst[0] == NUL
    ensures size >= 3 ==>
      && |EscapedText(src, n)| + 3 <= size
      && dst[..|EscapedText(src, n)| + 3] == "'" + EscapedText(src, n) + "'" + [NUL]
      && ReadsAs(dst[..|EscapedText(src, n)| + 2], src[..n])
      && (n == |src| || |EscapedText(src, n)| + 7 >= size)
    ensures size > 4 * |src| + 3 ==> n == |src|
  {
    n := 0;
    if size < 3 {
      if size > 0 { dst[0] := NUL; }
      return;
    }
    dst[0] := QUOTE;
    var o;
    o, n := QuoteChars(dst, size, src);
    QuotedReads(src, n);
    Close(dst, o, "'" + EscapedText(src, n));
  }

  method QuoteChars(dst: array<char>, size: nat, src: string) returns (o: nat, ghost n: nat)
    requires 3 <= size <= dst.Length && dst[0] == QUOTE
    modifies dst
    ensures n <= |src| && o == 1 + |EscapedText(src, n)| && o + 2 <= size && dst[..o] == "'" + EscapedText(src, n)
    ensures n == |src| || o + 6 >= size
  {
    o, n := 1, 0;
    for i := 0 to |src|
      invariant n == i && o == 1 + |EscapedText(src, n)| && o + 2 <= size && dst[..o] == "'" + EscapedText(src, n)
    {
      if o + 6 >= size { return; }
      EscapedNext(src, n);
      o := PutEscaped(dst, o, src[i]);
      n := n + 1;
    }
  }

  lemma {:induction false} EscapedNext(src: string, n: nat)
    requires n < |src|
    ensures "'" + EscapedText(src, n) + Escaped(src[n]) == "'" + EscapedText(src, n + 1)
    ensures |EscapedText(src, n + 1)| == |EscapedText(src, n)| + |Escaped(src[n])| && |Escaped(src[n])| <= 4
  {
  }

  method Close(dst: array<char>, o: nat, ghost text: string)
    requires o + 2 <= dst.Length && o == |text| && dst[..o] == text
    modifies dst
    ensures dst[..o + 1] == text + "'" && dst[..o + 2] == text + "'" + [NUL]
  {
    dst[o] := QUOTE;
    dst[o + 1] := NUL;
  }

  /** Unescaped, a quote ends the word early. */
  lemma QuoteEndsWord()
    ensures Feed("'a'") == Bare("a") && Feed("'a'b") == Other && Feed("'a'b'") == Other
  {
    FeedSnoc("", '\'', "'");
    FeedSnoc("'", 'a', "'a");
    FeedSnoc("'a", '\'', "'a'");
    FeedSnoc("'a'", 'b', "'a'b");
    FeedSnoc("'a'b", '\'', "'a'b'");
  }

  // ---------- the quoted configuration value ----------

  predicate Break(c: char) { c == '\n' || c == '\r' }

  function ConfEscaped(c: char): string {
    if Break(c) then "" else if c == '"' || c == BACKSLASH then [BACKSLASH, c] else [c]
  }

  function ConfText(src: string, n: nat): (s: string)
    requires n <= |src|
    ensures |s| <= 2 * n
  {
    if n == 0 then "" else ConfText(src, n - 1) + ConfEscaped(src[n - 1])
  }

  /** The text without its line breaks. */
  function OneLine(src: string, n: nat): string
    requires n <= |src|
  {
    if n == 0 then "" else OneLine(src, n - 1) + if Break(src[n - 1]) then "" else [src[n - 1]]
  }

  /** Reading a quoted value: a backslash stands for the character after it; a bare double quote ends the
      value early, and a line break the line. */
  datatype Conf = Plain(value: string) | Slash(value: string) | Ended

  function ConfNext(st: Conf, c: char): Conf {
    match st
    case Plain(v) => if c == BACKSLASH then Slash(v) else if c == '"' || Break(c) then Ended else Plain(v + [c])
    case Slash(v) => if Break(c) then Ended else Plain(v + [c])
    case Ended => Ended
  }

  function ConfFeed(s: string): Conf {
    if s == "" then Plain("") else ConfNext(ConfFeed(s[..|s| - 1]), s[|s| - 1])
  }

  lemma {:induction false} ConfSnoc(s: string, c: char, t: string)
    requires t == s + [c]
    ensures ConfFeed(t) == ConfNext(ConfFeed(s), c)
  {
    assert t[..|s|] == s;
  }

  lemma {:induction false} ConfMore(s: string, v: string, c: char, t: string)
    requires ConfFeed(s) == Plain(v) && t == s + ConfEscaped(c)
    ensures ConfFeed(t) == Plain(if Break(c) then v else v + [c])
  {
    if Break(c) { assert t == s; }
    else if c == '"' || c == BACKSLASH {
      ConfSnoc(s, BACKSLASH, t[..|s| + 1]);
      ConfSnoc(t[..|s| + 1], c, t);
    } else { ConfSnoc(s, c, t); }
  }

  /** Unescaped, a double quote or a line break ends the value early, even behind a backslash. */
  lemma BreakEndsValue()
    ensures ConfFeed("a\"") == Ended && ConfFeed("a\n") == Ended && ConfFeed("a\r") == Ended && ConfFeed("\\\n") == Ended
  {
    ConfSnoc("", 'a', "a");
    ConfSnoc("a", '"', "a\"");
    ConfSnoc("a", '\n', "a\n");
    ConfSnoc("a", '\r', "a\r");
    ConfSnoc("", '\\', "\\");
    ConfSnoc("\\", '\n', "\\\n");
  }

  /** The escaped value reads as the text without its line breaks, and never ends early. */
  lemma {:induction false} ConfReads(src: string, n: nat, t: string)
    requires n <= |src| && t == ConfText(src, n)
    ensures ConfFeed(t) == Plain(OneLine(src, n))
  {
    if n > 0 {
      var s := ConfText(src, n - 1);
      ConfReads(src, n - 1, s);
      ConfMore(s, OneLine(src, n - 1), src[n - 1], t);
    }
  }

  predicate Unbroken(t: string) { forall i :: 0 <= i < |t| ==> t[i] != '\n' && t[i] != '\r' }

  lemma {:induction false} UnbrokenJoin(a: string, b: string)
    requires Unbroken(a) && Unbroken(b)
    ensures Unbroken(a + b)
  {
  }

  /** No line break gets through, */
  lemma {:induction false} NoBreaks(src: string, n: nat)
    requires n <= |src|
    ensures Unbroken(ConfText(src, n))
  {
    if n > 0 {
      NoBreaks(src, n - 1);
      UnbrokenJoin(ConfText(src, n - 1), ConfEscaped(src[n - 1]));
    }
  }

  function Tally(s: string, c: char): nat {
    if s == "" then 0 else Tally(s[..|s| - 1], c) + if s[|s| - 1] == c then 1 else 0
  }

  lemma {:induction false} TallySnoc(s: string, d: char, c: char)
    ensures Tally(s + [d], c) == Tally(s, c) + if d == c then 1 else 0
  {
    assert (s + [d])[..|s|] == s;
  }

  /** and no other character is lost. */
  lemma {:induction false} OneLineKeeps(src: string, n: nat, c: char)
    requires n <= |src|
    ensures Tally(OneLine(src, n), c) == if c == '\n' || c == '\r' then 0 else Tally(src[..n], c)
  {
    if n > 0 {
      OneLineKeeps(src, n - 1, c);
      assert src[..n] == src[..n - 1] + [src[n - 1]];
      TallySnoc(src[..n - 1], src[n - 1], c);
      var t := OneLine(src, n - 1);
      TallySnoc(t, src[n - 1], c);
      if Break(src[n - 1]) { assert t + "" == t; } else { assert OneLine(src, n) == t + [src[n - 1]]; }
    }
  }

  /** Wifi_confEscape; its second bound check never fires. */
  method ConfEscape(dst: array<char>, size: nat, src: string) returns (ghost n: nat)
    requires 0 < size <= dst.Length
    modifies dst
    ensures n <= |src| && |ConfText(src, n)| < size
    ensures dst[..|ConfText(src, n)| + 1] == ConfText(src, n) + [NUL]
    ensures ConfFeed(dst[..|ConfText(src, n)|]) == Plain(OneLine(src, n))
    ensures Unbroken(dst[..|ConfText(src, n)|])
    ensures n == |src| || |ConfText(src, n)| + 2 >= size
    ensures size > 2 * |src| ==> n == |src|
  {
    var o;
    o, n := ConfFill(dst, size, src);
    ConfReads(src, n, ConfText(src, n));
    NoBreaks(src, n);
    dst[o] := NUL;
  }

  /** The loop. */
  method ConfFill(dst: array<char>, size: nat, src: string) returns (o: nat, ghost n: nat)
    requires 0 < size <= dst.Length
    modifies dst
    ensures n <= |src| && o == |ConfText(src, n)| < size && dst[..o] == ConfText(src, n)
    ensures n == |src| || o + 2 >= size
    ensures size > 2 * |src| ==> n == |src|
  {
    n, o := 0, 0;
    var i := 0;
    while i < |src| && o + 2 < size
      invariant n == i <= |src| && o == |ConfText(src, n)| < size && dst[..o] == ConfText(src, n)
    {
      var c := src[i];
      i := i + 1;
      n := n + 1;
      if Break(c) { continue; }
      o := PutConf(dst, size, o, c);
    }
  }

  method PutConf(dst: array<char>, size: nat, o: nat, c: char) returns (o': nat)
    requires o + 2 < size <= dst.Length && !Break(c)
    modifies dst
    ensures o' == o + |ConfEscaped(c)| < size && dst[..o'] == old(dst[..o]) + ConfEscaped(c)
  {
    o' := o;
    if c == '"' || c == BACKSLASH {
      dst[o'] := BACKSLASH;
      o' := o' + 1;
    }
    if o' + 1 >= size { assert false; }
    dst[o'] := c;
    o' := o' + 1;
  }

  /** The SSID without line breaks, into a buffer of 33. */
  method CleanSsid(ssid: string) returns (clean: string)
    requires |ssid| <= 32
    ensures clean == OneLine(ssid, |ssid|) && |clean| <= |ssid|
  {
    clean := "";
    for i := 0 to |ssid|
      invariant clean == OneLine(ssid, i) && |clean| <= i
    {
      if Break(ssid[i]) { continue; }
      clean := clean + [ssid[i]];
    }
  }

  /** The shell's view of a zero-terminated buffer, and the configuration reader's. */
  ghost predicate QuotedAs(dst: array<char>, src: string)
    reads dst
  {
    var end := |EscapedText(src, |src|)| + 2;
    end < dst.Length && dst[end] == NUL && ReadsAs(dst[..end], src)
  }

  ghost predicate EscapedAs(dst: array<char>, src: string)
    reads dst
  {
    var end := |ConfText(src, |src|)|;
    end < dst.Length && dst[end] == NUL && ConfFeed(dst[..end]) == Plain(OneLine(src, |src|)) && Unbroken(dst[..end])
  }

  method QuoteAll(dst: array<char>, src: string)
    requires dst.Length > 4 * |src| + 3
    modifies dst
    ensures QuotedAs(dst, src)
  {
    ghost var n := ShellQuote(dst, dst.Length, src);
    assert src[..n] == src;
    ghost var end := |EscapedText(src, n)| + 2;
    assert dst[end] == dst[..end + 1][end] == NUL;
  }

  method EscapeAll(dst: array<char>, src: string)
    requires dst.Length > 2 * |src|
    modifies dst
    ensures EscapedAs(dst, src)
  {
    ghost var n := ConfEscape(dst, dst.Length, src);
    ghost var end := |ConfText(src, n)|;
    assert dst[end] == dst[..end + 1][end] == NUL;
  }

  /** The credentials of Wifi_writeConfig in its four buffers: an SSID of at most 32 bytes and a password of
      at most 127 reach the shell and the configuration whole, but for line breaks. */
  method QuoteCredentials(ssid: string, password: string) returns (clean: string, ssidQ: array<char>, passQ: array<char>,
                                                                   ssidEsc: array<char>, passEsc: array<char>)
    requires |ssid| <= 32 && |password| <= 127
    ensures clean == OneLine(ssid, |ssid|)
    ensures QuotedAs(ssidQ, clean) && QuotedAs(passQ, password)
    ensures EscapedAs(ssidEsc, ssid) && EscapedAs(passEsc, password)
  {
    clean := CleanSsid(ssid);
    ssidQ, passQ := new char[33 * 4 + 4], new char[128 * 4 + 4];
    ssidEsc, passEsc := new char[33 * 2], new char[128 * 2];
    EscapeAll(ssidEsc, ssid);
    QuoteAll(ssidQ, clean);
    QuoteAll(passQ, password);
    EscapeAll(passEsc, password);
  }
}
