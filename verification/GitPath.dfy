/** Paths in `diff --git` headers: git's C-style quoting and the code that undoes it.
    A character stands for one byte. */
module GitPath {
  import opened Text

  predicate IsByteString(s: string) {
    forall i :: 0 <= i < |s| ==> s[i] < 256 as char
  }

  // ----- What git prints (quote_c_style of git's quote.c)

  /** The letter of a byte's short escape, if it has one. */
  function ShortEscape(c: char): Option<char> {
    if c == '\n' then Some('n')
    else if c == '\t' then Some('t')
    else if c == '\r' then Some('r')
    else if c == 7 as char then Some('a')
    else if c == 8 as char then Some('b')
    else if c == 12 as char then Some('f')
    else if c == 11 as char then Some('v')
    else if c == '\\' then Some('\\')
    else if c == '\"' then Some('\"')
    else None
  }

  /** Control characters, quotes and backslashes are always quoted; bytes from 0x80 on unless
      core.quotePath is off. */
  predicate NeedsQuoting(c: char, quotePath: bool) {
    c < ' ' || c == 127 as char || c == '\"' || c == '\\' || (quotePath && c >= 128 as char)
  }

  function OctalDigit(n: int): char
    requires 0 <= n < 8
  {
    ('0' as int + n) as char
  }

  function EscapeByte(c: char, quotePath: bool): string
    requires c < 256 as char
  {
    if !NeedsQuoting(c, quotePath) then [c]
    else if ShortEscape(c).Some? then ['\\', ShortEscape(c).value]
    else
      var n := c as int;
      ['\\', OctalDigit(n / 64), OctalDigit(n / 8 % 8), OctalDigit(n % 8)]
  }

  function Escape(p: string, quotePath: bool): string
    requires IsByteString(p)
  {
    if p == "" then "" else EscapeByte(p[0], quotePath) + Escape(p[1..], quotePath)
  }

  predicate Quoted(p: string, quotePath: bool) {
    exists i :: 0 <= i < |p| && NeedsQuoting(p[i], quotePath)
  }

  function QuotedHalves(escaped: string): string {
    "\"a/" + escaped + "\" \"b/" + escaped + "\""
  }

  function PlainHalves(p: string): string {
    "a/" + p + " b/" + p
  }

  /** The header git prints for an unrenamed path. */
  function DiffGitHeader(p: string, quotePath: bool): string
    requires IsByteString(p)
  {
    "diff --git " +
    if Quoted(p, quotePath) then QuotedHalves(Escape(p, quotePath)) else PlainHalves(p)
  }

  // ----- What the code reads

  predicate IsOctal(c: char) {
    '0' <= c <= '7'
  }

  /** The byte a short escape letter stands for. */
  function ShortUnescape(c: char): Option<char> {
    if c == 'n' then Some('\n')
    else if c == 't' then Some('\t')
    else if c == 'r' then Some('\r')
    else if c == 'a' then Some(7 as char)
    else if c == 'b' then Some(8 as char)
    else if c == 'f' then Some(12 as char)
    else if c == 'v' then Some(11 as char)
    else if c == '\\' then Some('\\')
    else if c == '\"' then Some('\"')
    else None
  }

  /** Three octal digits as a byte; the product is computed in a byte and wraps. */
  function OctalByte(a: char, b: char, c: char): char
    requires IsOctal(a) && IsOctal(b) && IsOctal(c)
  {
    (((a as int - '0' as int) * 64 + (b as int - '0' as int) * 8 + (c as int - '0' as int)) % 256) as char
  }

  /** The byte an escaped path starts with, and how many characters spell it; an unknown escape
      stands for itself. */
  function FirstByte(s: string): (r: (char, nat))
    requires s != ""
    ensures 1 <= r.1 <= |s|
  {
    if s[0] != '\\' || |s| == 1 then (s[0], 1)
    else if ShortUnescape(s[1]).Some? then (ShortUnescape(s[1]).value, 2)
    else if |s| >= 4 && IsOctal(s[1]) && IsOctal(s[2]) && IsOctal(s[3]) then (OctalByte(s[1], s[2], s[3]), 4)
    else (s[0], 1)
  }

  /** The meaning of an escaped path. */
  function Unescape(s: string): string {
    if s == "" then ""
    else
      var (c, n) := FirstByte(s);
      [c] + Unescape(s[n..])
  }

  /** The body of the decoding loop at index `i`. */
  method DecodeAt(s: string, i: nat) returns (c: char, n: nat)
    requires i < |s|
    ensures FirstByte(s[i..]) == (c, n)
  {
    hide ShortUnescape, OctalByte;
    ghost var rest := s[i..];
    assert forall k :: 0 <= k < |rest| ==> rest[k] == s[i + k];
    c, n := s[i], 1;
    if s[i] == '\\' && i + 1 < |s| {
      var next := s[i + 1];
      var short := ShortUnescape(next);
      if short.Some? {
        c, n := short.value, 2;
      } else if IsOctal(next) && i + 3 < |s| && IsOctal(s[i + 2]) && IsOctal(s[i + 3]) {
        c, n := OctalByte(next, s[i + 2], s[i + 3]), 4;
      }
    }
  }

  method UnquoteGitPath(s: string) returns (r: string)
    ensures r == Unescape(s)
  {
    hide FirstByte;
    r := "";
    var i := 0;
    while i < |s|
      invariant 0 <= i <= |s|
      invariant r + Unescape(s[i..]) == Unescape(s)
    {
      var c, n := DecodeAt(s, i);
      assert s[i..][n..] == s[i + n..];
      assert r + Unescape(s[i..]) == (r + [c]) + Unescape(s[i + n..]);
      r, i := r + [c], i + n;
    }
  }

  /** The rest of the line after `diff --git `, halved. */
  function ParseHalves(rest: string): string {
    if "\"a/" <= rest then
      if |rest| < 8 then ""
      else
        var escapedLen := (|rest| - 8) / 2;
        if escapedLen <= 0 then "" else Unescape(rest[3..3 + escapedLen])
    else if |rest| < 5 || !("a/" <= rest) then ""
    else
      var pathLen := (|rest| - 5) / 2;
      if pathLen <= 0 then "" else rest[2..2 + pathLen]
  }

  /** `parseDiffGitPath`: the path named by a header line, "" where the line does not fit. */
  function ParseDiffGitPath(line: string): string {
    ParseHalves(if "diff --git " <= line then line[11..] else line)
  }

  // ----- The round trip

  lemma OctalRoundTrip(c: char)
    requires c < 256 as char
    ensures var n := c as int;
            && IsOctal(OctalDigit(n / 64)) && IsOctal(OctalDigit(n / 8 % 8)) && IsOctal(OctalDigit(n % 8))
            && OctalByte(OctalDigit(n / 64), OctalDigit(n / 8 % 8), OctalDigit(n % 8)) == c
            && ShortUnescape(OctalDigit(n / 64)).None?
  {
    var n := c as int;
    OctalValue(n);
    OctalDigitBack(n / 64);
    OctalDigitBack(n / 8 % 8);
    OctalDigitBack(n % 8);
    hide OctalDigit, ShortUnescape;
  }

  lemma OctalValue(n: int)
    requires 0 <= n < 256
    ensures 0 <= n / 64 < 8 && n == n / 64 * 64 + n / 8 % 8 * 8 + n % 8
  {
    var m := n / 8;
    var k := m / 8;
    assert n == 8 * m + n % 8 && m == 8 * k + m % 8;
    assert 64 * k <= n < 64 * k + 64;
    assert n / 64 == k;
  }

  lemma OctalDigitBack(n: int)
    requires 0 <= n < 8
    ensures IsOctal(OctalDigit(n)) && OctalDigit(n) as int - '0' as int == n && ShortUnescape(OctalDigit(n)).None?
  {
  }

  lemma ShortRoundTrip(c: char)
    requires ShortEscape(c).Some?
    ensures ShortUnescape(ShortEscape(c).value) == Some(c)
  {
  }

  lemma FirstByteOfEscape(c: char, quotePath: bool, rest: string)
    requires c < 256 as char
    ensures var e := EscapeByte(c, quotePath);
            e != "" && FirstByte(e + rest) == (c, |e|)
  {
    hide ShortEscape, ShortUnescape, OctalByte, OctalDigit, IsOctal;
    var e := EscapeByte(c, quotePath);
    var s := e + rest;
    assert forall i :: 0 <= i < |e| ==> s[i] == e[i];
    if NeedsQuoting(c, quotePath) {
      if ShortEscape(c).Some? {
        ShortRoundTrip(c);
      } else {
        OctalRoundTrip(c);
      }
    }
  }

  lemma UnescapeFirst(c: char, quotePath: bool, rest: string)
    requires c < 256 as char
    ensures Unescape(EscapeByte(c, quotePath) + rest) == [c] + Unescape(rest)
  {
    hide FirstByte, EscapeByte;
    var e := EscapeByte(c, quotePath);
    FirstByteOfEscape(c, quotePath, rest);
    assert (e + rest)[|e|..] == rest;
  }

  /** Unescaping inverts git's escaping on every byte string. */
  lemma {:induction false} UnescapeOfEscape(p: string, quotePath: bool)
    requires IsByteString(p)
    ensures Unescape(Escape(p, quotePath)) == p
  {
    if p != "" {
      UnescapeFirst(p[0], quotePath, Escape(p[1..], quotePath));
      UnescapeOfEscape(p[1..], quotePath);
      assert p == [p[0]] + p[1..];
    }
  }

  lemma {:induction false} EscapeNotShorter(p: string, quotePath: bool)
    requires IsByteString(p)
    ensures |Escape(p, quotePath)| >= |p|
  {
    if p != "" {
      EscapeNotShorter(p[1..], quotePath);
    }
  }

  lemma QuotedShape(e: string)
    ensures var rest := QuotedHalves(e);
            |rest| == 9 + 2 * |e| && rest[0] == '\"' && rest[1] == 'a' && rest[2] == '/' && rest[3..3 + |e|] == e
  {
    var rest := QuotedHalves(e);
    assert rest == "\"a/" + (e + ("\" \"b/" + e + "\""));
  }

  /** Halving finds the escaped path in a rest of 8 + 2n or 9 + 2n characters. */
  lemma HalvingQuoted(rest: string, e: string)
    requires e != "" && (|rest| == 8 + 2 * |e| || |rest| == 9 + 2 * |e|)
    requires rest[0] == '\"' && rest[1] == 'a' && rest[2] == '/' && rest[3..3 + |e|] == e
    ensures ParseHalves(rest) == Unescape(e)
  {
    hide Unescape;
    assert "\"a/" <= rest;
    assert (|rest| - 8) / 2 == |e|;
  }

  /** The quoted halves have 9 + 2n characters, and halving what exceeds 8 still finds n. */
  lemma ParseOfQuoted(e: string)
    requires e != ""
    ensures |QuotedHalves(e)| == 9 + 2 * |e|
    ensures ParseHalves(QuotedHalves(e)) == Unescape(e)
  {
    QuotedShape(e);
    hide QuotedHalves, ParseHalves, Unescape;
    HalvingQuoted(QuotedHalves(e), e);
  }

  lemma ParseOfPlain(p: string)
    requires p != ""
    ensures ParseHalves(PlainHalves(p)) == p
  {
    hide Unescape;
    var rest := PlainHalves(p);
    assert rest[0] == 'a' && rest[1] == '/';
    assert (|rest| - 5) / 2 == |p|;
    assert rest[2..2 + |p|] == p;
  }

  /** The exact path is recovered from git's header for every non-empty path, quoted or not. */
  lemma ParseOfHeader(p: string, quotePath: bool)
    requires IsByteString(p) && p != ""
    ensures ParseDiffGitPath(DiffGitHeader(p, quotePath)) == p
  {
    hide Unescape, ParseHalves, QuotedHalves, PlainHalves, Escape;
    var line := DiffGitHeader(p, quotePath);
    var halves := if Quoted(p, quotePath) then QuotedHalves(Escape(p, quotePath)) else PlainHalves(p);
    assert line == "diff --git " + halves;
    assert line[11..] == halves;
    EscapeNotShorter(p, quotePath);
    UnescapeOfEscape(p, quotePath);
    ParseOfQuoted(Escape(p, quotePath));
    ParseOfPlain(p);
  }

  /** Distinct paths have distinct headers. */
  lemma HeaderInjective(p: string, q: string, quotePath: bool)
    requires IsByteString(p) && IsByteString(q) && p != "" && q != ""
    requires DiffGitHeader(p, quotePath) == DiffGitHeader(q, quotePath)
    ensures p == q
  {
    hide *;
    ParseOfHeader(p, quotePath);
    ParseOfHeader(q, quotePath);
  }

  // ----- Other inputs

  /** A character that is not a backslash stands for itself, and so does a backslash before anything
      that does not make an escape with it, or at the very end. */
  lemma UnescapeOther(c: char, rest: string)
    ensures c != '\\' ==> Unescape([c] + rest) == [c] + Unescape(rest)
    ensures Unescape("\\") == "\\"
    ensures c !in {'n', 't', 'r', 'a', 'b', 'f', 'v', '\\', '\"'} && !('0' <= c <= '7') ==>
              Unescape("\\" + ([c] + rest)) == "\\" + Unescape([c] + rest)
  {
    var plain, escaped := [c] + rest, "\\" + ([c] + rest);
    assert plain[0] == c && plain[1..] == rest;
    assert escaped[0] == '\\' && escaped[1] == c && escaped[1..] == plain;
    assert FirstByte("\\") == ('\\', 1) && "\\"[1..] == "";
  }

  /** Three octal digits stand for the byte of that value, taken modulo 256; fewer are no escape. */
  lemma UnescapeOctal(a: char, b: char, c: char, rest: string)
    requires '0' <= a <= '7'
    ensures '0' <= b <= '7' && '0' <= c <= '7' ==>
              var value := 64 * (a as int - '0' as int) + 8 * (b as int - '0' as int) + (c as int - '0' as int);
              Unescape("\\" + [a, b, c] + rest) == [(value % 256) as char] + Unescape(rest)
    ensures !('0' <= b <= '7' && '0' <= c <= '7') ==>
              Unescape("\\" + [a, b, c] + rest) == "\\" + Unescape([a, b, c] + rest)
  {
    var s := "\\" + [a, b, c] + rest;
    assert s[0] == '\\' && s[1] == a && s[2] == b && s[3] == c && s[4..] == rest && s[1..] == [a, b, c] + rest;
  }

  /** Halving rounds down: one character more, or one less between quotes, changes nothing. */
  lemma HalvingRoundsDown(p: string, e: string, c: char)
    requires p != "" && e != ""
    ensures ParseHalves(PlainHalves(p) + [c]) == p
    ensures var halves := QuotedHalves(e); ParseHalves(halves[..|halves| - 1]) == Unescape(e)
  {
    PlainWithOneMore(p, c);
    QuotedShape(e);
    hide QuotedHalves, ParseHalves, Unescape;
    var halves := QuotedHalves(e);
    assert halves[..|halves| - 1][3..3 + |e|] == halves[3..3 + |e|];
    HalvingQuoted(halves[..|halves| - 1], e);
  }

  lemma PlainWithOneMore(p: string, c: char)
    requires p != ""
    ensures ParseHalves(PlainHalves(p) + [c]) == p
  {
    hide Unescape;
    var rest := PlainHalves(p) + [c];
    assert rest[0] == 'a' && rest[1] == '/';
    assert rest[2..2 + |p|] == p;
  }

  /** A line that does not name a path in either format gives none. */
  lemma OtherLinesGiveNothing(rest: string)
    requires !("\"a/" <= rest) && !("a/" <= rest)
    ensures ParseDiffGitPath("diff --git " + rest) == ""
  {
    hide Unescape;
    assert ("diff --git " + rest)[11..] == rest;
  }
}
