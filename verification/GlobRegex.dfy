/** Translating path globs to regular expressions: the text that is emitted, read back by a
    regular expression parser, accepts exactly the paths the glob stands for. */
module GlobRegex {
  import opened Text

  // ----- What a glob means

  datatype Token =
    | Lit(c: char)
    | AnyOne
    | Segment
    | Deep
    | Lead

  /** The reading of a glob: `**` with a directly following slash is one token, leading or inner;
      brackets and braces are ordinary characters. */
  function Tokens(g: string, atStart: bool): seq<Token> {
    if g == "" then []
    else if "**/" <= g then [if atStart then Lead else Deep] + Tokens(g[3..], false)
    else if "**" <= g then [if atStart then Lead else Deep] + Tokens(g[2..], false)
    else [if g[0] == '*' then Segment else if g[0] == '?' then AnyOne else Lit(g[0])] + Tokens(g[1..], false)
  }

  /** A run of `n` characters at the start of `s` that the token may take: `*` stays in its segment. */
  ghost predicate RunOf(t: Token, s: string, n: nat) {
    n <= |s| && (t.Segment? ==> '/' !in s[..n])
  }

  /** The tokens match a prefix of `s`, or all of it. */
  ghost predicate Matches(ts: seq<Token>, s: string, toEnd: bool)
    decreases |ts|
  {
    if ts == [] then toEnd ==> s == ""
    else
      match ts[0]
      case Lit(c) => s != "" && s[0] == c && Matches(ts[1..], s[1..], toEnd)
      case AnyOne => s != "" && Matches(ts[1..], s[1..], toEnd)
      case Segment => exists k: nat :: RunOf(Segment, s, k) && Matches(ts[1..], s[k..], toEnd)
      case Deep => exists k: nat :: RunOf(Deep, s, k) && Matches(ts[1..], s[k..], toEnd)
      case Lead => false
  }

  predicate IsMeta(c: char) {
    c == '*' || c == '?' || c == '[' || c == '{'
  }

  function TrimSlash(g: string): string {
    if HasSuffix(g, "/") then g[..|g| - 1] else g
  }

  /** A pattern that ends in `**` or a slash leaves the rest of the path open. */
  predicate OpenEnd(ts: seq<Token>) {
    ts != [] && (ts[|ts| - 1] == Deep || ts[|ts| - 1] == Lit('/'))
  }

  /** The paths a (trimmed, accepted) glob stands for. */
  ghost predicate GlobAccepts(glob: string, path: string)
    requires glob != ""
  {
    var ts := Tokens(glob, true);
    if TrimSlash(glob) == "**" then path != ""
    else if forall i :: 0 <= i < |glob| ==> !IsMeta(glob[i]) then TrimSlash(glob) + "/" <= path
    else if ts[0] == Lead then
      exists i :: 0 <= i <= |path| && (i == 0 || path[i - 1] == '/') && Matches(ts[1..], path[i..], !OpenEnd(ts))
    else if IsMeta(glob[0]) then
      exists i :: 0 <= i <= |path| && Matches(ts, path[i..], !OpenEnd(ts))
    else Matches(ts, path, !OpenEnd(ts))
  }

  // ----- Regular expressions

  datatype Atom = Char(c: char) | AnyChar | NotIn(cs: set<char>)

  datatype Re =
    | Bol
    | Eol
    | One(a: Atom)
    | Many(a: Atom)
    | Group(alts: seq<Alternative>)

  datatype Alternative = Alternative(items: seq<Re>)

  predicate Accepts(a: Atom, c: char) {
    match a
    case Char(d) => c == d
    case AnyChar => true
    case NotIn(cs) => c !in cs
  }

  ghost predicate IsPosition(s: string, k: nat) {
    k <= |s|
  }

  /** `r` matches `s[i..j]` in place. `^` and `$` hold at the ends of the string only. */
  ghost predicate Ends(r: Re, s: string, i: nat, j: nat)
    decreases r, 1
  {
    i <= j <= |s| &&
    match r
    case Bol => i == j == 0
    case Eol => i == j == |s|
    case One(a) => j == i + 1 && Accepts(a, s[i])
    case Many(a) => forall m :: i <= m < j ==> Accepts(a, s[m])
    case Group(alts) => exists n :: 0 <= n < |alts| && SeqEnds(alts[n].items, s, i, j)
  }

  ghost predicate SeqEnds(rs: seq<Re>, s: string, i: nat, j: nat)
    decreases rs, 0
  {
    if rs == [] then i == j && j <= |s|
    else exists k: nat :: IsPosition(s, k) && Ends(rs[0], s, i, k) && SeqEnds(rs[1..], s, k, j)
  }

  /** The `~` operator: the expression matches somewhere in the string. */
  ghost predicate Search(rs: seq<Re>, s: string) {
    exists i: nat, j: nat :: SeqEnds(rs, s, i, j)
  }

  // ----- Parsing regular expression text

  /** The characters that mean something else than themselves in a regular expression. */
  predicate IsOperator(c: char) {
    c in {'\\', '.', '+', '*', '?', '^', '$', '{', '}', '(', ')', '|', '[', ']'}
  }

  datatype Parsed<T> = Parsed(value: T, rest: string) | Malformed

  /** The characters of a class up to its closing bracket. */
  function ParseClass(t: string): (p: Parsed<set<char>>)
    ensures p.Parsed? ==> |p.rest| < |t|
  {
    if t == "" || (t[0] != ']' && IsOperator(t[0])) then Malformed
    else if t[0] == ']' then Parsed({}, t[1..])
    else
      match ParseClass(t[1..])
      case Malformed => Malformed
      case Parsed(cs, rest) => Parsed({t[0]} + cs, rest)
  }

  /** One character, class or escape. */
  function ParseAtom(t: string): (p: Parsed<Atom>)
    ensures p.Parsed? ==> |p.rest| < |t|
  {
    if t == "" then Malformed
    else if t[0] == '.' then Parsed(AnyChar, t[1..])
    else if t[0] == '\\' then (if |t| == 1 || !IsOperator(t[1]) then Malformed else Parsed(Char(t[1]), t[2..]))
    else if "[^" <= t then
      match ParseClass(t[2..])
      case Malformed => Malformed
      case Parsed(cs, rest) => Parsed(NotIn(cs), rest)
    else if IsOperator(t[0]) then Malformed
    else Parsed(Char(t[0]), t[1..])
  }

  /** One item: an anchor, a group, or an atom with an optional star. */
  function ParseItem(t: string): (p: Parsed<Re>)
    ensures p.Parsed? ==> |p.rest| < |t|
    decreases |t|, 0
  {
    if t == "" then Malformed
    else if t[0] == '^' then Parsed(Bol, t[1..])
    else if t[0] == '$' then Parsed(Eol, t[1..])
    else if t[0] == '(' then
      match ParseAlternatives(t[1..])
      case Malformed => Malformed
      case Parsed(alts, rest) => if rest != "" && rest[0] == ')' then Parsed(Group(alts), rest[1..]) else Malformed
    else
      match ParseAtom(t)
      case Malformed => Malformed
      case Parsed(a, rest) => if rest != "" && rest[0] == '*' then Parsed(Many(a), rest[1..]) else Parsed(One(a), rest)
  }

  /** Items up to the end, a bar or a closing parenthesis. */
  function ParseSequence(t: string): (p: Parsed<seq<Re>>)
    ensures p.Parsed? ==> |p.rest| <= |t|
    decreases |t|, 1
  {
    if t == "" || t[0] == '|' || t[0] == ')' then Parsed([], t)
    else
      match ParseItem(t)
      case Malformed => Malformed
      case Parsed(r, rest) =>
        match ParseSequence(rest)
        case Malformed => Malformed
        case Parsed(rs, rest') => Parsed([r] + rs, rest')
  }

  function ParseAlternatives(t: string): (p: Parsed<seq<Alternative>>)
    ensures p.Parsed? ==> |p.rest| <= |t|
    decreases |t|, 2
  {
    match ParseSequence(t)
    case Malformed => Malformed
    case Parsed(rs, rest) =>
      if rest != "" && rest[0] == '|' then
        match ParseAlternatives(rest[1..])
        case Malformed => Malformed
        case Parsed(more, rest') => Parsed([Alternative(rs)] + more, rest')
      else Parsed([Alternative(rs)], rest)
  }

  /** The expression a text denotes, if it is one of the supported kind. */
  function ParseRegex(t: string): Option<seq<Re>> {
    match ParseSequence(t)
    case Malformed => None
    case Parsed(rs, rest) => if rest == "" then Some(rs) else None
  }

  // ----- Emitted text

  /** The characters the code escapes. */
  const SPECIAL := "\\.+*?^${}()|[]"

  lemma SpecialIsOperator(c: char)
    ensures c in SPECIAL <==> IsOperator(c)
  {
  }

  function EscapeChar(c: char): string {
    if c in SPECIAL then ['\\', c] else [c]
  }

  function EscapeLiteral(s: string): string {
    if s == "" then "" else EscapeChar(s[0]) + EscapeLiteral(s[1..])
  }

  function Emit(t: Token): string {
    match t
    case Lit(c) => EscapeChar(c)
    case AnyOne => "."
    case Segment => "[^/]*"
    case Deep => ".*"
    case Lead => "(^|/)"
  }

  function EmitAll(ts: seq<Token>): string {
    if ts == [] then "" else Emit(ts[0]) + EmitAll(ts[1..])
  }

  function ItemOf(t: Token): Re {
    match t
    case Lit(c) => One(Char(c))
    case AnyOne => One(AnyChar)
    case Segment => Many(NotIn({'/'}))
    case Deep => Many(AnyChar)
    case Lead => Group([Alternative([Bol]), Alternative([One(Char('/'))])])
  }

  function ItemsOf(ts: seq<Token>): seq<Re> {
    if ts == [] then [] else [ItemOf(ts[0])] + ItemsOf(ts[1..])
  }

  // ----- Reading the emitted text back

  predicate NoStar(rest: string) {
    rest == "" || rest[0] != '*'
  }

  lemma ParseEscape(c: char, rest: string)
    requires NoStar(rest) && IsOperator(c)
    ensures ParseItem(['\\', c] + rest) == Parsed(One(Char(c)), rest)
  {
    var t := ['\\', c] + rest;
    assert t[0] == '\\' && t[1] == c && t[2..] == rest;
    assert ParseAtom(t) == Parsed(Char(c), rest);
    hide ParseAtom;
  }

  lemma ParsePlain(c: char, rest: string)
    requires NoStar(rest) && !IsOperator(c)
    ensures ParseItem([c] + rest) == Parsed(One(Char(c)), rest)
  {
    var t := [c] + rest;
    assert t[0] == c && t[1..] == rest;
    assert ParseAtom(t) == Parsed(Char(c), rest);
    hide ParseAtom;
  }

  lemma ParseEscaped(c: char, rest: string)
    requires NoStar(rest)
    ensures ParseItem(EscapeChar(c) + rest) == Parsed(One(Char(c)), rest)
  {
    hide ParseItem;
    SpecialIsOperator(c);
    hide IsOperator;
    if c in SPECIAL { ParseEscape(c, rest); } else { ParsePlain(c, rest); }
  }

  lemma ParseSegment(rest: string)
    ensures ParseItem("[^/]*" + rest) == Parsed(Many(NotIn({'/'})), rest)
  {
    var t := "[^/]*" + rest;
    assert t[2..] == "/]*" + rest && t[2..][1..] == "]*" + rest && t[2..][1..][1..] == "*" + rest;
    assert ParseClass("]*" + rest) == Parsed({}, "*" + rest);
    assert {'/'} + {} == {'/'};
    assert ParseClass("/]*" + rest) == Parsed({'/'}, "*" + rest);
    assert "[^" <= t;
    assert ("*" + rest)[1..] == rest;
  }

  lemma ParseSingle(t: string, r: Re, rest: string)
    requires t != "" && t[0] != '|' && t[0] != ')' && ParseItem(t) == Parsed(r, rest)
    requires rest != "" && (rest[0] == '|' || rest[0] == ')')
    ensures ParseSequence(t) == Parsed([r], rest)
  {
    hide ParseItem;
    assert [r] + [] == [r];
  }

  lemma ParseLead(rest: string)
    ensures ParseItem("(^|/)" + rest) == Parsed(ItemOf(Lead), rest)
  {
    var t := "(^|/)" + rest;
    var close := ")" + rest;
    ParseLeadAlternatives(close);
    hide ParseAlternatives;
    assert t[1..] == "^" + ("|" + ("/" + close));
    assert t[0] == '(' && close[1..] == rest;
  }

  lemma ParseLeadAlternatives(close: string)
    requires close != "" && close[0] == ')'
    ensures ParseAlternatives("^" + ("|" + ("/" + close))) == Parsed([Alternative([Bol]), Alternative([One(Char('/'))])], close)
  {
    var slash := "/" + close;
    var bar := "|" + slash;
    ParseBol(bar);
    ParseSlash(close);
    hide ParseItem;
    ParseSingle("^" + bar, Bol, bar);
    ParseSingle(slash, One(Char('/')), close);
    hide ParseSequence, ParseAlternatives;
    LastAlternative(slash, [One(Char('/'))], close);
    assert bar[1..] == slash;
    NextAlternative("^" + bar, [Bol], bar, [Alternative([One(Char('/'))])], close);
    assert [Alternative([Bol])] + [Alternative([One(Char('/'))])] == [Alternative([Bol]), Alternative([One(Char('/'))])];
  }

  lemma NextAlternative(t: string, items: seq<Re>, bar: string, more: seq<Alternative>, rest: string)
    requires ParseSequence(t) == Parsed(items, bar) && bar != "" && bar[0] == '|' && ParseAlternatives(bar[1..]) == Parsed(more, rest)
    ensures ParseAlternatives(t) == Parsed([Alternative(items)] + more, rest)
  {
    hide ParseSequence;
  }

  lemma LastAlternative(t: string, items: seq<Re>, rest: string)
    requires ParseSequence(t) == Parsed(items, rest) && (rest != "" ==> rest[0] != '|')
    ensures ParseAlternatives(t) == Parsed([Alternative(items)], rest)
  {
    hide ParseSequence;
  }

  lemma ParseBol(rest: string)
    ensures ParseItem("^" + rest) == Parsed(Bol, rest)
  {
    assert ("^" + rest)[1..] == rest;
  }

  lemma ParseSlash(rest: string)
    requires NoStar(rest)
    ensures ParseItem("/" + rest) == Parsed(One(Char('/')), rest)
  {
    ParsePlain('/', rest);
    assert ['/'] + rest == "/" + rest;
  }

  lemma ParseItemOfEmit(t: Token, rest: string)
    requires NoStar(rest)
    ensures ParseItem(Emit(t) + rest) == Parsed(ItemOf(t), rest)
  {
    match t
    case Lit(c) => ParseEscaped(c, rest);
    case AnyOne =>
      assert ("." + rest)[1..] == rest;
    case Segment => ParseSegment(rest);
    case Deep =>
      var text := ".*" + rest;
      assert text[1..] == "*" + rest && text[1..][1..] == rest;
    case Lead => ParseLead(rest);
  }

  lemma EmitStarts(t: Token, rest: string)
    ensures Emit(t) + rest != "" && (Emit(t) + rest)[0] !in {'*', '|', ')'}
  {
    assert '*' in SPECIAL && '|' in SPECIAL && ')' in SPECIAL;
  }

  /** The text a sequence of tokens is emitted as, and its end anchor. */
  function Tail(toEnd: bool): string {
    if toEnd then "$" else ""
  }

  function TailItems(toEnd: bool): seq<Re> {
    if toEnd then [Eol] else []
  }

  lemma ParseOfTail(toEnd: bool)
    ensures ParseSequence(Tail(toEnd)) == Parsed(TailItems(toEnd), "")
  {
    if toEnd {
      assert "$"[1..] == "" && [Eol] + [] == [Eol];
      assert ParseItem("$") == Parsed(Eol, "");
    }
  }

  lemma {:induction false} ParseOfEmitAll(ts: seq<Token>, toEnd: bool)
    ensures NoStar(EmitAll(ts) + Tail(toEnd))
    ensures ParseSequence(EmitAll(ts) + Tail(toEnd)) == Parsed(ItemsOf(ts) + TailItems(toEnd), "")
    decreases |ts|
  {
    if ts == [] {
      assert EmitAll(ts) + Tail(toEnd) == Tail(toEnd);
      assert ItemsOf(ts) + TailItems(toEnd) == TailItems(toEnd);
      ParseOfTail(toEnd);
    } else {
      hide Emit, ItemOf, ParseItem;
      var rest := EmitAll(ts[1..]) + Tail(toEnd);
      assert EmitAll(ts) + Tail(toEnd) == Emit(ts[0]) + rest;
      ParseOfEmitAll(ts[1..], toEnd);
      ParseItemOfEmit(ts[0], rest);
      EmitStarts(ts[0], rest);
      assert [ItemOf(ts[0])] + (ItemsOf(ts[1..]) + TailItems(toEnd)) == ItemsOf(ts) + TailItems(toEnd);
    }
  }

  lemma ParseOfAnchored(ts: seq<Token>, toEnd: bool)
    ensures ParseRegex("^" + (EmitAll(ts) + Tail(toEnd))) == Some([Bol] + (ItemsOf(ts) + TailItems(toEnd)))
    ensures ParseRegex(EmitAll(ts) + Tail(toEnd)) == Some(ItemsOf(ts) + TailItems(toEnd))
  {
    ParseOfEmitAll(ts, toEnd);
    var t := EmitAll(ts) + Tail(toEnd);
    assert ("^" + t)[1..] == t;
    hide ParseSequence;
    AnchoredSequence(t);
  }

  lemma AnchoredSequence(t: string)
    requires ParseSequence(t).Parsed?
    ensures ParseSequence("^" + t) == Parsed([Bol] + ParseSequence(t).value, ParseSequence(t).rest)
  {
    assert ("^" + t)[1..] == t;
  }

  // ----- The parsed expression matches as the tokens do

  /** Some match of the items starts at `i`. */
  ghost predicate MatchesAt(rs: seq<Re>, s: string, i: nat) {
    exists j: nat :: SeqEnds(rs, s, i, j)
  }

  lemma MatchesAtStep(r: Re, rs: seq<Re>, s: string, i: nat)
    ensures MatchesAt([r] + rs, s, i) <==> exists k: nat :: Ends(r, s, i, k) && MatchesAt(rs, s, k)
  {
    assert ([r] + rs)[0] == r && ([r] + rs)[1..] == rs;
    if MatchesAt([r] + rs, s, i) {
      var all := [r] + rs;
      var j: nat :| SeqEnds(all, s, i, j);
      var k: nat :| IsPosition(s, k) && Ends(all[0], s, i, k) && SeqEnds(all[1..], s, k, j);
      assert MatchesAt(rs, s, k);
    }
    if k: nat :| Ends(r, s, i, k) && MatchesAt(rs, s, k) {
      var j: nat :| SeqEnds(rs, s, k, j);
      assert IsPosition(s, k);
      assert SeqEnds([r] + rs, s, i, j);
    }
  }

  lemma TailMatches(s: string, i: nat, toEnd: bool)
    requires i <= |s|
    ensures MatchesAt(TailItems(toEnd), s, i) <==> (toEnd ==> s[i..] == "")
  {
    if toEnd {
      assert [Eol] == [Eol] + [];
      MatchesAtStep(Eol, [], s, i);
      assert SeqEnds([], s, |s|, |s|);
      assert MatchesAt([], s, |s|);
      assert Ends(Eol, s, |s|, |s|);
    } else {
      assert SeqEnds([], s, i, i);
    }
  }

  ghost predicate NoLead(ts: seq<Token>) {
    forall i :: 0 <= i < |ts| ==> ts[i] != Lead
  }

  /** What follows the first token agrees, so the first token's cases agree. */
  ghost predicate RestAgrees(ts: seq<Token>, rs: seq<Re>, s: string, i: nat, toEnd: bool)
    requires ts != []
  {
    forall k: nat :: i <= k <= |s| ==> (MatchesAt(rs, s, k) <==> Matches(ts[1..], s[k..], toEnd))
  }

  lemma OneTokenMatch(ts: seq<Token>, rs: seq<Re>, s: string, i: nat, toEnd: bool)
    requires ts != [] && i <= |s| && RestAgrees(ts, rs, s, i, toEnd) && (ts[0].Lit? || ts[0].AnyOne?)
    ensures (exists k: nat :: Ends(ItemOf(ts[0]), s, i, k) && MatchesAt(rs, s, k)) <==> Matches(ts, s[i..], toEnd)
  {
    hide MatchesAt;
    if i < |s| {
      assert s[i..][0] == s[i] && s[i..][1..] == s[i + 1..];
      assert MatchesAt(rs, s, i + 1) <==> Matches(ts[1..], s[i + 1..], toEnd);
      if Matches(ts, s[i..], toEnd) {
        assert Ends(ItemOf(ts[0]), s, i, i + 1);
      }
    }
  }

  lemma ManyEnds(t: Token, s: string, i: nat, k: nat)
    requires t.Segment? || t.Deep?
    requires i <= k
    ensures Ends(ItemOf(t), s, i, k) <==> k <= |s| && RunOf(t, s[i..], k - i)
  {
    if k <= |s| {
      assert forall m :: i <= m < k ==> s[i..][..k - i][m - i] == s[m];
    }
  }

  lemma ManyTokenMatch(ts: seq<Token>, rs: seq<Re>, s: string, i: nat, toEnd: bool)
    requires ts != [] && i <= |s| && RestAgrees(ts, rs, s, i, toEnd) && (ts[0].Segment? || ts[0].Deep?)
    ensures (exists k: nat :: Ends(ItemOf(ts[0]), s, i, k) && MatchesAt(rs, s, k)) <==> Matches(ts, s[i..], toEnd)
  {
    var suffix := s[i..];
    hide MatchesAt, Ends, ItemOf;
    if k: nat :| Ends(ItemOf(ts[0]), s, i, k) && MatchesAt(rs, s, k) {
      ManyEnds(ts[0], s, i, k);
      var n := k - i;
      assert suffix[n..] == s[k..];
      assert RunOf(ts[0], suffix, n) && Matches(ts[1..], suffix[n..], toEnd);
    }
    if Matches(ts, suffix, toEnd) {
      var n: nat :| RunOf(ts[0], suffix, n) && Matches(ts[1..], suffix[n..], toEnd);
      assert suffix[n..] == s[i + n..];
      ManyEnds(ts[0], s, i, i + n);
      assert MatchesAt(rs, s, i + n);
    }
  }

  lemma {:induction false} TokensMatch(ts: seq<Token>, s: string, i: nat, toEnd: bool)
    requires NoLead(ts) && i <= |s|
    ensures MatchesAt(ItemsOf(ts) + TailItems(toEnd), s, i) <==> Matches(ts, s[i..], toEnd)
    decreases |ts|
  {
    hide SeqEnds, MatchesAt, Ends;
    if ts == [] {
      assert ItemsOf(ts) + TailItems(toEnd) == TailItems(toEnd);
      TailMatches(s, i, toEnd);
    } else {
      var r, rs, rest := ItemOf(ts[0]), ItemsOf(ts[1..]) + TailItems(toEnd), ts[1..];
      assert ItemsOf(ts) + TailItems(toEnd) == [r] + rs;
      MatchesAtStep(r, rs, s, i);
      forall k: nat | i <= k <= |s|
        ensures MatchesAt(rs, s, k) <==> Matches(rest, s[k..], toEnd)
      {
        TokensMatch(rest, s, k, toEnd);
      }
      hide ItemsOf, TailItems, ItemOf, Matches;
      if ts[0].Lit? || ts[0].AnyOne? {
        OneTokenMatch(ts, rs, s, i, toEnd);
      } else {
        assert ts[0] != Lead;
        ManyTokenMatch(ts, rs, s, i, toEnd);
      }
    }
  }

  /** A leading `**` matches from the start of the path or after any slash. */
  lemma LeadEnds(s: string, i: nat, k: nat)
    ensures Ends(ItemOf(Lead), s, i, k) <==> (i == k == 0) || (i < |s| && s[i] == '/' && k == i + 1)
  {
    var alts := [Alternative([Bol]), Alternative([One(Char('/'))])];
    SingleEnds(Bol, s, i, k);
    SingleEnds(One(Char('/')), s, i, k);
    assert alts[0].items == [Bol] && alts[1].items == [One(Char('/'))];
    assert Ends(Group(alts), s, i, k) <==>
             i <= k <= |s| && (SeqEnds(alts[0].items, s, i, k) || SeqEnds(alts[1].items, s, i, k));
  }

  lemma SingleEnds(r: Re, s: string, i: nat, k: nat)
    requires r.Bol? || r.One?
    ensures SeqEnds([r], s, i, k) <==> Ends(r, s, i, k)
  {
    assert [r][0] == r && [r][1..] == [];
    if Ends(r, s, i, k) {
      assert IsPosition(s, k) && SeqEnds([], s, k, k);
    }
    if SeqEnds([r], s, i, k) {
      var m: nat :| IsPosition(s, m) && Ends([r][0], s, i, m) && SeqEnds([r][1..], s, m, k);
    }
  }

  lemma LeadMatches(ts: seq<Token>, s: string, toEnd: bool)
    requires NoLead(ts)
    ensures Search([ItemOf(Lead)] + (ItemsOf(ts) + TailItems(toEnd)), s) <==>
            exists i :: 0 <= i <= |s| && (i == 0 || s[i - 1] == '/') && Matches(ts, s[i..], toEnd)
  {
    var rs := ItemsOf(ts) + TailItems(toEnd);
    var all := [ItemOf(Lead)] + rs;
    hide Ends, SeqEnds, ItemOf, ItemsOf, TailItems, Matches;
    if Search(all, s) {
      var i: nat, j: nat :| SeqEnds(all, s, i, j);
      assert MatchesAt(all, s, i);
      MatchesAtStep(ItemOf(Lead), rs, s, i);
      var k: nat :| Ends(ItemOf(Lead), s, i, k) && MatchesAt(rs, s, k);
      LeadEnds(s, i, k);
      TokensMatch(ts, s, k, toEnd);
    }
    if i :| 0 <= i <= |s| && (i == 0 || s[i - 1] == '/') && Matches(ts, s[i..], toEnd) {
      TokensMatch(ts, s, i, toEnd);
      var from := if i == 0 then 0 else i - 1;
      LeadEnds(s, from, i);
      MatchesAtStep(ItemOf(Lead), rs, s, from);
      assert MatchesAt(all, s, from);
    }
  }

  lemma FloatingMatches(ts: seq<Token>, s: string, toEnd: bool)
    requires NoLead(ts)
    ensures Search(ItemsOf(ts) + TailItems(toEnd), s) <==> exists i :: 0 <= i <= |s| && Matches(ts, s[i..], toEnd)
  {
    var rs := ItemsOf(ts) + TailItems(toEnd);
    if i: nat, j: nat :| SeqEnds(rs, s, i, j) {
      StartsInside(rs, s, i, j);
      hide SeqEnds, ItemsOf, TailItems, Matches;
      assert MatchesAt(rs, s, i);
      TokensMatch(ts, s, i, toEnd);
    }
    hide SeqEnds, ItemsOf, TailItems, Matches;
    if i :| 0 <= i <= |s| && Matches(ts, s[i..], toEnd) {
      TokensMatch(ts, s, i, toEnd);
      assert MatchesAt(rs, s, i);
    }
  }

  lemma StartsInside(rs: seq<Re>, s: string, i: nat, j: nat)
    requires SeqEnds(rs, s, i, j)
    ensures i <= |s|
  {
    if rs != [] {
      var k: nat :| IsPosition(s, k) && Ends(rs[0], s, i, k) && SeqEnds(rs[1..], s, k, j);
    }
  }

  lemma AnchoredMatches(ts: seq<Token>, s: string, toEnd: bool)
    requires NoLead(ts)
    ensures Search([Bol] + (ItemsOf(ts) + TailItems(toEnd)), s) <==> Matches(ts, s, toEnd)
  {
    var rs := ItemsOf(ts) + TailItems(toEnd);
    hide SeqEnds, ItemsOf, TailItems, Matches;
    assert s[0..] == s;
    TokensMatch(ts, s, 0, toEnd);
    if i: nat, j: nat :| SeqEnds([Bol] + rs, s, i, j) {
      assert MatchesAt([Bol] + rs, s, i);
      MatchesAtStep(Bol, rs, s, i);
    }
    if Matches(ts, s, toEnd) {
      assert Ends(Bol, s, 0, 0);
      MatchesAtStep(Bol, rs, s, 0);
      assert MatchesAt([Bol] + rs, s, 0);
    }
  }

  // ----- The ends of the emitted text

  lemma EmitShape(t: Token)
    ensures var e := Emit(t); var n := |e|;
            && n > 0
            && (e[n - 1] == '/' <==> t == Lit('/'))
            && (e[n - 1] == '*' ==> n >= 2)
            && (e[n - 1] == '*' && e[n - 2] == '.' <==> t == Deep)
  {
    assert '*' in SPECIAL && '/' !in SPECIAL;
  }

  lemma EmitEnds(x: string, t: Token)
    ensures HasSuffix(x + Emit(t), ".*") <==> t == Deep
    ensures HasSuffix(x + Emit(t), "/") <==> t == Lit('/')
  {
    EmitShape(t);
    var e := Emit(t);
    hide Emit;
    var text, n := x + e, |x + e|;
    assert HasSuffix(text, "/") <==> text[n - 1] == '/';
    assert HasSuffix(text, ".*") <==> n >= 2 && text[n - 2] == '.' && text[n - 1] == '*';
    assert text[n - 1] == e[|e| - 1];
    if |e| >= 2 {
      assert text[n - 2] == e[|e| - 2];
    }
  }

  lemma {:induction false} EmitAllAppend(ts: seq<Token>, t: Token)
    ensures EmitAll(ts + [t]) == EmitAll(ts) + Emit(t)
    decreases |ts|
  {
    if ts == [] {
      assert ts + [t] == [t] && [t][1..] == [];
    } else {
      assert (ts + [t])[1..] == ts[1..] + [t];
      EmitAllAppend(ts[1..], t);
    }
  }

  /** The test on the emitted text is the test on the last token. */
  lemma OpenEndOfText(start: string, ts: seq<Token>)
    requires ts != []
    ensures HasSuffix(start + EmitAll(ts), ".*") || HasSuffix(start + EmitAll(ts), "/") <==> OpenEnd(ts)
  {
    hide Emit, HasSuffix;
    var n := |ts| - 1;
    assert ts == ts[..n] + [ts[n]];
    EmitAllAppend(ts[..n], ts[n]);
    assert start + EmitAll(ts[..n]) + Emit(ts[n]) == start + EmitAll(ts);
    EmitEnds(start + EmitAll(ts[..n]), ts[n]);
  }

  // ----- Tokens of a glob

  lemma {:induction false} InnerTokensHaveNoLead(g: string)
    ensures NoLead(Tokens(g, false))
    decreases |g|
  {
    if g != "" {
      InnerTokensHaveNoLead(if "**/" <= g then g[3..] else if "**" <= g then g[2..] else g[1..]);
    }
  }

  lemma LeadingToken(g: string)
    requires g != ""
    ensures Tokens(g, true) != []
    ensures Tokens(g, true)[0] == Lead <==> "**" <= g
    ensures NoLead(Tokens(g, true)[1..])
  {
    hide NoLead;
    var rest := if "**/" <= g then g[3..] else if "**" <= g then g[2..] else g[1..];
    InnerTokensHaveNoLead(rest);
    assert Tokens(g, true)[1..] == Tokens(rest, false);
    assert "**/" <= g ==> "**" <= g;
  }

  function Lits(s: string): seq<Token> {
    seq(|s|, i requires 0 <= i < |s| => Lit(s[i]))
  }

  lemma {:induction false} LitsEmit(s: string)
    ensures EmitAll(Lits(s)) == EscapeLiteral(s)
  {
    if s != "" {
      assert Lits(s)[1..] == Lits(s[1..]);
      LitsEmit(s[1..]);
    }
  }

  lemma {:induction false} LitsMatch(w: string, s: string)
    ensures Matches(Lits(w), s, false) <==> w <= s
    decreases |w|
  {
    if w != "" && s != "" {
      assert Lits(w)[1..] == Lits(w[1..]);
      LitsMatch(w[1..], s[1..]);
      assert w == [w[0]] + w[1..] && s == [s[0]] + s[1..];
    }
  }

  // ----- The translation

  /** `unicode.IsSpace`. */
  predicate IsSpace(c: char) {
    || '\t' <= c <= '\r' || c == ' ' || c == '\U{85}' || c == '\U{a0}' || c == '\U{1680}'
    || '\U{2000}' <= c <= '\U{200a}' || c == '\U{2028}' || c == '\U{2029}' || c == '\U{202f}' || c == '\U{205f}' || c == '\U{3000}'
  }

  /** Among the ASCII characters: tab, line feed, vertical tab, form feed, carriage return and space. */
  lemma AsciiSpaces(c: char)
    requires c < 128 as char
    ensures IsSpace(c) <==> c as int in {9, 10, 11, 12, 13, 32}
  {
  }

  function TrimSpace(s: string): string {
    if s == "" then ""
    else if IsSpace(s[0]) then TrimSpace(s[1..])
    else if IsSpace(s[|s| - 1]) then TrimSpace(s[..|s| - 1])
    else s
  }

  ghost predicate AllSpace(s: string) {
    forall i :: 0 <= i < |s| ==> IsSpace(s[i])
  }

  lemma AllSpaceConcat(a: string, b: string)
    requires AllSpace(a) && AllSpace(b)
    ensures AllSpace(a + b)
  {
    hide IsSpace;
  }

  lemma AllSpaceEmpty()
    ensures AllSpace("")
  {
  }

  lemma AllSpaceOne(c: char)
    requires IsSpace(c)
    ensures AllSpace([c])
  {
  }

  /** Trimming removes white space from both ends, all of it, and nothing else. */
  lemma {:induction false} TrimSpaceMeaning(s: string) returns (before: string, after: string)
    ensures s == before + TrimSpace(s) + after && AllSpace(before) && AllSpace(after)
    ensures var r := TrimSpace(s); r != "" ==> !IsSpace(r[0]) && !IsSpace(r[|r| - 1])
  {
    hide IsSpace, AllSpace;
    before, after := "", "";
    AllSpaceEmpty();
    if s != "" {
      if IsSpace(s[0]) {
        var inner;
        inner, after := TrimSpaceMeaning(s[1..]);
        before := [s[0]] + inner;
        AllSpaceOne(s[0]);
        AllSpaceConcat([s[0]], inner);
        assert s == [s[0]] + (inner + TrimSpace(s) + after) == before + TrimSpace(s) + after;
      } else if IsSpace(s[|s| - 1]) {
        var inner;
        before, inner := TrimSpaceMeaning(s[..|s| - 1]);
        after := inner + [s[|s| - 1]];
        AllSpaceOne(s[|s| - 1]);
        AllSpaceConcat(inner, [s[|s| - 1]]);
        assert s == (before + TrimSpace(s) + inner) + [s[|s| - 1]] == before + TrimSpace(s) + after;
      }
    }
  }

  predicate HasDoubleDot(s: string) {
    exists i :: 0 <= i < |s| - 1 && s[i] == '.' && s[i + 1] == '.'
  }

  lemma DoubleDotMeaning(s: string)
    ensures HasDoubleDot(s) <==> exists before: string, after: string :: s == before + ".." + after
  {
    if i :| 0 <= i < |s| - 1 && s[i] == '.' && s[i + 1] == '.' {
      assert s == s[..i] + ".." + s[i + 2..];
    }
    if before: string, after: string :| s == before + ".." + after {
      assert s[|before|] == '.' && s[|before| + 1] == '.';
    }
  }

  lemma EscapeStep(s: string, i: nat)
    requires i < |s|
    ensures EscapeLiteral(s[i..]) == EscapeChar(s[i]) + EscapeLiteral(s[i + 1..])
  {
    hide EscapeChar;
    assert s[i..][0] == s[i] && s[i..][1..] == s[i + 1..];
  }

  method RegexEscapeLiteral(s: string) returns (r: string)
    ensures r == EscapeLiteral(s)
  {
    r := "";
    assert s[0..] == s;
    for i := 0 to |s|
      invariant r + EscapeLiteral(s[i..]) == EscapeLiteral(s)
    {
      hide EscapeLiteral;
      EscapeStep(s, i);
      AppendStep(r, EscapeChar(s[i]), EscapeLiteral(s[i + 1..]));
      ghost var next := r + EscapeChar(s[i]);
      if s[i] in SPECIAL {
        r := r + ['\\'];
      }
      r := r + [s[i]];
      assert r == next;
    }
    assert EscapeLiteral(s[|s|..]) == "";
  }

  /** The text denotes an expression that finds exactly the paths of the glob. */
  ghost predicate Translates(text: string, glob: string)
    requires glob != ""
  {
    && ParseRegex(text).Some?
    && forall path: string :: Search(ParseRegex(text).value, path) <==> GlobAccepts(glob, path)
  }

  lemma EverythingTranslates(glob: string)
    requires glob != "" && TrimSlash(glob) == "**"
    ensures Translates(".", glob)
  {
    ParseOfAnchored([AnyOne], false);
    assert [AnyOne][1..] == [] && EmitAll([AnyOne]) + Tail(false) == ".";
    var rs := ItemsOf([AnyOne]) + TailItems(false);
    forall path: string
      ensures Search(rs, path) <==> path != ""
    {
      FloatingMatches([AnyOne], path, false);
      if path != "" {
        assert path[0..] == path;
        assert Matches([AnyOne], path, false);
      }
    }
  }

  lemma PrefixTranslates(glob: string)
    requires glob != "" && TrimSlash(glob) != "**" && forall i :: 0 <= i < |glob| ==> !IsMeta(glob[i])
    ensures Translates("^" + EscapeLiteral(TrimSlash(glob)) + "/", glob)
  {
    var word := TrimSlash(glob) + "/";
    var ts := Lits(word);
    LitsEmit(word);
    EscapeThenSlash(TrimSlash(glob));
    ParseOfAnchored(ts, false);
    assert EmitAll(ts) + Tail(false) == EscapeLiteral(TrimSlash(glob)) + "/";
    assert "^" + (EscapeLiteral(TrimSlash(glob)) + "/") == "^" + EscapeLiteral(TrimSlash(glob)) + "/";
    forall path: string
      ensures Search([Bol] + (ItemsOf(ts) + TailItems(false)), path) <==> word <= path
    {
      AnchoredMatches(ts, path, false);
      LitsMatch(word, path);
    }
  }

  lemma {:induction false} EscapeThenSlash(s: string)
    ensures EscapeLiteral(s + "/") == EscapeLiteral(s) + "/"
  {
    if s == "" {
      assert "/"[1..] == "" && '/' !in SPECIAL;
    } else {
      assert (s + "/")[1..] == s[1..] + "/";
      EscapeThenSlash(s[1..]);
    }
  }

  ghost predicate HasMeta(glob: string) {
    exists i :: 0 <= i < |glob| && IsMeta(glob[i])
  }

  /** The text emitted for a glob with wildcards. */
  function WildcardText(glob: string): string
    requires glob != ""
  {
    var ts := Tokens(glob, true);
    (if IsMeta(glob[0]) then "" else "^") + (EmitAll(ts) + Tail(!OpenEnd(ts)))
  }

  /** The expression emitted for a glob with wildcards. */
  function WildcardItems(glob: string): seq<Re>
    requires glob != ""
  {
    var ts := Tokens(glob, true);
    if IsMeta(glob[0]) then ItemsOf(ts) + TailItems(!OpenEnd(ts)) else [Bol] + (ItemsOf(ts) + TailItems(!OpenEnd(ts)))
  }

  lemma WildcardParses(glob: string)
    requires glob != ""
    ensures ParseRegex(WildcardText(glob)) == Some(WildcardItems(glob))
  {
    hide ParseRegex, Tokens, Tail, EmitAll, OpenEnd, ItemsOf, TailItems;
    var ts := Tokens(glob, true);
    var text := EmitAll(ts) + Tail(!OpenEnd(ts));
    ParseOfAnchored(ts, !OpenEnd(ts));
    assert "" + text == text;
  }

  lemma WildcardSearch(glob: string, path: string)
    requires glob != "" && TrimSlash(glob) != "**" && HasMeta(glob)
    ensures Search(WildcardItems(glob), path) <==> GlobAccepts(glob, path)
  {
    hide Tokens, OpenEnd, Search, Matches, ItemOf, TailItems;
    LeadingToken(glob);
    var ts, toEnd := Tokens(glob, true), !OpenEnd(Tokens(glob, true));
    if ts[0] == Lead {
      assert glob[0] == '*';
      assert ItemsOf(ts) + TailItems(toEnd) == [ItemOf(Lead)] + (ItemsOf(ts[1..]) + TailItems(toEnd));
      LeadMatches(ts[1..], path, toEnd);
    } else {
      assert NoLead(ts);
      hide ItemsOf;
      FloatingMatches(ts, path, toEnd);
      AnchoredMatches(ts, path, toEnd);
    }
  }

  lemma WildcardTranslates(glob: string)
    requires glob != "" && TrimSlash(glob) != "**" && HasMeta(glob)
    ensures Translates(WildcardText(glob), glob)
  {
    hide ParseRegex, WildcardItems, WildcardText, Search, GlobAccepts, HasMeta, TrimSlash;
    WildcardParses(glob);
    forall path: string
      ensures Search(WildcardItems(glob), path) <==> GlobAccepts(glob, path)
    {
      WildcardSearch(glob, path);
    }
  }

  /** What is still to be emitted from index `i` on. */
  function Remaining(glob: string, i: nat): string
    requires i <= |glob|
  {
    EmitAll(Tokens(glob[i..], i == 0))
  }

  lemma RemainingStep(glob: string, i: nat, t: Token, n: nat)
    requires i < i + n <= |glob| && Tokens(glob[i..], i == 0) == [t] + Tokens(glob[i..][n..], false)
    ensures Remaining(glob, i) == Emit(t) + Remaining(glob, i + n)
  {
    hide Emit, Tokens;
    assert glob[i..][n..] == glob[i + n..];
    assert ([t] + Tokens(glob[i + n..], false))[1..] == Tokens(glob[i + n..], false);
  }

  lemma AppendStep(done: string, next: string, rest: string)
    ensures done + (next + rest) == (done + next) + rest
  {
  }

  /** The loop of globToRegex: emits one token per step. */
  method EmitWildcards(glob: string) returns (text: string)
    requires glob != ""
    ensures text == (if IsMeta(glob[0]) then "" else "^") + EmitAll(Tokens(glob, true))
  {
    text := "";
    if glob[0] != '*' && glob[0] != '?' && glob[0] != '[' && glob[0] != '{' {
      text := "^";
    }
    assert glob[0..] == glob;
    text := EmitFrom(glob, text);
  }

  method EmitFrom(glob: string, start: string) returns (text: string)
    requires glob != "" && (IsMeta(glob[0]) ==> start == "")
    ensures text == start + Remaining(glob, 0)
  {
    hide Emit, Remaining, EmitAll, Tokens;
    text := start;
    var i := 0;
    ghost var all := start + Remaining(glob, 0);
    while i < |glob|
      invariant 0 <= i <= |glob|
      invariant i == 0 ==> text == start
      invariant text + Remaining(glob, i) == all
    {
      var t, n := NextToken(glob, i);
      RemainingStep(glob, i, t, n);
      if t == Lead {
        text := "";
      }
      AppendStep(text, Emit(t), Remaining(glob, i + n));
      text, i := text + Emit(t), i + n;
    }
    RemainingNothing(glob);
  }

  lemma RemainingNothing(glob: string)
    ensures Remaining(glob, |glob|) == ""
  {
  }

  /** One turn of the switch: the token at `i` and how many characters it takes. */
  method NextToken(glob: string, start: nat) returns (t: Token, n: nat)
    requires start < |glob|
    ensures 1 <= n <= |glob| - start
    ensures Tokens(glob[start..], start == 0) == [t] + Tokens(glob[start..][n..], false)
    ensures t == Lead ==> start == 0 && glob[0] == '*'
  {
    ghost var g := glob[start..];
    assert forall k :: 0 <= k < |g| ==> g[k] == glob[start + k];
    if glob[start] == '*' && start + 1 < |glob| && glob[start + 1] == '*' {
      var i := start + 2;
      if i < |glob| && glob[i] == '/' {
        i := i + 1;
      }
      n := i - start;
      if i == 2 || (i == 3 && glob[2] == '/') {
        t := Lead;
      } else {
        t := Deep;
      }
      assert "**/" <= g <==> |g| >= 3 && g[2] == '/';
    } else if glob[start] == '*' {
      t, n := Segment, 1;
    } else if glob[start] == '?' {
      t, n := AnyOne, 1;
    } else {
      t, n := Lit(glob[start]), 1;
    }
  }

  /** The text emitted for an accepted glob. */
  function GlobText(glob: string): string
    requires glob != ""
  {
    if TrimSlash(glob) == "**" then "."
    else if forall i :: 0 <= i < |glob| ==> !IsMeta(glob[i]) then "^" + EscapeLiteral(TrimSlash(glob)) + "/"
    else WildcardText(glob)
  }

  lemma GlobTextCases(glob: string)
    requires glob != ""
    ensures TrimSlash(glob) == "**" ==> GlobText(glob) == "."
    ensures TrimSlash(glob) != "**" && !HasMeta(glob) ==> GlobText(glob) == "^" + EscapeLiteral(TrimSlash(glob)) + "/"
    ensures TrimSlash(glob) != "**" && HasMeta(glob) ==> GlobText(glob) == WildcardText(glob)
  {
    hide WildcardText, EscapeLiteral, TrimSlash;
  }

  method GlobToRegex(input: string) returns (r: Option<string>)
    ensures r.Some? <==> TrimSpace(input) != "" && !HasDoubleDot(TrimSpace(input))
    ensures r.Some? ==> r.value == GlobText(TrimSpace(input)) && Translates(r.value, TrimSpace(input))
  {
    hide Translates, Search, GlobAccepts, IsSpace, TrimSpace, ParseRegex, GlobText, WildcardText, EscapeLiteral, TrimSlash;
    var glob := TrimSpace(input);
    if glob == "" { return None; }
    if HasDoubleDot(glob) { return None; }
    GlobTextCases(glob);
    var trimmed := TrimSlash(glob);
    if trimmed == "**" {
      EverythingTranslates(glob);
      return Some(".");
    }
    if forall i :: 0 <= i < |glob| ==> !IsMeta(glob[i]) {
      PrefixTranslates(glob);
      var dir := RegexEscapeLiteral(trimmed);
      return Some("^" + dir + "/");
    }
    var result := EmitWildcards(glob);
    AnchorEnd(glob, result);
    if !HasSuffix(result, ".*") && !HasSuffix(result, "/") {
      result := result + "$";
    }
    WildcardTranslates(glob);
    TranslatesParses(result, glob);
    if ParseRegex(result).None? { return None; }
    return Some(result);
  }

  lemma TranslatesParses(text: string, glob: string)
    requires glob != "" && Translates(text, glob)
    ensures ParseRegex(text).Some?
  {
  }

  lemma AnchorEnd(glob: string, text: string)
    requires glob != "" && text == (if IsMeta(glob[0]) then "" else "^") + EmitAll(Tokens(glob, true))
    ensures WildcardText(glob) == if HasSuffix(text, ".*") || HasSuffix(text, "/") then text else text + "$"
  {
    hide HasSuffix, OpenEnd, EmitAll, Tokens, IsMeta;
    LeadingToken(glob);
    var ts := Tokens(glob, true);
    var start := if IsMeta(glob[0]) then "" else "^";
    OpenEndOfText(start, ts);
    assert start + (EmitAll(ts) + "") == text && start + (EmitAll(ts) + "$") == text + "$";
  }

  // ----- The documented example: a directory anywhere in the path

  lemma {:induction false} EmitAllConcat(a: seq<Token>, b: seq<Token>)
    ensures EmitAll(a + b) == EmitAll(a) + EmitAll(b)
    decreases |a|
  {
    hide Emit;
    if a == [] {
      assert a + b == b;
    } else {
      assert (a + b)[0] == a[0] && (a + b)[1..] == a[1..] + b;
      EmitAllConcat(a[1..], b);
    }
  }

  lemma LitsFirst(word: string)
    requires word != ""
    ensures Lits(word) == [Lit(word[0])] + Lits(word[1..])
  {
  }

  lemma TokensOfLiteral(c: char, rest: string)
    requires c != '*' && c != '?'
    ensures Tokens([c] + rest, false) == [Lit(c)] + Tokens(rest, false)
  {
    var g := [c] + rest;
    assert g[0] == c && g[1..] == rest;
    assert !("**" <= g) && !("**/" <= g);
  }

  lemma {:induction false} TokensOfWord(word: string, rest: string)
    requires '*' !in word && '?' !in word
    ensures Tokens(word + rest, false) == Lits(word) + Tokens(rest, false)
    decreases |word|
  {
    hide Tokens;
    if word == "" {
      assert word + rest == rest;
    } else {
      var tail := word[1..] + rest;
      TokensOfLiteral(word[0], tail);
      assert word + rest == [word[0]] + tail;
      TokensOfWord(word[1..], rest);
      LitsFirst(word);
      hide Lits;
      assert [Lit(word[0])] + (Lits(word[1..]) + Tokens(rest, false)) == Lits(word) + Tokens(rest, false);
    }
  }

  lemma TokensOfEnd()
    ensures Tokens("**", false) == [Deep] && EmitAll([Deep]) == ".*"
  {
    assert "**"[2..] == "";
    assert [Deep][1..] == [];
  }

  lemma DirectoryTokens(word: string)
    requires '*' !in word && '?' !in word
    ensures Tokens("**/" + (word + "/" + "**"), true) == [Lead] + (Lits(word + "/") + [Deep])
  {
    var rest := word + "/" + "**";
    var glob := "**/" + rest;
    assert glob[3..] == rest && "**/" <= glob;
    TokensOfWord(word + "/", "**");
    TokensOfEnd();
  }

  lemma DirectoryEmitted(word: string)
    ensures EmitAll([Lead] + (Lits(word + "/") + [Deep])) == "(^|/)" + EscapeLiteral(word) + "/.*"
  {
    TokensOfEnd();
    LitsEmit(word + "/");
    EscapeThenSlash(word);
    EmitAllConcat(Lits(word + "/"), [Deep]);
    EmitAllConcat([Lead], Lits(word + "/") + [Deep]);
    LeadEmitted();
    hide EmitAll, Lits, EscapeLiteral;
    assert EscapeLiteral(word) + "/" + ".*" == EscapeLiteral(word) + "/.*";
  }

  lemma LeadEmitted()
    ensures EmitAll([Lead]) == "(^|/)"
  {
    assert [Lead][1..] == [];
  }

  /** `**` before and after a word: the directory at the start of the path or after a slash, and
      then the rest of the path spelled out as `.*`, which the comment on the function leaves out. */
  lemma DirectoryAnywhere(word: string)
    requires '*' !in word && '?' !in word
    ensures GlobText("**/" + (word + "/" + "**")) == "(^|/)" + EscapeLiteral(word) + "/.*"
  {
    var glob := "**/" + (word + "/" + "**");
    var ts := [Lead] + (Lits(word + "/") + [Deep]);
    DirectoryTokens(word);
    DirectoryEmitted(word);
    DirectoryIsWildcard(word);
    GlobTextCases(glob);
    hide Tokens, Lits, EscapeLiteral, EmitAll, GlobText, TrimSlash, HasMeta, IsMeta;
    assert ts[|ts| - 1] == Deep;
    assert EmitAll(ts) + "" == EmitAll(ts) && "" + EmitAll(ts) == EmitAll(ts);
  }

  lemma DirectoryIsWildcard(word: string)
    ensures var glob := "**/" + (word + "/" + "**"); IsMeta(glob[0]) && HasMeta(glob) && TrimSlash(glob) != "**"
  {
    var glob := "**/" + (word + "/" + "**");
    assert IsMeta(glob[0]);
    assert |TrimSlash(glob)| > 2;
  }

  lemma {:induction false} EscapePlain(word: string)
    requires forall i :: 0 <= i < |word| ==> word[i] !in SPECIAL
    ensures EscapeLiteral(word) == word
  {
    if word != "" {
      assert word == [word[0]] + word[1..];
      EscapePlain(word[1..]);
    }
  }

  /** The same for a word without special characters. */
  lemma PlainDirectoryAnywhere(word: string)
    requires forall i :: 0 <= i < |word| ==> word[i] !in SPECIAL
    ensures GlobText("**/" + (word + "/" + "**")) == "(^|/)" + word + "/.*"
  {
    assert '*' in SPECIAL && '?' in SPECIAL;
    hide GlobText, EscapeLiteral;
    DirectoryAnywhere(word);
    EscapePlain(word);
  }

  /** The example of the comment. */
  lemma TestAnywhere()
    ensures GlobText("**/test/**") == "(^|/)test/.*"
  {
    assert 't' !in SPECIAL && 'e' !in SPECIAL && 's' !in SPECIAL;
    hide *;
    var word := "test";
    assert forall i :: 0 <= i < |word| ==> word[i] !in SPECIAL;
    assert "**/" + (word + "/" + "**") == "**/test/**" && "(^|/)" + word + "/.*" == "(^|/)test/.*" by {
      assert |word| == 4;
    }
    PlainDirectoryAnywhere(word);
  }
}
