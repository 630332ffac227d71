/** What globs mean, character by character: which token each spelling is read as, and which paths
    the emitted text accepts for a wildcard among ordinary characters. */
module GlobMeaning {
  import opened Text
  import opened GlobRegex

  // ----- Spelling

  /** How a token is written. */
  function SpellOne(t: Token): string {
    match t
    case Lit(c) => [c]
    case AnyOne => "?"
    case Segment => "*"
    case Deep => "**/"
    case Lead => "**/"
  }

  function Spell(ts: seq<Token>): string {
    if ts == [] then "" else SpellOne(ts[0]) + Spell(ts[1..])
  }

  /** Lists that can be told apart in writing: wildcards are no literals, only the first two stars
      are leading, and no star is followed by a star. */
  predicate Readable(ts: seq<Token>, atStart: bool) {
    ts != [] ==>
      && (ts[0].Lit? ==> ts[0].c != '*' && ts[0].c != '?')
      && (ts[0] == Lead ==> atStart) && (ts[0] == Deep ==> !atStart)
      && (ts[0] == Segment && |ts| > 1 ==> ts[1] != Segment && ts[1] != Deep && ts[1] != Lead)
      && Readable(ts[1..], false)
  }

  /** Reading a spelled list gives back the list. */
  lemma {:induction false} ReadSpelled(ts: seq<Token>, atStart: bool)
    requires Readable(ts, atStart)
    ensures Tokens(Spell(ts), atStart) == ts
    decreases |ts|
  {
    if ts != [] {
      var rest := Spell(ts[1..]);
      ReadSpelled(ts[1..], false);
      SpelledStart(ts[1..]);
      ReadOne(ts[0], rest, atStart);
      hide Tokens, Readable;
    }
  }

  lemma ReadOne(t: Token, rest: string, atStart: bool)
    requires (t.Lit? ==> t.c != '*' && t.c != '?') && (t == Lead ==> atStart) && (t == Deep ==> !atStart)
    requires t == Segment && rest != "" ==> rest[0] != '*'
    ensures Tokens(SpellOne(t) + rest, atStart) == [t] + Tokens(rest, false)
  {
    match t
    case Lit(c) =>
      TokensOfLiteral(c, rest);
      ReadAnywhere([c] + rest);
    case AnyOne =>
      ReadQuestion(rest);
      ReadAnywhere("?" + rest);
    case Segment => ReadStar(rest);
    case Deep => ReadStars(rest, false);
    case Lead => ReadStars(rest, true);
  }

  lemma SpelledStart(ts: seq<Token>)
    requires Readable(ts, false)
    ensures ts == [] || (ts[0] != Segment && ts[0] != Deep && ts[0] != Lead) ==> Spell(ts) == "" || Spell(ts)[0] != '*'
  {
  }

  // ----- Paths

  /** The paths a regular expression text accepts. */
  ghost predicate RegexAccepts(text: string, path: string) {
    ParseRegex(text).Some? && Search(ParseRegex(text).value, path)
  }

  /** The paths the emitted text accepts are those the glob stands for. */
  lemma TextAccepts(glob: string, path: string)
    requires glob != ""
    ensures RegexAccepts(GlobText(glob), path) <==> GlobAccepts(glob, path)
  {
    GlobTextCases(glob);
    hide GlobText, GlobAccepts, ParseRegex, Search, WildcardText, EscapeLiteral;
    if TrimSlash(glob) == "**" {
      EverythingTranslates(glob);
    } else if HasMeta(glob) {
      WildcardTranslates(glob);
    } else {
      PrefixTranslates(glob);
    }
  }

  /** No wildcard in it. */
  predicate Word(w: string) {
    '*' !in w && '?' !in w
  }

  /** A word a match has to start with: not empty, and no bracket or brace first. */
  predicate Start(w: string) {
    Word(w) && w != "" && w[0] != '[' && w[0] != '{'
  }

  /** All of `s`, or the start of it where the pattern ends in a slash. */
  predicate Covers(w: string, s: string, toEnd: bool) {
    if toEnd then s == w else w <= s
  }

  predicate EndsOpen(w: string) {
    w != "" && w[|w| - 1] == '/'
  }

  lemma {:induction false} LitsThen(w: string, ts: seq<Token>, s: string, toEnd: bool)
    ensures Matches(Lits(w) + ts, s, toEnd) <==> w <= s && Matches(ts, s[|w|..], toEnd)
    decreases |w|
  {
    if w == "" {
      assert Lits(w) + ts == ts && s[0..] == s;
    } else {
      LitsFirst(w);
      assert (Lits(w) + ts)[0] == Lit(w[0]) && (Lits(w) + ts)[1..] == Lits(w[1..]) + ts;
      if s != "" {
        LitsThen(w[1..], ts, s[1..], toEnd);
        assert w <= s <==> w[0] == s[0] && w[1..] <= s[1..];
        if w <= s { assert s[1..][|w| - 1..] == s[|w|..]; }
      }
    }
  }

  lemma LitsCover(w: string, s: string, toEnd: bool)
    ensures Matches(Lits(w), s, toEnd) <==> Covers(w, s, toEnd)
  {
    LitsThen(w, [], s, toEnd);
    assert Lits(w) + [] == Lits(w);
    if w <= s { assert s == w + s[|w|..]; }
  }

  lemma CoversAfter(before: string, w: string, s: string, toEnd: bool)
    ensures Covers(before + w, s, toEnd) <==> before <= s && Covers(w, s[|before|..], toEnd)
  {
    if before <= s { assert s == before + s[|before|..]; }
  }

  /** A star, or two of them, before a word. */
  lemma RunThenWord(t: Token, w: string, s: string, toEnd: bool)
    requires t == Segment || t == Deep
    ensures Matches([t] + Lits(w), s, toEnd) <==> exists mid: string :: Covers(mid + w, s, toEnd) && (t == Segment ==> '/' !in mid)
  {
    var ts := [t] + Lits(w);
    assert ts[0] == t && ts[1..] == Lits(w);
    hide Lits;
    if k: nat :| RunOf(t, s, k) && Matches(Lits(w), s[k..], toEnd) {
      LitsCover(w, s[k..], toEnd);
      CoversAfter(s[..k], w, s, toEnd);
    }
    if mid: string :| Covers(mid + w, s, toEnd) && (t == Segment ==> '/' !in mid) {
      CoversAfter(mid, w, s, toEnd);
      LitsCover(w, s[|mid|..], toEnd);
      assert s[..|mid|] == mid;
      assert RunOf(t, s, |mid|);
    }
  }

  lemma OneThenWord(w: string, s: string, toEnd: bool)
    ensures Matches([AnyOne] + Lits(w), s, toEnd) <==> exists c: char :: Covers([c] + w, s, toEnd)
  {
    var ts := [AnyOne] + Lits(w);
    assert ts[0] == AnyOne && ts[1..] == Lits(w);
    hide Lits;
    if s != "" {
      LitsCover(w, s[1..], toEnd);
      CoversAfter([s[0]], w, s, toEnd);
      forall c: char | Covers([c] + w, s, toEnd)
        ensures c == s[0]
      {
        CoversAfter([c], w, s, toEnd);
      }
    } else {
      forall c: char
        ensures !Covers([c] + w, s, toEnd)
      {
        CoversAfter([c], w, s, toEnd);
      }
    }
  }

  // Reading

  lemma ReadAnywhere(g: string)
    requires g != "" && g[0] != '*'
    ensures Tokens(g, true) == Tokens(g, false)
  {
  }

  lemma ReadStar(rest: string)
    requires rest == "" || rest[0] != '*'
    ensures Tokens("*" + rest, true) == [Segment] + Tokens(rest, false) == Tokens("*" + rest, false)
  {
    var g := "*" + rest;
    assert g[1..] == rest;
    assert !("**" <= g) && !("**/" <= g);
  }

  lemma ReadQuestion(rest: string)
    ensures Tokens("?" + rest, false) == [AnyOne] + Tokens(rest, false)
  {
    var g := "?" + rest;
    assert g[0] == '?' && g[1..] == rest;
    assert !("**" <= g) && !("**/" <= g);
  }

  lemma ReadStars(rest: string, atStart: bool)
    ensures Tokens("**/" + rest, atStart) == [if atStart then Lead else Deep] + Tokens(rest, false)
  {
    var g := "**/" + rest;
    assert g[3..] == rest && "**/" <= g;
  }

  /** The slash after two stars changes nothing. */
  lemma ReadBareStars(rest: string, atStart: bool)
    requires rest == "" || rest[0] != '/'
    ensures Tokens("**" + rest, atStart) == Tokens("**/" + rest, atStart)
  {
    ReadStars(rest, atStart);
    var g := "**" + rest;
    assert g[2..] == rest && "**" <= g;
    assert rest != "" ==> g[2] == rest[0];
    assert !("**/" <= g);
  }

  lemma ReadWord(w: string)
    requires Word(w)
    ensures Tokens(w, false) == Lits(w)
  {
    TokensOfWord(w, "");
    assert w + "" == w && Lits(w) + [] == Lits(w);
  }

  lemma EndOfTokens(ts: seq<Token>, t: Token, w: string)
    ensures OpenEnd(ts + ([t] + Lits(w))) <==> EndsOpen(w) || (w == "" && (t == Deep || t == Lit('/')))
  {
    var all := ts + ([t] + Lits(w));
    assert all[|all| - 1] == if w == "" then t else Lit(w[|w| - 1]);
  }

  lemma EndOfWord(w: string)
    ensures OpenEnd(Lits(w)) <==> EndsOpen(w)
  {
    if w != "" { assert Lits(w)[|w| - 1] == Lit(w[|w| - 1]); }
  }

  /** The glob has a wildcard and is not just two stars. */
  lemma IsWildcardGlob(glob: string, i: nat)
    requires i < |glob| && IsMeta(glob[i]) && (glob[0] != '*' || |glob| == 1 || glob[1] != '*')
    ensures glob != "" && HasMeta(glob) && TrimSlash(glob) != "**"
  {
    var trimmed := TrimSlash(glob);
    assert forall k :: 0 <= k < |trimmed| ==> trimmed[k] == glob[k];
    assert |trimmed| < 2 || trimmed[0] != '*' || trimmed[1] != '*';
  }

  // ----- Meaning

  ghost predicate MatchesSomewhere(ts: seq<Token>, path: string, toEnd: bool) {
    exists i :: 0 <= i <= |path| && Matches(ts, path[i..], toEnd)
  }

  ghost predicate MatchesAfterSlash(ts: seq<Token>, path: string, toEnd: bool) {
    exists i :: 0 <= i <= |path| && (i == 0 || path[i - 1] == '/') && Matches(ts, path[i..], toEnd)
  }

  /** Where a match of a glob with wildcards may start. */
  lemma WildcardStart(glob: string, ts: seq<Token>, path: string, toEnd: bool)
    requires glob != "" && HasMeta(glob) && TrimSlash(glob) != "**" && Tokens(glob, true) == ts && toEnd == !OpenEnd(ts)
    ensures ts != []
    ensures ts[0] == Lead ==> (GlobAccepts(glob, path) <==> MatchesAfterSlash(ts[1..], path, toEnd))
    ensures ts[0] != Lead && IsMeta(glob[0]) ==> (GlobAccepts(glob, path) <==> MatchesSomewhere(ts, path, toEnd))
    ensures ts[0] != Lead && !IsMeta(glob[0]) ==> (GlobAccepts(glob, path) <==> Matches(ts, path, toEnd))
  {
    LeadingToken(glob);
    hide Tokens, Matches, OpenEnd, TrimSlash, IsMeta;
  }

  /** A wildcard after a word the match has to start with. */
  lemma InsideAccepts(pre: string, t: Token, post: string, rest: string, path: string)
    requires Start(pre) && rest != "" && (rest[0] == '*' || rest[0] == '?') && Tokens(rest, false) == [t] + Lits(post)
    requires t == Segment || t == Deep || t == AnyOne
    ensures var toEnd := !(EndsOpen(post) || (post == "" && t == Deep));
            GlobAccepts(pre + rest, path) <==> pre <= path && Matches([t] + Lits(post), path[|pre|..], toEnd)
  {
    var glob := pre + rest;
    var ts := Lits(pre) + ([t] + Lits(post));
    assert glob[0] == pre[0] && glob[|pre|] == rest[0];
    IsWildcardGlob(glob, |pre|);
    ReadAnywhere(glob);
    TokensOfWord(pre, rest);
    EndOfTokens(Lits(pre), t, post);
    assert ts[0] == Lit(pre[0]);
    hide Tokens, OpenEnd, Matches, TrimSlash, GlobAccepts, Lits, HasMeta;
    WildcardStart(glob, ts, path, !OpenEnd(ts));
    LitsThen(pre, [t] + Lits(post), path, !OpenEnd(ts));
  }

  /** A star stands for anything without a slash. */
  lemma StarInside(pre: string, post: string, path: string)
    requires Start(pre) && Word(post)
    ensures RegexAccepts(GlobText(pre + ("*" + post)), path) <==>
              exists mid: string :: '/' !in mid && Covers(pre + (mid + post), path, !EndsOpen(post))
  {
    ReadStar(post);
    ReadWord(post);
    InsideAccepts(pre, Segment, post, "*" + post, path);
    TextAccepts(pre + ("*" + post), path);
    hide *;
    RunAfter(pre, Segment, post, path, !EndsOpen(post));
  }

  /** Two stars, with or without the slash after them, stand for anything. */
  lemma StarsInside(pre: string, post: string, path: string)
    requires Start(pre) && Word(post)
    ensures var accepted := exists mid: string :: Covers(pre + (mid + post), path, post != "" && !EndsOpen(post));
            && (RegexAccepts(GlobText(pre + ("**/" + post)), path) <==> accepted)
            && ((post == "" || post[0] != '/') ==> (RegexAccepts(GlobText(pre + ("**" + post)), path) <==> accepted))
  {
    ReadStars(post, false);
    ReadWord(post);
    InsideAccepts(pre, Deep, post, "**/" + post, path);
    TextAccepts(pre + ("**/" + post), path);
    if post == "" || post[0] != '/' {
      ReadBareStars(post, false);
      InsideAccepts(pre, Deep, post, "**" + post, path);
      TextAccepts(pre + ("**" + post), path);
    }
    var toEnd := !(EndsOpen(post) || post == "");
    hide *;
    RunAfter(pre, Deep, post, path, toEnd);
  }

  /** A question mark stands for one character. */
  lemma QuestionInside(pre: string, post: string, path: string)
    requires Start(pre) && Word(post)
    ensures RegexAccepts(GlobText(pre + ("?" + post)), path) <==>
              exists c: char :: Covers(pre + ([c] + post), path, !EndsOpen(post))
  {
    var toEnd := !EndsOpen(post);
    ReadQuestion(post);
    ReadWord(post);
    InsideAccepts(pre, AnyOne, post, "?" + post, path);
    TextAccepts(pre + ("?" + post), path);
    hide *;
    if pre <= path {
      OneThenWord(post, path[|pre|..], toEnd);
    }
    forall c: char
      ensures Covers(pre + ([c] + post), path, toEnd) <==> pre <= path && Covers([c] + post, path[|pre|..], toEnd)
    {
      CoversAfter(pre, [c] + post, path, toEnd);
    }
  }

  lemma RunAfter(pre: string, t: Token, post: string, path: string, toEnd: bool)
    requires t == Segment || t == Deep
    ensures pre <= path && Matches([t] + Lits(post), path[|pre|..], toEnd) <==>
              exists mid: string :: (t == Segment ==> '/' !in mid) && Covers(pre + (mid + post), path, toEnd)
  {
    hide Matches, Lits, Covers;
    if pre <= path {
      RunThenWord(t, post, path[|pre|..], toEnd);
    }
    forall mid: string
      ensures Covers(pre + (mid + post), path, toEnd) <==> pre <= path && Covers(mid + post, path[|pre|..], toEnd)
    {
      CoversAfter(pre, mid + post, path, toEnd);
    }
  }

  lemma WordSomewhere(w: string, path: string, toEnd: bool)
    ensures MatchesSomewhere(Lits(w), path, toEnd) <==> exists a: string :: Covers(a + w, path, toEnd)
  {
    hide Matches, Lits, Covers;
    if i :| 0 <= i <= |path| && Matches(Lits(w), path[i..], toEnd) {
      LitsCover(w, path[i..], toEnd);
      CoversAfter(path[..i], w, path, toEnd);
    }
    if a: string :| Covers(a + w, path, toEnd) {
      CoversAfter(a, w, path, toEnd);
      LitsCover(w, path[|a|..], toEnd);
    }
  }

  lemma RunSomewhere(post: string, path: string, toEnd: bool)
    ensures MatchesSomewhere([Segment] + Lits(post), path, toEnd) <==> exists a: string :: Covers(a + post, path, toEnd)
  {
    hide Matches, Lits, Covers;
    if i :| 0 <= i <= |path| && Matches([Segment] + Lits(post), path[i..], toEnd) {
      RunThenWord(Segment, post, path[i..], toEnd);
      var mid: string :| Covers(mid + post, path[i..], toEnd);
      CoversAfter(path[..i], mid + post, path, toEnd);
      assert path[..i] + (mid + post) == (path[..i] + mid) + post;
    }
    if a: string :| Covers(a + post, path, toEnd) {
      CoversAfter(a, post, path, toEnd);
      RunThenWord(Segment, post, path[|a|..], toEnd);
      assert "" + post == post;
    }
  }

  lemma WordAfterSlash(w: string, path: string, toEnd: bool)
    ensures MatchesAfterSlash(Lits(w), path, toEnd) <==> exists a: string :: (a == "" || a[|a| - 1] == '/') && Covers(a + w, path, toEnd)
  {
    hide Matches, Lits, Covers;
    if i :| 0 <= i <= |path| && (i == 0 || path[i - 1] == '/') && Matches(Lits(w), path[i..], toEnd) {
      LitsCover(w, path[i..], toEnd);
      CoversAfter(path[..i], w, path, toEnd);
    }
    if a: string :| (a == "" || a[|a| - 1] == '/') && Covers(a + w, path, toEnd) {
      CoversAfter(a, w, path, toEnd);
      LitsCover(w, path[|a|..], toEnd);
    }
  }

  /** A glob that starts with a star accepts every path that ends in the rest. */
  lemma StarFirst(post: string, path: string)
    requires Word(post)
    ensures RegexAccepts(GlobText("*" + post), path) <==> exists a: string :: Covers(a + post, path, !EndsOpen(post))
  {
    var glob := "*" + post;
    var ts := [Segment] + Lits(post);
    assert post != "" ==> glob[1] == post[0];
    assert glob[0] == '*' && IsMeta(glob[0]);
    IsWildcardGlob(glob, 0);
    ReadStar(post);
    ReadWord(post);
    EndOfTokens([], Segment, post);
    assert [] + ts == ts && ts[0] == Segment;
    hide Tokens, Lits, TrimSlash, HasMeta, OpenEnd, GlobAccepts, RegexAccepts, GlobText, IsMeta, EndsOpen, MatchesSomewhere, Covers;
    TextAccepts(glob, path);
    WildcardStart(glob, ts, path, !EndsOpen(post));
    RunSomewhere(post, path, !EndsOpen(post));
  }

  /** Two stars first accept the rest at the start of the path or after a slash. */
  lemma StarsFirst(post: string, path: string)
    requires Word(post) && post != ""
    ensures RegexAccepts(GlobText("**/" + post), path) <==>
              exists a: string :: (a == "" || a[|a| - 1] == '/') && Covers(a + post, path, !EndsOpen(post))
  {
    var glob := "**/" + post;
    var ts := [Lead] + Lits(post);
    ReadStars(post, true);
    ReadWord(post);
    EndOfTokens([], Lead, post);
    assert [] + ts == ts && ts[1..] == Lits(post) && ts[0] == Lead;
    assert |TrimSlash(glob)| > 2;
    assert glob[0] == '*' && IsMeta(glob[0]);
    hide Tokens, Lits, TrimSlash, OpenEnd, GlobAccepts, RegexAccepts, GlobText, IsMeta, EndsOpen, MatchesAfterSlash, Covers;
    TextAccepts(glob, path);
    WildcardStart(glob, ts, path, !EndsOpen(post));
    WordAfterSlash(post, path, !EndsOpen(post));
  }

  lemma BracketTokens(w: string, i: nat)
    requires Word(w) && i < |w| && (w[i] == '[' || w[i] == '{')
    ensures Tokens(w, true) == Lits(w) && Lits(w) != [] && Lits(w)[0] == Lit(w[0]) && (OpenEnd(Lits(w)) <==> EndsOpen(w))
    ensures HasMeta(w) && TrimSlash(w) != "**"
  {
    assert IsMeta(w[i]);
    IsWildcardGlob(w, i);
    ReadAnywhere(w);
    ReadWord(w);
    EndOfWord(w);
  }

  /** Brackets and braces are ordinary characters, but a glob that starts with one may match anywhere. */
  lemma BracketFirst(w: string, path: string)
    requires Word(w) && w != "" && (w[0] == '[' || w[0] == '{')
    ensures RegexAccepts(GlobText(w), path) <==> exists a: string :: Covers(a + w, path, !EndsOpen(w))
  {
    BracketTokens(w, 0);
    assert IsMeta(w[0]);
    hide Tokens, Lits, TrimSlash, HasMeta, OpenEnd, GlobAccepts, RegexAccepts, GlobText, IsMeta, EndsOpen, MatchesSomewhere, Covers;
    TextAccepts(w, path);
    WildcardStart(w, Lits(w), path, !EndsOpen(w));
    WordSomewhere(w, path, !EndsOpen(w));
  }

  /** A glob that has one further on accepts just the path it spells. */
  lemma BracketInside(w: string, path: string, i: nat)
    requires Start(w) && i < |w| && (w[i] == '[' || w[i] == '{')
    ensures RegexAccepts(GlobText(w), path) <==> Covers(w, path, !EndsOpen(w))
  {
    BracketTokens(w, i);
    assert !IsMeta(w[0]);
    hide Tokens, Lits, TrimSlash, HasMeta, OpenEnd, GlobAccepts, RegexAccepts, GlobText, IsMeta, EndsOpen, Covers, Matches;
    TextAccepts(w, path);
    WildcardStart(w, Lits(w), path, !EndsOpen(w));
    LitsCover(w, path, !EndsOpen(w));
  }

  /** A glob without any of these, with or without a slash at its end, accepts the paths below it. */
  lemma PlainGlob(w: string, path: string)
    requires Start(w) && '[' !in w && '{' !in w && !EndsOpen(w)
    ensures RegexAccepts(GlobText(w), path) <==> w + "/" <= path
    ensures RegexAccepts(GlobText(w + "/"), path) <==> w + "/" <= path
  {
    assert TrimSlash(w) == w == TrimSlash(w + "/") && w != "**";
    PlainAccepts(w, w, path);
    PlainAccepts(w + "/", w, path);
    hide RegexAccepts, GlobText, GlobAccepts, TrimSlash;
    TextAccepts(w, path);
    TextAccepts(w + "/", path);
  }

  lemma PlainAccepts(glob: string, w: string, path: string)
    requires glob != "" && TrimSlash(glob) == w != "**" && '*' !in glob && '?' !in glob && '[' !in glob && '{' !in glob
    ensures GlobAccepts(glob, path) <==> w + "/" <= path
  {
    assert forall i :: 0 <= i < |glob| ==> !IsMeta(glob[i]);
    hide Tokens, Matches, OpenEnd, TrimSlash, IsMeta;
  }
}
