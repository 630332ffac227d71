/** Literal text search through SQL LIKE and ILIKE patterns. */
module LikeEscape {
  import opened Text

  /** `escapeLike`: a single-pass replacement, so escapes are not escaped again. */
  function EscapeLike(q: string): string {
    if q == "" then ""
    else (if q[0] == '\\' || q[0] == '%' || q[0] == '_' then ['\\', q[0]] else [q[0]]) + EscapeLike(q[1..])
  }

  predicate IsCut(s: string, k: nat) {
    k <= |s|
  }

  /** The LIKE predicate of section 8.5 of ISO/IEC 9075:1992 with escape character backslash.
      Literal characters are compared with `same`: equality for LIKE, equality up to case for ILIKE. */
  ghost predicate Like(s: string, pattern: string, same: (char, char) -> bool)
    decreases |pattern|
  {
    if pattern == "" then s == ""
    else if pattern[0] == '%' then exists k: nat :: IsCut(s, k) && Like(s[k..], pattern[1..], same)
    else if pattern[0] == '_' then s != "" && Like(s[1..], pattern[1..], same)
    else if pattern[0] == '\\' then |pattern| > 1 && s != "" && same(s[0], pattern[1]) && Like(s[1..], pattern[2..], same)
    else s != "" && same(s[0], pattern[0]) && Like(s[1..], pattern[1..], same)
  }

  /** `q` occurs in `c` at `i`, character by character. */
  ghost predicate OccursAt(q: string, c: string, i: nat, same: (char, char) -> bool) {
    i + |q| <= |c| && forall k :: 0 <= k < |q| ==> same(c[i + k], q[k])
  }

  lemma LikePercent(s: string, same: (char, char) -> bool)
    ensures Like(s, "%", same)
  {
    assert "%"[1..] == "";
    assert IsCut(s, |s|) && s[|s|..] == "";
    assert Like(s[|s|..], "%"[1..], same);
  }

  lemma {:induction false} LikeEscaped(q: string, s: string, same: (char, char) -> bool)
    ensures Like(s, EscapeLike(q) + "%", same) <==> OccursAt(q, s, 0, same)
    decreases |q|
  {
    var pattern := EscapeLike(q) + "%";
    if q == "" {
      assert pattern == "%";
      LikePercent(s, same);
    } else {
      var rest := EscapeLike(q[1..]) + "%";
      if q[0] == '\\' || q[0] == '%' || q[0] == '_' {
        assert pattern[0] == '\\' && pattern[1] == q[0] && pattern[2..] == rest;
      } else {
        assert pattern[0] == q[0] && pattern[1..] == rest;
      }
      if s != "" {
        LikeEscaped(q[1..], s[1..], same);
        OccursStep(q, s, same);
      }
    }
  }

  lemma OccursStep(q: string, s: string, same: (char, char) -> bool)
    requires q != "" && s != ""
    ensures OccursAt(q, s, 0, same) <==> same(s[0], q[0]) && OccursAt(q[1..], s[1..], 0, same)
  {
    if same(s[0], q[0]) && OccursAt(q[1..], s[1..], 0, same) {
      forall k | 0 <= k < |q|
        ensures same(s[0 + k], q[k])
      {
        if k > 0 { assert same(s[1..][0 + (k - 1)], q[1..][k - 1]); }
      }
    }
    if OccursAt(q, s, 0, same) {
      assert same(s[0 + 0], q[0]);
      forall k | 0 <= k < |q[1..]|
        ensures same(s[1..][0 + k], q[1..][k])
      {
        assert same(s[0 + (k + 1)], q[k + 1]);
      }
    }
  }

  /** What the wildcards of the pattern language do, and what the escape character takes from them. */
  lemma LikeWildcards(s: string, c: char, same: (char, char) -> bool)
    ensures Like(s, "_", same) <==> |s| == 1
    ensures Like(s, "%", same)
    ensures c == '%' || c == '_' || c == '\\' ==> (Like(s, ['\\', c], same) <==> |s| == 1 && same(s[0], c))
    ensures c != '%' && c != '_' && c != '\\' ==> (Like(s, [c], same) <==> |s| == 1 && same(s[0], c))
    ensures !Like(s, "\\", same)
  {
    LikePercent(s, same);
    assert "_"[1..] == "" && ['\\', c][2..] == "" && [c][1..] == "";
    if |s| == 1 { assert s[1..] == ""; }
  }

  /** The search pattern matches a content exactly when the query occurs in it, whatever
      wildcards and backslashes the query contains. */
  lemma SearchIsSubstring(q: string, c: string, same: (char, char) -> bool)
    ensures Like(c, "%" + EscapeLike(q) + "%", same) <==> exists i: nat :: OccursAt(q, c, i, same)
  {
    var tail := EscapeLike(q) + "%";
    var pattern := "%" + EscapeLike(q) + "%";
    assert pattern[0] == '%' && pattern[1..] == tail;
    if Like(c, pattern, same) {
      var k: nat :| IsCut(c, k) && Like(c[k..], pattern[1..], same);
      LikeEscaped(q, c[k..], same);
      OccursShift(q, c, k, same);
    }
    if i: nat :| OccursAt(q, c, i, same) {
      OccursShift(q, c, i, same);
      LikeEscaped(q, c[i..], same);
      assert IsCut(c, i) && Like(c[i..], pattern[1..], same);
    }
  }

  lemma OccursShift(q: string, c: string, i: nat, same: (char, char) -> bool)
    requires i <= |c|
    ensures OccursAt(q, c, i, same) <==> OccursAt(q, c[i..], 0, same)
  {
    var d := c[i..];
    if OccursAt(q, c, i, same) {
      forall k | 0 <= k < |q|
        ensures same(d[0 + k], q[k])
      {
        assert same(c[i + k], q[k]) && d[k] == c[i + k];
      }
    }
    if OccursAt(q, d, 0, same) {
      forall k | 0 <= k < |q|
        ensures same(c[i + k], q[k])
      {
        assert same(d[0 + k], q[k]) && d[k] == c[i + k];
      }
    }
  }

  predicate Equal(a: char, b: char) {
    a == b
  }

  predicate SubstringAt(q: string, c: string, i: nat) {
    i + |q| <= |c| && c[i..i + |q|] == q
  }

  /** For LIKE this is the substring relation itself. */
  lemma SensitiveSearch(q: string, c: string)
    ensures Like(c, "%" + EscapeLike(q) + "%", Equal) <==> exists i: nat :: SubstringAt(q, c, i)
  {
    hide Like, EscapeLike;
    SearchIsSubstring(q, c, Equal);
    forall i: nat
      ensures OccursAt(q, c, i, Equal) <==> SubstringAt(q, c, i)
    {
      OccursIsSubstring(q, c, i);
    }
  }

  lemma OccursIsSubstring(q: string, c: string, i: nat)
    ensures OccursAt(q, c, i, Equal) <==> SubstringAt(q, c, i)
  {
    if SubstringAt(q, c, i) {
      forall k | 0 <= k < |q|
        ensures Equal(c[i + k], q[k])
      {
        assert c[i..i + |q|][k] == c[i + k];
      }
    }
    if OccursAt(q, c, i, Equal) {
      forall k | 0 <= k < |q|
        ensures c[i..i + |q|][k] == q[k]
      {
        assert Equal(c[i + k], q[k]);
      }
    }
  }
}
