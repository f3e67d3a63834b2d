/** String.replaceAll restricted to the regular expressions the translator uses.

    Three shapes occur:
      - a literal ("-R", "/a", "-t"): no metacharacters;
      - a literal with one optional last character ("-la?"), greedy;
      - a flag followed by \s+ and a captured (\d+) ("-c\\s+(\\d+)").
    Java scans from the left, replaces the leftmost match, resumes right after it
    and never re-examines replaced text; no pattern here matches the empty string.

    A replacement string is modelled as `before`, then capture group 1, then `after`:
    "-w $1000" is group 1 followed by "000", since the pattern has a single group.
    Patterns without a group have an empty group. */
module JavaRegex {
  import opened JavaLang

  datatype Pattern =
    | Literal(text: string)
    | OptionalLast(text: string, optional: char)
    | FlagNumber(flag: string)

  datatype Replacement = Replacement(before: string, after: string)

  /** A replacement string without any group reference. */
  function Fixed(t: string): Replacement {
    Replacement(t, "")
  }

  /** The literal text every match of the pattern begins with. */
  function Head(p: Pattern): string {
    match p
    case Literal(t) => t
    case OptionalLast(t, _) => t
    case FlagNumber(f) => f
  }

  predicate ValidPattern(p: Pattern) {
    Head(p) != []
  }

  /** The first character of every match. */
  function Lead(p: Pattern): char
    requires ValidPattern(p)
  {
    Head(p)[0]
  }

  // ---------------------------------------------------------------------
  // Character classes of java.util.regex (without UNICODE_CHARACTER_CLASS)

  datatype CharClass = Space | Digit

  /** \s is [ \t\n\x0B\f\r], that is the space and U+0009 to U+000D; \d is [0-9]. */
  predicate InClass(c: char, k: CharClass) {
    match k
    case Space => c == ' ' || '\t' <= c <= '\r'
    case Digit => '0' <= c <= '9'
  }

  /** Every character of s is in k. */
  predicate AllIn(s: string, k: CharClass) {
    forall i :: 0 <= i < |s| ==> InClass(s[i], k)
  }

  /** Where the greedy run of k that starts at position i of s ends. */
  function RunEnd(s: string, k: CharClass, i: nat): (j: nat)
    requires i <= |s|
    ensures i <= j <= |s|
    ensures j < |s| ==> !InClass(s[j], k)
    decreases |s| - i
  {
    if i < |s| && InClass(s[i], k) then RunEnd(s, k, i + 1) else i
  }

  /** A run ends at the first position, from i on, whose character is not in k. */
  lemma {:induction false} RunEndAt(s: string, k: CharClass, i: nat, j: nat)
    requires i <= j <= |s|
    requires forall p :: i <= p < j ==> InClass(s[p], k)
    requires j < |s| ==> !InClass(s[j], k)
    ensures RunEnd(s, k, i) == j
    decreases j - i
  {
    if i < j {
      RunEndAt(s, k, i + 1, j);
    }
  }

  datatype Match = Match(length: nat, group: string)

  /** The match of p that starts at the beginning of s, if any. */
  function MatchAt(s: string, p: Pattern): (m: Option<Match>)
    requires ValidPattern(p)
    ensures m.Some? ==> StartsWith(s, Head(p)) && |Head(p)| <= m.value.length <= |s|
    ensures m.Some? && !p.FlagNumber? ==> m.value.group == []
  {
    match p
    case Literal(t) => if StartsWith(s, t) then Some(Match(|t|, "")) else None
    case OptionalLast(t, c) => MatchOptionalLast(s, t, c)
    case FlagNumber(f) => MatchFlagNumber(s, f)
  }

  /** t, then c if it comes next (the ? quantifier is greedy). */
  function MatchOptionalLast(s: string, t: string, c: char): (m: Option<Match>)
    ensures m.Some? ==> StartsWith(s, t) && |t| <= m.value.length <= |s| && m.value.group == []
  {
    if !StartsWith(s, t) then None
    else if |t| < |s| && s[|t|] == c then Some(Match(|t| + 1, ""))
    else Some(Match(|t|, ""))
  }

  /** f, then \s+, then the group (\d+). Both runs are greedy, and no backtracking
      can help since no character is both a space and a digit. */
  function MatchFlagNumber(s: string, f: string): (m: Option<Match>)
    ensures m.Some? ==> StartsWith(s, f) && |f| < m.value.length <= |s|
  {
    if !StartsWith(s, f) then None
    else
      var spaces := RunEnd(s, Space, |f|);
      if spaces == |f| then None
      else
        var digits := RunEnd(s, Digit, spaces);
        if digits == spaces then None
        else Some(Match(digits, s[spaces..digits]))
  }

  function Expand(r: Replacement, group: string): string {
    r.before + group + r.after
  }

  /** s.replaceAll(p, r) */
  function ReplaceAll(s: string, p: Pattern, r: Replacement): string
    requires ValidPattern(p)
    decreases |s|
  {
    if s == [] then []
    else
      match MatchAt(s, p)
      case Some(m) => Expand(r, m.group) + ReplaceAll(s[m.length..], p, r)
      case None => [s[0]] + ReplaceAll(s[1..], p, r)
  }

  // ---------------------------------------------------------------------
  // Properties of ReplaceAll

  /** Text before which no match can start passes through unchanged. */
  lemma {:induction false} ReplaceAllPrefix(pre: string, s: string, p: Pattern, r: Replacement)
    requires ValidPattern(p)
    requires Lead(p) !in pre
    ensures ReplaceAll(pre + s, p, r) == pre + ReplaceAll(s, p, r)
  {
    if pre != [] {
      var t := pre + s;
      assert MatchAt(t, p).None? by {
        assert t[0] == pre[0] != Lead(p);
        assert !StartsWith(t, Head(p));
      }
      assert t[1..] == pre[1..] + s;
      assert ReplaceAll(t, p, r) == [t[0]] + ReplaceAll(t[1..], p, r);
      ReplaceAllPrefix(pre[1..], s, p, r);
    } else {
      assert pre + s == s;
    }
  }

  /** A string without the pattern's first character is left as it is. */
  lemma ReplaceAllWithoutLead(s: string, p: Pattern, r: Replacement)
    requires ValidPattern(p)
    requires Lead(p) !in s
    ensures ReplaceAll(s, p, r) == s
  {
    ReplaceAllPrefix(s, [], p, r);
    assert s + [] == s;
  }

  /** Replacing a literal by itself changes nothing (ping's "-t" -> "-t"). */
  lemma {:induction false} ReplaceAllSelf(s: string, t: string)
    requires t != []
    ensures ReplaceAll(s, Literal(t), Fixed(t)) == s
  {
    if s != [] {
      match MatchAt(s, Literal(t))
      case Some(m) =>
        ReplaceAllSelf(s[|t|..], t);
        assert s[..|t|] + s[|t|..] == s;
      case None =>
        ReplaceAllSelf(s[1..], t);
    }
  }

  /** The match of p that starts at position k of s. */
  function MatchFrom(s: string, p: Pattern, k: nat): Option<Match>
    requires ValidPattern(p) && k <= |s|
  {
    MatchAt(s[k..], p)
  }

  /** Every match of p in s is exactly the text `back`, without a group. */
  predicate MatchesAreExactly(s: string, p: Pattern, back: string)
    requires ValidPattern(p)
  {
    forall k: nat :: k < |s| && MatchFrom(s, p, k).Some? ==>
      MatchFrom(s, p, k).value == Match(|back|, []) && s[k..k + |back|] == back
  }

  lemma MatchesAreExactlySuffix(s: string, p: Pattern, back: string, n: nat)
    requires ValidPattern(p) && n <= |s|
    requires MatchesAreExactly(s, p, back)
    ensures MatchesAreExactly(s[n..], p, back)
  {
    forall k: nat | k < |s[n..]| && MatchFrom(s[n..], p, k).Some?
      ensures MatchFrom(s[n..], p, k).value == Match(|back|, []) && s[n..][k..k + |back|] == back
    {
      assert s[n..][k..] == s[n + k..];
      assert MatchFrom(s[n..], p, k) == MatchFrom(s, p, n + k);
    }
  }

  /** One step of the scan: a literal at the start of the input is replaced. */
  lemma ReplaceLiteralAtStart(q: string, x: string, r: Replacement)
    requires q != []
    ensures ReplaceAll(q + x, Literal(q), r) == Expand(r, []) + ReplaceAll(x, Literal(q), r)
  {
    assert StartsWith(q + x, q);
    assert (q + x)[|q|..] == x;
  }

  /** One step of the scan: a character other than the first of every match is kept. */
  lemma ReplaceAllKeepsChar(c: char, x: string, p: Pattern, r: Replacement)
    requires ValidPattern(p) && c != Lead(p)
    ensures ReplaceAll([c] + x, p, r) == [c] + ReplaceAll(x, p, r)
  {
    ReplaceAllPrefix([c], x, p, r);
  }

  /** The two passes over input that starts with a match. */
  lemma UndoneAtMatch(s: string, p: Pattern, q: string, back: string)
    requires ValidPattern(p) && q != [] && s != []
    requires MatchAt(s, p) == Some(Match(|back|, []))
    ensures ReplaceAll(ReplaceAll(s, p, Fixed(q)), Literal(q), Fixed(back))
         == back + ReplaceAll(ReplaceAll(s[|back|..], p, Fixed(q)), Literal(q), Fixed(back))
  {
    var x := ReplaceAll(s[|back|..], p, Fixed(q));
    assert Expand(Fixed(q), []) == q;
    assert ReplaceAll(s, p, Fixed(q)) == q + x;
    ReplaceLiteralAtStart(q, x, Fixed(back));
    assert Expand(Fixed(back), []) == back;
  }

  /** The two passes over input whose first character starts no match. */
  lemma UndoneAtOther(s: string, p: Pattern, q: string, back: string)
    requires ValidPattern(p) && q != [] && s != []
    requires MatchAt(s, p).None? && s[0] != q[0]
    ensures ReplaceAll(ReplaceAll(s, p, Fixed(q)), Literal(q), Fixed(back))
         == [s[0]] + ReplaceAll(ReplaceAll(s[1..], p, Fixed(q)), Literal(q), Fixed(back))
  {
    var x := ReplaceAll(s[1..], p, Fixed(q));
    assert ReplaceAll(s, p, Fixed(q)) == [s[0]] + x;
    ReplaceAllKeepsChar(s[0], x, Literal(q), Fixed(back));
  }

  /** Rewriting p to q and then q back to the text p matched restores the input,
      provided q's first character did not occur in it. */
  lemma {:induction false} ReplaceAllUndone(s: string, p: Pattern, q: string, back: string)
    requires ValidPattern(p) && q != []
    requires q[0] !in s
    requires MatchesAreExactly(s, p, back)
    ensures ReplaceAll(ReplaceAll(s, p, Fixed(q)), Literal(q), Fixed(back)) == s
    decreases |s|
  {
    if s != [] {
      var twice := ReplaceAll(ReplaceAll(s, p, Fixed(q)), Literal(q), Fixed(back));
      if MatchAt(s, p).Some? {
        assert MatchAt(s, p) == Some(Match(|back|, [])) && |back| <= |s| && s[..|back|] == back by {
          assert s[0..] == s;
          assert MatchFrom(s, p, 0) == MatchAt(s, p);
        }
        var tail := s[|back|..];
        assert twice == back + ReplaceAll(ReplaceAll(tail, p, Fixed(q)), Literal(q), Fixed(back)) by {
          UndoneAtMatch(s, p, q, back);
        }
        assert MatchesAreExactly(tail, p, back) by {
          MatchesAreExactlySuffix(s, p, back, |back|);
        }
        ReplaceAllUndone(tail, p, q, back);
        SplitAt(s, |back|);
      } else {
        var tail := s[1..];
        assert twice == [s[0]] + ReplaceAll(ReplaceAll(tail, p, Fixed(q)), Literal(q), Fixed(back)) by {
          UndoneAtOther(s, p, q, back);
        }
        assert MatchesAreExactly(tail, p, back) by {
          MatchesAreExactlySuffix(s, p, back, 1);
        }
        ReplaceAllUndone(tail, p, q, back);
        SplitAt(s, 1);
      }
    }
  }

  lemma SplitAt(s: string, n: nat)
    requires n <= |s|
    ensures s[..n] + s[n..] == s
  {
  }

  /** Every match of a literal is the literal itself. */
  lemma LiteralMatchesAreExactly(s: string, t: string)
    requires t != []
    ensures MatchesAreExactly(s, Literal(t), t)
  {
    forall k: nat | k < |s| && MatchFrom(s, Literal(t), k).Some?
      ensures MatchFrom(s, Literal(t), k).value == Match(|t|, []) && s[k..k + |t|] == t
    {
      assert s[k..][..|t|] == s[k..k + |t|];
    }
  }

  /** Replacing literal t by q and then q by t restores the input, provided q's
      first character did not occur in it. */
  lemma LiteralRoundTrip(s: string, t: string, q: string)
    requires t != [] && q != [] && q[0] !in s
    ensures ReplaceAll(ReplaceAll(s, Literal(t), Fixed(q)), Literal(q), Fixed(t)) == s
  {
    LiteralMatchesAreExactly(s, t);
    ReplaceAllUndone(s, Literal(t), q, t);
  }

  /** Every occurrence of the pattern's first character starts a match. */
  predicate LeadAlwaysMatches(s: string, p: Pattern)
    requires ValidPattern(p)
  {
    forall k :: 0 <= k < |s| && s[k] == Lead(p) ==> MatchAt(s[k..], p).Some?
  }

  /** If every occurrence of the first character starts a match, and neither the
      replacement nor (for a pattern without a group) the group contains that
      character, the result no longer contains it. */
  lemma {:induction false} ReplaceAllClearsLead(s: string, p: Pattern, r: Replacement)
    requires ValidPattern(p) && !p.FlagNumber?
    requires Lead(p) !in r.before && Lead(p) !in r.after
    requires LeadAlwaysMatches(s, p)
    ensures Lead(p) !in ReplaceAll(s, p, r)
    decreases |s|
  {
    if s != [] {
      assert s[0..] == s;
      var n := match MatchAt(s, p) case Some(m) => m.length case None => 1;
      forall k | 0 <= k < |s[n..]| && s[n..][k] == Lead(p) ensures MatchAt(s[n..][k..], p).Some? {
        assert s[n..][k..] == s[n + k..];
      }
      ReplaceAllClearsLead(s[n..], p, r);
    }
  }

  /** The match of "flag", whitespace, digits at the start of the input: the
      whole digit run is captured when what follows is not a digit. */
  lemma FlagNumberMatch(f: string, ws: string, d: string, rest: string)
    requires f != []
    requires ws != [] && AllIn(ws, Space)
    requires d != [] && AllIn(d, Digit)
    requires rest == [] || !InClass(rest[0], Digit)
    ensures MatchAt(f + ws + d + rest, FlagNumber(f)) == Some(Match(|f| + |ws| + |d|, d))
  {
    var s := f + ws + d + rest;
    var spaces, digits := |f| + |ws|, |f| + |ws| + |d|;
    assert s[..|f|] == f;
    assert s[spaces..digits] == d;
    assert RunEnd(s, Space, |f|) == spaces by {
      assert forall p :: |f| <= p < spaces ==> s[p] == ws[p - |f|];
      RunEndAt(s, Space, |f|, spaces);
    }
    assert RunEnd(s, Digit, spaces) == digits by {
      assert forall p :: spaces <= p < digits ==> s[p] == d[p - spaces];
      RunEndAt(s, Digit, spaces, digits);
    }
  }

  /** One step of the scan: a match at the start of the input is expanded. */
  lemma ReplaceAllAtMatch(s: string, p: Pattern, r: Replacement, m: Match)
    requires ValidPattern(p) && s != []
    requires MatchAt(s, p) == Some(m)
    ensures m.length <= |s|
    ensures ReplaceAll(s, p, r) == Expand(r, m.group) + ReplaceAll(s[m.length..], p, r)
  {
  }

  /** "flag  123" at the start of the input becomes before + "123" + after. */
  lemma FlagNumberStep(f: string, ws: string, d: string, rest: string, r: Replacement)
    requires f != []
    requires ws != [] && AllIn(ws, Space)
    requires d != [] && AllIn(d, Digit)
    requires rest == [] || !InClass(rest[0], Digit)
    ensures ReplaceAll(f + ws + d + rest, FlagNumber(f), r)
         == r.before + d + r.after + ReplaceAll(rest, FlagNumber(f), r)
  {
    var s := f + ws + d + rest;
    var m := Match(|f| + |ws| + |d|, d);
    FlagNumberMatch(f, ws, d, rest);
    ReplaceAllAtMatch(s, FlagNumber(f), r, m);
    assert s[m.length..] == rest;
  }

  /** "flag  123" is rewritten to before + "123" + after, where the digit run
      ends the input or is followed by a non-digit, and nothing before it can
      start a match. */
  lemma FlagNumberRewrite(pre: string, f: string, ws: string, d: string, rest: string, r: Replacement)
    requires f != [] && f[0] !in pre
    requires ws != [] && AllIn(ws, Space)
    requires d != [] && AllIn(d, Digit)
    requires rest == [] || !InClass(rest[0], Digit)
    ensures ReplaceAll(pre + (f + ws + d + rest), FlagNumber(f), r)
         == pre + (r.before + d + r.after + ReplaceAll(rest, FlagNumber(f), r))
  {
    ReplaceAllPrefix(pre, f + ws + d + rest, FlagNumber(f), r);
    FlagNumberStep(f, ws, d, rest, r);
  }

  /** A string whose first character starts no match, and whose other characters
      and prefix avoid the pattern's first character, is left as it is. */
  lemma ReplaceAllSkipsOne(pre: string, post: string, p: Pattern, r: Replacement)
    requires ValidPattern(p) && post != []
    requires Lead(p) !in pre && Lead(p) !in post[1..]
    requires MatchAt(post, p).None?
    ensures ReplaceAll(pre + post, p, r) == pre + post
  {
    ReplaceAllPrefix(pre, post, p, r);
    ReplaceAllWithoutLead(post[1..], p, r);
    assert [post[0]] + post[1..] == post;
  }

  // ---------------------------------------------------------------------
  // Chains of literal flag swaps

  /** One literal pass of a chain: every `from` becomes `to`. */
  datatype Swap = Swap(from: string, to: string)

  /** Two-character flags that share their first character `lead`, whose
      replacements never reintroduce it. */
  predicate FlagSwaps(swaps: seq<Swap>, lead: char) {
    forall i :: 0 <= i < |swaps| ==>
      |swaps[i].from| == 2 && swaps[i].from[0] == lead && swaps[i].from[1] != lead && lead !in swaps[i].to
  }

  /** The replaceAll calls of a chain, applied in order. */
  function Passes(s: string, swaps: seq<Swap>): string
    requires forall i :: 0 <= i < |swaps| ==> swaps[i].from != []
    decreases |swaps|
  {
    if swaps == [] then s
    else Passes(ReplaceAll(s, Literal(swaps[0].from), Fixed(swaps[0].to)), swaps[1..])
  }

  /** A literal t in text that has t's first character nowhere else is replaced. */
  lemma LiteralPassRewrites(pre: string, t: string, q: string, rest: string)
    requires t != [] && t[0] !in pre && t[0] !in rest
    ensures ReplaceAll(pre + (t + rest), Literal(t), Fixed(q)) == pre + (q + rest)
  {
    ReplaceAllPrefix(pre, t + rest, Literal(t), Fixed(q));
    ReplaceLiteralAtStart(t, rest, Fixed(q));
    ReplaceAllWithoutLead(rest, Literal(t), Fixed(q));
    assert Expand(Fixed(q), []) == q;
  }

  /** A two-character flag u is passed over by the pass for another flag t with
      the same first character. */
  lemma LiteralPassSkips(pre: string, t: string, u: string, rest: string, q: string)
    requires |t| == 2 && |u| == 2 && u[0] == t[0] && u[1] != t[1] && u[1] != t[0]
    requires t[0] !in pre && t[0] !in rest
    ensures ReplaceAll(pre + (u + rest), Literal(t), Fixed(q)) == pre + (u + rest)
  {
    var post := u + rest;
    assert post[1..] == [u[1]] + rest;
    assert !StartsWith(post, t) by { assert post[..2][1] == u[1]; }
    ReplaceAllSkipsOne(pre, post, Literal(t), Fixed(q));
  }

  /** A chain leaves text without the lead character as it is. */
  lemma {:induction false} PassesWithoutLead(s: string, swaps: seq<Swap>, lead: char)
    requires FlagSwaps(swaps, lead) && lead !in s
    ensures Passes(s, swaps) == s
    decreases |swaps|
  {
    if swaps != [] {
      ReplaceAllWithoutLead(s, Literal(swaps[0].from), Fixed(swaps[0].to));
      PassesWithoutLead(s, swaps[1..], lead);
    }
  }

  /** In text whose only lead character starts the flag of pass k, the chain
      replaces that flag by pass k's replacement and changes nothing else,
      provided no earlier pass is for the same flag. */
  lemma {:induction false} PassesRewriteOne(pre: string, rest: string, swaps: seq<Swap>, lead: char, k: nat)
    requires FlagSwaps(swaps, lead) && lead !in pre && lead !in rest && k < |swaps|
    requires forall i :: 0 <= i < k ==> swaps[i].from[1] != swaps[k].from[1]
    ensures Passes(pre + (swaps[k].from + rest), swaps) == pre + (swaps[k].to + rest)
    decreases k
  {
    var u := swaps[k].from;
    if k == 0 {
      LiteralPassRewrites(pre, u, swaps[0].to, rest);
      var out := pre + (swaps[0].to + rest);
      assert lead !in out;
      PassesWithoutLead(out, swaps[1..], lead);
    } else {
      LiteralPassSkips(pre, swaps[0].from, u, rest, swaps[0].to);
      assert swaps[1..][k - 1] == swaps[k];
      PassesRewriteOne(pre, rest, swaps[1..], lead, k - 1);
    }
  }
}
