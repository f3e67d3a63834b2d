/** What the translator does to the arguments of each family, and how the two
    directions relate. */
module TranslatorProperties {
  import opened JavaLang
  import opened JavaRegex
  import opened HostPlatform
  import opened CommandTranslator
  import opened CommandEquivalences

  // ---------------------------------------------------------------------
  // ping

  /** A number written after a flag: one or more whitespace characters, then
      digits that run to the end of the text or up to a non-digit. */
  predicate NumberAfterFlag(ws: string, d: string, rest: string) {
    ws != [] && AllIn(ws, Space) && d != [] && AllIn(d, Digit) && (rest == [] || !InClass(rest[0], Digit))
  }

  /** A flag-number pass leaves alone text whose only '-' starts a different flag. */
  lemma FlagPassesOver(pre: string, post: string, f: string, r: Replacement)
    requires |f| == 2 && f[0] == '-' && '-' !in pre
    requires |post| >= 2 && post[0] == '-' && post[1] != f[1] && '-' !in post[1..]
    ensures FlagPass(pre + post, f, r) == pre + post
  {
    assert !StartsWith(post, f) by { assert post[..2][1] == post[1]; }
    ReplaceAllSkipsOne(pre, post, FlagNumber(f), r);
  }

  /** A flag-number pass rewrites the one flag in text where no other '-' occurs. */
  lemma FlagPassRewrites(pre: string, f: string, ws: string, d: string, rest: string, r: Replacement)
    requires |f| == 2 && f[0] == '-' && '-' !in pre && '-' !in rest
    requires NumberAfterFlag(ws, d, rest)
    ensures FlagPass(pre + (f + ws + d + rest), f, r) == pre + (r.before + (d + r.after) + rest)
  {
    FlagNumberRewrite(pre, f, ws, d, rest, r);
    ReplaceAllWithoutLead(rest, FlagNumber(f), r);
    assert r.before + d + r.after + rest == r.before + (d + r.after) + rest;
  }

  lemma NoDashInNumber(ws: string, d: string)
    requires AllIn(ws, Space) && AllIn(d, Digit)
    ensures '-' !in ws && '-' !in d
  {
  }

  /** Toward Windows, "-c N" becomes "-n N". */
  lemma PingCountToWindows(pre: string, ws: string, d: string, rest: string)
    requires '-' !in pre && '-' !in rest && NumberAfterFlag(ws, d, rest)
    ensures PingToWindows(pre + ("-c" + ws + d + rest)) == pre + ("-n " + d + rest)
  {
    NoDashInNumber(ws, d);
    var out := "-n " + d + rest;
    assert FlagPass(pre + ("-c" + ws + d + rest), "-c", Replacement("-n ", "")) == pre + out by {
      FlagPassRewrites(pre, "-c", ws, d, rest, Replacement("-n ", ""));
      assert "-n " + (d + "") + rest == out;
    }
    assert out[1..] == "n " + d + rest;
    assert FlagPass(pre + out, "-i", Replacement("-w ", "000")) == pre + out by {
      FlagPassesOver(pre, out, "-i", Replacement("-w ", "000"));
    }
    assert FlagPass(pre + out, "-s", Replacement("-l ", "")) == pre + out by {
      FlagPassesOver(pre, out, "-s", Replacement("-l ", ""));
    }
  }

  /** Toward Windows, "-i N" (seconds) becomes "-w N000" (milliseconds). */
  lemma PingIntervalToWindows(pre: string, ws: string, d: string, rest: string)
    requires '-' !in pre && '-' !in rest && NumberAfterFlag(ws, d, rest)
    ensures PingToWindows(pre + ("-i" + ws + d + rest)) == pre + ("-w " + (d + "000") + rest)
  {
    NoDashInNumber(ws, d);
    var input := "-i" + ws + d + rest;
    var out := "-w " + (d + "000") + rest;
    assert input[1..] == "i" + ws + d + rest;
    assert FlagPass(pre + input, "-c", Replacement("-n ", "")) == pre + input by {
      FlagPassesOver(pre, input, "-c", Replacement("-n ", ""));
    }
    assert FlagPass(pre + input, "-i", Replacement("-w ", "000")) == pre + out by {
      FlagPassRewrites(pre, "-i", ws, d, rest, Replacement("-w ", "000"));
    }
    assert out[1..] == "w " + (d + "000") + rest;
    assert FlagPass(pre + out, "-s", Replacement("-l ", "")) == pre + out by {
      FlagPassesOver(pre, out, "-s", Replacement("-l ", ""));
    }
  }

  /** Toward Windows, "-s N" becomes "-l N". */
  lemma PingSizeToWindows(pre: string, ws: string, d: string, rest: string)
    requires '-' !in pre && '-' !in rest && NumberAfterFlag(ws, d, rest)
    ensures PingToWindows(pre + ("-s" + ws + d + rest)) == pre + ("-l " + d + rest)
  {
    NoDashInNumber(ws, d);
    var input := "-s" + ws + d + rest;
    assert input[1..] == "s" + ws + d + rest;
    assert FlagPass(pre + input, "-c", Replacement("-n ", "")) == pre + input by {
      FlagPassesOver(pre, input, "-c", Replacement("-n ", ""));
    }
    assert FlagPass(pre + input, "-i", Replacement("-w ", "000")) == pre + input by {
      FlagPassesOver(pre, input, "-i", Replacement("-w ", "000"));
    }
    assert FlagPass(pre + input, "-s", Replacement("-l ", "")) == pre + ("-l " + d + rest) by {
      FlagPassRewrites(pre, "-s", ws, d, rest, Replacement("-l ", ""));
      assert "-l " + (d + "") + rest == "-l " + d + rest;
    }
  }

  /** The last pass toward Unix replaces "-t" by itself. */
  lemma ContinuousKept(a: string)
    ensures ReplaceAll(a, Literal("-t"), Fixed("-t")) == a
  {
    ReplaceAllSelf(a, "-t");
  }

  /** Toward Unix, "-n N" becomes "-c N". */
  lemma PingCountToUnix(pre: string, ws: string, d: string, rest: string)
    requires '-' !in pre && '-' !in rest && NumberAfterFlag(ws, d, rest)
    ensures PingToUnix(pre + ("-n" + ws + d + rest)) == pre + ("-c " + d + rest)
  {
    NoDashInNumber(ws, d);
    var out := "-c " + d + rest;
    assert FlagPass(pre + ("-n" + ws + d + rest), "-n", Replacement("-c ", "")) == pre + out by {
      FlagPassRewrites(pre, "-n", ws, d, rest, Replacement("-c ", ""));
      assert "-c " + (d + "") + rest == out;
    }
    assert out[1..] == "c " + d + rest;
    assert FlagPass(pre + out, "-w", Replacement("-W ", "")) == pre + out by {
      FlagPassesOver(pre, out, "-w", Replacement("-W ", ""));
    }
    assert FlagPass(pre + out, "-l", Replacement("-s ", "")) == pre + out by {
      FlagPassesOver(pre, out, "-l", Replacement("-s ", ""));
    }
    ContinuousKept(pre + out);
  }

  /** Toward Unix, "-w N" becomes "-W N": the number is not divided by 1000. */
  lemma PingTimeoutToUnix(pre: string, ws: string, d: string, rest: string)
    requires '-' !in pre && '-' !in rest && NumberAfterFlag(ws, d, rest)
    ensures PingToUnix(pre + ("-w" + ws + d + rest)) == pre + ("-W " + d + rest)
  {
    NoDashInNumber(ws, d);
    var input := "-w" + ws + d + rest;
    var out := "-W " + d + rest;
    assert input[1..] == "w" + ws + d + rest;
    assert FlagPass(pre + input, "-n", Replacement("-c ", "")) == pre + input by {
      FlagPassesOver(pre, input, "-n", Replacement("-c ", ""));
    }
    assert FlagPass(pre + input, "-w", Replacement("-W ", "")) == pre + out by {
      FlagPassRewrites(pre, "-w", ws, d, rest, Replacement("-W ", ""));
      assert "-W " + (d + "") + rest == out;
    }
    assert out[1..] == "W " + d + rest;
    assert FlagPass(pre + out, "-l", Replacement("-s ", "")) == pre + out by {
      FlagPassesOver(pre, out, "-l", Replacement("-s ", ""));
    }
    ContinuousKept(pre + out);
  }

  /** Toward Unix, "-l N" becomes "-s N". */
  lemma PingSizeToUnix(pre: string, ws: string, d: string, rest: string)
    requires '-' !in pre && '-' !in rest && NumberAfterFlag(ws, d, rest)
    ensures PingToUnix(pre + ("-l" + ws + d + rest)) == pre + ("-s " + d + rest)
  {
    NoDashInNumber(ws, d);
    var input := "-l" + ws + d + rest;
    var out := "-s " + d + rest;
    assert input[1..] == "l" + ws + d + rest;
    assert FlagPass(pre + input, "-n", Replacement("-c ", "")) == pre + input by {
      FlagPassesOver(pre, input, "-n", Replacement("-c ", ""));
    }
    assert FlagPass(pre + input, "-w", Replacement("-W ", "")) == pre + input by {
      FlagPassesOver(pre, input, "-w", Replacement("-W ", ""));
    }
    assert FlagPass(pre + input, "-l", Replacement("-s ", "")) == pre + out by {
      FlagPassRewrites(pre, "-l", ws, d, rest, Replacement("-s ", ""));
      assert "-s " + (d + "") + rest == out;
    }
    ContinuousKept(pre + out);
  }

  /** Arguments without any '-' pass through ping in both directions. */
  lemma PingWithoutFlags(a: string)
    requires '-' !in a
    ensures PingToWindows(a) == a && PingToUnix(a) == a
  {
    ReplaceAllWithoutLead(a, FlagNumber("-c"), Replacement("-n ", ""));
    ReplaceAllWithoutLead(a, FlagNumber("-i"), Replacement("-w ", "000"));
    ReplaceAllWithoutLead(a, FlagNumber("-s"), Replacement("-l ", ""));
    ReplaceAllWithoutLead(a, FlagNumber("-n"), Replacement("-c ", ""));
    ReplaceAllWithoutLead(a, FlagNumber("-w"), Replacement("-W ", ""));
    ReplaceAllWithoutLead(a, FlagNumber("-l"), Replacement("-s ", ""));
    ContinuousKept(a);
  }

  /** A count survives the trip to Windows and back, its whitespace normalised
      to one space. */
  lemma PingCountRoundTrip(pre: string, ws: string, d: string, rest: string)
    requires '-' !in pre && '-' !in rest && NumberAfterFlag(ws, d, rest)
    ensures PingToUnix(PingToWindows(pre + ("-c" + ws + d + rest))) == pre + ("-c " + d + rest)
  {
    var w := pre + ("-n" + " " + d + rest);
    assert PingToWindows(pre + ("-c" + ws + d + rest)) == w by {
      PingCountToWindows(pre, ws, d, rest);
      assert "-n " + d + rest == "-n" + " " + d + rest;
    }
    assert PingToUnix(w) == pre + ("-c " + d + rest) by {
      assert AllIn(" ", Space);
      PingCountToUnix(pre, " ", d, rest);
    }
  }

  /** The Windows form of a timeout, "-w N" with one space, read back toward Unix. */
  lemma OneSpaceTimeoutToUnix(pre: string, d: string, rest: string)
    requires '-' !in pre && '-' !in rest && NumberAfterFlag(" ", d, rest)
    ensures PingToUnix(pre + ("-w " + d + rest)) == pre + ("-W " + d + rest)
  {
    assert "-w " + d + rest == "-w" + " " + d + rest;
    PingTimeoutToUnix(pre, " ", d, rest);
  }

  /** An interval sent to Windows and back comes back as "-W N000": a different
      flag, with a thousand times the number. */
  lemma PingIntervalRoundTrip(pre: string, ws: string, d: string, rest: string)
    requires '-' !in pre && '-' !in rest && NumberAfterFlag(ws, d, rest)
    ensures PingToUnix(PingToWindows(pre + ("-i" + ws + d + rest))) == pre + ("-W " + (d + "000") + rest)
  {
    PingIntervalToWindows(pre, ws, d, rest);
    assert AllIn(d + "000", Digit);
    OneSpaceTimeoutToUnix(pre, d + "000", rest);
  }

  /** So an interval does not survive the trip to Windows and back. */
  lemma PingIntervalNotRestored(pre: string, ws: string, d: string, rest: string)
    requires '-' !in pre && '-' !in rest && NumberAfterFlag(ws, d, rest)
    ensures PingToUnix(PingToWindows(pre + ("-i" + ws + d + rest))) != pre + ("-i" + ws + d + rest)
  {
    PingIntervalRoundTrip(pre, ws, d, rest);
    assert pre + ("-W " + (d + "000") + rest) != pre + ("-i" + ws + d + rest) by {
      assert (pre + ("-W " + (d + "000") + rest))[|pre| + 1] == 'W';
      assert (pre + ("-i" + ws + d + rest))[|pre| + 1] == 'i';
    }
  }

  // ---------------------------------------------------------------------
  // ls / dir

  /** Every '-' in s begins "-la". */
  predicate DashesStartLongListing(s: string) {
    forall k :: 0 <= k < |s| && s[k] == '-' ==> k + 3 <= |s| && s[k..k + 3] == "-la"
  }

  /** With only "-la" flags, the trip toward Windows is the single "-la?" pass,
      and it leaves no '-' behind. */
  lemma LongListingToWindows(s: string)
    requires DashesStartLongListing(s)
    ensures ListToWindows(s) == ReplaceAll(s, OptionalLast("-l", 'a'), Fixed("/a"))
    ensures '-' !in ListToWindows(s)
  {
    var p := OptionalLast("-l", 'a');
    var a1 := ReplaceAll(s, p, Fixed("/a"));
    assert LeadAlwaysMatches(s, p) by {
      forall k | 0 <= k < |s| && s[k] == Lead(p)
        ensures MatchAt(s[k..], p).Some?
      {
        assert s[k..][..2] == s[k..k + 3][..2];
      }
    }
    ReplaceAllClearsLead(s, p, Fixed("/a"));
    ReplaceAllWithoutLead(a1, Literal("-R"), Fixed("/s"));
    ReplaceAllWithoutLead(a1, Literal("-h"), Fixed(""));
  }

  /** Every match of "-la?" in such text is the three characters "-la". */
  lemma LongListingMatches(s: string)
    requires DashesStartLongListing(s)
    ensures MatchesAreExactly(s, OptionalLast("-l", 'a'), "-la")
  {
    var p := OptionalLast("-l", 'a');
    forall k: nat | k < |s| && MatchFrom(s, p, k).Some?
      ensures MatchFrom(s, p, k).value == Match(3, []) && s[k..k + 3] == "-la"
    {
      var t := s[k..];
      assert t[..2] == "-l";
      assert t[0] == s[k];
      assert t[2] == s[k..k + 3][2];
    }
  }

  /** "-la" goes to Windows as "/a" and comes back as "-la": arguments whose only
      flags are "-la", and that contain no '/', survive the round trip. */
  lemma ListRoundTrip(s: string)
    requires '/' !in s && DashesStartLongListing(s)
    ensures ListToUnix(ListToWindows(s)) == s
  {
    LongListingToWindows(s);
    LongListingMatches(s);
    ReplaceAllUndone(s, OptionalLast("-l", 'a'), "/a", "-la");
    ReplaceAllWithoutLead(s, Literal("/s"), Fixed("-R"));
    ReplaceAllWithoutLead(s, Literal("/b"), Fixed("-1"));
  }

  /** "-la?" matches just the "-l" of a lone "-l". */
  lemma ShortFlagMatch(s: string)
    requires |s| >= 2 && s[0] == '-' && s[1] == 'l' && (|s| == 2 || s[2] != 'a')
    ensures MatchAt(s, OptionalLast("-l", 'a')) == Some(Match(2, []))
  {
    assert s[..2] == "-l";
  }

  /** The "-la?" pass on text that starts with a lone "-l" and has no other '-'. */
  lemma ShortFlagPass(s: string)
    requires |s| >= 2 && s[0] == '-' && s[1] == 'l' && (|s| == 2 || s[2] != 'a')
    requires '-' !in s[2..]
    ensures ReplaceAll(s, OptionalLast("-l", 'a'), Fixed("/a")) == "/a" + s[2..]
  {
    var p := OptionalLast("-l", 'a');
    ShortFlagMatch(s);
    ReplaceAllAtMatch(s, p, Fixed("/a"), Match(2, []));
    ReplaceAllWithoutLead(s[2..], p, Fixed("/a"));
  }

  /** A lone "-l" (not followed by 'a') goes to Windows as "/a" ... */
  lemma ShortListingToWindows(pre: string, rest: string)
    requires '-' !in pre && '-' !in rest && (rest == [] || rest[0] != 'a')
    ensures ListToWindows(pre + ("-l" + rest)) == pre + ("/a" + rest)
  {
    var p := OptionalLast("-l", 'a');
    var out := pre + ("/a" + rest);
    assert ReplaceAll(pre + ("-l" + rest), p, Fixed("/a")) == out by {
      assert ("-l" + rest)[2..] == rest;
      ShortFlagPass("-l" + rest);
      ReplaceAllPrefix(pre, "-l" + rest, p, Fixed("/a"));
    }
    assert '-' !in out;
    ReplaceAllWithoutLead(out, Literal("-R"), Fixed("/s"));
    ReplaceAllWithoutLead(out, Literal("-h"), Fixed(""));
  }

  /** ... and "/a" comes back toward Unix as "-la". */
  lemma AllFilesToUnix(pre: string, rest: string)
    requires '/' !in pre && '/' !in rest
    ensures ListToUnix(pre + ("/a" + rest)) == pre + ("-la" + rest)
  {
    assert ReplaceAll("/a" + rest, Literal("/a"), Fixed("-la")) == "-la" + rest by {
      ReplaceLiteralAtStart("/a", rest, Fixed("-la"));
      ReplaceAllWithoutLead(rest, Literal("/a"), Fixed("-la"));
    }
    ReplaceAllPrefix(pre, "/a" + rest, Literal("/a"), Fixed("-la"));
    var out := pre + ("-la" + rest);
    assert '/' !in out;
    ReplaceAllWithoutLead(out, Literal("/s"), Fixed("-R"));
    ReplaceAllWithoutLead(out, Literal("/b"), Fixed("-1"));
  }

  /** So "-l" does not survive the round trip: it comes back as "-la". */
  lemma ShortListingNotRestored(pre: string, rest: string)
    requires '-' !in pre && '-' !in rest && '/' !in pre && '/' !in rest
    requires rest == [] || rest[0] != 'a'
    ensures ListToUnix(ListToWindows(pre + ("-l" + rest))) == pre + ("-la" + rest)
  {
    ShortListingToWindows(pre, rest);
    AllFilesToUnix(pre, rest);
  }

  /** Toward Windows, "-h" is deleted. */
  lemma HumanReadableDropped(pre: string, rest: string)
    requires '-' !in pre && '-' !in rest
    ensures ListToWindows(pre + ("-h" + rest)) == pre + rest
  {
    var post := "-h" + rest;
    assert post[1..] == "h" + rest;
    assert ReplaceAll(pre + post, OptionalLast("-l", 'a'), Fixed("/a")) == pre + post by {
      ReplaceAllSkipsOne(pre, post, OptionalLast("-l", 'a'), Fixed("/a"));
    }
    assert ReplaceAll(pre + post, Literal("-R"), Fixed("/s")) == pre + post by {
      ReplaceAllSkipsOne(pre, post, Literal("-R"), Fixed("/s"));
    }
    assert ReplaceAll(post, Literal("-h"), Fixed("")) == rest by {
      assert post[..2] == "-h" && post[2..] == rest;
      ReplaceAllAtMatch(post, Literal("-h"), Fixed(""), Match(2, []));
      ReplaceAllWithoutLead(rest, Literal("-h"), Fixed(""));
    }
    ReplaceAllPrefix(pre, post, Literal("-h"), Fixed(""));
  }

  /** Toward Unix, the bare format "/b" becomes "-1". */
  lemma BareFormatToUnix(pre: string, rest: string)
    requires '/' !in pre && '/' !in rest
    ensures ListToUnix(pre + ("/b" + rest)) == pre + ("-1" + rest)
  {
    var post := "/b" + rest;
    assert post[1..] == "b" + rest;
    assert ReplaceAll(pre + post, Literal("/a"), Fixed("-la")) == pre + post by {
      ReplaceAllSkipsOne(pre, post, Literal("/a"), Fixed("-la"));
    }
    assert ReplaceAll(pre + post, Literal("/s"), Fixed("-R")) == pre + post by {
      ReplaceAllSkipsOne(pre, post, Literal("/s"), Fixed("-R"));
    }
    assert ReplaceAll(pre + post, Literal("/b"), Fixed("-1")) == pre + ("-1" + rest) by {
      assert ReplaceAll(post, Literal("/b"), Fixed("-1")) == "-1" + rest by {
        assert post[..2] == "/b" && post[2..] == rest;
        assert Expand(Fixed("-1"), []) == "-1";
        ReplaceAllAtMatch(post, Literal("/b"), Fixed("-1"), Match(2, []));
        ReplaceAllWithoutLead(rest, Literal("/b"), Fixed("-1"));
      }
      ReplaceAllPrefix(pre, post, Literal("/b"), Fixed("-1"));
    }
  }

  // ---------------------------------------------------------------------
  // ps / tasklist and ifconfig / ipconfig

  /** The fixed flag a process translation produces is a fixed point of it. */
  lemma ProcessIdempotent(a: string, toWindows: bool)
    ensures ProcessArguments(ProcessArguments(a, toWindows), toWindows) == ProcessArguments(a, toWindows)
  {
    MissingCharNotContained("/v", "-e", 0);
    MissingCharNotContained("/v", "aux", 0);
    MissingCharNotContained("aux", "/v", 0);
  }

  /** "-e" or "aux" goes to Windows as "/v", which comes back as "aux"; "/v" goes to
      Unix as "aux", which comes back as "/v". */
  lemma ProcessRoundTrip(a: string)
    ensures Contains(a, "-e") || Contains(a, "aux") ==>
      ProcessArguments(ProcessArguments(a, true), false) == "aux"
    ensures Contains(a, "/v") ==> ProcessArguments(ProcessArguments(a, false), true) == "/v"
  {
    assert OccursAt("/v", "/v", 0);
    assert OccursAt("aux", "aux", 0);
  }

  /** The fixed flag a network translation produces is a fixed point of it. */
  lemma NetworkIdempotent(a: string, toWindows: bool)
    ensures NetworkArguments(NetworkArguments(a, toWindows), toWindows) == NetworkArguments(a, toWindows)
  {
    MissingCharNotContained("/all", "-a", 0);
    MissingCharNotContained("-a", "/all", 0);
  }

  /** "-a" goes to Windows as "/all", which comes back as "-a", and the other way. */
  lemma NetworkRoundTrip(a: string)
    ensures Contains(a, "-a") ==> NetworkArguments(NetworkArguments(a, true), false) == "-a"
    ensures Contains(a, "/all") ==> NetworkArguments(NetworkArguments(a, false), true) == "/all"
  {
    assert OccursAt("/all", "/all", 0);
    assert OccursAt("-a", "-a", 0);
  }

  // ---------------------------------------------------------------------
  // cp / copy, rm / del, grep / findstr

  /** Copy arguments without '/' survive the trip to Windows and back, and those
      without '-' the trip to Unix and back. */
  lemma CopyRoundTrip(a: string)
    ensures '/' !in a ==> CopyArguments(CopyArguments(a, true), false) == a
    ensures '-' !in a ==> CopyArguments(CopyArguments(a, false), true) == a
  {
    if '/' !in a {
      LiteralRoundTrip(a, "-r", "/s");
    }
    if '-' !in a {
      LiteralRoundTrip(a, "/s", "-r");
    }
  }

  /** Arguments without any flag character pass through rm/del and grep/findstr. */
  lemma LiteralFamiliesWithoutFlags(a: string)
    ensures '-' !in a ==> DeleteArguments(a, true) == a && SearchArguments(a, true) == a
    ensures '/' !in a ==> DeleteArguments(a, false) == a && SearchArguments(a, false) == a
  {
    if '-' !in a {
      ReplaceAllWithoutLead(a, Literal("-r"), Fixed("/s"));
      ReplaceAllWithoutLead(a, Literal("-f"), Fixed("/f"));
      ReplaceAllWithoutLead(a, Literal("-i"), Fixed("/i"));
      ReplaceAllWithoutLead(a, Literal("-n"), Fixed("/n"));
    }
    if '/' !in a {
      ReplaceAllWithoutLead(a, Literal("/s"), Fixed("-r"));
      ReplaceAllWithoutLead(a, Literal("/f"), Fixed("-f"));
      ReplaceAllWithoutLead(a, Literal("/i"), Fixed("-i"));
      ReplaceAllWithoutLead(a, Literal("/n"), Fixed("-n"));
    }
  }

  /** The "-r" pass on text that starts with "-r" and has no other '-'. */
  lemma RecursiveFlagPass(s: string)
    requires |s| >= 2 && s[..2] == "-r" && '-' !in s[2..]
    ensures ReplaceAll(s, Literal("-r"), Fixed("/s")) == "/s" + s[2..]
  {
    ReplaceAllAtMatch(s, Literal("-r"), Fixed("/s"), Match(2, []));
    ReplaceAllWithoutLead(s[2..], Literal("-r"), Fixed("/s"));
  }

  /** The bundled flags "-rf" go to Windows as "/sf": the "-r" pass consumes the
      dash, so the "-f" pass no longer sees the force flag. */
  lemma DeleteBundledFlags(pre: string, rest: string)
    requires '-' !in pre && '-' !in rest
    ensures DeleteArguments(pre + ("-rf" + rest), true) == pre + ("/sf" + rest)
  {
    var post := "-rf" + rest;
    var out := pre + ("/sf" + rest);
    assert ReplaceAll(pre + post, Literal("-r"), Fixed("/s")) == out by {
      assert post[..2] == "-r" && post[2..] == "f" + rest;
      RecursiveFlagPass(post);
      ReplaceAllPrefix(pre, post, Literal("-r"), Fixed("/s"));
      assert "/s" + ("f" + rest) == "/sf" + rest;
    }
    assert '-' !in out;
    ReplaceAllWithoutLead(out, Literal("-f"), Fixed("/f"));
  }

  // ---------------------------------------------------------------------
  // The literal swaps of grep/findstr, rm/del, cp/copy and ls/dir, flag by flag

  const SearchToWindows: seq<Swap> := [Swap("-i", "/i"), Swap("-r", "/s"), Swap("-n", "/n")]
  const SearchToUnix: seq<Swap> := [Swap("/i", "-i"), Swap("/s", "-r"), Swap("/n", "-n")]
  const DeleteToWindows: seq<Swap> := [Swap("-r", "/s"), Swap("-f", "/f")]
  const DeleteToUnix: seq<Swap> := [Swap("/s", "-r"), Swap("/f", "-f")]

  /** grep/findstr's three replaceAll calls are the chains above. */
  lemma SearchChains(a: string)
    ensures SearchArguments(a, true) == Passes(a, SearchToWindows)
    ensures SearchArguments(a, false) == Passes(a, SearchToUnix)
  {
    assert SearchToWindows[1..][1..][1..] == [] && SearchToUnix[1..][1..][1..] == [];
  }

  /** rm/del's two replaceAll calls are the chains above. */
  lemma DeleteChains(a: string)
    ensures DeleteArguments(a, true) == Passes(a, DeleteToWindows)
    ensures DeleteArguments(a, false) == Passes(a, DeleteToUnix)
  {
    assert DeleteToWindows[1..][1..] == [] && DeleteToUnix[1..][1..] == [];
  }

  /** Toward Windows, grep's "-i", "-r" and "-n" become "/i", "/s" and "/n". */
  lemma SearchFlagsToWindows(pre: string, rest: string)
    requires '-' !in pre && '-' !in rest
    ensures SearchArguments(pre + ("-i" + rest), true) == pre + ("/i" + rest)
    ensures SearchArguments(pre + ("-r" + rest), true) == pre + ("/s" + rest)
    ensures SearchArguments(pre + ("-n" + rest), true) == pre + ("/n" + rest)
  {
    assert FlagSwaps(SearchToWindows, '-');
    SearchChains(pre + ("-i" + rest));
    PassesRewriteOne(pre, rest, SearchToWindows, '-', 0);
    SearchChains(pre + ("-r" + rest));
    PassesRewriteOne(pre, rest, SearchToWindows, '-', 1);
    SearchChains(pre + ("-n" + rest));
    PassesRewriteOne(pre, rest, SearchToWindows, '-', 2);
  }

  /** Toward Unix, findstr's "/i", "/s" and "/n" become "-i", "-r" and "-n". */
  lemma SearchFlagsToUnix(pre: string, rest: string)
    requires '/' !in pre && '/' !in rest
    ensures SearchArguments(pre + ("/i" + rest), false) == pre + ("-i" + rest)
    ensures SearchArguments(pre + ("/s" + rest), false) == pre + ("-r" + rest)
    ensures SearchArguments(pre + ("/n" + rest), false) == pre + ("-n" + rest)
  {
    assert FlagSwaps(SearchToUnix, '/');
    SearchChains(pre + ("/i" + rest));
    PassesRewriteOne(pre, rest, SearchToUnix, '/', 0);
    SearchChains(pre + ("/s" + rest));
    PassesRewriteOne(pre, rest, SearchToUnix, '/', 1);
    SearchChains(pre + ("/n" + rest));
    PassesRewriteOne(pre, rest, SearchToUnix, '/', 2);
  }

  /** So each grep flag, alone among text with no flag characters, survives the
      trip to Windows and back. */
  lemma SearchFlagRoundTrip(pre: string, flag: string, rest: string)
    requires flag in {"-i", "-r", "-n"}
    requires '-' !in pre && '-' !in rest && '/' !in pre && '/' !in rest
    ensures SearchArguments(SearchArguments(pre + (flag + rest), true), false) == pre + (flag + rest)
  {
    SearchFlagsToWindows(pre, rest);
    SearchFlagsToUnix(pre, rest);
  }

  /** Toward Windows, rm's "-r" and "-f" become "/s" and "/f". */
  lemma DeleteFlagsToWindows(pre: string, rest: string)
    requires '-' !in pre && '-' !in rest
    ensures DeleteArguments(pre + ("-r" + rest), true) == pre + ("/s" + rest)
    ensures DeleteArguments(pre + ("-f" + rest), true) == pre + ("/f" + rest)
  {
    assert FlagSwaps(DeleteToWindows, '-');
    DeleteChains(pre + ("-r" + rest));
    PassesRewriteOne(pre, rest, DeleteToWindows, '-', 0);
    DeleteChains(pre + ("-f" + rest));
    PassesRewriteOne(pre, rest, DeleteToWindows, '-', 1);
  }

  /** Toward Unix, del's "/s" and "/f" become "-r" and "-f". */
  lemma DeleteFlagsToUnix(pre: string, rest: string)
    requires '/' !in pre && '/' !in rest
    ensures DeleteArguments(pre + ("/s" + rest), false) == pre + ("-r" + rest)
    ensures DeleteArguments(pre + ("/f" + rest), false) == pre + ("-f" + rest)
  {
    assert FlagSwaps(DeleteToUnix, '/');
    DeleteChains(pre + ("/s" + rest));
    PassesRewriteOne(pre, rest, DeleteToUnix, '/', 0);
    DeleteChains(pre + ("/f" + rest));
    PassesRewriteOne(pre, rest, DeleteToUnix, '/', 1);
  }

  /** So each rm flag, alone among text with no flag characters, survives the trip
      to Windows and back. */
  lemma DeleteFlagRoundTrip(pre: string, flag: string, rest: string)
    requires flag in {"-r", "-f"}
    requires '-' !in pre && '-' !in rest && '/' !in pre && '/' !in rest
    ensures DeleteArguments(DeleteArguments(pre + (flag + rest), true), false) == pre + (flag + rest)
  {
    DeleteFlagsToWindows(pre, rest);
    DeleteFlagsToUnix(pre, rest);
  }

  /** cp's "-r" becomes "/s" toward Windows, and copy's "/s" becomes "-r" toward Unix. */
  lemma CopyFlags(pre: string, rest: string)
    ensures '-' !in pre && '-' !in rest ==> CopyArguments(pre + ("-r" + rest), true) == pre + ("/s" + rest)
    ensures '/' !in pre && '/' !in rest ==> CopyArguments(pre + ("/s" + rest), false) == pre + ("-r" + rest)
  {
    if '-' !in pre && '-' !in rest {
      LiteralPassRewrites(pre, "-r", "/s", rest);
    }
    if '/' !in pre && '/' !in rest {
      LiteralPassRewrites(pre, "/s", "-r", rest);
    }
  }

  /** Toward Windows, ls's "-R" becomes "/s": the "-la?" pass before it passes over it. */
  lemma SubdirectoriesToWindows(pre: string, rest: string)
    requires '-' !in pre && '-' !in rest
    ensures ListToWindows(pre + ("-R" + rest)) == pre + ("/s" + rest)
  {
    var post := "-R" + rest;
    var out := pre + ("/s" + rest);
    assert post[1..] == "R" + rest;
    assert ReplaceAll(pre + post, OptionalLast("-l", 'a'), Fixed("/a")) == pre + post by {
      ReplaceAllSkipsOne(pre, post, OptionalLast("-l", 'a'), Fixed("/a"));
    }
    assert ReplaceAll(pre + post, Literal("-R"), Fixed("/s")) == out by {
      LiteralPassRewrites(pre, "-R", "/s", rest);
    }
    assert '-' !in out;
    ReplaceAllWithoutLead(out, Literal("-h"), Fixed(""));
  }

  /** Toward Unix, dir's "/s" becomes "-R". */
  lemma SubdirectoriesToUnix(pre: string, rest: string)
    requires '/' !in pre && '/' !in rest
    ensures ListToUnix(pre + ("/s" + rest)) == pre + ("-R" + rest)
  {
    var post := "/s" + rest;
    var out := pre + ("-R" + rest);
    assert ReplaceAll(pre + post, Literal("/a"), Fixed("-la")) == pre + post by {
      LiteralPassSkips(pre, "/a", "/s", rest, "-la");
    }
    assert ReplaceAll(pre + post, Literal("/s"), Fixed("-R")) == out by {
      LiteralPassRewrites(pre, "/s", "-R", rest);
    }
    assert '/' !in out;
    ReplaceAllWithoutLead(out, Literal("/b"), Fixed("-1"));
  }

  // ---------------------------------------------------------------------
  // Dispatch, platforms and the equivalence table

  /** isWindows needs only its second test: "WINDOWS" in any case contains "win". */
  lemma IsWindowsByName(os: string)
    ensures IsWindows(Some(os)) == Ok(Contains(ToLower(os), "win"))
  {
    if EqualsIgnoreCase(Windows, os) {
      assert ToLower(Windows) == "windows";
      assert OccursAt(ToLower(os), "win", 0);
    }
  }

  /** Of the three platform names a request may carry, only WINDOWS is Windows. */
  lemma WindowsPlatform()
    ensures IsWindows(Some(Windows)) == Ok(true)
  {
    IsWindowsByName(Windows);
    assert ToLower(Windows) == "windows";
    assert OccursAt("windows", "win", 0);
  }

  lemma LinuxPlatform()
    ensures IsWindows(Some(Linux)) == Ok(false)
  {
    IsWindowsByName(Linux);
    assert LowerChar('L') == 'l' && LowerChar('I') == 'i' && LowerChar('N') == 'n';
    assert LowerChar('U') == 'u' && LowerChar('X') == 'x';
    assert ToLower(Linux) == "linux";
    MissingCharNotContained("linux", "win", 0);
  }

  lemma MacPlatform()
    ensures IsWindows(Some(Mac)) == Ok(false)
  {
    IsWindowsByName(Mac);
    assert LowerChar('M') == 'm' && LowerChar('A') == 'a' && LowerChar('C') == 'c';
    assert ToLower(Mac) == "mac";
    MissingCharNotContained("mac", "win", 0);
  }

  /** A request that names its platform is translated for that platform, whatever
      the host. */
  lemma NamedPlatformTranslation(command: string, a: string, p: string, osName: string, f: Family)
    requires p in {Windows, Linux, Mac}
    requires !IsBlank(a) && FamilyOf(ToLower(command)) == Some(f)
    ensures TranslateCommand(command, Some(a), Some(p), osName) == Ok(TranslateFamily(f, command, a, p == Windows))
  {
    ConcreteIsNotAuto(p);
    WindowsPlatform();
    LinuxPlatform();
    MacPlatform();
  }

  /** Dispatch reads the family, not the spelling: "LS", "ls" and "dir" with the
      same arguments translate alike, to the target's name for the family. */
  lemma SpellingIgnored(c1: string, c2: string, a: string, os: Option<string>, osName: string, f: Family)
    requires !IsBlank(a) && f != Ping
    requires FamilyOf(ToLower(c1)) == Some(f) && FamilyOf(ToLower(c2)) == Some(f)
    ensures TranslateCommand(c1, Some(a), os, osName) == TranslateCommand(c2, Some(a), os, osName)
    ensures TranslateCommand(c1, Some(a), os, osName).Ok? ==>
      TranslateCommand(c1, Some(a), os, osName).value.command
        == TargetName(f, IsWindows(ResolvePlatform(os, osName)) == Ok(true))
  {
  }

  /** ping keeps the name it was given, in whatever case, for every target. */
  lemma PingKeepsName(command: string, arguments: Option<string>, os: Option<string>, osName: string)
    requires ToLower(command) == "ping"
    ensures TranslateCommand(command, arguments, os, osName).Ok? ==>
      TranslateCommand(command, arguments, os, osName).value.command == command
  {
  }

  /** clear/cls always comes out with empty arguments, whatever it was given. */
  lemma ClearDropsArguments(command: string, a: string, os: string, osName: string)
    requires FamilyOf(ToLower(command)) == Some(Clear)
    requires !IsBlank(a) && ResolvePlatform(Some(os), osName) == Some(os)
    ensures TranslateCommand(command, Some(a), Some(os), osName)
         == Ok(CommandTranslation(if Contains(ToLower(os), "win") then "cls" else "clear", Some("")))
  {
    IsWindowsByName(os);
  }

  /** Translating a name of one of the nine table families toward the other
      platform gives what the table says. */
  lemma EquivalencesFollowFamilies(f: Family)
    requires f != Ping
    ensures WindowsToUnix()[WindowsName(f)] == UnixName(f)
    ensures UnixToWindows()[UnixName(f)] == WindowsName(f)
    ensures CommandEquivalencies()[WindowsName(f)] == UnixName(f)
    ensures CommandEquivalencies()[UnixName(f)] == WindowsName(f)
  {
    HalvesDisjoint();
  }
}
