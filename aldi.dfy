/** The weight clean-up of the Aldi scraper: a weight such as
    "avg. 3 lb/piece" is reduced to "3 lb", the text that follows the first
    "avg." (any letter case, then optional whitespace) up to the next "/",
    stripped; a weight without such a part is kept as it is.

    The regular expression is modelled by its backtracking behaviour: at a
    candidate position, `avg\.` must match case-insensitively, `\s*` takes
    every whitespace character it can, and `([^/]+)` then needs at least one
    character that is not a slash; when none is left, `\s*` gives back its
    last whitespace character, which then forms the group on its own. */
module Aldi {
  import opened Wrappers
  import opened Text

  /** "avg." starts at position i, letters in any case. */
  predicate IsAvgAt(s: string, i: nat)
  {
    i + 4 <= |s| && LowerChar(s[i]) == 'a' && LowerChar(s[i + 1]) == 'v' &&
    LowerChar(s[i + 2]) == 'g' && s[i + 3] == '.'
  }

  /** Where greedy `\s*` starting at j stops. */
  function SkipSpaces(s: string, j: nat): (p: nat)
    requires j <= |s|
    ensures j <= p <= |s|
    ensures forall n :: j <= n < p ==> IsSpace(s[n])
    ensures p == |s| || !IsSpace(s[p])
    decreases |s| - j
  {
    if j < |s| && IsSpace(s[j]) then SkipSpaces(s, j + 1) else j
  }

  /** Position of the first '/' at or after j, or |s|. */
  function SlashFrom(s: string, j: nat): (q: nat)
    requires j <= |s|
    ensures j <= q <= |s|
    ensures forall n :: j <= n < q ==> s[n] != '/'
    ensures q == |s| || s[q] == '/'
  {
    j + IndexOf(s[j..], '/')
  }

  /** What group 1 captures when the match is tried at i, if it succeeds
      there. */
  function GroupAt(s: string, i: nat): (g: Option<string>)
    requires IsAvgAt(s, i)
    ensures g.Some? ==> |g.value| > 0 && forall n :: 0 <= n < |g.value| ==> g.value[n] != '/'
  {
    var p := SkipSpaces(s, i + 4);
    if p < |s| && s[p] != '/' then Some(s[p..SlashFrom(s, p)])
    else if p > i + 4 then Some(s[p - 1..p])
    else None
  }

  predicate MatchesAt(s: string, i: nat)
  {
    IsAvgAt(s, i) && GroupAt(s, i).Some?
  }

  /** re.search: the leftmost position at or after i where the match
      succeeds. */
  function FindFrom(s: string, i: nat): (r: Option<nat>)
    ensures r.None? ==> forall n: nat :: i <= n ==> !MatchesAt(s, n)
    ensures r.Some? ==> (i <= r.value && MatchesAt(s, r.value) &&
                         forall n: nat :: i <= n < r.value ==> !MatchesAt(s, n))
    decreases |s| - i
  {
    if i + 4 > |s| then None
    else if MatchesAt(s, i) then Some(i)
    else FindFrom(s, i + 1)
  }

  /** cleanAvg */
  function CleanAvg(s: string): (r: string)
    ensures (forall n: nat :: !MatchesAt(s, n)) ==> r == s
    ensures (exists n: nat :: MatchesAt(s, n)) ==> (r == [] || (!IsSpace(r[0]) && !IsSpace(r[|r| - 1])))
  {
    match FindFrom(s, 0)
    case None => s
    case Some(m) => Strip(GroupAt(s, m).value)
  }

  /** When the pattern matches, the result has no slash. */
  lemma CleanAvgHasNoSlash(s: string)
    requires exists n: nat :: MatchesAt(s, n)
    ensures forall i :: 0 <= i < |CleanAvg(s)| ==> CleanAvg(s)[i] != '/'
  {
    var m := FindFrom(s, 0).value;
    StripKeeps(GroupAt(s, m).value, c => c != '/');
  }

  // -----------------------------------------------------------------------
  // Properties

  /** The match succeeds at i exactly when "avg." is there and is followed
      by at least one character that is not a slash. */
  lemma MatchesAtIff(s: string, i: nat)
    ensures MatchesAt(s, i) <==> IsAvgAt(s, i) && i + 4 < |s| && s[i + 4] != '/'
  {
  }

  /** The first slash at or after j is the q that has none before it. */
  lemma SlashFromUnique(s: string, j: nat, q: nat)
    requires j <= q <= |s|
    requires forall n :: j <= n < q ==> s[n] != '/'
    requires q == |s| || s[q] == '/'
    ensures SlashFrom(s, j) == q
  {
    var q' := SlashFrom(s, j);
    if q' < q {
      assert false;
    }
  }

  /** The captured group, stripped, is the text between "avg." and the next
      slash, stripped. */
  lemma StrippedGroup(s: string, m: nat)
    requires MatchesAt(s, m)
    ensures Strip(GroupAt(s, m).value) == Strip(s[m + 4..SlashFrom(s, m + 4)])
  {
    var p := SkipSpaces(s, m + 4);
    if p < |s| && s[p] != '/' {
      GreedyGroup(s, m, p);
    } else {
      BacktrackedGroup(s, m, p);
    }
  }

  /** The ordinary case: the group runs from the first non-space to the
      next slash. */
  lemma GreedyGroup(s: string, m: nat, p: nat)
    requires IsAvgAt(s, m) && p == SkipSpaces(s, m + 4) && p < |s| && s[p] != '/'
    ensures GroupAt(s, m) == Some(s[p..SlashFrom(s, p)])
    ensures Strip(s[p..SlashFrom(s, p)]) == Strip(s[m + 4..SlashFrom(s, m + 4)])
  {
    var q := SlashFrom(s, p);
    SlashFromUnique(s, m + 4, q);
    var lead := s[m + 4..p];
    assert s[m + 4..q] == lead + s[p..q];
    StripLeadingSpace(lead, s[p..q]);
  }

  /** Only whitespace before the slash: `\s*` gives back one character,
      which strips away like the rest. */
  lemma BacktrackedGroup(s: string, m: nat, p: nat)
    requires MatchesAt(s, m) && p == SkipSpaces(s, m + 4) && !(p < |s| && s[p] != '/')
    ensures GroupAt(s, m) == Some(s[p - 1..p])
    ensures Strip(s[p - 1..p]) == [] && Strip(s[m + 4..SlashFrom(s, m + 4)]) == []
  {
    assert p > m + 4;
    assert GroupAt(s, m).value == s[p - 1..p];
    SpacesToSlash(s, m + 4, p);
  }

  /** Whitespace up to a slash or the end strips away, as does its last
      character alone. */
  lemma SpacesToSlash(s: string, j: nat, p: nat)
    requires j < p <= |s| && (p == |s| || s[p] == '/')
    requires forall n :: j <= n < p ==> IsSpace(s[n])
    ensures Strip(s[p - 1..p]) == [] && Strip(s[j..SlashFrom(s, j)]) == []
  {
    SlashFromUnique(s, j, p);
    SpacesStrip(s, p - 1, p);
    SpacesStrip(s, j, p);
  }

  lemma SpacesStrip(s: string, i: nat, j: nat)
    requires i <= j <= |s| && forall n :: i <= n < j ==> IsSpace(s[n])
    ensures Strip(s[i..j]) == []
  {
    StripAllSpace(s[i..j]);
  }

  /** cleanAvg returns the stripped text between the first matching "avg."
      and the next slash. */
  lemma CleanAvgAt(s: string, m: nat)
    requires MatchesAt(s, m)
    requires forall n: nat :: n < m ==> !MatchesAt(s, n)
    ensures CleanAvg(s) == Strip(s[m + 4..SlashFrom(s, m + 4)])
  {
    assert FindFrom(s, 0) == Some(m);
    StrippedGroup(s, m);
  }

  /** A weight without a dot has no "avg." and is kept. */
  lemma NoDotIsKept(s: string)
    requires forall n :: 0 <= n < |s| ==> s[n] != '.'
    ensures CleanAvg(s) == s
  {
    forall n: nat
      ensures !MatchesAt(s, n)
    {
      if n + 4 <= |s| {
        assert s[n + 3] != '.';
      }
    }
  }

  /** A match at the very start. */
  lemma MatchAtStart(s: string)
    requires IsAvgAt(s, 0) && 4 < |s| && s[4] != '/'
    ensures CleanAvg(s) == Strip(s[4..SlashFrom(s, 4)])
  {
    MatchesAtIff(s, 0);
    CleanAvgAt(s, 0);
  }

  /** "avg. " at the start, then a trimmed text without slashes that runs
      to a slash or to the end: the text comes out. */
  lemma AvgPrefix(s: string, t: string, q: nat)
    requires 5 <= q <= |s| && s[..5] == "avg. " && s[5..q] == t
    requires q == |s| || s[q] == '/'
    requires t != [] && !IsSpace(t[0]) && !IsSpace(t[|t| - 1])
    requires forall n :: 0 <= n < |t| ==> t[n] != '/'
    ensures CleanAvg(s) == t
  {
    PrefixLayout(s, t, q);
    AvgPrefixMatch(s, q);
    StripOneSpace(t);
  }

  lemma PrefixLayout(s: string, t: string, q: nat)
    requires 5 <= q <= |s| && s[..5] == "avg. " && s[5..q] == t
    requires t != [] && forall n :: 0 <= n < |t| ==> t[n] != '/'
    ensures 6 <= q && s[5] != '/' && s[4..q] == " " + t
    ensures forall n :: 4 <= n < q ==> s[n] != '/'
  {
    assert s[4] == ' ';
    forall n | 4 <= n < q
      ensures s[n] != '/'
    {
      if n > 4 {
        assert s[n] == t[n - 5];
      }
    }
  }

  lemma StripOneSpace(t: string)
    requires t != [] && !IsSpace(t[0]) && !IsSpace(t[|t| - 1])
    ensures Strip(" " + t) == t
  {
    StripLeadingSpace(" ", t);
    StripTrimmed(t);
  }

  lemma AvgPrefixMatch(s: string, q: nat)
    requires 6 <= q <= |s| && s[..5] == "avg. " && s[5] != '/'
    requires q == |s| || s[q] == '/'
    requires forall n :: 4 <= n < q ==> s[n] != '/'
    ensures CleanAvg(s) == Strip(s[4..q])
  {
    assert IsAvgAt(s, 0) by {
      assert s[0] == 'a' && s[1] == 'v' && s[2] == 'g' && s[3] == '.';
    }
    assert s[4] == ' ';
    MatchAtStart(s);
    SlashFromUnique(s, 4, q);
  }

  /** "avg. ", then a trimmed text without slashes, then a slash and
      anything: the text comes out. */
  lemma AvgThenSlash(t: string, rest: string)
    requires t != [] && !IsSpace(t[0]) && !IsSpace(t[|t| - 1])
    requires forall n :: 0 <= n < |t| ==> t[n] != '/'
    ensures CleanAvg("avg. " + t + "/" + rest) == t
  {
    var s := "avg. " + t + "/" + rest;
    assert s[..5] == "avg. " && s[5..5 + |t|] == t;
    AvgPrefix(s, t, 5 + |t|);
  }

  /** "avg. " and a trimmed text without slashes to the end: the text comes
      out. */
  lemma AvgToEnd(t: string)
    requires t != [] && !IsSpace(t[0]) && !IsSpace(t[|t| - 1])
    requires forall n :: 0 <= n < |t| ==> t[n] != '/'
    ensures CleanAvg("avg. " + t) == t
  {
    var s := "avg. " + t;
    assert s[..5] == "avg. " && s[5..|s|] == t;
    AvgPrefix(s, t, |s|);
  }

  lemma ExamplePiece()
    ensures CleanAvg("avg. 3 lb/piece") == "3 lb"
  {
    assert "avg. 3 lb/piece" == "avg. " + "3 lb" + "/" + "piece";
    AvgThenSlash("3 lb", "piece");
  }

  lemma ExampleKilograms()
    ensures CleanAvg("avg. 5kg") == "5kg"
  {
    assert "avg. 5kg" == "avg. " + "5kg";
    AvgToEnd("5kg");
  }

  lemma ExampleUnchanged()
    ensures CleanAvg("total 4 lb") == "total 4 lb"
  {
    NoDotIsKept("total 4 lb");
  }

  /** The separators \x1c to \x1f count as whitespace: they are skipped
      after "avg." like a space. */
  lemma ExampleFileSeparator()
    ensures CleanAvg("avg.\U{1C}5kg") == "5kg"
  {
    var s := "avg.\U{1C}5kg";
    assert IsAvgAt(s, 0) by {
      assert s[0] == 'a' && s[1] == 'v' && s[2] == 'g' && s[3] == '.';
    }
    MatchAtStart(s);
    SeparatorTail(s);
  }

  lemma SeparatorTail(s: string)
    requires s == "avg.\U{1C}5kg"
    ensures Strip(s[4..SlashFrom(s, 4)]) == "5kg"
  {
    assert |s| == 8 && s[4] == '\U{1C}' && s[5] == '5' && s[6] == 'k' && s[7] == 'g';
    SlashFromUnique(s, 4, 8);
    assert s[4..8] == "\U{1C}" + "5kg";
    SeparatorStrips();
  }

  lemma SeparatorStrips()
    ensures Strip("\U{1C}" + "5kg") == "5kg"
  {
    assert IsSpace('\U{1C}');
    StripLeadingSpace("\U{1C}", "5kg");
    assert !IsSpace('5') && !IsSpace('g');
    StripTrimmed("5kg");
  }

  /** A slash right after "avg." defeats the match there. */
  lemma SlashAfterAvg(rest: string)
    ensures !MatchesAt("avg./" + rest, 0)
  {
    MatchesAtIff("avg./" + rest, 0);
    assert ("avg./" + rest)[4] == '/';
  }

  /** Whitespace then a slash: the group is the last whitespace character,
      which strips to the empty string. */
  lemma SpacesThenSlash(rest: string)
    ensures CleanAvg("avg. /" + rest) == ""
  {
    var s := "avg. /" + rest;
    assert s[..6] == "avg. /";
    BlankThenSlash(s);
  }

  lemma BlankThenSlash(s: string)
    requires |s| >= 6 && s[..6] == "avg. /"
    ensures CleanAvg(s) == ""
  {
    assert s[0] == 'a' && s[1] == 'v' && s[2] == 'g' && s[3] == '.';
    assert s[4] == ' ' && s[5] == '/';
    MatchAtStart(s);
    SlashFromUnique(s, 4, 5);
    assert s[4..5] == " ";
    StripAllSpace(" ");
  }
}
