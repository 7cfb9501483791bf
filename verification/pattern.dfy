/** The two regular expressions of the scraper, matched by hand:
    `(\d+\.\d+)` anchored at a position (how a section id is read) and
    `Minn\.\s+Rules\s+(\d+\.\d+)` searched for leftmost-first (how an index
    anchor's text is read). Each matcher is paired with a declarative
    description of what the pattern denotes, and the two are proved equal. */
module Pattern {
  import opened Optional
  import opened Text

  /** The shape `\d+\.\d+`: digits, a dot at position `p`, digits. */
  predicate DotAt(n: string, p: nat) {
    0 < p < |n| - 1 && n[p] == '.' && AllIn(n[..p], Digit) && AllIn(n[p + 1..], Digit)
  }

  /** A rule number such as `7511.0030`. */
  ghost predicate IsRuleNumber(n: string) {
    exists p: nat :: DotAt(n, p)
  }

  /** A rule number never contains a path separator. */
  lemma RuleNumberHasNoSlash(n: string)
    requires IsRuleNumber(n)
    ensures '/' !in n
  {
    var p: nat :| DotAt(n, p);
    SliceAllIn(n, 0, p, Digit);
    SliceAllIn(n, p + 1, |n|, Digit);
    assert n[..p] == n[0..p];
    assert n[p + 1..] == n[p + 1..|n|];
  }

  /** A rule number ends in a digit. */
  lemma RuleNumberEndsInDigit(n: string)
    requires IsRuleNumber(n)
    ensures |n| > 0 && InClass(n[|n| - 1], Digit)
  {
    var p: nat :| DotAt(n, p);
    assert n[p + 1..][|n| - p - 2] == n[|n| - 1];
  }

  // ---------------------------------------------------------------------
  // (\d+\.\d+) anchored
  // ---------------------------------------------------------------------

  /** The greedy match of `\d+\.\d+` starting exactly at `i`, as
      `re.match(r'(\d+\.\d+)', s[i:]).group(1)` computes it. */
  function NumberAt(s: string, i: nat): (r: Option<string>)
    requires i <= |s|
    ensures r.Some? ==> IsRuleNumber(r.value) && r.value <= s[i..]
                        && StopsAt(s, i + |r.value|, Digit)
  {
    var d := RunEnd(s, i, Digit);
    if d == i || d == |s| || s[d] != '.' then
      None
    else
      var e := RunEnd(s, d + 1, Digit);
      if e == d + 1 then
        None
      else
        assert s[i..e][..d - i] == s[i..d];
        assert s[i..e][d - i + 1..] == s[d + 1..e];
        assert DotAt(s[i..e], d - i);
        Some(s[i..e])
  }

  /** The anchored matcher finds a rule number exactly when `s[i..]` starts
      with one that is not followed by a further digit. */
  lemma NumberAtExact(s: string, i: nat, n: string)
    requires i <= |s|
    ensures NumberAt(s, i) == Some(n) <==>
            IsRuleNumber(n) && n <= s[i..] && StopsAt(s, i + |n|, Digit)
  {
    if IsRuleNumber(n) && n <= s[i..] && StopsAt(s, i + |n|, Digit) {
      var p: nat :| DotAt(n, p);
      var e := i + |n|;
      assert s[i..e] == n;
      assert s[i..i + p] == n[..p];
      assert s[i + p] == n[p];
      RunEndUnique(s, i, i + p, Digit);
      assert s[i + p + 1..e] == n[p + 1..];
      RunEndUnique(s, i + p + 1, e, Digit);
    }
  }

  /** An id that is a rule number followed by anything that does not start
      with a digit (`.1`, `-note`, ...) reads as that rule number: the match
      stops before the second dot, so subparts are not told apart by number. */
  lemma SubpartIdReadsPartNumber(n: string, t: string)
    requires IsRuleNumber(n)
    requires t == [] || !InClass(t[0], Digit)
    ensures NumberAt(n + t, 0) == Some(n)
  {
    var s := n + t;
    assert s[0..] == s;
    assert n <= s;
    if t != [] {
      assert s[|n|] == t[0];
    }
    NumberAtExact(s, 0, n);
  }

  /** The ids `7511.0020.0` and `7511.0020.1` both read as `7511.0020`. */
  lemma SubpartIdsShareNumber()
    ensures NumberAt("7511.0020.0", 0) == Some("7511.0020")
    ensures NumberAt("7511.0020.1", 0) == Some("7511.0020")
  {
    var n := "7511.0020";
    assert DotAt(n, 4) by {
      assert n[..4] == "7511";
      assert n[5..] == "0020";
    }
    SubpartIdReadsPartNumber(n, ".0");
    SubpartIdReadsPartNumber(n, ".1");
    assert n + ".0" == "7511.0020.0";
    assert n + ".1" == "7511.0020.1";
  }

  // ---------------------------------------------------------------------
  // Minn\.\s+Rules\s+(\d+\.\d+)
  // ---------------------------------------------------------------------

  const MinnLiteral: string := "Minn."
  const RulesLiteral: string := "Rules"

  /** `\s+`: a non-empty run of whitespace. */
  predicate Gap(w: string) {
    |w| > 0 && AllIn(w, Space)
  }

  /** The index pattern matches at `p` with its parts at fixed places:
      `Minn.` at `p`, a gap up to `b`, `Rules` at `b`, a gap up to `d`, and
      the group `n` at `d`, not followed by a further digit. */
  ghost predicate MatchesAt(s: string, p: nat, b: nat, d: nat, n: string) {
    && p + 5 < b && b + 5 < d && d + |n| <= |s|
    && s[p..p + 5] == MinnLiteral
    && Gap(s[p + 5..b])
    && s[b..b + 5] == RulesLiteral
    && Gap(s[b + 5..d])
    && s[d..d + |n|] == n && IsRuleNumber(n)
    && StopsAt(s, d + |n|, Digit)
  }

  /** A match of the index pattern with group `n` starts at position `p`. */
  ghost predicate MentionedAt(s: string, p: nat, n: string) {
    exists b: nat, d: nat :: MatchesAt(s, p, b, d, n)
  }

  /** Where a literal that starts at `i` ends, if `s[i..]` starts with it. */
  function LiteralEnd(s: string, i: nat, lit: string): (r: Option<nat>)
    requires i <= |s|
    ensures r.Some? <==> i + |lit| <= |s| && s[i..i + |lit|] == lit
    ensures r.Some? ==> r.value == i + |lit|
  {
    if i + |lit| <= |s| && s[i..i + |lit|] == lit then Some(i + |lit|) else None
  }

  /** Where a greedy `\s+` that starts at `i` ends, if there is one. */
  function GapEnd(s: string, i: nat): (r: Option<nat>)
    requires i <= |s|
    ensures r.Some? ==> i < r.value <= |s| && AllIn(s[i..r.value], Space) && StopsAt(s, r.value, Space)
    ensures r.None? ==> StopsAt(s, i, Space)
  {
    var j := RunEnd(s, i, Space);
    if j == i then None else Some(j)
  }

  /** The index pattern tried at position `i` only, as the regular
      expression engine does at each start position: the group, if the
      pattern matches there. */
  function MentionAt(s: string, i: nat): (r: Option<string>)
    requires i <= |s|
  {
    match LiteralEnd(s, i, MinnLiteral)
    case None => None
    case Some(a) =>
      match GapEnd(s, a)
      case None => None
      case Some(b) =>
        match LiteralEnd(s, b, RulesLiteral)
        case None => None
        case Some(c) =>
          match GapEnd(s, c)
          case None => None
          case Some(d) => NumberAt(s, d)
  }

  /** The matcher agrees with the pattern at every position, in both directions. */
  lemma MentionAtExact(s: string, i: nat, n: string)
    requires i <= |s|
    ensures MentionAt(s, i) == Some(n) <==> MentionedAt(s, i, n)
  {
    if MentionAt(s, i) == Some(n) {
      MentionAtSound(s, i, n);
    }
    if MentionedAt(s, i, n) {
      var b: nat, d: nat :| MatchesAt(s, i, b, d, n);
      MentionAtComplete(s, i, b, d, n);
    }
  }

  lemma MentionAtSound(s: string, i: nat, n: string)
    requires i <= |s|
    requires MentionAt(s, i) == Some(n)
    ensures MentionedAt(s, i, n)
  {
    var b := GapEnd(s, i + 5).value;
    var d := GapEnd(s, b + 5).value;
    assert s[i..i + 5] == MinnLiteral;
    assert s[b..b + 5] == RulesLiteral;
    assert s[d..d + |n|] == n;
    assert MatchesAt(s, i, b, d, n);
  }

  /** The matcher's steps, given where the parts of a match lie in `s`. */
  lemma MentionAtComplete(s: string, i: nat, b: nat, d: nat, n: string)
    requires MatchesAt(s, i, b, d, n)
    ensures MentionAt(s, i) == Some(n)
  {
    assert LiteralEnd(s, i, MinnLiteral) == Some(i + 5);
    assert GapEnd(s, i + 5) == Some(b) by {
      assert s[b] == s[b..b + 5][0] == RulesLiteral[0] == 'R';
      RunEndUnique(s, i + 5, b, Space);
    }
    assert LiteralEnd(s, b, RulesLiteral) == Some(b + 5);
    assert GapEnd(s, b + 5) == Some(d) by {
      var p: nat :| DotAt(n, p);
      assert s[d] == s[d..d + |n|][0] == n[0] == n[..p][0];
      RunEndUnique(s, b + 5, d, Space);
    }
    assert NumberAt(s, d) == Some(n) by {
      assert n <= s[d..];
      NumberAtExact(s, d, n);
    }
  }

  // ---------------------------------------------------------------------
  // re.search: leftmost start position
  // ---------------------------------------------------------------------

  /** The leftmost position at or after `i` where the index pattern matches. */
  function FirstMention(s: string, i: nat): (r: Option<nat>)
    requires i <= |s|
    ensures r.Some? ==> i <= r.value <= |s| && MentionAt(s, r.value).Some?
    ensures forall j | i <= j <= |s| && (r.None? || j < r.value) :: MentionAt(s, j).None?
    decreases |s| - i
  {
    if MentionAt(s, i).Some? then Some(i)
    else if i == |s| then None
    else FirstMention(s, i + 1)
  }

  /** `re.search(r'Minn\.\s+Rules\s+(\d+\.\d+)', s).group(1)`, or `None`
      when the pattern occurs nowhere in `s`. */
  function Search(s: string): (r: Option<string>)
    ensures r.Some? ==> IsRuleNumber(r.value)
  {
    match FirstMention(s, 0)
    case Some(p) => MentionAt(s, p)
    case None => None
  }

  /** No match of the index pattern starts before `p`. */
  ghost predicate NoMentionBefore(s: string, p: nat) {
    forall j: nat, n' | j < p :: !MentionedAt(s, j, n')
  }

  /** `Search` returns the group of the match that starts leftmost: `n` is
      found exactly when a mention of `n` starts at some position and no
      mention of anything starts earlier. */
  lemma SearchLeftmost(s: string, n: string)
    ensures Search(s) == Some(n) <==>
            exists p: nat | p <= |s| :: MentionedAt(s, p, n) && NoMentionBefore(s, p)
  {
    if Search(s) == Some(n) {
      var p := FirstMention(s, 0).value;
      MentionAtExact(s, p, n);
      MatcherSilentBefore(s, p);
    }
    if exists p: nat | p <= |s| :: MentionedAt(s, p, n) && NoMentionBefore(s, p) {
      var p: nat :| p <= |s| && MentionedAt(s, p, n) && NoMentionBefore(s, p);
      SearchFindsLeftmost(s, p, n);
    }
  }

  lemma SearchFindsLeftmost(s: string, p: nat, n: string)
    requires p <= |s| && MentionedAt(s, p, n) && NoMentionBefore(s, p)
    ensures Search(s) == Some(n)
  {
    MentionAtExact(s, p, n);
    var r := FirstMention(s, 0);
    assert r.Some? && r.value <= p;
    if r.value < p {
      var q := r.value;
      MentionAtExact(s, q, MentionAt(s, q).value);
      assert false;
    }
  }

  /** `Search` finds nothing exactly when the pattern matches nowhere. */
  lemma SearchNone(s: string)
    ensures Search(s).None? <==> NoMentionBefore(s, |s| + 1)
  {
    if Search(s).None? {
      MatcherSilentBefore(s, |s| + 1);
    } else {
      var p := FirstMention(s, 0).value;
      MentionAtExact(s, p, MentionAt(s, p).value);
    }
  }

  lemma MatcherSilentBefore(s: string, p: nat)
    requires p <= |s| + 1
    requires forall j | 0 <= j < p && j <= |s| :: MentionAt(s, j).None?
    ensures NoMentionBefore(s, p)
  {
    forall j: nat, n' | j < p ensures !MentionedAt(s, j, n') {
      if j <= |s| {
        MentionAtExact(s, j, n');
      }
    }
  }
}
