/** Character-level text operations the scraper relies on: the regular
    expression classes `\d` and `\s` and their greedy runs, Python's
    `str.strip()`, the substring test `needle in haystack`, and
    `str.split(sep)` together with its inverse `sep.join(parts)`. */
module Text {

  /** The two character classes of the scraper's patterns. Both are ASCII
      only: `\d` is `0`-`9`, and `\s` is the six ASCII whitespace characters,
      which are also what `str.strip()` removes in this model. */
  datatype CharClass = Digit | Space

  predicate InClass(c: char, k: CharClass) {
    match k
    case Digit => '0' <= c <= '9'
    case Space =>
      c == ' ' || c == '\t' || c == '\n' || c == '\r' || c == '\U{B}' || c == '\U{C}'
  }

  predicate AllIn(s: string, k: CharClass) {
    forall i | 0 <= i < |s| :: InClass(s[i], k)
  }

  /** A run of class `k` cannot be extended past position `j`. */
  predicate StopsAt(s: string, j: nat, k: CharClass) {
    j == |s| || (j < |s| && !InClass(s[j], k))
  }

  // ---------------------------------------------------------------------
  // Greedy runs
  // ---------------------------------------------------------------------

  /** Where a greedy `\d*` or `\s*` that starts at `i` stops: the end of the
      longest run of class-`k` characters beginning at `i`. */
  function RunEnd(s: string, i: nat, k: CharClass): (j: nat)
    requires i <= |s|
    ensures i <= j <= |s|
    ensures AllIn(s[i..j], k)
    ensures StopsAt(s, j, k)
    decreases |s| - i
  {
    if i < |s| && InClass(s[i], k) then
      var j := RunEnd(s, i + 1, k);
      assert s[i..j] == [s[i]] + s[i + 1..j];
      j
    else
      i
  }

  /** A run that is all class `k` and cannot be extended is the greedy one. */
  lemma RunEndUnique(s: string, i: nat, j: nat, k: CharClass)
    requires i <= j <= |s|
    requires AllIn(s[i..j], k)
    requires StopsAt(s, j, k)
    ensures RunEnd(s, i, k) == j
  {
    var r := RunEnd(s, i, k);
    SliceAllIn(s, i, j, k);
    SliceAllIn(s, i, r, k);
  }

  /** Where a run of class-`k` characters that ends at `j` begins, looking
      no further left than `lo`: the longest such run within `s[lo..j]`. */
  function RunStart(s: string, lo: nat, j: nat, k: CharClass): (i: nat)
    requires lo <= j <= |s|
    ensures lo <= i <= j
    ensures AllIn(s[i..j], k)
    ensures i == lo || !InClass(s[i - 1], k)
    decreases j - lo
  {
    if lo < j && InClass(s[j - 1], k) then
      var i := RunStart(s, lo, j - 1, k);
      assert s[i..j] == s[i..j - 1] + [s[j - 1]];
      i
    else
      j
  }

  lemma RunStartUnique(s: string, lo: nat, i: nat, j: nat, k: CharClass)
    requires lo <= i <= j <= |s|
    requires AllIn(s[i..j], k)
    requires i == lo || !InClass(s[i - 1], k)
    ensures RunStart(s, lo, j, k) == i
  {
    var r := RunStart(s, lo, j, k);
    SliceAllIn(s, i, j, k);
    SliceAllIn(s, r, j, k);
  }

  /** `AllIn` on a slice, read position by position in the whole string. */
  lemma SliceAllIn(s: string, i: nat, j: nat, k: CharClass)
    requires i <= j <= |s|
    requires AllIn(s[i..j], k)
    ensures forall t | i <= t < j :: InClass(s[t], k)
  {
    forall t | i <= t < j ensures InClass(s[t], k) {
      assert s[i..j][t - i] == s[t];
    }
  }

  // ---------------------------------------------------------------------
  // str.strip()
  // ---------------------------------------------------------------------

  /** Neither end of `s` is whitespace. */
  predicate Trimmed(s: string) {
    |s| == 0 || (!InClass(s[0], Space) && !InClass(s[|s| - 1], Space))
  }

  /** Python's `s.strip()`: `s` without its leading and trailing whitespace. */
  function Strip(s: string): (r: string)
    ensures Trimmed(r)
    ensures exists i :: 0 <= i <= |s| - |r| && s[i..i + |r|] == r
                        && AllIn(s[..i], Space) && AllIn(s[i + |r|..], Space)
  {
    var i := RunEnd(s, 0, Space);
    var j := RunStart(s, i, |s|, Space);
    assert s[..i] == s[0..i];
    assert s[j..] == s[j..|s|];
    assert s[i..i + (j - i)] == s[i..j];
    s[i..j]
  }

  /** The only way to see `s` as whitespace, a trimmed middle and whitespace
      is the one `Strip` finds: the middle is `Strip(s)`. */
  lemma StripCharacterization(a: string, m: string, b: string)
    requires AllIn(a, Space) && AllIn(b, Space) && Trimmed(m)
    ensures Strip(a + m + b) == m
  {
    var s := a + m + b;
    assert s[0..|a|] == a;
    assert s[|a|..|a| + |m|] == m;
    assert s[|a| + |m|..] == b;
    if |m| == 0 {
      assert s == a + b;
      assert AllIn(s[0..|s|], Space) by {
        forall t | 0 <= t < |s| ensures InClass(s[t], Space) {
          if t < |a| { assert s[t] == a[t]; } else { assert s[t] == b[t - |a|]; }
        }
      }
      RunEndUnique(s, 0, |s|, Space);
      RunStartUnique(s, |s|, |s|, |s|, Space);
    } else {
      assert s[|a|] == m[0];
      RunEndUnique(s, 0, |a|, Space);
      assert s[|a| + |m| - 1] == m[|m| - 1];
      RunStartUnique(s, |a|, |a| + |m|, |s|, Space);
    }
  }

  /** Stripping twice is stripping once. */
  lemma StripIdempotent(s: string)
    ensures Strip(Strip(s)) == Strip(s)
  {
    var m := Strip(s);
    assert m == [] + m + [];
    StripCharacterization([], m, []);
  }

  // ---------------------------------------------------------------------
  // Substring test
  // ---------------------------------------------------------------------

  /** Python's `needle in haystack` on strings. */
  predicate Contains(haystack: string, needle: string)
    decreases |haystack|
  {
    needle <= haystack || (|haystack| > 0 && Contains(haystack[1..], needle))
  }

  /** `needle` occurs in `haystack` starting at position `i`. */
  predicate OccursAt(haystack: string, needle: string, i: nat) {
    i + |needle| <= |haystack| && haystack[i..i + |needle|] == needle
  }

  /** `needle in haystack` holds exactly when `needle` occurs at some
      position of `haystack` (the empty needle occurs everywhere). */
  lemma ContainsAt(haystack: string, needle: string)
    ensures Contains(haystack, needle) <==>
            exists i: nat :: OccursAt(haystack, needle, i)
  {
    if Contains(haystack, needle) {
      var i := ContainsWitness(haystack, needle);
    }
    if exists i: nat :: OccursAt(haystack, needle, i) {
      var i: nat :| OccursAt(haystack, needle, i);
      OccursContains(haystack, needle, i);
    }
  }

  /** Where the search behind `needle in haystack` succeeds. */
  lemma {:induction false} ContainsWitness(haystack: string, needle: string) returns (i: nat)
    requires Contains(haystack, needle)
    ensures OccursAt(haystack, needle, i)
    decreases |haystack|
  {
    if needle <= haystack {
      i := 0;
      assert haystack[0..|needle|] == needle;
    } else {
      var j := ContainsWitness(haystack[1..], needle);
      i := j + 1;
      assert haystack[i..i + |needle|] == haystack[1..][j..j + |needle|];
    }
  }

  /** An occurrence anywhere is found by the search behind `needle in haystack`. */
  lemma {:induction false} OccursContains(haystack: string, needle: string, i: nat)
    requires OccursAt(haystack, needle, i)
    ensures Contains(haystack, needle)
    decreases i
  {
    if i == 0 {
      assert haystack[..|needle|] == haystack[0..|needle|];
    } else {
      assert haystack[1..][i - 1..i - 1 + |needle|] == haystack[i..i + |needle|];
      OccursContains(haystack[1..], needle, i - 1);
    }
  }

  // ---------------------------------------------------------------------
  // str.split(sep) and sep.join(parts)
  // ---------------------------------------------------------------------

  /** Python's `s.split(sep)` for a one-character separator: the pieces
      between separators, empty pieces included. */
  function Split(s: string, sep: char): (parts: seq<string>)
    ensures |parts| >= 1
    decreases |s|
  {
    if |s| == 0 then
      [""]
    else
      var rest := Split(s[1..], sep);
      if s[0] == sep then
        [""] + rest
      else
        [[s[0]] + rest[0]] + rest[1..]
  }

  /** A string splits into two or more pieces exactly when it contains the
      separator, and no piece contains the separator. */
  lemma {:induction false} SplitPieces(s: string, sep: char)
    ensures |Split(s, sep)| >= 2 <==> sep in s
    ensures forall p | p in Split(s, sep) :: sep !in p
    decreases |s|
  {
    if |s| > 0 {
      var rest := Split(s[1..], sep);
      SplitPieces(s[1..], sep);
      assert s == [s[0]] + s[1..];
      if s[0] != sep {
        assert rest[0] in rest;
        assert forall p | p in rest[1..] :: p in rest;
      }
    }
  }

  /** Python's `sep.join(parts)`. */
  function Join(parts: seq<string>, sep: char): string
    requires |parts| >= 1
    decreases |parts|
  {
    if |parts| == 1 then parts[0] else parts[0] + [sep] + Join(parts[1..], sep)
  }

  /** Joining the pieces of a split gives the string back. */
  lemma {:induction false} SplitJoin(s: string, sep: char)
    ensures Join(Split(s, sep), sep) == s
    decreases |s|
  {
    if |s| > 0 {
      var rest := Split(s[1..], sep);
      SplitJoin(s[1..], sep);
      if s[0] != sep {
        if |rest| > 1 {
          assert rest[1..][1..] == rest[2..];
          assert Join(rest, sep) == rest[0] + [sep] + Join(rest[1..], sep);
        }
        assert s == [s[0]] + s[1..];
      }
    }
  }

  /** A separator splits a string into the pieces before it followed by
      the pieces after it. */
  lemma {:induction false} SplitAppend(a: string, b: string, sep: char)
    ensures Split(a + [sep] + b, sep) == Split(a, sep) + Split(b, sep)
    decreases |a|
  {
    var s := a + [sep] + b;
    if |a| == 0 {
      assert s == [sep] + b;
      assert s[1..] == b;
    } else {
      assert s[1..] == a[1..] + [sep] + b;
      SplitAppend(a[1..], b, sep);
      if a[0] != sep {
        SplitConsStep(a, b, sep);
      }
    }
  }

  lemma SplitConsStep(a: string, b: string, sep: char)
    requires |a| > 0 && a[0] != sep
    requires Split(a[1..] + [sep] + b, sep) == Split(a[1..], sep) + Split(b, sep)
    ensures Split(a + [sep] + b, sep) == Split(a, sep) + Split(b, sep)
  {
    var t := a[1..] + [sep] + b;
    var ra, rb := Split(a[1..], sep), Split(b, sep);
    assert Split(a + [sep] + b, sep) == [[a[0]] + (ra + rb)[0]] + (ra + rb)[1..] by {
      assert a + [sep] + b == [a[0]] + t;
      SplitCons(a[0], t, sep);
    }
    assert Split(a, sep) == [[a[0]] + ra[0]] + ra[1..] by {
      assert a == [a[0]] + a[1..];
      SplitCons(a[0], a[1..], sep);
    }
    ConsDistributes([a[0]], ra, rb);
  }

  lemma ConsDistributes(c: string, ra: seq<string>, rb: seq<string>)
    requires |ra| >= 1
    ensures [c + (ra + rb)[0]] + (ra + rb)[1..] == ([c + ra[0]] + ra[1..]) + rb
  {
    assert (ra + rb)[0] == ra[0];
    assert (ra + rb)[1..] == ra[1..] + rb;
  }

  /** A character other than the separator joins the first piece. */
  lemma SplitCons(c: char, t: string, sep: char)
    requires c != sep
    ensures Split([c] + t, sep) == [[c] + Split(t, sep)[0]] + Split(t, sep)[1..]
  {
    assert ([c] + t)[0] == c;
    assert ([c] + t)[1..] == t;
  }

  /** A string without the separator is a single piece. */
  lemma {:induction false} SplitSingle(a: string, sep: char)
    requires sep !in a
    ensures Split(a, sep) == [a]
    decreases |a|
  {
    if |a| > 0 {
      assert a[0] in a;
      assert forall c | c in a[1..] :: c in a;
      SplitSingle(a[1..], sep);
      assert [a[0]] + a[1..] == a;
    }
  }

  /** Splitting a join of separator-free pieces gives the pieces back. */
  lemma {:induction false} JoinSplit(parts: seq<string>, sep: char)
    requires |parts| >= 1
    requires forall p | p in parts :: sep !in p
    ensures Split(Join(parts, sep), sep) == parts
    decreases |parts|
  {
    assert parts[0] in parts;
    SplitSingle(parts[0], sep);
    if |parts| > 1 {
      var rest := parts[1..];
      assert forall p | p in rest :: p in parts;
      JoinSplit(rest, sep);
      assert Join(parts, sep) == parts[0] + [sep] + Join(rest, sep);
      SplitAppend(parts[0], Join(rest, sep), sep);
      assert parts == [parts[0]] + rest;
    }
  }
}
