/**
  The regular expression `/Version: \d+\.\d+\.\d+.*\n/m` that the version-bump
  command uses to find the version header of the plugin manifest, with the
  ECMAScript RegExp semantics (section 22.2 of ECMA-262) it is run under:

  - `\d` is one of the ten ASCII digits;
  - `.` is any character except a LineTerminator (LF, CR, U+2028, U+2029),
    because the `s` flag is absent;
  - the `m` flag only affects `^` and `$`, and the pattern has neither, so a
    match may start anywhere, also in the middle of a line.

  `InPattern` is the language of the pattern, stated declaratively.
  `MatchAt` is a deterministic scanner for one start position, and
  `FirstMatch` the leftmost-match search that RegExpBuiltinExec performs for
  a RegExp without the `g` and `y` flags. The lemmas prove that the scanner
  returns exactly the spans of the language, so the backtracking of the
  real matcher has no other outcome to offer.
*/
module ManifestPattern {
  import opened Wrappers

  /** The literal text the pattern opens with. */
  const Prefix: string := "Version: "

  /** `\d` without the `u` and `i` flags. */
  predicate IsDigit(c: char) { '0' <= c <= '9' }

  /** The characters that `.` refuses without the `s` flag. */
  predicate IsLineTerminator(c: char) {
    c == '\n' || c == '\r' || c == '\U{2028}' || c == '\U{2029}'
  }

  predicate AllDigits(w: string, lo: int, hi: int)
    requires 0 <= lo <= hi <= |w|
  {
    forall k :: lo <= k < hi ==> IsDigit(w[k])
  }

  predicate NoTerminator(w: string, lo: int, hi: int)
    requires 0 <= lo <= hi <= |w|
  {
    forall k :: lo <= k < hi ==> !IsLineTerminator(w[k])
  }

  /**
    `w` splits as the pattern prescribes:
      w[..9]       == "Version: "
      w[9..p]      non-empty run of `\d`, then w[p]   == '.'
      w[p+1..q]    non-empty run of `\d`, then w[q]   == '.'
      w[q+1..r]    non-empty run of `\d`
      w[r..|w|-1]  any number of `.`,      then w[|w|-1] == '\n'
  */
  predicate Shape(w: string, p: int, q: int, r: int)
  {
    && |Prefix| < p && p + 1 < q && q + 1 < r && r < |w|
    && w[..|Prefix|] == Prefix
    && AllDigits(w, |Prefix|, p) && w[p] == '.'
    && AllDigits(w, p + 1, q) && w[q] == '.'
    && AllDigits(w, q + 1, r)
    && NoTerminator(w, r, |w| - 1) && w[|w| - 1] == '\n'
  }

  /** `w` is a word of the language of `Version: \d+\.\d+\.\d+.*\n`. */
  ghost predicate InPattern(w: string)
  {
    exists p, q, r :: Shape(w, p, q, r)
  }

  /** Some path of the matcher, started at `i`, matches exactly `s[i..j]`. */
  ghost predicate MatchesAt(s: string, i: int, j: int)
  {
    0 <= i <= j <= |s| && InPattern(s[i..j])
  }

  /** No match of `s` starts at `i`. */
  ghost predicate NoMatchAt(s: string, i: int)
  {
    forall j :: !MatchesAt(s, i, j)
  }

  /** No position of `s` starts a match at or after `k`. */
  ghost predicate NoMatchFrom(s: string, k: int)
  {
    forall i :: k <= i <= |s| ==> NoMatchAt(s, i)
  }

  /** No position of `s` starts a match at all. */
  ghost predicate NoMatch(s: string)
  {
    NoMatchFrom(s, 0)
  }

  /** `s[i..j]` is the leftmost match: a match, and no earlier position starts one. */
  ghost predicate Leftmost(s: string, i: int, j: int)
  {
    MatchesAt(s, i, j) && forall i' :: 0 <= i' < i ==> NoMatchAt(s, i')
  }

  /** The end of the maximal run of digits that starts at `k`. */
  function DigitRunEnd(s: string, k: nat): (e: nat)
    requires k <= |s|
    ensures k <= e <= |s|
    ensures e == |s| || !IsDigit(s[e])
    decreases |s| - k
  {
    if k < |s| && IsDigit(s[k]) then DigitRunEnd(s, k + 1) else k
  }

  /** The position of the first line terminator at or after `k`, or `|s|`. */
  function LineEnd(s: string, k: nat): (e: nat)
    requires k <= |s|
    ensures k <= e <= |s|
    ensures e == |s| || IsLineTerminator(s[e])
    decreases |s| - k
  {
    if k < |s| && !IsLineTerminator(s[k]) then LineEnd(s, k + 1) else k
  }

  /** `s[i..]` starts with the literal `Version: `. */
  predicate HasPrefixAt(s: string, i: nat)
  {
    i + |Prefix| <= |s| && s[i..i + |Prefix|] == Prefix
  }

  /**
    The end of the match that starts at `i`, if any. Each `\d+` followed by
    `\.` must stop at the first non-digit, and the third `\d+` together with
    `.*` runs to the first line terminator; the match succeeds only if that
    terminator is a line feed.
  */
  function MatchAt(s: string, i: nat): (m: Option<nat>)
    requires i <= |s|
    ensures m.Some? ==> i + |Prefix| + 6 <= m.value <= |s| && s[m.value - 1] == '\n'
  {
    if HasPrefixAt(s, i) then MatchNumbers(s, i + |Prefix|) else None
  }

  /** `\d+\.\d+\.\d+.*\n` from position `k`: the end of the match, if any. */
  function MatchNumbers(s: string, k: nat): (m: Option<nat>)
    requires k <= |s|
    ensures m.Some? ==> k + 6 <= m.value <= |s| && s[m.value - 1] == '\n'
  {
    var p := DigitRunEnd(s, k);
    if p == k || p == |s| || s[p] != '.' then None
    else
      var q := DigitRunEnd(s, p + 1);
      if q == p + 1 || q == |s| || s[q] != '.' then None
      else MatchLastNumber(s, q + 1)
  }

  /** `\d+.*\n` from position `k`: the end of the match, if any. */
  function MatchLastNumber(s: string, k: nat): (m: Option<nat>)
    requires k <= |s|
    ensures m.Some? ==> k + 2 <= m.value <= |s| && s[m.value - 1] == '\n'
  {
    var r := DigitRunEnd(s, k);
    if r == k then None
    else
      var t := LineEnd(s, r);
      if t < |s| && s[t] == '\n' then Some(t + 1) else None
  }

  /** `MatchAt` fails at every start position in `[lo, hi)`. */
  predicate ScanFails(s: string, lo: nat, hi: nat)
    requires hi <= |s| + 1
  {
    forall i :: lo <= i < hi ==> MatchAt(s, i).None?
  }

  /** The first start position at or after `k` where a match succeeds, with its end. */
  function FirstMatchFrom(s: string, k: nat): (m: Option<(nat, nat)>)
    requires k <= |s|
    ensures m.Some? ==> k <= m.value.0 <= |s| && MatchAt(s, m.value.0) == Some(m.value.1)
    ensures m.Some? ==> ScanFails(s, k, m.value.0)
    ensures m.None? ==> ScanFails(s, k, |s| + 1)
    decreases |s| - k
  {
    var here := MatchAt(s, k);
    if here.Some? then Some((k, here.value))
    else if k == |s| then None
    else FirstMatchFrom(s, k + 1)
  }

  /** The leftmost match of the pattern in `s`, as RegExpBuiltinExec finds it. */
  function FirstMatch(s: string): Option<(nat, nat)>
  {
    FirstMatchFrom(s, 0)
  }

  // ---------------------------------------------------------------------
  // The scanner agrees with the language.
  // ---------------------------------------------------------------------

  /** Everything the run skips over is a digit. */
  lemma {:induction false} DigitRunEndDigits(s: string, k: nat)
    requires k <= |s|
    ensures AllDigits(s, k, DigitRunEnd(s, k))
    decreases |s| - k
  {
    if k < |s| && IsDigit(s[k]) {
      DigitRunEndDigits(s, k + 1);
    }
  }

  /** Nothing `LineEnd` skips over is a line terminator. */
  lemma {:induction false} LineEndNoTerminator(s: string, k: nat)
    requires k <= |s|
    ensures NoTerminator(s, k, LineEnd(s, k))
    decreases |s| - k
  {
    if k < |s| && !IsLineTerminator(s[k]) {
      LineEndNoTerminator(s, k + 1);
    }
  }

  lemma {:induction false} DigitRunEndAt(s: string, k: nat, e: nat)
    requires k <= e < |s|
    requires AllDigits(s, k, e) && !IsDigit(s[e])
    ensures DigitRunEnd(s, k) == e
    decreases e - k
  {
    if k < e {
      DigitRunEndAt(s, k + 1, e);
    }
  }

  lemma {:induction false} DigitRunEndCovers(s: string, k: nat, e: nat)
    requires k <= e <= |s|
    requires AllDigits(s, k, e)
    ensures DigitRunEnd(s, k) >= e
    decreases e - k
  {
    if k < e {
      DigitRunEndCovers(s, k + 1, e);
    }
  }

  lemma {:induction false} LineEndAt(s: string, k: nat, e: nat)
    requires k <= e < |s|
    requires NoTerminator(s, k, e) && IsLineTerminator(s[e])
    ensures LineEnd(s, k) == e
    decreases e - k
  {
    if k < e {
      LineEndAt(s, k + 1, e);
    }
  }

  /**
    `Shape` read in positions of `s`, for the part after `Version: `: the
    three numbers occupy `s[k..p]`, `s[p+1..q]`, `s[q+1..r]` and the line
    ends with the line feed at `s[j-1]`.
  */
  predicate NumbersAt(s: string, k: int, p: int, q: int, r: int, j: int)
  {
    && 0 <= k < p && p + 1 < q && q + 1 < r < j <= |s|
    && AllDigits(s, k, p) && s[p] == '.'
    && AllDigits(s, p + 1, q) && s[q] == '.'
    && AllDigits(s, q + 1, r)
    && NoTerminator(s, r, j - 1) && s[j - 1] == '\n'
  }

  /** A match at `i` is `Version: ` followed by the numbers, in positions of `s`. */
  lemma ShapeInWindow(s: string, i: int, j: int, p: int, q: int, r: int)
    requires 0 <= i <= j <= |s|
    ensures Shape(s[i..j], p - i, q - i, r - i) <==>
      HasPrefixAt(s, i) && NumbersAt(s, i + |Prefix|, p, q, r, j)
  {
    var w := s[i..j];
    assert forall m :: i <= m < j ==> s[m] == w[m - i];
    if i + |Prefix| <= j {
      assert w[..|Prefix|] == s[i..i + |Prefix|];
    }
  }

  /** What `MatchLastNumber` accepts is a digit run and the rest of one line. */
  lemma MatchLastNumberSound(s: string, k: nat)
    requires k <= |s| && MatchLastNumber(s, k).Some?
    ensures var r := DigitRunEnd(s, k); var j := MatchLastNumber(s, k).value;
      k < r < j && AllDigits(s, k, r) && NoTerminator(s, r, j - 1)
  {
    DigitRunEndDigits(s, k);
    LineEndNoTerminator(s, DigitRunEnd(s, k));
  }

  /** What `MatchNumbers` accepts has the three numbers of the pattern. */
  lemma MatchNumbersSound(s: string, k: nat)
    requires k <= |s| && MatchNumbers(s, k).Some?
    ensures exists p, q, r :: NumbersAt(s, k, p, q, r, MatchNumbers(s, k).value)
  {
    var p := DigitRunEnd(s, k);
    var q := DigitRunEnd(s, p + 1);
    DigitRunEndDigits(s, k);
    DigitRunEndDigits(s, p + 1);
    MatchLastNumberSound(s, q + 1);
    assert NumbersAt(s, k, p, q, DigitRunEnd(s, q + 1), MatchNumbers(s, k).value);
  }

  /** Whatever `MatchAt` returns is a word of the language. */
  lemma MatchAtSound(s: string, i: nat)
    requires i <= |s|
    ensures MatchAt(s, i).Some? ==> MatchesAt(s, i, MatchAt(s, i).value)
  {
    if MatchAt(s, i).Some? {
      var j := MatchAt(s, i).value;
      MatchNumbersSound(s, i + |Prefix|);
      var p, q, r :| NumbersAt(s, i + |Prefix|, p, q, r, j);
      ShapeInWindow(s, i, j, p, q, r);
    }
  }

  /** The last digit run and the rest of the line, in positions of `s`. */
  lemma MatchLastNumberComplete(s: string, k: nat, r: nat, j: nat)
    requires k < r < j <= |s|
    requires AllDigits(s, k, r) && NoTerminator(s, r, j - 1) && s[j - 1] == '\n'
    ensures MatchLastNumber(s, k) == Some(j)
  {
    DigitRunEndCovers(s, k, r);
    DigitRunEndDigits(s, k);
    var c := DigitRunEnd(s, k);
    assert c <= j - 1;
    LineEndAt(s, c, j - 1);
  }

  /** The three numbers and the rest of the line, in positions of `s`. */
  lemma MatchNumbersComplete(s: string, k: nat, p: nat, q: nat, r: nat, j: nat)
    requires NumbersAt(s, k, p, q, r, j)
    ensures MatchNumbers(s, k) == Some(j)
  {
    DigitRunEndAt(s, k, p);
    DigitRunEndAt(s, p + 1, q);
    MatchLastNumberComplete(s, q + 1, r, j);
  }

  /** Every word of the language that starts at `i` is what `MatchAt` returns. */
  lemma MatchAtComplete(s: string, i: nat, j: nat)
    requires MatchesAt(s, i, j)
    ensures MatchAt(s, i) == Some(j)
  {
    var p, q, r :| Shape(s[i..j], p, q, r);
    ShapeInWindow(s, i, j, p + i, q + i, r + i);
    MatchNumbersComplete(s, i + |Prefix|, p + i, q + i, r + i, j);
  }

  /** `MatchAt` and the language agree: both directions. */
  lemma MatchAtCorrect(s: string, i: nat, j: nat)
    requires i <= |s|
    ensures MatchAt(s, i) == Some(j) <==> MatchesAt(s, i, j)
  {
    MatchAtSound(s, i);
    if MatchesAt(s, i, j) {
      MatchAtComplete(s, i, j);
    }
  }

  /** At a fixed start the pattern has at most one match: backtracking cannot yield another end. */
  lemma MatchEndUnique(s: string, i: int, j1: int, j2: int)
    requires MatchesAt(s, i, j1) && MatchesAt(s, i, j2)
    ensures j1 == j2
  {
    MatchAtComplete(s, i, j1);
    MatchAtComplete(s, i, j2);
  }

  /** Where `MatchAt` fails, no match starts. */
  lemma NoMatchWhereScanFails(s: string, i: nat)
    requires i <= |s| && MatchAt(s, i).None?
    ensures NoMatchAt(s, i)
  {
    forall j | MatchesAt(s, i, j) ensures false {
      MatchAtComplete(s, i, j);
    }
  }

  /** Where no match starts, `MatchAt` fails. */
  lemma ScanFailsWhereNoMatch(s: string, i: nat)
    requires i <= |s| && NoMatchAt(s, i)
    ensures MatchAt(s, i).None?
  {
    MatchAtSound(s, i);
  }

  /** `FirstMatch` finds exactly the leftmost match, and finds none exactly when there is none. */
  lemma FirstMatchCorrect(s: string)
    ensures FirstMatch(s).None? <==> NoMatch(s)
    ensures FirstMatch(s).Some? ==> Leftmost(s, FirstMatch(s).value.0, FirstMatch(s).value.1)
  {
    var m := FirstMatch(s);
    if m.None? {
      forall i | 0 <= i <= |s| ensures NoMatchAt(s, i) {
        NoMatchWhereScanFails(s, i);
      }
    } else {
      var (i, j) := m.value;
      MatchAtSound(s, i);
      forall i' | 0 <= i' < i ensures NoMatchAt(s, i') {
        NoMatchWhereScanFails(s, i');
      }
      assert !NoMatchAt(s, i);
    }
  }

  /** The scan from `k` stops at the first position where `MatchAt` succeeds. */
  lemma {:induction false} FirstMatchFromStops(s: string, k: nat, i: nat, j: nat)
    requires k <= i <= |s| && ScanFails(s, k, i) && MatchAt(s, i) == Some(j)
    ensures FirstMatchFrom(s, k) == Some((i, j))
    decreases i - k
  {
    if k < i {
      assert MatchAt(s, k).None?;
      assert ScanFails(s, k + 1, i);
      FirstMatchFromStops(s, k + 1, i, j);
    }
  }

  /** The leftmost match is unique, so `FirstMatch` is the only answer a matcher may give. */
  lemma LeftmostIsFirstMatch(s: string, i: int, j: int)
    requires Leftmost(s, i, j)
    ensures FirstMatch(s) == Some((i, j))
  {
    MatchAtComplete(s, i, j);
    forall i' | 0 <= i' < i ensures MatchAt(s, i').None? {
      ScanFailsWhereNoMatch(s, i');
    }
    FirstMatchFromStops(s, 0, i, j);
  }

  // ---------------------------------------------------------------------
  // Consequences of the pattern's shape.
  // ---------------------------------------------------------------------

  /** A word of the language lies on one line and ends with a line feed. */
  lemma {:induction false} InPatternOneLine(w: string)
    requires InPattern(w)
    ensures |w| >= |Prefix| + 6 && w[|w| - 1] == '\n'
    ensures NoTerminator(w, 0, |w| - 1)
    ensures w[0] == 'V' && IsDigit(w[|Prefix|])
  {
    var p, q, r :| Shape(w, p, q, r);
    assert w[..|Prefix|] == Prefix;
    forall k | 0 <= k < |w| - 1 ensures !IsLineTerminator(w[k]) {
      if k < |Prefix| {
        assert w[k] == Prefix[k];
      } else if k < r {
        assert IsDigit(w[k]) || w[k] == '.';
      }
    }
    assert w[0] == Prefix[0];
  }

  /** Inside a match, the only line terminator is the final line feed. */
  lemma TerminatorEndsMatch(w: string, n: int)
    requires InPattern(w) && 0 <= n < |w| && IsLineTerminator(w[n])
    ensures n == |w| - 1
  {
    InPatternOneLine(w);
  }

  /** A version line ended by CR LF does not match where it starts: the CR stops `.*`. */
  lemma CrLfLineDoesNotMatch(s: string, i: nat, t: nat)
    requires i <= t < |s| && s[t] == '\r'
    requires NoTerminator(s, i, t)
    ensures NoMatchAt(s, i)
  {
    forall j | MatchesAt(s, i, j) ensures false {
      var w := s[i..j];
      InPatternOneLine(w);
    }
  }

  /** A final line without a trailing line feed does not match where it starts. */
  lemma UnterminatedLineDoesNotMatch(s: string, i: nat)
    requires i <= |s|
    requires NoTerminator(s, i, |s|)
    ensures NoMatchAt(s, i)
  {
    forall j | MatchesAt(s, i, j) ensures false {
      var w := s[i..j];
      InPatternOneLine(w);
    }
  }

  /** A match at `i` needs `Version: ` there, so it needs a `V` at `i`. */
  lemma NoMatchWithoutV(s: string, i: int)
    requires 0 <= i <= |s| && (i == |s| || s[i] != 'V')
    ensures NoMatchAt(s, i)
  {
    forall j | MatchesAt(s, i, j) ensures false {
      InPatternOneLine(s[i..j]);
    }
  }

  /**
    The pattern is not anchored: whether `s[i..j]` matches depends on those
    characters alone, so any text may stand in front of it (for example the
    ` * ` of a doc comment) and the match moves along with it.
  */
  lemma MatchNotAnchored(u: string, s: string, i: int, j: int)
    requires 0 <= i <= j <= |s|
    ensures MatchesAt(s, i, j) <==> MatchesAt(u + s, |u| + i, |u| + j)
  {
    assert (u + s)[|u| + i..|u| + j] == s[i..j];
  }
}
