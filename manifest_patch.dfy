/**
  The manifest version patch of the version-bump command:
  `contents.replace(/Version: \d+\.\d+\.\d+.*\n/m, 'Version: XX.XX\n')`.

  `String.prototype.replace` with a RegExp that has no `g` flag (section
  22.1.3 of ECMA-262) replaces the leftmost match only, and a replacement
  string without `$` is inserted as it is. The read-patch-write of the
  manifest sits in a try/catch that logs and swallows any file error, which
  `UpdateManifest` models as a two-outcome result.
*/
module ManifestPatch {
  import opened Wrappers
  import opened ManifestPattern

  /** The text that takes the place of the matched version line. */
  const Replacement: string := "Version: XX.XX\n"

  /** The manifest contents after the single, leftmost replacement. */
  function Patch(s: string): string
  {
    var m := FirstMatch(s);
    if m.None? then s else s[..m.value.0] + Replacement + s[m.value.1..]
  }

  /** What became of the manifest file in one run. */
  datatype ManifestUpdate = Patched(contents: string) | Skipped

  /**
    The try/catch around read, replace and write: `read` is what `readFile`
    delivered (None when it threw) and `written` whether `writeFile`
    succeeded. Either failure is logged and the run goes on, so the outcome
    is never an abort.
  */
  function UpdateManifest(read: Option<string>, written: bool): (u: ManifestUpdate)
    ensures u.Patched? <==> read.Some? && written
    ensures u.Patched? ==> u.contents == Patch(read.value)
    ensures u.Patched? ==> (u.contents == read.value <==> NoMatch(read.value))
  {
    if read.Some? && written then
      PatchUnchangedIff(read.value);
      Patched(Patch(read.value))
    else Skipped
  }

  // ---------------------------------------------------------------------
  // Lemmas about Patch
  // ---------------------------------------------------------------------

  /** The characters of `s[..i] + Replacement + s[j..]`, position by position. */
  lemma SpliceAt(s: string, i: int, j: int)
    requires 0 <= i <= j <= |s|
    ensures var t := s[..i] + Replacement + s[j..];
      && |t| == |s| - (j - i) + |Replacement|
      && (forall m :: 0 <= m < i ==> t[m] == s[m])
      && (forall m :: i <= m < i + |Replacement| ==> t[m] == Replacement[m - i])
      && (forall m :: i + |Replacement| <= m < |t| ==> t[m] == s[m - i - |Replacement| + j])
  {
  }

  /** The inserted line has no digit, one `V` at its start, and ends with its only line feed. */
  lemma ReplacementChars()
    ensures forall m :: 0 <= m < |Replacement| ==> !IsDigit(Replacement[m])
    ensures forall m :: 0 < m < |Replacement| ==> Replacement[m] != 'V'
    ensures Replacement[|Replacement| - 1] == '\n'
  {
  }

  /** The leftmost match, and only it, is replaced: text before and after it is kept. */
  lemma PatchReplacesLeftmost(s: string, i: int, j: int)
    requires Leftmost(s, i, j)
    ensures Patch(s) == s[..i] + Replacement + s[j..]
    ensures Patch(s)[..i] == s[..i] && Patch(s)[i + |Replacement|..] == s[j..]
  {
    LeftmostIsFirstMatch(s, i, j);
  }

  /** Contents without a match are written back as they were read. */
  lemma PatchWithoutMatch(s: string)
    requires NoMatch(s)
    ensures Patch(s) == s
  {
    FirstMatchCorrect(s);
  }

  /** Putting the replacement in place of a match always changes the text. */
  lemma ReplacementDiffers(s: string, i: int, j: int)
    requires MatchesAt(s, i, j)
    ensures s[..i] + Replacement + s[j..] != s
  {
    var t := s[..i] + Replacement + s[j..];
    SpliceAt(s, i, j);
    InPatternOneLine(s[i..j]);
    if |t| == |s| {
      assert s[i + |Prefix|] == s[i..j][|Prefix|];
      assert t[i + |Prefix|] == 'X';
    }
  }

  /**
    The patch changes the contents exactly when there is a match: the
    replacement never equals the text it replaces, because `X` is not a
    digit.
  */
  lemma PatchUnchangedIff(s: string)
    ensures Patch(s) == s <==> NoMatch(s)
  {
    FirstMatchCorrect(s);
    if FirstMatch(s).Some? {
      ReplacementDiffers(s, FirstMatch(s).value.0, FirstMatch(s).value.1);
    }
  }

  /**
    A match of the patched text that starts before the inserted line stops
    at its line feed at the latest, and its third number starts before it.
  */
  lemma MatchIntoReplacement(s: string, i: int, j: int, k: int, j': int)
    requires 0 <= i <= j <= |s| && k < i < j'
    requires MatchesAt(s[..i] + Replacement + s[j..], k, j')
    ensures j' <= i + |Replacement|
    ensures exists p, q, r :: k + q + 2 <= i && Shape((s[..i] + Replacement + s[j..])[k..j'], p, q, r)
  {
    var t := s[..i] + Replacement + s[j..];
    SpliceAt(s, i, j);
    ReplacementChars();
    var w' := t[k..j'];
    if i + |Replacement| - 1 < j' {
      TerminatorEndsMatch(w', i + |Replacement| - 1 - k);
    }
    var p, q, r :| Shape(w', p, q, r);
    assert IsDigit(w'[q + 1]) && w'[q + 1] == t[k + q + 1];
  }

  /**
    A match of the patched text that starts before the inserted line and
    runs into it: the original text matched at the same place, up to the
    end of the span that was replaced.
  */
  lemma MatchAcrossReplacement(s: string, i: int, j: int, k: int, j': int)
    requires MatchesAt(s, i, j) && k < i < j'
    requires MatchesAt(s[..i] + Replacement + s[j..], k, j')
    ensures MatchesAt(s, k, j)
  {
    var t := s[..i] + Replacement + s[j..];
    MatchIntoReplacement(s, i, j, k, j');
    SpliceAt(s, i, j);
    var w' := t[k..j'];
    var p, q, r :| k + q + 2 <= i && Shape(w', p, q, r);
    InPatternOneLine(w');
    InPatternOneLine(s[i..j]);
    // The same three numbers start the line at k in `s`, and the match of
    // `s` at i supplies a line feed with no terminator before it.
    var w := s[k..j];
    assert forall m :: 0 <= m < i - k ==> w[m] == w'[m];
    assert w[..|Prefix|] == w'[..|Prefix|];
    assert NoTerminator(w, q + 2, |w| - 1) by {
      forall m | q + 2 <= m < |w| - 1 ensures !IsLineTerminator(w[m]) {
        if k + m < i {
          assert w[m] == w'[m];
        } else {
          assert w[m] == s[i..j][k + m - i];
        }
      }
    }
    assert w[|w| - 1] == s[i..j][j - 1 - i];
    assert Shape(w, p, q, q + 2);
  }

  /** In the patched text, no match starts before the inserted line. */
  lemma NoMatchBeforeReplacement(s: string, i: int, j: int, k: int)
    requires Leftmost(s, i, j) && k < i
    ensures NoMatchAt(s[..i] + Replacement + s[j..], k)
  {
    var t := s[..i] + Replacement + s[j..];
    forall j' | MatchesAt(t, k, j') ensures false {
      assert NoMatchAt(s, k);
      if j' <= i {
        assert t[k..j'] == s[k..j'];
        assert MatchesAt(s, k, j');
      } else {
        MatchAcrossReplacement(s, i, j, k, j');
      }
    }
  }

  /** In the patched text, no match starts inside the inserted line. */
  lemma NoMatchInReplacement(s: string, i: int, j: int, k: int)
    requires 0 <= i <= j <= |s|
    requires i <= k < i + |Replacement|
    ensures NoMatchAt(s[..i] + Replacement + s[j..], k)
  {
    var t := s[..i] + Replacement + s[j..];
    SpliceAt(s, i, j);
    ReplacementChars();
    forall j' | MatchesAt(t, k, j') ensures false {
      InPatternOneLine(t[k..j']);
    }
  }

  /** A match after the inserted line is a match of the original text after the replaced span. */
  lemma MatchAfterReplacement(s: string, i: int, j: int, k: int, j': int)
    requires 0 <= i <= j <= |s|
    requires i + |Replacement| <= k && MatchesAt(s[..i] + Replacement + s[j..], k, j')
    ensures MatchesAt(s, k - i - |Replacement| + j, j' - i - |Replacement| + j)
  {
    var t := s[..i] + Replacement + s[j..];
    SpliceAt(s, i, j);
    var d := j - i - |Replacement|;
    assert t[k..j'] == s[k + d..j' + d];
  }

  /** A match of the original text after the replaced span survives the patch, shifted. */
  lemma MatchSurvivesReplacement(s: string, i: int, j: int, k: int, j': int)
    requires 0 <= i <= j <= k && MatchesAt(s, k, j')
    ensures MatchesAt(s[..i] + Replacement + s[j..], k + i + |Replacement| - j, j' + i + |Replacement| - j)
  {
    var t := s[..i] + Replacement + s[j..];
    SpliceAt(s, i, j);
    var d := i + |Replacement| - j;
    assert t[k + d..j' + d] == s[k..j'];
  }

  /** With no match after the replaced span, the patched text has no match left. */
  lemma PatchedHasNoMatch(s: string, i: int, j: int)
    requires Leftmost(s, i, j) && NoMatchFrom(s, j)
    ensures NoMatch(s[..i] + Replacement + s[j..])
  {
    var t := s[..i] + Replacement + s[j..];
    SpliceAt(s, i, j);
    forall k | 0 <= k <= |t| ensures NoMatchAt(t, k) {
      if k < i {
        NoMatchBeforeReplacement(s, i, j, k);
      } else if k < i + |Replacement| {
        NoMatchInReplacement(s, i, j, k);
      } else {
        forall j' | MatchesAt(t, k, j') ensures false {
          assert NoMatchAt(s, k - i - |Replacement| + j);
          MatchAfterReplacement(s, i, j, k, j');
        }
      }
    }
  }

  /** A match after the replaced span is still a match of the patched text. */
  lemma PatchedKeepsLaterMatch(s: string, i: int, j: int)
    requires 0 <= i <= j <= |s| && !NoMatchFrom(s, j)
    ensures !NoMatch(s[..i] + Replacement + s[j..])
  {
    var k :| j <= k <= |s| && !NoMatchAt(s, k);
    var j' :| MatchesAt(s, k, j');
    MatchSurvivesReplacement(s, i, j, k, j');
    assert !NoMatchAt(s[..i] + Replacement + s[j..], k + i + |Replacement| - j);
  }

  /**
    Patching twice is patching once exactly when the original text has no
    second match at or after the end of the one replaced: the inserted
    `Version: XX.XX` line never matches, and nothing before it can.
  */
  lemma PatchIdempotentIff(s: string)
    ensures Patch(Patch(s)) == Patch(s) <==>
      FirstMatch(s).None? || NoMatchFrom(s, FirstMatch(s).value.1)
  {
    FirstMatchCorrect(s);
    if FirstMatch(s).Some? {
      var (i, j) := FirstMatch(s).value;
      var t := s[..i] + Replacement + s[j..];
      PatchUnchangedIff(t);
      if NoMatchFrom(s, j) {
        PatchedHasNoMatch(s, i, j);
      } else {
        PatchedKeepsLaterMatch(s, i, j);
      }
    }
  }

  /** A version line at the very start of the contents is the one replaced. */
  lemma PatchLeadingVersionLine(line: string, rest: string)
    requires InPattern(line)
    ensures Patch(line + rest) == Replacement + rest
  {
    var s := line + rest;
    assert s[0..|line|] == line;
    PatchReplacesLeftmost(s, 0, |line|);
    assert s[|line|..] == rest;
  }

  // ---------------------------------------------------------------------
  // Concrete manifests
  // ---------------------------------------------------------------------

  /** A plugin header line inside a doc comment is found mid-line and rewritten. */
  lemma PatchDocCommentHeader()
    ensures Patch("/**\n * " + "Version: 8.1.0-dev\n" + " */\n") == "/**\n * " + Replacement + " */\n"
  {
    var line := "Version: 8.1.0-dev\n";
    var s := "/**\n * " + line + " */\n";
    assert s[7..26] == line;
    assert Shape(line, 10, 12, 14);
    forall i' | 0 <= i' < 7 ensures NoMatchAt(s, i') {
      NoMatchWithoutV(s, i');
    }
    PatchReplacesLeftmost(s, 7, 26);
    assert s[..7] == "/**\n * " && s[26..] == " */\n";
  }

  /** Only the version line changes; the lines after it are kept. */
  lemma PatchKeepsOtherLines()
    ensures Patch("Version: 9.9.9\n" + "Other: stuff\n") == Replacement + "Other: stuff\n"
  {
    assert Shape("Version: 9.9.9\n", 10, 12, 14);
    PatchLeadingVersionLine("Version: 9.9.9\n", "Other: stuff\n");
  }

  /** A version line ended by CR LF is left alone. */
  lemma PatchIgnoresCrLf()
    ensures Patch("Version: 1.2.3\r\n") == "Version: 1.2.3\r\n"
  {
    var s := "Version: 1.2.3\r\n";
    forall i | 0 <= i <= |s| ensures NoMatchAt(s, i) {
      if i == 0 {
        CrLfLineDoesNotMatch(s, 0, 14);
      } else {
        NoMatchWithoutV(s, i);
      }
    }
    PatchWithoutMatch(s);
  }

  /** A version on the last line, with no line feed after it, is left alone. */
  lemma PatchIgnoresUnterminatedLine()
    ensures Patch("Version: 1.2.3") == "Version: 1.2.3"
  {
    var s := "Version: 1.2.3";
    forall i | 0 <= i <= |s| ensures NoMatchAt(s, i) {
      UnterminatedLineDoesNotMatch(s, i);
    }
    PatchWithoutMatch(s);
  }
}
