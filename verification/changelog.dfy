/**
 * The changelog half of the gate: `find_version_changelog_entry` searches CHANGELOG.md for
 * the regular expression `## <version>\n\s+.+$` (the version interpolated unescaped), and
 * `compute_changelog_suggestion` builds the bullet list printed when no entry is found.
 * Only this one pattern is modelled, as an explicit scan over the text.
 */
module Changelog {
  import opened Wrappers
  import opened RubyText

  // ----------------------------------------------------------------------------------------
  // What the pattern means
  // ----------------------------------------------------------------------------------------

  /**
   * One character of the interpolated version against one character of the text. The
   * version is not escaped, so a `.` in it is the regex wildcard: any character but a newline.
   */
  predicate PatternCharMatches(p: char, c: char)
  {
    if p == '.' then c != '\n' else p == c
  }

  /** `## <version>\n` starts at position `p` of the text. */
  ghost predicate HeadingAt(text: string, version: string, p: nat)
  {
    && p + |version| + 4 <= |text|
    && text[p..p + 3] == "## "
    && (forall i :: 0 <= i < |version| ==> PatternCharMatches(version[i], text[p + 3 + i]))
    && text[p + 3 + |version|] == '\n'
  }

  /**
   * `\s+.+$` matches at position `s`: a run of at least one whitespace character (newlines
   * included) followed by a character that is not a newline. `.+` then runs to the end of
   * that line, where `$` always holds.
   */
  ghost predicate BodyAt(text: string, s: nat)
  {
    exists e :: s < e < |text| && (forall j :: s <= j < e ==> IsSpace(text[j])) && text[e] != '\n'
  }

  /** The whole pattern matches at position `p`. */
  ghost predicate EntryAt(text: string, version: string, p: nat)
  {
    HeadingAt(text, version, p) && BodyAt(text, p + |version| + 4)
  }

  // ----------------------------------------------------------------------------------------
  // The scan
  // ----------------------------------------------------------------------------------------

  /** The version, character by character, against the text from position `q`. */
  function VersionMatchesAt(version: string, text: string, q: nat): (r: bool)
    ensures r <==> (q + |version| <= |text|
      && forall i :: 0 <= i < |version| ==> PatternCharMatches(version[i], text[q + i]))
    decreases |version|
  {
    if version == [] then
      q <= |text|
    else if q >= |text| || !PatternCharMatches(version[0], text[q]) then
      false
    else
      var r := VersionMatchesAt(version[1..], text, q + 1);
      assert forall i :: 1 <= i < |version| ==> version[i] == version[1..][i - 1];
      r
  }

  /** The heading `## <version>\n` at position `p`. */
  function HeadingMatchesAt(text: string, version: string, p: nat): (r: bool)
    ensures r <==> HeadingAt(text, version, p)
  {
    && p + |version| + 4 <= |text|
    && text[p] == '#' && text[p + 1] == '#' && text[p + 2] == ' '
    && VersionMatchesAt(version, text, p + 3)
    && text[p + 3 + |version|] == '\n'
  }

  /** From `j` on: zero or more newlines, then a character that is not a newline. */
  function NewlinesThenContent(text: string, j: nat): bool
    decreases |text| - j
  {
    j < |text| && (text[j] != '\n' || NewlinesThenContent(text, j + 1))
  }

  /** What the scan finds is a match of `\s+.+$`. */
  lemma {:induction false} NewlinesThenContentSound(text: string, s: nat, j: nat)
    requires s < j && NewlinesThenContent(text, j)
    requires forall m :: s <= m < j ==> IsSpace(text[m])
    ensures BodyAt(text, s)
    decreases |text| - j
  {
    if text[j] != '\n' {
      assert s < j < |text| && (forall m :: s <= m < j ==> IsSpace(text[m])) && text[j] != '\n';
    } else {
      NewlinesThenContentSound(text, s, j + 1);
    }
  }

  /** Every match of `\s+.+$` is found by the scan. */
  lemma {:induction false} NewlinesThenContentComplete(text: string, s: nat, e: nat, j: nat)
    requires s < j <= e < |text| && text[e] != '\n'
    requires forall m :: s <= m < e ==> IsSpace(text[m])
    ensures NewlinesThenContent(text, j)
    decreases e - j
  {
    if text[j] == '\n' {
      NewlinesThenContentComplete(text, s, e, j + 1);
    }
  }

  /**
   * `\s+.+$` matches at `s` exactly when the character there is whitespace and, after it,
   * zero or more newlines lead to a character that is not a newline: any whitespace that
   * is not a newline can itself serve as the `.`.
   */
  lemma BodyMatchIff(text: string, s: nat)
    ensures (s < |text| && IsSpace(text[s]) && NewlinesThenContent(text, s + 1)) <==> BodyAt(text, s)
  {
    if s < |text| && IsSpace(text[s]) && NewlinesThenContent(text, s + 1) {
      NewlinesThenContentSound(text, s, s + 1);
    }
    if BodyAt(text, s) {
      var e :| s < e < |text| && (forall j :: s <= j < e ==> IsSpace(text[j])) && text[e] != '\n';
      NewlinesThenContentComplete(text, s, e, s + 1);
    }
  }

  /** `\s+.+$` at position `s`, by the scan. */
  function BodyMatchesAt(text: string, s: nat): (r: bool)
    ensures r <==> BodyAt(text, s)
  {
    BodyMatchIff(text, s);
    s < |text| && IsSpace(text[s]) && NewlinesThenContent(text, s + 1)
  }

  /** The whole pattern at position `p`. */
  function EntryMatchesAt(text: string, version: string, p: nat): (r: bool)
    ensures r <==> EntryAt(text, version, p)
  {
    HeadingMatchesAt(text, version, p) && BodyMatchesAt(text, p + |version| + 4)
  }

  /** The leftmost match at or after `p`, as the regex search finds it. */
  function FindEntryFrom(text: string, version: string, p: nat): (r: Option<nat>)
    ensures r.Some? ==> p <= r.value && EntryAt(text, version, r.value)
    ensures r.Some? ==> forall q :: p <= q < r.value ==> !EntryAt(text, version, q)
    ensures r.None? ==> forall q :: p <= q ==> !EntryAt(text, version, q)
    decreases |text| - p
  {
    if p >= |text| then
      None
    else if EntryMatchesAt(text, version, p) then
      Some(p)
    else
      FindEntryFrom(text, version, p + 1)
  }

  /**
   * `find_version_changelog_entry`: the position where the leftmost match of
   * `## <version>\n\s+.+$` starts, or `None` when the pattern matches nowhere.
   */
  function FindEntry(text: string, version: string): (r: Option<nat>)
    ensures r.Some? ==> EntryAt(text, version, r.value)
    ensures r.Some? ==> forall q :: 0 <= q < r.value ==> !EntryAt(text, version, q)
    ensures r.None? <==> forall q :: !EntryAt(text, version, q)
  {
    FindEntryFrom(text, version, 0)
  }

  // ----------------------------------------------------------------------------------------
  // Consequences of the pattern
  // ----------------------------------------------------------------------------------------

  /**
   * A heading `## <version>` whose next line starts with whitespace and holds something
   * else is found, wherever it stands (the heading is not anchored at a line start, so
   * `### <version>` counts too).
   */
  lemma IndentedEntryFound(before: string, version: string, indent: char, c: char, after: string)
    requires IsSpace(indent) && c != '\n'
    ensures FindEntry(before + "## " + version + "\n" + [indent, c] + after, version).Some?
  {
    var text := before + "## " + version + "\n" + [indent, c] + after;
    var p := |before|;
    var s := p + |version| + 4;
    assert text[p..p + 3] == "## ";
    assert text[p + 3..p + 3 + |version|] == version;
    assert text[p + 3 + |version|] == '\n';
    assert text[s] == indent && text[s + 1] == c;
    EntryFromParts(text, version, p);
  }

  /** A heading at `p` followed by a whitespace character and a non-newline makes an entry. */
  lemma EntryFromParts(text: string, version: string, p: nat)
    requires p + |version| + 5 < |text|
    requires text[p..p + 3] == "## " && text[p + 3..p + 3 + |version|] == version
    requires text[p + 3 + |version|] == '\n'
    requires IsSpace(text[p + |version| + 4]) && text[p + |version| + 5] != '\n'
    ensures FindEntry(text, version).Some?
  {
    var s := p + |version| + 4;
    forall i | 0 <= i < |version|
      ensures PatternCharMatches(version[i], text[p + 3 + i])
    {
      assert text[p + 3..p + 3 + |version|][i] == text[p + 3 + i];
    }
    assert HeadingAt(text, version, p);
    assert forall j :: s <= j < s + 1 ==> IsSpace(text[j]);
    assert BodyAt(text, s);
    assert EntryAt(text, version, p);
  }

  /** A heading whose next line is not indented is not an entry at that heading. */
  lemma UnindentedLineNotEntry(version: string, c: char, after: string)
    requires !IsSpace(c)
    ensures !EntryAt("## " + version + "\n" + [c] + after, version, 0)
  {
    var text := "## " + version + "\n" + [c] + after;
    assert text[|version| + 4] == c;
  }

  /**
   * A changelog that is just a heading and an unindented line, with no other `#` in it,
   * has no entry anywhere: `## 1.2.0` followed by `- fix` is not found.
   */
  lemma UnindentedEntryMissing(version: string, c: char, after: string)
    requires !IsSpace(c) && c != '#'
    requires '#' !in version && '#' !in after
    ensures FindEntry("## " + version + "\n" + [c] + after, version).None?
  {
    var text := "## " + version + "\n" + [c] + after;
    forall q: nat
      ensures !EntryAt(text, version, q)
    {
      if q == 0 {
        UnindentedLineNotEntry(version, c, after);
      } else if q + 3 <= |text| {
        NoHashAfterHeading(version, c, after, q);
      }
    }
  }

  /** Past the leading `#`, the only `#` characters of such a text are too few to start a heading. */
  lemma NoHashAfterHeading(version: string, c: char, after: string, q: nat)
    requires c != '#' && '#' !in version && '#' !in after
    requires 1 <= q && q + 3 <= |"## " + version + "\n" + [c] + after|
    ensures ("## " + version + "\n" + [c] + after)[q..q + 3] != "## "
  {
    var text := "## " + version + "\n" + [c] + after;
    var k := if q == 1 then 2 else q;
    assert text[k] != '#' by {
      if k >= 3 + |version| + 2 {
        assert text[k] == after[k - |version| - 5];
      } else if k >= 3 && k < 3 + |version| {
        assert text[k] == version[k - 3];
      }
    }
    assert text[q..q + 3][k - q] == text[k];
  }

  /**
   * The whitespace run may cross line ends: a blank line and then an unindented line after
   * the heading still makes an entry.
   */
  lemma BlankLineThenTextFound(version: string, c: char, after: string)
    requires c != '\n'
    ensures FindEntry("## " + version + "\n\n" + [c] + after, version).Some?
  {
    assert "## " + version + "\n\n" + [c] + after == [] + "## " + version + "\n" + ['\n', c] + after;
    IndentedEntryFound([], version, '\n', c, after);
  }

  /** A `.` in the version matches any other character: version `1.2.0` accepts a heading `1x2x0`. */
  lemma DotIsWildcard(after: string)
    ensures EntryAt("## 1x2x0\n  x" + after, "1.2.0", 0)
  {
    var text := "## 1x2x0\n  x" + after;
    assert text[..12] == "## 1x2x0\n  x";
    assert text[0..3] == "## ";
    assert forall j :: 9 <= j < 10 ==> IsSpace(text[j]);
    assert text[10] != '\n';
    assert BodyAt(text, 9);
  }

  /** With Windows line ends the newline does not follow the version directly, so no version is an entry at its heading. */
  lemma CrlfHeadingNotEntry(version: string, after: string)
    ensures !EntryAt("## " + version + "\r\n" + after, version, 0)
  {
    var text := "## " + version + "\r\n" + after;
    assert text[3 + |version|] == '\r';
  }

  // ----------------------------------------------------------------------------------------
  // The suggestion printed when no entry is found
  // ----------------------------------------------------------------------------------------

  const BulletPrefix := "  - "

  // Written in short pieces so that Dafny can see that the line holds no newline.
  const NoCommitsLead := "could not " + "find " + "commits " + "between " + "this " + "Pull " + "Request " + "and the \""
  const NoCommitsTail := "\" branch."

  /**
   * The line printed instead of bullets when `git log` lists no commit: a single bullet
   * that names the base branch in quotes at its end.
   */
  function NoCommitsLine(baseRef: string): (line: string)
    ensures |BulletPrefix| <= |line| && line[..|BulletPrefix|] == BulletPrefix
    ensures |line| == |BulletPrefix| + |NoCommitsLead| + |baseRef| + |NoCommitsTail|
    ensures line[|line| - |NoCommitsTail| - |baseRef|..|line| - |NoCommitsTail|] == baseRef
    ensures '\n' !in baseRef ==> '\n' !in line
  {
    assert '\n' !in BulletPrefix && '\n' !in NoCommitsLead && '\n' !in NoCommitsTail;
    BulletPrefix + NoCommitsLead + baseRef + NoCommitsTail
  }

  /**
   * `compute_changelog_suggestion`: one bullet `  - <line>` per line of the `git log`
   * output, in order, or the single fallback line naming the base branch when the log has
   * no lines.
   */
  function ChangelogSuggestion(baseRef: string, log: string): (suggestion: seq<string>)
    ensures |suggestion| >= 1
    ensures forall i :: 0 <= i < |suggestion| ==>
      |BulletPrefix| <= |suggestion[i]| && suggestion[i][..|BulletPrefix|] == BulletPrefix
    ensures SplitLines(log) == [] ==> suggestion == [NoCommitsLine(baseRef)]
    ensures SplitLines(log) != [] ==> (|suggestion| == |SplitLines(log)|
      && forall i :: 0 <= i < |suggestion| ==> suggestion[i][|BulletPrefix|..] == SplitLines(log)[i])
  {
    var commits := SplitLines(log);
    if commits == [] then
      [NoCommitsLine(baseRef)]
    else
      seq(|commits|, i requires 0 <= i < |commits| => BulletPrefix + commits[i])
  }

  /**
   * For a log printed as newline-terminated commit lines, the suggestion is exactly one
   * bullet `  - <line>` per commit line, in order.
   */
  lemma SuggestionOfCommits(baseRef: string, commits: seq<string>)
    requires commits != [] && commits[|commits| - 1] != []
    requires forall i :: 0 <= i < |commits| ==> '\n' !in commits[i]
    ensures var suggestion := ChangelogSuggestion(baseRef, Join(commits, '\n') + "\n");
      |suggestion| == |commits| && forall i :: 0 <= i < |commits| ==> suggestion[i] == BulletPrefix + commits[i]
  {
    assert Repeat('\n', 1) == "\n";
    SplitLinesOfJoin(commits, 1);
    var suggestion := ChangelogSuggestion(baseRef, Join(commits, '\n') + "\n");
    forall i | 0 <= i < |commits|
      ensures suggestion[i] == BulletPrefix + commits[i]
    {
      assert suggestion[i] == suggestion[i][..|BulletPrefix|] + suggestion[i][|BulletPrefix|..];
    }
  }

  /** An empty log, or one of blank lines only, gives the single fallback line naming the base branch. */
  lemma EmptyLogFallback(baseRef: string, log: string)
    requires forall i :: 0 <= i < |log| ==> log[i] == '\n'
    ensures ChangelogSuggestion(baseRef, log) == [NoCommitsLine(baseRef)]
  {
    SplitLinesEmpty(log);
  }

  /** The template printed to stderr: the heading `## <version>` and the suggested bullets. */
  function SuggestedEntry(version: string, baseRef: string, log: string): (lines: seq<string>)
    ensures |lines| >= 2 && lines[0] == "## " + version
    ensures lines[1..] == ChangelogSuggestion(baseRef, log)
  {
    ["## " + version] + ChangelogSuggestion(baseRef, log)
  }

  /**
   * The advice is sound: with the suggested entry written at the top of the changelog,
   * whatever the changelog held before, the entry search succeeds.
   */
  lemma SuggestedEntryIsFound(version: string, baseRef: string, log: string, previous: string)
    ensures FindEntry(Join(SuggestedEntry(version, baseRef, log), '\n') + previous, version).Some?
  {
    var entry := SuggestedEntry(version, baseRef, log);
    var bullets := ChangelogSuggestion(baseRef, log);
    var heading := "## " + version;
    assert entry[1..] == bullets;
    var body := Join(bullets, '\n') + previous;
    BulletsStartIndented(bullets, previous);
    JoinCons(entry, '\n', previous);
    var text := Join(entry, '\n') + previous;
    assert text == heading + ['\n'] + body;
    HeadingThenBody(version, body);
  }

  /** The joined bullets start with the two spaces of the bullet prefix. */
  lemma BulletsStartIndented(bullets: seq<string>, previous: string)
    requires bullets != []
    requires |BulletPrefix| <= |bullets[0]| && bullets[0][..|BulletPrefix|] == BulletPrefix
    ensures var body := Join(bullets, '\n') + previous; |body| >= 2 && body[0] == ' ' && body[1] == ' '
  {
    JoinStartsWithFirst(bullets, '\n');
    var j := Join(bullets, '\n');
    assert j[0] == bullets[0][0] && j[1] == bullets[0][1];
  }

  /** A heading line followed by a line that starts with whitespace and then a non-newline. */
  lemma HeadingThenBody(version: string, body: string)
    requires |body| >= 2 && IsSpace(body[0]) && body[1] != '\n'
    ensures FindEntry("## " + version + ['\n'] + body, version).Some?
  {
    var text := "## " + version + ['\n'] + body;
    assert text[0..3] == "## ";
    assert text[3..3 + |version|] == version;
    assert text[3 + |version|] == '\n';
    assert text[|version| + 4] == body[0] && text[|version| + 5] == body[1];
    EntryFromParts(text, version, 0);
  }
}
