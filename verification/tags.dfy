/**
 * The git-tag half of the "already published" check: `fetch_git_versions` turns the
 * output of `git tag --list 'v*'` into version strings, and the script asks whether the
 * gem's version is one of them with `Array#include?` (plain string equality, no ordering).
 */
module Tags {
  import opened RubyText

  /** One tag line made into a version: every `v` deleted (`tr("v", "")`), then `strip`ped. */
  function NormalizeTag(line: string): (version: string)
    ensures 'v' !in version
    ensures version == [] || (!IsStripChar(version[0]) && !IsStripChar(version[|version| - 1]))
  {
    var deleted := DeleteChar(line, 'v');
    var r := Strip(deleted);
    var lo := |deleted| - |Lstrip(deleted)|;
    SliceChars(deleted, lo, lo + |r|);
    r
  }

  /** Normalising only removes characters: every character of the version comes from the line. */
  lemma NormalizeTagKeepsChars(line: string)
    ensures forall c :: c in NormalizeTag(line) ==> c in line
  {
    var deleted := DeleteChar(line, 'v');
    var lo := |deleted| - |Lstrip(deleted)|;
    SliceChars(deleted, lo, lo + |Strip(deleted)|);
  }

  /** `fetch_git_versions`: the tag listing split into lines, each line normalised, in order. */
  function GitVersions(listing: string): (versions: seq<string>)
    ensures |versions| == |SplitLines(listing)|
    ensures forall i :: 0 <= i < |versions| ==> versions[i] == NormalizeTag(SplitLines(listing)[i])
    ensures forall i :: 0 <= i < |versions| ==> 'v' !in versions[i]
  {
    var lines := SplitLines(listing);
    seq(|lines|, i requires 0 <= i < |lines| => NormalizeTag(lines[i]))
  }

  /** `Array#include?` on strings: a scan for an element equal to `x`. */
  function Includes(xs: seq<string>, x: string): (found: bool)
    ensures found <==> exists i :: 0 <= i < |xs| && xs[i] == x
  {
    if xs == [] then false
    else if xs[0] == x then true
    else
      var found := Includes(xs[1..], x);
      assert forall i :: 1 <= i < |xs| ==> xs[i] == xs[1..][i - 1];
      found
  }

  /**
   * `published_versions.include?(pr_version)`: the version is tagged exactly when it equals
   * the normalised form of some line of the listing.
   */
  function IsTagged(version: string, listing: string): (tagged: bool)
    ensures tagged <==> exists i :: 0 <= i < |SplitLines(listing)| && NormalizeTag(SplitLines(listing)[i]) == version
  {
    Includes(GitVersions(listing), version)
  }

  /**
   * Because every `v` is deleted, not only a leading one, a version that contains `v`
   * (such as `1.0.0.dev`) is never reported as tagged, whatever tags exist.
   */
  lemma VersionWithVNeverTagged(version: string, listing: string)
    requires 'v' in version
    ensures !IsTagged(version, listing)
  {
    var lines := SplitLines(listing);
    forall i | 0 <= i < |lines|
      ensures NormalizeTag(lines[i]) != version
    {
      var normal := NormalizeTag(lines[i]);
      assert 'v' !in normal;
    }
  }

  /** A version with whitespace or NUL at either end is never reported as tagged. */
  lemma UnstrippedVersionNeverTagged(version: string, listing: string)
    requires version != [] && (IsStripChar(version[0]) || IsStripChar(version[|version| - 1]))
    ensures !IsTagged(version, listing)
  {
    var lines := SplitLines(listing);
    forall i | 0 <= i < |lines|
      ensures NormalizeTag(lines[i]) != version
    {
      StrippedDiffers(NormalizeTag(lines[i]), version);
    }
  }

  /** A string with clean ends differs from one that starts or ends with whitespace or NUL. */
  lemma StrippedDiffers(clean: string, version: string)
    requires clean == [] || (!IsStripChar(clean[0]) && !IsStripChar(clean[|clean| - 1]))
    requires version != [] && (IsStripChar(version[0]) || IsStripChar(version[|version| - 1]))
    ensures clean != version
  {
  }

  /** Deleting a character that does not occur changes nothing. */
  lemma {:induction false} DeleteAbsentChar(s: string, c: char)
    requires c !in s
    ensures DeleteChar(s, c) == s
  {
    if s != [] {
      DeleteAbsentChar(s[1..], c);
      assert s == [s[0]] + s[1..];
    }
  }

  /** The leading `v` of a tag `v<version>` goes, and nothing else changes, for a clean version. */
  lemma NormalizePrefixedTag(version: string)
    requires 'v' !in version
    requires version == [] || (!IsStripChar(version[0]) && !IsStripChar(version[|version| - 1]))
    ensures NormalizeTag("v" + version) == version
  {
    DeleteCharAppend("v", version, 'v');
    DeleteAbsentChar(version, 'v');
    assert DeleteChar("v", 'v') == [];
    assert DeleteChar("v" + version, 'v') == version;
    assert Lstrip(version) == version;
    assert Rstrip(version) == version;
  }

  /** A non-empty line of a newline-joined listing is kept at its own index by `split("\n")`. */
  lemma LineOfJoin(lines: seq<string>, i: nat)
    requires forall k :: 0 <= k < |lines| ==> '\n' !in lines[k]
    requires i < |lines| && lines[i] != []
    ensures var split := SplitLines(Join(lines, '\n')); i < |split| && split[i] == lines[i]
  {
    FieldsOfJoin(lines, '\n');
    var fs := Fields(Join(lines, '\n'), '\n');
    var r := DropTrailingEmpty(fs);
    assert fs == lines;
  }

  /**
   * Whenever the listing holds a line `v<version>` (the form `git tag` prints) for a clean
   * version, that version is reported as tagged.
   */
  lemma ListedTagIsTagged(lines: seq<string>, i: nat, version: string)
    requires forall k :: 0 <= k < |lines| ==> '\n' !in lines[k]
    requires i < |lines| && lines[i] == "v" + version
    requires 'v' !in version
    requires version == [] || (!IsStripChar(version[0]) && !IsStripChar(version[|version| - 1]))
    ensures IsTagged(version, Join(lines, '\n'))
  {
    LineOfJoin(lines, i);
    NormalizePrefixedTag(version);
  }

  /**
   * For a listing as `git tag` prints it (one tag per line, each line ended by a newline),
   * the version is tagged exactly when some line normalises to it.
   */
  lemma TaggedIffListed(lines: seq<string>, version: string)
    requires forall i :: 0 <= i < |lines| ==> '\n' !in lines[i]
    requires lines == [] || lines[|lines| - 1] != []
    ensures IsTagged(version, Join(lines, '\n') + "\n")
      <==> exists i :: 0 <= i < |lines| && NormalizeTag(lines[i]) == version
  {
    SplitLinesOfJoin(lines, 1);
    assert Repeat('\n', 1) == "\n";
  }

  /**
   * The comparison is exact string equality with no version ordering or prefix matching:
   * the listing of the single tag `v<tagged>` tags `tagged` and no other string.
   */
  lemma SingleTagExactMatch(tagged: string, version: string)
    requires 'v' !in tagged
    requires tagged == [] || (!IsStripChar(tagged[0]) && !IsStripChar(tagged[|tagged| - 1]))
    requires '\n' !in tagged
    ensures IsTagged(version, "v" + tagged + "\n") <==> version == tagged
  {
    NormalizePrefixedTag(tagged);
    assert '\n' !in "v" + tagged;
    OneLineListing("v" + tagged, version);
  }

  /** A listing of one non-empty line tags exactly the version that line normalises to. */
  lemma OneLineListing(line: string, version: string)
    requires line != [] && '\n' !in line
    ensures IsTagged(version, line + "\n") <==> NormalizeTag(line) == version
  {
    var lines := [line];
    assert Join(lines, '\n') == line;
    TaggedIffListed(lines, version);
    assert (exists i :: 0 <= i < |lines| && NormalizeTag(lines[i]) == version) <==> NormalizeTag(line) == version;
  }

  /** Appending the line `v<version>` to newline-free lines keeps them newline-free. */
  lemma AppendTagLine(olderTags: seq<string>, version: string)
    requires '\n' !in version
    requires forall i :: 0 <= i < |olderTags| ==> '\n' !in olderTags[i]
    ensures var lines := olderTags + ["v" + version];
      forall i :: 0 <= i < |lines| ==> '\n' !in lines[i]
  {
    var tag := "v" + version;
    assert forall c :: c in tag ==> c == 'v' || c in version;
    var lines := olderTags + [tag];
    assert forall i :: 0 <= i < |lines| ==> lines[i] == if i < |olderTags| then olderTags[i] else tag;
  }

  /** A listing whose last tag is `v<version>`, whatever tags come before it, tags the version. */
  lemma LatestTagListed(olderTags: seq<string>, version: string)
    requires 'v' !in version && '\n' !in version
    requires version == [] || (!IsStripChar(version[0]) && !IsStripChar(version[|version| - 1]))
    requires forall i :: 0 <= i < |olderTags| ==> '\n' !in olderTags[i]
    ensures IsTagged(version, Join(olderTags + ["v" + version], '\n') + "\n")
  {
    var tag := "v" + version;
    var lines := olderTags + [tag];
    assert lines[|olderTags|] == tag;
    AppendTagLine(olderTags, version);
    NormalizePrefixedTag(version);
    ListedLineTagged(lines, |olderTags|, version);
  }

  /** In a newline-terminated listing, any line that normalises to the version tags it. */
  lemma ListedLineTagged(lines: seq<string>, i: nat, version: string)
    requires forall k :: 0 <= k < |lines| ==> '\n' !in lines[k]
    requires i < |lines| && lines[|lines| - 1] != []
    requires NormalizeTag(lines[i]) == version
    ensures IsTagged(version, Join(lines, '\n') + "\n")
  {
    TaggedIffListed(lines, version);
  }
}
