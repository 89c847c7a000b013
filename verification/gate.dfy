/**
 * The top level of the script: a fixed sequence of guards, each of which either lets the
 * run continue or ends it with a diagnostic and exit status 1.  Everything the script
 * learns from the outside world (the environment, the gemspec, `git`, `curl` and
 * CHANGELOG.md) is gathered in one record of observations, and the run becomes a
 * function from that record to its outcome.
 */
module Gate {
  import opened Wrappers
  import opened RubyText
  import opened Tags
  import opened Registry
  import opened Changelog

  /** What one run of the script observes. */
  datatype Observations = Observations(
    baseRef: Option<string>,        // GITHUB_BASE_REF, None when unset
    versionFilesDiff: string,       // stdout of `git diff --name-status VERSION *.gemspec version`
    gemName: string,                // name, version and platform from the first *.gemspec
    gemVersion: string,
    gemPlatform: string,
    tagListing: string,             // stdout of `git tag --list 'v*'`
    registry: string -> string,     // stdout of `curl -s -I <url>`, for each url
    changelogDiff: string,          // stdout of `git diff --name-status CHANGELOG.md`
    changelog: string,              // contents of CHANGELOG.md
    commitLog: string)              // stdout of `git log <base>.. --format=%B`

  /** How a run ends. Every outcome but `Ok` exits with status 1. */
  datatype Outcome =
    | MissingBaseRef                              // GITHUB_BASE_REF not set
    | VersionFilesUntouched                       // the PR does not touch VERSION, version or the gemspec
    | AlreadyTagged                               // a tag v<version> exists
    | RegistryProbeFailed                         // the probe reply has no first line and `nil.split` raises
    | AlreadyPublished                            // RubyGems.org answers 200 for the version
    | ChangelogUntouched                          // the PR does not touch CHANGELOG.md
    | MissingChangelogEntry(suggestion: seq<string>)  // no entry; the template printed to stderr
    | Ok

  /**
   * `.empty? == false` on a `git diff --name-status` output: any output at all is a change,
   * a listed file line included.
   */
  function Changed(diffOutput: string): (changed: bool)
    ensures changed <==> |diffOutput| > 0
    ensures SplitLines(diffOutput) != [] ==> changed
  {
    diffOutput != []
  }

  /**
   * The reply the registry gives to `curl -s -I` of this run's probe URL, a URL that reads
   * back as the gem name and the version with its platform suffix.
   */
  function ProbeReply(obs: Observations): (reply: string)
    ensures reply == obs.registry(ProbeUrl(obs.gemName, obs.gemVersion, obs.gemPlatform))
    ensures '/' !in obs.gemName ==>
      ParseProbeUrl(ProbeUrl(obs.gemName, obs.gemVersion, obs.gemPlatform))
        == Some((obs.gemName, obs.gemVersion + PlatformSuffix(obs.gemPlatform)))
  {
    if '/' in obs.gemName then
      obs.registry(ProbeUrl(obs.gemName, obs.gemVersion, obs.gemPlatform))
    else
      ProbeUrlRoundTrip(obs.gemName, obs.gemVersion, obs.gemPlatform);
      obs.registry(ProbeUrl(obs.gemName, obs.gemVersion, obs.gemPlatform))
  }

  // ----------------------------------------------------------------------------------------
  // The checks, stated directly and cumulatively: each stage holds when every earlier
  // check has passed and so has its own.
  // ----------------------------------------------------------------------------------------

  ghost predicate PassesBaseRef(obs: Observations)
  {
    obs.baseRef.Some?
  }

  ghost predicate PassesVersionFiles(obs: Observations)
  {
    PassesBaseRef(obs) && obs.versionFilesDiff != []
  }

  /** Some tag line, with every `v` deleted and stripped, equals the version. */
  ghost predicate VersionListed(obs: Observations)
  {
    var lines := SplitLines(obs.tagListing);
    exists i :: 0 <= i < |lines| && NormalizeTag(lines[i]) == obs.gemVersion
  }

  ghost predicate PassesTag(obs: Observations)
  {
    PassesVersionFiles(obs) && !VersionListed(obs)
  }

  /** The probe reply has a first line: some character in it is not a newline. */
  ghost predicate ReplyHasStatusLine(obs: Observations)
  {
    var reply := ProbeReply(obs);
    exists i :: 0 <= i < |reply| && reply[i] != '\n'
  }

  /** The second token of the reply's first line is `200`. */
  ghost predicate ReplySays200(obs: Observations)
  {
    var reply := ProbeReply(obs);
    SecondTokenIs200(reply[..IndexOf(reply, '\n')])
  }

  ghost predicate PassesRegistry(obs: Observations)
  {
    PassesTag(obs) && ReplyHasStatusLine(obs) && !ReplySays200(obs)
  }

  ghost predicate PassesChangelogTouched(obs: Observations)
  {
    PassesRegistry(obs) && obs.changelogDiff != []
  }

  ghost predicate EntryPresent(obs: Observations)
  {
    exists p :: EntryAt(obs.changelog, obs.gemVersion, p)
  }

  ghost predicate AllChecksPass(obs: Observations)
  {
    PassesChangelogTouched(obs) && EntryPresent(obs)
  }

  // ----------------------------------------------------------------------------------------
  // The run
  // ----------------------------------------------------------------------------------------

  /**
   * One run of the script, with its guards in the order they are written: base ref,
   * version files, tag, registry, changelog touched, changelog entry.  The outcome is the
   * first check that fails, and `Ok` exactly when all of them pass.
   */
  function Run(obs: Observations): (outcome: Outcome)
    ensures outcome == MissingBaseRef <==> !PassesBaseRef(obs)
    ensures outcome == VersionFilesUntouched <==> PassesBaseRef(obs) && obs.versionFilesDiff == []
    ensures outcome == AlreadyTagged <==> PassesVersionFiles(obs) && VersionListed(obs)
    ensures outcome == RegistryProbeFailed <==> PassesTag(obs) && !ReplyHasStatusLine(obs)
    ensures outcome == AlreadyPublished <==> PassesTag(obs) && ReplyHasStatusLine(obs) && ReplySays200(obs)
    ensures outcome == ChangelogUntouched <==> PassesRegistry(obs) && obs.changelogDiff == []
    ensures outcome.MissingChangelogEntry? <==> PassesChangelogTouched(obs) && !EntryPresent(obs)
    ensures outcome.MissingChangelogEntry? ==>
      outcome.suggestion == SuggestedEntry(obs.gemVersion, obs.baseRef.value, obs.commitLog)
    ensures outcome == Ok <==> AllChecksPass(obs)
  {
    CheckFacts(obs);
    if obs.baseRef.None? then
      MissingBaseRef
    else if !Changed(obs.versionFilesDiff) then
      VersionFilesUntouched
    else if IsTagged(obs.gemVersion, obs.tagListing) then
      AlreadyTagged
    else
      match ProbeStatus(ProbeReply(obs))
      case None => RegistryProbeFailed
      case Some(published) =>
        if published then
          AlreadyPublished
        else if !Changed(obs.changelogDiff) then
          ChangelogUntouched
        else if FindEntry(obs.changelog, obs.gemVersion).None? then
          MissingChangelogEntry(SuggestedEntry(obs.gemVersion, obs.baseRef.value, obs.commitLog))
        else
          Ok
  }

  /** Each executable check decides the corresponding direct statement. */
  lemma CheckFacts(obs: Observations)
    ensures IsTagged(obs.gemVersion, obs.tagListing) <==> VersionListed(obs)
    ensures ProbeStatus(ProbeReply(obs)).None? <==> !ReplyHasStatusLine(obs)
    ensures ProbeStatus(ProbeReply(obs)).Some? ==> (ProbeStatus(ProbeReply(obs)).value <==> ReplySays200(obs))
    ensures FindEntry(obs.changelog, obs.gemVersion).None? <==> !EntryPresent(obs)
  {
    var reply := ProbeReply(obs);
    assert ProbeStatus(reply).None? <==> forall i :: 0 <= i < |reply| ==> reply[i] == '\n';
  }

  /** The exit status of the run: 0 after the final confirmation, 1 after every diagnostic. */
  function ExitStatus(outcome: Outcome): (status: int)
    ensures status == 0 || status == 1
    ensures status == 0 <==> outcome == Ok
  {
    if outcome == Ok then 0 else 1
  }

  // ----------------------------------------------------------------------------------------
  // Properties of the run
  // ----------------------------------------------------------------------------------------

  /**
   * Fail-fast: when the version files are untouched the run stops there, whatever the
   * version, the tags, the registry and the changelog say.
   */
  lemma UntouchedVersionFilesStopFirst(obs: Observations)
    requires obs.baseRef.Some? && obs.versionFilesDiff == []
    ensures Run(obs) == VersionFilesUntouched
  {
  }

  /**
   * Fail-fast: once the version is tagged, the outcome is `AlreadyTagged` whatever the
   * registry, the changelog diff, the changelog text and the commit log say.
   */
  lemma TaggedStopsBeforeRegistry(obs: Observations, other: Observations)
    requires Run(obs) == AlreadyTagged
    requires other.baseRef == obs.baseRef && other.versionFilesDiff == obs.versionFilesDiff
    requires other.gemVersion == obs.gemVersion && other.tagListing == obs.tagListing
    ensures Run(other) == AlreadyTagged
  {
  }

  /** An empty GITHUB_BASE_REF is still a base ref: only an unset one stops the run. */
  lemma EmptyBaseRefAccepted(obs: Observations)
    requires obs.baseRef == Some("")
    ensures Run(obs) != MissingBaseRef
  {
  }

  /** The registry is consulted only at the probe URL of the gem's name, version and platform. */
  lemma OnlyProbeUrlConsulted(obs: Observations, registry: string -> string)
    requires registry(ProbeUrl(obs.gemName, obs.gemVersion, obs.gemPlatform)) == ProbeReply(obs)
    ensures Run(obs.(registry := registry)) == Run(obs)
  {
    var other := obs.(registry := registry);
    assert ProbeReply(other) == ProbeReply(obs);
  }

  /**
   * Following the advice works: when the run stops for a missing changelog entry, writing
   * the printed template at the top of CHANGELOG.md makes the same run succeed.
   */
  lemma FollowingSuggestionPasses(obs: Observations)
    requires Run(obs).MissingChangelogEntry?
    ensures Run(obs.(changelog := Join(Run(obs).suggestion, '\n') + obs.changelog)) == Ok
  {
    var template := Run(obs).suggestion;
    var other := obs.(changelog := Join(template, '\n') + obs.changelog);
    SuggestedEntryIsFound(obs.gemVersion, obs.baseRef.value, obs.commitLog, obs.changelog);
    assert ProbeReply(other) == ProbeReply(obs);
  }

  /**
   * The successful run: base ref set, both diffs non-empty, only an older tag, a 404 from
   * the registry and an indented bullet under `## <version>` give `Ok`.
   */
  lemma ScenarioPasses(obs: Observations, previousTag: string, headers: string, notes: string)
    requires obs.baseRef.Some? && obs.versionFilesDiff != [] && obs.changelogDiff != []
    requires 'v' !in previousTag && '\n' !in previousTag && previousTag != obs.gemVersion
    requires previousTag == [] || (!IsStripChar(previousTag[0]) && !IsStripChar(previousTag[|previousTag| - 1]))
    requires obs.tagListing == "v" + previousTag + "\n"
    requires ProbeReply(obs) == "HTTP/2 404 \r\n" + headers
    requires obs.changelog == "## " + obs.gemVersion + "\n  - " + notes
    ensures Run(obs) == Ok
  {
    assert obs.changelog == [] + "## " + obs.gemVersion + "\n" + [' ', ' '] + ("- " + notes);
    IndentedEntryFound([], obs.gemVersion, ' ', ' ', "- " + notes);
    SingleTagExactMatch(previousTag, obs.gemVersion);
    Reply404NotPublished(headers);
  }

  /** A listing that holds the tag `v<version>`, after any older tags, stops the run at the tag check. */
  lemma ScenarioTagged(obs: Observations, olderTags: seq<string>)
    requires obs.baseRef.Some? && obs.versionFilesDiff != []
    requires 'v' !in obs.gemVersion && '\n' !in obs.gemVersion
    requires obs.gemVersion == [] || (!IsStripChar(obs.gemVersion[0]) && !IsStripChar(obs.gemVersion[|obs.gemVersion| - 1]))
    requires forall i :: 0 <= i < |olderTags| ==> '\n' !in olderTags[i]
    requires obs.tagListing == Join(olderTags + ["v" + obs.gemVersion], '\n') + "\n"
    ensures Run(obs) == AlreadyTagged
  {
    LatestTagListed(olderTags, obs.gemVersion);
  }

  /**
   * A version holding `v` (`1.0.0.dev`, say) is never stopped at the tag check, even when
   * `v<version>` is listed: the normalisation deletes every `v` from the tags.
   */
  lemma VersionWithVSkipsTagCheck(obs: Observations)
    requires 'v' in obs.gemVersion
    ensures Run(obs) != AlreadyTagged
  {
    VersionWithVNeverTagged(obs.gemVersion, obs.tagListing);
  }
}
