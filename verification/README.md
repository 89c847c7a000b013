# test-action gate, modelled in Dafny

`action.rb` is the CI gate that runs on a plugin's pull request. It lets the pull
request through only when all of the following hold:

- it touches VERSION, version or the gemspec (any diff output counts, not only a changed version);
- the gem version is not tagged in git, as the tag listing is normalised, and not published on RubyGems.org;
- it updates CHANGELOG.md;
- the changelog holds an entry for the new version.

When there is no entry, the gate prints a ready-made entry built from the commit log.
The checks run in a fixed order. The first one that fails prints a diagnostic and exits
with status 1.

This project models the pure core of the script in Dafny:

- `RubyText` (`ruby_text.dfy`) models the Ruby string operations the script is built
  from: `tr("v", "")`, `strip`, `split("\n")` (trailing empty fields dropped, interior
  ones kept) and `split(" ")` (awk-style splitting on whitespace runs). It also proves the
  inverses of the splits against `Join`.
- `Tags` (`tags.dfy`) models `fetch_git_versions` and the membership test
  `published_versions.include?(pr_version)`.
- `Registry` (`registry.dfy`) models the pure parts of `rubygem_published?`: the probe
  URL, and reading the HTTP status from the first line of the `curl -s -I` reply.
- `Changelog` (`changelog.dfy`) has three parts:
  - a hand-written scan for the one regular expression `## <version>\n\s+.+$` of
    `find_version_changelog_entry`;
  - a declarative statement of what that pattern means, and a proof that the scan finds
    the leftmost match and finds one exactly when a match exists;
  - `compute_changelog_suggestion` and the template printed on failure.
- `Gate` (`gate.dfy`) gathers everything the script reads from the outside world into
  one `Observations` record. The whole run is a function `Run` from that record to an
  `Outcome`, with one constructor per exit. The run is proved to:
  - end at the first failing check;
  - reach `Ok` exactly when every check passes.

All functions are total. Everything the script reads is an input to the model: the
environment, the gemspec, the output of `git` and `curl`, and CHANGELOG.md. The registry
is a function from URL to reply, so that the probe URL the script builds is part of
what is checked.

Four behaviours of `action.rb` are easy to misread, and the model keeps them as the
code has them:

- **Empty registry reply.** A reply that is empty, or made only of newlines, has no
  first line. `nil.split` then raises and the script dies with status 1. It does not fall
  back to "not published". This is the outcome `RegistryProbeFailed`.
- **What counts as a changelog entry.** The line after the heading must start with a
  whitespace character, and a character other than a newline must follow. A non-empty
  next line alone is not enough. Blank lines may come in between, so a heading, a blank
  line and then `text` does match.
- **Versions holding `v` escape the tag check.** Every `v` is deleted from a tag line
  before it is compared, so a version such as `1.0.0.dev` never equals a normalised
  tag, even when `v1.0.0.dev` is listed. Likewise a version with whitespace or NUL at
  either end is never tagged. The gate lets such a version through the tag check.
- **No push baseline.** The script has no push-event or "before"-commit baseline. The
  only precondition is that `GITHUB_BASE_REF` is set. An empty value counts as set,
  because `""` is truthy in Ruby.

## Model

| member | source | states |
|---|---|---|
| RubyText.DeleteChar | action.rb:17 | `tr("v", "")`: the character no longer occurs, every other character occurs exactly when it occurred before, and the text does not grow |
| RubyText.DeleteCharAppend | action.rb:17 | deleting a character distributes over concatenation, so what remains keeps its order |
| RubyText.Strip | action.rb:17 | `strip` yields a slice of the text; everything cut off on either side is whitespace or NUL, and the result neither starts nor ends with one |
| RubyText.Fields | action.rb:17 | the fields between separators contain no separator and join back to the text |
| RubyText.FieldsOfJoin | action.rb:17 | splitting separator-free fields joined by the separator gives back those fields |
| RubyText.SplitLines | action.rb:17 | `split("\n")`: lines hold no newline, the last line is non-empty, and the text is the lines joined by newlines followed only by newlines |
| RubyText.SplitLinesOfJoin | action.rb:17 | newline-free lines whose last line is non-empty, joined and followed by any number of newlines, split back into exactly those lines |
| RubyText.SplitLinesEmpty | action.rb:51 | `split("\n")` yields no line exactly when the text is empty or only newlines, which is when `.first` is nil |
| RubyText.FirstLine | action.rb:51 | when some character is not a newline, the first line is the text up to its first newline |
| RubyText.SplitWords | action.rb:52 | `split(" ")` yields only non-empty tokens free of whitespace |
| RubyText.SplitWordsOfJoin | action.rb:52 | words joined by single spaces and followed by any whitespace split back into exactly those words |
| RubyText.NoSpaceIsWord | action.rb:52 | a non-empty string without whitespace is a single token |
| Tags.NormalizeTag | action.rb:17 | a normalised tag holds no `v` and neither starts nor ends with whitespace or NUL |
| Tags.NormalizeTagKeepsChars | action.rb:17 | every character of a normalised tag comes from the tag line |
| Tags.GitVersions | action.rb:16-18 | one version per line of the listing, in order, each the normalisation of its line, none containing `v` |
| Tags.Includes | action.rb:68 | `include?` holds exactly when some element equals the value |
| Tags.IsTagged | action.rb:66-68 | the version is tagged exactly when some line of the listing normalises to exactly that string |
| Tags.VersionWithVNeverTagged | action.rb:17 | every `v` is deleted, not only a leading one, so a version containing `v` is never tagged |
| Tags.UnstrippedVersionNeverTagged | action.rb:17 | a version with whitespace or NUL at either end is never tagged |
| Tags.NormalizePrefixedTag | action.rb:17 | the line `v<version>` normalises to the version, for a version without `v` and with clean ends |
| Tags.ListedTagIsTagged | action.rb:66-68 | a listing with a line `v<version>` tags that version, for a version without `v` and without whitespace or NUL at its ends |
| Tags.TaggedIffListed | action.rb:66-68 | for a newline-terminated listing, tagged exactly when some listed line normalises to the version |
| Tags.SingleTagExactMatch | action.rb:66-68 | the listing `v<tag>` tags `tag` and no other string: exact equality, no ordering or prefix match, for a tag without `v` and without whitespace or NUL at its ends |
| Tags.LatestTagListed | action.rb:66-68 | a listing whose last line is `v<version>` tags the version, whatever lines come before, for a version without `v` and without whitespace or NUL at its ends |
| Registry.PlatformSuffix | action.rb:47 | the suffix is `-java` exactly when the platform is `java`, and empty otherwise |
| Registry.ProbeUrl | action.rb:48 | the probe URL starts with `https://rubygems.org/gems/` |
| Registry.ProbeUrlRoundTrip | action.rb:47-48 | the URL reads back as the gem name and the version followed by the platform suffix, for any name free of `/` |
| Registry.SecondTokenIs200 | action.rb:52-54 | `status` is the second whitespace-separated token, and the test holds only when there are at least two tokens and that one is exactly `200` |
| Registry.ProbeStatus | action.rb:50-54 | no status (the script raises) exactly when the reply is only newlines; otherwise published exactly when the second token of the first line is `200` |
| Registry.CodeIsSecondToken | action.rb:52 | in `<protocol> <code>` followed by whitespace or nothing, the second token is the code |
| Registry.StatusLineDecides | action.rb:50-54 | a reply starting `<protocol> <code>` counts as published exactly when the code is `200` |
| Registry.EmptyReplyFails | action.rb:51-52 | the empty reply gives no status rather than "not published" |
| Registry.SingleTokenNotPublished | action.rb:51-54 | any reply with a first line holding fewer than two tokens gives "not published", because `status` is nil |
| Registry.CrlfProtocolOnlyNotPublished | action.rb:51-54 | the `\r\n`-terminated status line `HTTP/2` alone gives "not published" |
| Registry.Reply200Published | action.rb:54 | `HTTP/2 200` means published, whatever headers follow |
| Registry.Reply404NotPublished | action.rb:54 | `HTTP/2 404` means not published |
| Registry.Reply2000NotPublished | action.rb:54 | the code is compared as a whole token: `2000` is not `200` |
| Changelog.VersionMatchesAt | action.rb:21 | the interpolated version matches at a position exactly when each character matches, with `.` standing for any non-newline |
| Changelog.HeadingMatchesAt | action.rb:21 | the scan for `## <version>\n` agrees with the declarative heading |
| Changelog.BodyMatchIff | action.rb:21 | `\s+.+$` matches at a position exactly when a whitespace character there is followed by newlines and then a non-newline |
| Changelog.BodyMatchesAt | action.rb:21 | the scan for `\s+.+$` agrees with the declarative body |
| Changelog.EntryMatchesAt | action.rb:21 | the scan for the whole pattern agrees with the declarative entry |
| Changelog.FindEntryFrom | action.rb:21 | the result is the leftmost match at or after the start position, or none when nothing matches there |
| Changelog.FindEntry | action.rb:21 | `match`: the leftmost position where the pattern matches, and none exactly when it matches nowhere |
| Changelog.IndentedEntryFound | action.rb:21 | a heading followed by a line that starts with whitespace and holds more is found anywhere in the text, `### <version>` included |
| Changelog.UnindentedLineNotEntry | action.rb:21 | a heading whose next line is not indented is not an entry at that heading |
| Changelog.UnindentedEntryMissing | action.rb:21 | `## <version>` followed by an unindented line, with no other `#`, has no entry anywhere |
| Changelog.BlankLineThenTextFound | action.rb:21 | a blank line and then an unindented line after the heading still make an entry |
| Changelog.DotIsWildcard | action.rb:21 | the version `1.2.0` matches the heading `## 1x2x0` |
| Changelog.CrlfHeadingNotEntry | action.rb:21 | with `\r\n` line ends, no version is an entry at its heading |
| Changelog.NoCommitsLine | action.rb:27 | the fallback is one bullet line, free of newlines for a base ref without them, that names the base ref in quotes at its end |
| Changelog.ChangelogSuggestion | action.rb:24-31 | the fallback line naming the base branch when the log has no lines; otherwise one `  - ` bullet per log line, same count and order |
| Changelog.SuggestionOfCommits | action.rb:24-31 | for newline-terminated commit lines, the suggestion is exactly `  - <line>` for each, in order |
| Changelog.EmptyLogFallback | action.rb:25-27 | an empty or blank log gives the single fallback line |
| Changelog.SuggestedEntry | action.rb:88-89 | the template is the heading `## <version>` followed by the suggestion lines |
| Changelog.SuggestedEntryIsFound | action.rb:85-89 | with the printed template at the top of the changelog, whatever followed, the entry search succeeds |
| Gate.Changed | action.rb:33-39 | a diff counts as a change exactly when its output is non-empty; any listed file line makes it a change |
| Gate.ProbeReply | action.rb:47-50 | the reply is the registry's answer at the probe URL, and that URL reads back as the gem name and the version with its platform suffix |
| Gate.Run | action.rb:57-96 | the outcome is the first failing check in the order base ref, version files, tag, registry, changelog touched, entry; `Ok` exactly when all pass; a missing entry carries the printed template |
| Gate.ExitStatus | action.rb:57-96 | exit status 0 exactly for `Ok`, 1 for every other outcome |
| Gate.EmptyBaseRefAccepted | action.rb:4-8 | only an unset `GITHUB_BASE_REF` stops the run; an empty one does not |
| Gate.UntouchedVersionFilesStopFirst | action.rb:57-61 | with the version files untouched, the run stops there whatever the rest says |
| Gate.TaggedStopsBeforeRegistry | action.rb:66-78 | an `AlreadyTagged` outcome does not depend on the registry, the changelog diff, the changelog or the log |
| Gate.OnlyProbeUrlConsulted | action.rb:47-50 | the registry is consulted only at the probe URL of the gem's name, version and platform |
| Gate.FollowingSuggestionPasses | action.rb:85-90 | writing the printed template at the top of the changelog turns a missing-entry run into `Ok` |
| Gate.ScenarioPasses | action.rb:57-96 | an older tag only, a 404 from the registry and an indented bullet under the heading give `Ok` |
| Gate.ScenarioTagged | action.rb:66-72 | a listing ending with `v<version>` stops the run at the tag check, for a version without `v` and without whitespace or NUL at its ends |
| Gate.VersionWithVSkipsTagCheck | action.rb:66-68 | a version holding `v` is never stopped at the tag check, whatever the listing |

## Left out

- Reading `GITHUB_BASE_REF` (action.rb:4) is left out. It is the input `baseRef`, with `None` for unset.
- Finding and loading the gemspec (action.rb:11-13, 42-45) is left out. `Dir.glob` and `Gem::Specification::load` are filesystem and library calls. The gem's name, version and platform are inputs.
- The shell-outs `git tag`, `git diff`, `git log` and `curl` (action.rb:17, 25, 34, 38, 50) are left out. Their standard output is an input. Which tags `'v*'` selects and what `git diff` compares against are up to git.
- `IO.read("CHANGELOG.md")` (action.rb:21) is left out. The text is an input. When a pull request deletes CHANGELOG.md, the changelog diff is non-empty and `IO.read` raises, so the script exits 1 without printing the template. The model has no outcome for that crash: it answers `MissingChangelogEntry` or `Ok` from whatever text it is given.
- Console output and `exit` are reduced to outcomes. The model has no `puts`/`$stderr.puts` message text except the template lines, and no `match.to_s` echo.
- A general regular-expression engine is not modelled. Only the one pattern is scanned for. The only metacharacter modelled in the interpolated version is `.`. Other metacharacters do not appear in gem version strings.
- Strings are sequences of characters. The model has no encodings and no multibyte or invalid byte sequences. Whitespace is the ASCII set Ruby's `\s`, `strip` and `split(" ")` use.
- The Ruby exception raised for an empty registry reply is the outcome `RegistryProbeFailed`, not a backtrace.
