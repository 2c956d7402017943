# gh-tagger version computation, modelled in Dafny

gh-tagger is a command-line tool. It creates the next Semantic Versioning tag in a
GitHub repository. It lists the repository's tags, takes the first one that is a
`v`-prefixed semantic version as the latest version, bumps it by the requested level
(`major`, `minor`, `patch`), and, on the `beta` or `rc` channel, attaches the
pre-release `<channel>.1`. It then publishes `v<version>` as a tag.

This project models that computation as pure functions and proves its properties:

- `wrappers.dfy`: `Option`.
- `text.dfy` (module `Text`): the string operations the version grammar needs. These
  are search, cut at a separator, split and join, and decimal numerals. Cutting
  (`SplitOff`/`Glue`), splitting (`Split`/`Join`) and numerals
  (`Decimal`/`NumeralValue`) come with their inverses and the round-trip lemmas.
- `semver.dfy` (module `SemVer`): the version value and the rendering the semver
  library's `str()` produces. It also holds a parser for the grammar of Semantic
  Versioning 2.0.0, which stands in for `VersionInfo.is_valid` and
  `VersionInfo.parse`, and precedence as in section 11 of that standard.
- `selection.dfy` (module `Selection`): first-match selection over a list for any
  partial function, with its lemmas proved once.
- `tagger.dfy` (module `Tagger`): tag selection (`get_latest_version`), version
  generation (`generate_new_version`) and the published tag name.
- `scenarios.dfy` (module `Scenarios`): concrete runs on small tag lists.

The parser is characterised exactly. A string parses to `v` if and only if `v` is
well formed (every pre-release and build identifier follows the grammar) and the
string is `v`'s rendering. So the strings `is_valid` accepts are exactly the
renderings of well-formed versions, and parse and render are inverse to each other.

Behaviour worth noting in `main.py`:

- Selection takes the first qualifying tag in list order. It does not take the
  highest-precedence one.
- A name that does not start with `v` is skipped. It is not parsed whole.
- There is no channel anchoring. The bump always starts from the selected version.
- The pre-release ordinal is always `1`. It is not counted up from existing tags.
- With no prior version the base is `0.1.0` and it is still bumped. So a
  `release`/`patch` request on an empty history yields `0.1.1`, not `0.1.0`.

## Model

| member | source | states |
|---|---|---|
| SemVer.Render | main.py:94 | the library's `str()` of a version: `MAJOR.MINOR.PATCH`, then `-PRERELEASE` and `+BUILD` when present and non-empty. Its contract lives in `ParseIff`, `ParseRender` and `RenderParse` |
| SemVer.Parse | main.py:55 | `VersionInfo.parse`. Its contract lives in `ParseIff`: it yields `v` exactly on the rendering of a well-formed `v` |
| SemVer.IsValid | main.py:54 | `VersionInfo.is_valid`, defined as `Parse` succeeding. Its contract lives in `ParseIff`, `RenderParse` and `LeadingZeroRejected` |
| SemVer.ParseIff | main.py:54-55 | a string is a valid semantic version with value `v` exactly when `v` is well formed and the string is its rendering (both directions) |
| SemVer.ParseRender | main.py:54-55 | every well-formed version parses back from its rendering |
| SemVer.RenderParse | main.py:54-55 | whatever is accepted as valid parses to a well-formed version whose rendering is the input string |
| SemVer.LeadingZeroRejected | main.py:54 | a candidate starting with `0` followed by a digit is not valid: the major number has no leading zero. `ParseIff` covers the minor and patch numbers and numeric pre-release identifiers, since a rendering never has a leading zero there |
| Tagger.TagName | main.py:94 | the published name `v<version>`. Its contract lives in `TagVersionTagName` and `TagVersionIff` |
| Tagger.TagVersion | main.py:52-55 | a name yields a version only if it is `v` followed by the rendering of that version, which is well formed |
| Tagger.TagVersionIff | main.py:52-54 | a name counts as a version tag exactly when it is the tag name of some well-formed version |
| Tagger.UnprefixedSkipped | main.py:52 | the rendering of a well-formed version is valid but, lacking the `v`, does not count |
| Tagger.TagVersionTagName | main.py:94 | the published tag name `v<version>` is selected back as the same version |
| Tagger.LatestVersion | main.py:51-56 | the result is `None` exactly when no name counts; otherwise it is the version of a counting name preceded only by names that do not count |
| Tagger.SelectLatest | main.py:51-56 | the loop that walks the names and returns at the first counting one computes the selection |
| Tagger.LatestVersionCons | main.py:51-55 | the first name decides when it counts; otherwise the selection is that of the remaining names |
| Tagger.LatestVersionAppend | main.py:51-55 | names after a counting name are never consulted; selection over `a + b` is `a`'s selection if it has one, else `b`'s |
| Tagger.LatestVersionSkipsNonVersionTag | main.py:52-54 | removing a name that does not count leaves the selection unchanged |
| Tagger.VersionTags | main.py:52-54 | the names that count: a name is kept exactly when it counts, each occurrence of a counting name is kept and none of the others, and the kept names appear in their original order |
| Tagger.LatestVersionOfVersionTags | main.py:52-54 | dropping every name that does not count leaves the selection unchanged |
| Tagger.Bump | main.py:66-71 | the result has no pre-release or build and a strictly greater core. A patch bump is the next core after the base. A minor bump is the first core after every core of the base's minor line. A major bump is the first core after the base's major line |
| Tagger.CoreDeterminedByLowerCores | main.py:66-71 | the cores below a version determine its core, so the characterisations in `Bump` fix (M+1,0,0), (M,m+1,0) and (M,m,p+1) |
| Tagger.GenerateNewVersion | main.py:61-78 | the base is the latest version or `0.1.0`. The result has the bumped core and no build, and has strictly higher precedence than the base. It has no pre-release exactly on the release channel, otherwise `<channel>.1`. It is well formed |
| Tagger.PrereleaseTag | main.py:75 | the pre-release part `<channel>.1`. Its contract lives in `PrereleaseTagWellFormed` and `GenerateNewVersion` |
| Tagger.PrereleaseTagWellFormed | main.py:75 | `beta.1` and `rc.1` are valid pre-release parts |
| Tagger.NextTag | main.py:92-94 | the published tag is selected back as the generated version, which ranks above the latest version when there is one |
| Scenarios.NoHistoryIsInitial | main.py:63 | the base `0.1.0` is well formed and named `v0.1.0`, and with no version tag every request publishes what it would publish after `v0.1.0` |
| Scenarios.EmptyHistoryPatch | main.py:63 | with no version tag, a stable patch request publishes `v0.1.1` |
| Scenarios.EmptyHistoryMinor | main.py:63 | with no version tag, a stable minor request publishes `v0.2.0` |
| Scenarios.MinorReleaseFromOneFourSeven | main.py:71 | from `v1.4.7`, a stable minor request publishes `v1.5.0` |
| Scenarios.MinorBetaFromOneFourSeven | main.py:74-76 | from `v1.4.7`, a beta minor request publishes `v1.5.0-beta.1` |

## Left out

- Argument parsing (`parse_args`). The level and channel are enum values, because
  the `choices` lists already reject anything else.
- Authentication, listing the repository's tags, and creating the tag, the ref and
  the commit lookup. This is network I/O through PyGithub. The tag list is an input
  sequence in the order the host returns it, and the tag name is the output.
- `GithubException` handling, `sys.exit`, console output and the dry-run branch.
  These are side effects and process control.
- The `--sha` argument. It only reaches the tag-creation call.
- Python's regular expressions, which the semver library uses. There, `\d` also
  matches non-ASCII decimal digits, and `$` also matches before a final newline.
  The model follows the grammar of the standard with ASCII digits only. Git refuses
  control characters in tag names anyway.
- Build-metadata precedence. Section 10 of Semantic Versioning 2.0.0 says build
  metadata does not affect precedence, and `Less` ignores it.
- The semver library's other operations (general comparison, `optional_minor_and_patch`,
  `bump_prerelease`). `main.py` does not use them.
