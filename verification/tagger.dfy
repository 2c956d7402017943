/**
 * The version computation of the tagger: choosing the latest version from
 * the repository's tag names, and generating the next version and its tag
 * name from a bump level and a release channel.
 *
 * The tag list is an input (the order in which the hosting service lists
 * the tags); fetching and publishing tags is outside this model.
 */
module Tagger {
  import opened Wrappers
  import opened Text
  import opened SemVer
  import opened Selection

  /** The `--level` choices. */
  datatype Level = Major | Minor | Patch

  /** The `--channel` choices; `Release` is the stable channel. */
  datatype Channel = Beta | Rc | Release

  function ChannelName(c: Channel): string
  {
    match c
    case Beta => "beta"
    case Rc => "rc"
    case Release => "release"
  }

  // ---------------------------------------------------------------------
  // Tag selection

  /** The published name of a version: `v` followed by the rendered version. */
  function TagName(v: Version): string
  {
    "v" + Render(v)
  }

  /**
   * The version a tag name stands for: a name counts only when it starts
   * with `v` and the rest is a valid semantic version.
   */
  function TagVersion(name: string): (r: Option<Version>)
    ensures r.Some? ==> WellFormed(r.value) && TagName(r.value) == name
  {
    if |name| > 0 && name[0] == 'v' then
      var r := Parse(name[1..]);
      if r.Some? then
        RenderParse(name[1..]);
        assert name == "v" + name[1..];
        r
      else None
    else None
  }

  /** Round trip: the tag name of a well-formed version selects that version. */
  lemma TagVersionTagName(v: Version)
    requires WellFormed(v)
    ensures TagVersion(TagName(v)) == Some(v)
  {
    ParseRender(v);
    assert TagName(v)[1..] == Render(v);
  }

  /** The names that count are exactly the tag names of well-formed versions. */
  lemma TagVersionIff(name: string)
    ensures TagVersion(name).Some? <==> exists v :: WellFormed(v) && TagName(v) == name
  {
    if exists v :: WellFormed(v) && TagName(v) == name {
      var v :| WellFormed(v) && TagName(v) == name;
      TagVersionTagName(v);
    }
  }

  /** A valid version written without the `v` prefix does not count. */
  lemma UnprefixedSkipped(v: Version)
    requires WellFormed(v)
    ensures IsValid(Render(v)) && TagVersion(Render(v)).None?
  {
    ParseRender(v);
    var d := Decimal(v.major);
    assert [d, Decimal(v.minor), Decimal(v.patch)][0] == d;
    assert Render(v)[0] == d[0];
  }

  /**
   * `get_latest_version`: the version of the first tag name, in list order,
   * that counts; `None` when no name does.
   */
  function LatestVersion(tags: seq<string>): (r: Option<Version>)
    ensures r.None? <==> forall i :: 0 <= i < |tags| ==> TagVersion(tags[i]).None?
    ensures r.Some? ==> exists k :: 0 <= k < |tags| && TagVersion(tags[k]) == r
                                    && forall j :: 0 <= j < k ==> TagVersion(tags[j]).None?
  {
    FirstSome(tags, TagVersion)
  }

  /** The selection loop as written: walk the names, return at the first that counts. */
  method SelectLatest(tags: seq<string>) returns (r: Option<Version>)
    ensures r == LatestVersion(tags)
  {
    var i := 0;
    while i < |tags|
      invariant 0 <= i <= |tags|
      invariant LatestVersion(tags) == LatestVersion(tags[i..])
    {
      var name := tags[i];
      if |name| > 0 && name[0] == 'v' {
        var candidate := name[1..];
        if IsValid(candidate) {
          return Parse(candidate);
        }
      }
      assert tags[i..][1..] == tags[i + 1..];
      i := i + 1;
    }
    return None;
  }

  /** One step of the loop: the first name decides if it counts, else the rest does. */
  lemma LatestVersionCons(name: string, rest: seq<string>)
    ensures LatestVersion([name] + rest) == if TagVersion(name).Some? then TagVersion(name) else LatestVersion(rest)
  {
    FirstSomeAppend([name], rest, TagVersion);
    assert [name][1..] == [];
  }

  /** Tags after a list that already holds a counting name are never consulted. */
  lemma LatestVersionAppend(a: seq<string>, b: seq<string>)
    ensures LatestVersion(a + b) == if LatestVersion(a).Some? then LatestVersion(a) else LatestVersion(b)
  {
    FirstSomeAppend(a, b, TagVersion);
  }

  /** Removing a name that does not count leaves the selection unchanged. */
  lemma LatestVersionSkipsNonVersionTag(tags: seq<string>, i: nat)
    requires i < |tags| && TagVersion(tags[i]).None?
    ensures LatestVersion(tags[..i] + tags[i + 1..]) == LatestVersion(tags)
  {
    FirstSomeSkips(tags, i, TagVersion);
  }

  /** The names that count, in their original order. */
  function VersionTags(tags: seq<string>): (r: seq<string>)
    ensures forall i :: 0 <= i < |r| ==> TagVersion(r[i]).Some?
    ensures forall t :: t in r <==> t in tags && TagVersion(t).Some?
    ensures forall t :: multiset(r)[t] == if TagVersion(t).Some? then multiset(tags)[t] else 0
    ensures IsSubsequence(r, tags)
  {
    Keep(tags, TagVersion)
  }

  /** Dropping every name that does not count leaves the selection unchanged. */
  lemma LatestVersionOfVersionTags(tags: seq<string>)
    ensures LatestVersion(VersionTags(tags)) == LatestVersion(tags)
  {
    FirstSomeOfKeep(tags, TagVersion);
  }

  // ---------------------------------------------------------------------
  // Version generation

  /** The base used when the repository has no version tag yet. */
  const Initial: Version := Version(0, 1, 0, None, None)

  /**
   * `bump_major`, `bump_minor`, `bump_patch` (sections 6-8 of Semantic
   * Versioning 2.0.0). Each result is characterised by the cores that rank
   * below it, which pins down its numbers: a patch bump is the next core
   * after `v`, a minor bump the first core after `v`'s minor line, a major
   * bump the first core after `v`'s major line.
   */
  function Bump(v: Version, level: Level): (r: Version)
    ensures r.prerelease.None? && r.build.None?
    ensures CoreLess(v, r)
    ensures level == Patch ==> forall w :: CoreLess(w, r) <==> !CoreLess(v, w)
    ensures level == Minor ==> forall w :: CoreLess(w, r) <==>
              (w.major < v.major || (w.major == v.major && w.minor <= v.minor))
    ensures level == Major ==> forall w :: CoreLess(w, r) <==> w.major <= v.major
  {
    match level
    case Major => Version(v.major + 1, 0, 0, None, None)
    case Minor => Version(v.major, v.minor + 1, 0, None, None)
    case Patch => Version(v.major, v.minor, v.patch + 1, None, None)
  }

  /** Two versions with the same cores-below characterisation have the same core. */
  lemma CoreDeterminedByLowerCores(a: Version, b: Version)
    requires forall w :: CoreLess(w, a) <==> CoreLess(w, b)
    ensures SameCore(a, b)
  {
    assert CoreLess(a, a) <==> CoreLess(a, b);
    assert CoreLess(b, a) <==> CoreLess(b, b);
  }

  /** The pre-release part for a pre-release channel: `<channel>.1`. */
  function PrereleaseTag(channel: Channel): string
  {
    ChannelName(channel) + ".1"
  }

  /**
   * `generate_new_version`: bump the latest version (or `0.1.0` when there is
   * none) and, off the release channel, attach the pre-release `<channel>.1`.
   */
  function GenerateNewVersion(level: Level, channel: Channel, latest: Option<Version>): (r: Version)
    ensures var base := latest.GetOr(Initial);
      && SameCore(r, Bump(base, level))
      && Less(base, r)
      && r.build.None?
      && (channel == Release <==> r.prerelease.None?)
      && (channel != Release ==> r.prerelease == Some(ChannelName(channel) + ".1"))
      && WellFormed(r)
  {
    var base := latest.GetOr(Initial);
    var bumped := Bump(base, level);
    if channel != Release then
      PrereleaseTagWellFormed(channel);
      bumped.(prerelease := Some(PrereleaseTag(channel)))
    else bumped
  }

  lemma PrereleaseTagWellFormed(channel: Channel)
    requires channel != Release
    ensures IsPrerelease(PrereleaseTag(channel))
  {
    var name := ChannelName(channel);
    assert IsIdent(name) && !IsDigit(name[0]);
    DecimalDigit(1);
    assert Decimal(1) == "1";
    NamedPrerelease(name, 1);
  }

  /**
   * The tag the tool publishes for a tag list and a request: it names the
   * generated version, and that version ranks above the one it was bumped from.
   */
  function NextTag(tags: seq<string>, level: Level, channel: Channel): (tag: string)
    ensures TagVersion(tag) == Some(GenerateNewVersion(level, channel, LatestVersion(tags)))
    ensures LatestVersion(tags).Some? ==> Less(LatestVersion(tags).value, TagVersion(tag).value)
  {
    var v := GenerateNewVersion(level, channel, LatestVersion(tags));
    TagVersionTagName(v);
    TagName(v)
  }
}
