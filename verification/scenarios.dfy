/**
 * Concrete runs of the tagger on small tag lists, each derived from the
 * general lemmas rather than by evaluating the parser character by character.
 */
module Scenarios {
  import opened Wrappers
  import opened Text
  import opened SemVer
  import opened Tagger

  /** The tag name of a stable version with single-digit numbers. */
  lemma SingleDigitTagName(major: nat, minor: nat, patch: nat)
    requires major < 10 && minor < 10 && patch < 10
    ensures TagName(Version(major, minor, patch, None, None))
            == ['v', DigitChar(major), '.', DigitChar(minor), '.', DigitChar(patch)]
  {
    DecimalDigit(major);
    DecimalDigit(minor);
    DecimalDigit(patch);
    RenderCoreOnly(Version(major, minor, patch, None, None));
  }

  lemma ZeroOneZero()
    ensures WellFormed(Initial) && TagName(Initial) == "v0.1.0"
    ensures LatestVersion(["v0.1.0"]) == Some(Initial)
  {
    SingleDigitTagName(0, 1, 0);
    TagVersionTagName(Initial);
  }

  /**
   * With no version tag the base is `0.1.0`: every request publishes what it
   * would publish if the newest tag were `v0.1.0`.
   */
  lemma NoHistoryIsInitial(level: Level, channel: Channel)
    ensures WellFormed(Initial) && TagName(Initial) == "v0.1.0"
    ensures NextTag([], level, channel) == NextTag(["v0.1.0"], level, channel)
  {
    ZeroOneZero();
    assert GenerateNewVersion(level, channel, None) == GenerateNewVersion(level, channel, Some(Initial));
  }

  /** With no version tag, a stable patch release is `v0.1.1`. */
  lemma EmptyHistoryPatch()
    ensures NextTag([], Patch, Release) == "v0.1.1"
  {
    var v := Version(0, 1, 1, None, None);
    assert GenerateNewVersion(Patch, Release, None) == v;
    SingleDigitTagName(0, 1, 1);
  }

  /** With no version tag, a stable minor release is `v0.2.0`. */
  lemma EmptyHistoryMinor()
    ensures NextTag([], Minor, Release) == "v0.2.0"
  {
    var v := Version(0, 2, 0, None, None);
    assert GenerateNewVersion(Minor, Release, None) == v;
    SingleDigitTagName(0, 2, 0);
  }

  lemma OneFourSeven()
    ensures LatestVersion(["v1.4.7"]) == Some(Version(1, 4, 7, None, None))
  {
    var v := Version(1, 4, 7, None, None);
    SingleDigitTagName(1, 4, 7);
    TagVersionTagName(v);
  }

  /** From `1.4.7`, a stable minor release resets the patch number: `v1.5.0`. */
  lemma MinorReleaseFromOneFourSeven()
    ensures NextTag(["v1.4.7"], Minor, Release) == "v1.5.0"
  {
    OneFourSeven();
    var v := Version(1, 5, 0, None, None);
    assert GenerateNewVersion(Minor, Release, LatestVersion(["v1.4.7"])) == v;
    SingleDigitTagName(1, 5, 0);
  }

  lemma BetaTagName()
    ensures TagName(Version(1, 5, 0, Some("beta.1"), None)) == "v1.5.0-beta.1"
  {
    var v := Version(1, 5, 0, Some("beta.1"), None);
    SingleDigitTagName(1, 5, 0);
    RenderPrerelease(v);
  }

  /** From `1.4.7`, a beta minor release is `v1.5.0-beta.1`. */
  lemma MinorBetaFromOneFourSeven()
    ensures NextTag(["v1.4.7"], Minor, Beta) == "v1.5.0-beta.1"
  {
    OneFourSeven();
    var v := Version(1, 5, 0, Some("beta.1"), None);
    assert ChannelName(Beta) + ".1" == "beta.1";
    assert GenerateNewVersion(Minor, Beta, LatestVersion(["v1.4.7"])) == v;
    BetaTagName();
  }
}
