/** The release decision of `src/publish.js`: look the package up on its
    registry, stop if the version is already there, otherwise pick a
    distribution tag and build the one `npm publish` command to run.

    The two subprocesses (`npm show` and `npm publish`) are not run here: the
    answer of `npm show` is an input (`Lookup`), and the publish command is the
    output. */
module Publish {
  import opened Wrappers
  import opened Text
  import opened SemVer
  import opened SemVerSyntax

  /** The registry used when `publishConfig.registry` is absent. */
  const DefaultRegistry: string := "https://registry.npmjs.org/"

  /** What `npm show` writes to stderr for a package the registry does not know. */
  const NotFoundSignature: string := "npm ERR! code E404"

  /** The three distribution tags. */
  datatype Tag = Old | Next | Latest

  function TagName(t: Tag): string {
    match t
    case Old => "old"
    case Next => "next"
    case Latest => "latest"
  }

  /** What the script reads from `package.json`: `name`, `version` and the
      optional `publishConfig.registry`. */
  datatype PackageDescriptor = PackageDescriptor(name: string, version: string, registry: Option<string>)

  /** What the script reads from the parsed output of `npm show`: the `versions`
      field and `dist-tags.latest`, each possibly absent. */
  datatype RegistryInfo = RegistryInfo(versions: Option<seq<string>>, latest: Option<string>)

  /** The `{}` returned for a package the registry does not know. */
  const EmptyInfo := RegistryInfo(None, None)

  /** The answer of `npm show ... --json`: parsed registry info, or a failure
      (the subprocess failed, or its output did not parse) whose `stderr` may be
      absent. */
  datatype Lookup = Shown(info: RegistryInfo) | ShowFailed(stderr: Option<string>)

  /** Errors that end the run. */
  datatype Error =
    | LookupError(stderr: Option<string>)  // rethrown by getPackageInfo
    | InvalidVersion(text: string)         // semver.lt throws on a string it cannot parse
    | NoLatest                             // semver.lt throws on an undefined `dist-tags.latest`

  /** How `semver.lt` treats an undefined second argument. The behaviour belongs
      to the `semver` library, not to the script, so it is an explicit
      assumption of the model: either the version is treated as not less than
      an absent latest, or the call throws. */
  datatype MissingLatest = TreatAsNotLess | Reject

  /** The end of a run. A run that publishes issues exactly one command. */
  datatype Outcome = Fatal(error: Error) | Skipped | Published(command: string)

  /** A run: the `npm show` command it issues and how it ends. */
  datatype Decision = Decision(query: string, outcome: Outcome)

  /** The lookup failed because the registry does not know the package. */
  predicate IsNotFound(stderr: Option<string>) {
    stderr.Some? && Contains(stderr.value, NotFoundSignature)
  }

  /** `getPackageInfo`: the registry info, `{}` for a package the registry does
      not know, and the error itself for any other failure. */
  function GetPackageInfo(lookup: Lookup): (r: Result<RegistryInfo, Error>)
    ensures lookup.Shown? ==> r == Success(lookup.info)
    ensures lookup.ShowFailed? && IsNotFound(lookup.stderr) ==> r == Success(EmptyInfo)
    ensures lookup.ShowFailed? && !IsNotFound(lookup.stderr) ==> r == Failure(LookupError(lookup.stderr))
  {
    match lookup
    case Shown(info) => Success(info)
    case ShowFailed(stderr) =>
      match stderr
      case None => Failure(LookupError(stderr))  // stderr.toString() throws
      case Some(text) =>
        if Contains(text, NotFoundSignature) then Success(EmptyInfo) else Failure(LookupError(stderr))
  }

  /** `info.versions || []`. */
  function VersionsOf(info: RegistryInfo): seq<string> {
    info.versions.GetOr([])
  }

  /** `list.includes(x)`: a scan from the front for an element equal to `x`. */
  function Includes(list: seq<string>, x: string): (r: bool)
    ensures r <==> x in list
  {
    if list == [] then false
    else if list[0] == x then true
    else
      var r := Includes(list[1..], x);
      assert list == [list[0]] + list[1..];
      r
  }

  /** `shouldPublishPackage`: publish unless the exact version string is listed. */
  function ShouldPublishPackage(info: RegistryInfo, version: string): (r: bool)
    ensures r <==> version !in VersionsOf(info)
    ensures r <==> forall i :: 0 <= i < |VersionsOf(info)| ==> VersionsOf(info)[i] != version
    ensures info.versions.None? ==> r
  {
    !Includes(VersionsOf(info), version)
  }

  /** `semver.lt(version, latest)`: throws when either string is not a version
      (the first argument is read first), and consults the `MissingLatest`
      assumption when `latest` is undefined. */
  function SemverLt(version: string, latest: Option<string>, missing: MissingLatest): (r: Result<bool, Error>)
    ensures Parse(version).None? ==> r == Failure(InvalidVersion(version))
    ensures Parse(version).Some? && latest.Some? && Parse(latest.value).None? ==>
      r == Failure(InvalidVersion(latest.value))
    ensures Parse(version).Some? && latest.None? ==>
      r == (if missing == TreatAsNotLess then Success(false) else Failure(NoLatest))
    ensures r.Failure? <==>
      || Parse(version).None?
      || (latest.Some? && Parse(latest.value).None?)
      || (latest.None? && missing == Reject)
    ensures r == Success(true) <==>
      && Parse(version).Some? && latest.Some? && Parse(latest.value).Some?
      && Less(Parse(version).value, Parse(latest.value).value)
  {
    match Parse(version)
    case None => Failure(InvalidVersion(version))
    case Some(v) =>
      match latest
      case None => (
        match missing
        case TreatAsNotLess => Success(false)
        case Reject => Failure(NoLatest))
      case Some(text) =>
        match Parse(text)
        case None => Failure(InvalidVersion(text))
        case Some(w) => Success(Less(v, w))
  }

  /** `semver.prerelease(version) !== null`: the string is a version that ranks
      below its own release, and so it spells a hyphen. */
  function HasPreRelease(version: string): (r: bool)
    ensures r <==> (
      && Parse(version).Some?
      && var v := Parse(version).value;
         Less(v, Version(v.major, v.minor, v.patch, [], v.build)))
    ensures Parse(version).Some? ==> (r <==> IsPreRelease(Parse(version).value))
    ensures r ==> Contains(version, "-")
  {
    match Parse(version)
    case None => false
    case Some(v) =>
      if v.pre == [] then false
      else
        PreReleaseHyphen(v);
        true
  }

  /** `getTag`: `old` if the version is less than `dist-tags.latest`, otherwise
      `next` for a pre-release, otherwise `latest`. The comparison runs first,
      so its errors come first. */
  function GetTag(info: RegistryInfo, version: string, missing: MissingLatest): (r: Result<Tag, Error>)
    ensures r.Failure? <==>
      || Parse(version).None?
      || (info.latest.Some? && Parse(info.latest.value).None?)
      || (info.latest.None? && missing == Reject)
    ensures Parse(version).None? ==> r == Failure(InvalidVersion(version))
    ensures Parse(version).Some? && info.latest.Some? && Parse(info.latest.value).Some? ==> (
      var v, w := Parse(version).value, Parse(info.latest.value).value;
      && (r == Success(Old) <==> Less(v, w))
      && (r == Success(Next) <==> !Less(v, w) && IsPreRelease(v))
      && (r == Success(Latest) <==> !Less(v, w) && !IsPreRelease(v)))
    ensures Parse(version).Some? && info.latest.None? ==>
      r == (if missing == Reject then Failure(NoLatest)
            else if IsPreRelease(Parse(version).value) then Success(Next)
            else Success(Latest))
  {
    match SemverLt(version, info.latest, missing)
    case Failure(e) => Failure(e)
    case Success(less) =>
      if less then Success(Old)
      else if HasPreRelease(version) then Success(Next)
      else Success(Latest)
  }

  /** The command `execPublish` runs: the fixed prefix, the tag name, one space,
      then the flags unchanged. */
  function PublishCommand(t: Tag, flags: string): (r: string)
    ensures |r| == 19 + |TagName(t)| + |flags|
    ensures r[..18] == "npm publish --tag="
    ensures r[18..18 + |TagName(t)|] == TagName(t)
    ensures r[18 + |TagName(t)|] == ' '
    ensures r[19 + |TagName(t)|..] == flags
  {
    var prefix := "npm publish --tag=";
    var head := prefix + TagName(t) + " ";
    assert |prefix| == 18;
    assert head[18..18 + |TagName(t)|] == TagName(t);
    head + flags
  }

  /** `get(pkg, 'publishConfig.registry', DEFAULT_REGISTRY)`: the configured
      registry when there is one, the public registry otherwise. */
  function RegistryUrl(pkg: PackageDescriptor): (r: string)
    ensures pkg.registry.Some? ==> r == pkg.registry.value
    ensures pkg.registry.None? ==> r == DefaultRegistry
  {
    pkg.registry.GetOr(DefaultRegistry)
  }

  /** The command `getPackageInfo` runs: the package name and the registry at
      fixed places between the fixed words. */
  function ShowCommand(name: string, registry: string): (r: string)
    ensures |r| == 28 + |name| + |registry|
    ensures r[..9] == "npm show "
    ensures r[9..9 + |name|] == name
    ensures r[9 + |name|..21 + |name|] == " --registry="
    ensures r[21 + |name|..21 + |name| + |registry|] == registry
    ensures r[21 + |name| + |registry|..] == " --json"
  {
    var a := "npm show " + name;
    var b := a + " --registry=";
    var c := b + registry;
    assert |"npm show "| == 9 && |" --registry="| == 12 && |" --json"| == 7;
    assert b[..9] == a[..9];
    assert b[9..9 + |name|] == a[9..9 + |name|];
    assert c[..21 + |name|] == b;
    c + " --json"
  }

  /** `publish(flags)`: query the registry, then skip or publish. `lookup` is the
      answer to the query. A lookup error is fatal; a listed version skips; an
      unlisted one publishes with the tag `getTag` picks, or is fatal when
      `getTag` throws. */
  function Publish(pkg: PackageDescriptor, flags: string, lookup: Lookup, missing: MissingLatest): (r: Decision)
    ensures GetPackageInfo(lookup).Failure? ==> r.outcome == Fatal(GetPackageInfo(lookup).error)
    ensures r.outcome == Skipped <==>
      GetPackageInfo(lookup).Success? && pkg.version in VersionsOf(GetPackageInfo(lookup).value)
    ensures r.outcome.Published? <==>
      && GetPackageInfo(lookup).Success?
      && pkg.version !in VersionsOf(GetPackageInfo(lookup).value)
      && GetTag(GetPackageInfo(lookup).value, pkg.version, missing).Success?
    ensures r.outcome.Published? ==>
      r.outcome.command == PublishCommand(GetTag(GetPackageInfo(lookup).value, pkg.version, missing).value, flags)
    ensures r.outcome.Fatal? && GetPackageInfo(lookup).Success? ==>
      r.outcome == Fatal(GetTag(GetPackageInfo(lookup).value, pkg.version, missing).error)
  {
    var query := ShowCommand(pkg.name, RegistryUrl(pkg));
    match GetPackageInfo(lookup)
    case Failure(e) => Decision(query, Fatal(e))
    case Success(info) =>
      if !ShouldPublishPackage(info, pkg.version) then Decision(query, Skipped)
      else
        match GetTag(info, pkg.version, missing)
        case Failure(e) => Decision(query, Fatal(e))
        case Success(t) => Decision(query, Published(PublishCommand(t, flags)))
  }

  // Tags.

  /** The tag is always one of the three constants, and the names tell the tags apart. */
  lemma TagNames(a: Tag, b: Tag)
    ensures TagName(a) == "old" || TagName(a) == "next" || TagName(a) == "latest"
    ensures TagName(a) == TagName(b) ==> a == b
  {
  }

  /** A version tagged `old` ranks strictly below the registry's latest. */
  lemma OldIsBelowLatest(info: RegistryInfo, version: string, missing: MissingLatest)
    requires GetTag(info, version, missing) == Success(Old)
    ensures info.latest.Some? && Parse(version).Some? && Parse(info.latest.value).Some?
    ensures Less(Parse(version).value, Parse(info.latest.value).value)
  {
  }

  /** A version tagged `latest` is not a pre-release and does not rank below the
      registry's latest: the `latest` tag never moves to a lower version. */
  lemma LatestNeverMovesBack(info: RegistryInfo, version: string, missing: MissingLatest)
    requires GetTag(info, version, missing) == Success(Latest)
    ensures Parse(version).Some? && !IsPreRelease(Parse(version).value)
    ensures info.latest.Some? ==> (
      && Parse(info.latest.value).Some?
      && var v, w := Parse(version).value, Parse(info.latest.value).value;
         Less(w, v) || SamePrecedence(w, v))
  {
  }

  /** A version tagged `next` is a pre-release that does not rank below the
      registry's latest. */
  lemma NextIsNotBehind(info: RegistryInfo, version: string, missing: MissingLatest)
    requires GetTag(info, version, missing) == Success(Next)
    ensures Parse(version).Some? && IsPreRelease(Parse(version).value)
    ensures info.latest.Some? ==> (
      && Parse(info.latest.value).Some?
      && var v, w := Parse(version).value, Parse(info.latest.value).value;
         Less(w, v) || SamePrecedence(w, v))
  {
    if info.latest.Some? {
      LessTrichotomy(Parse(version).value, Parse(info.latest.value).value);
    }
  }

  /** The branch order at work: a pre-release of the version that is currently
      latest (say `1.0.0-beta.1` against `1.0.0`) is tagged `old`, not `next`. */
  lemma PreReleaseOfLatestIsOld(info: RegistryInfo, v: Version, missing: MissingLatest)
    requires Valid(v) && IsPreRelease(v)
    requires info.latest == Some(Format(Version(v.major, v.minor, v.patch, [], [])))
    ensures GetTag(info, Format(v), missing) == Success(Old)
  {
    var release := Version(v.major, v.minor, v.patch, [], []);
    ParseFormat(v);
    ParseFormat(release);
    PreReleaseBelowNormal(v, []);
  }

  // The command.

  /** The command names its tag and ends with the flags; different tags or flags
      give different commands. */
  lemma PublishCommandInjective(a: Tag, f: string, b: Tag, g: string)
    requires PublishCommand(a, f) == PublishCommand(b, g)
    ensures a == b && f == g
  {
  }

  // The run.

  /** The lookup goes to `publishConfig.registry` when it is set, and to the
      public registry otherwise. */
  lemma PublishQueriesRegistry(pkg: PackageDescriptor, flags: string, lookup: Lookup, missing: MissingLatest)
    ensures pkg.registry.Some? ==>
      Publish(pkg, flags, lookup, missing).query == ShowCommand(pkg.name, pkg.registry.value)
    ensures pkg.registry.None? ==>
      Publish(pkg, flags, lookup, missing).query == ShowCommand(pkg.name, "https://registry.npmjs.org/")
  {
  }

  /** A failed lookup that is not "not found" ends the run: nothing is published. */
  lemma LookupErrorIsFatal(pkg: PackageDescriptor, flags: string, stderr: Option<string>, missing: MissingLatest)
    requires !IsNotFound(stderr)
    ensures Publish(pkg, flags, ShowFailed(stderr), missing).outcome == Fatal(LookupError(stderr))
  {
  }

  /** A "not found" lookup proceeds as if the registry answered `{}`: the version
      is never skipped, and no `versions` list can block it. */
  lemma NotFoundProceedsEmpty(pkg: PackageDescriptor, flags: string, stderr: string, missing: MissingLatest)
    requires Contains(stderr, NotFoundSignature)
    ensures Publish(pkg, flags, ShowFailed(Some(stderr)), missing) == Publish(pkg, flags, Shown(EmptyInfo), missing)
    ensures Publish(pkg, flags, ShowFailed(Some(stderr)), missing).outcome != Skipped
  {
  }

  // Examples.
  //
  // The version strings of the examples are parameters pinned by `requires`:
  // applied to a literal, `Parse` is unfolded eagerly and the proof exceeds the
  // solver's resource limit.

  /** `major.minor.patch` with single digits reads as that release. */
  lemma ParseRelease(text: string, major: nat, minor: nat, patch: nat)
    requires major < 10 && minor < 10 && patch < 10
    requires text == [DigitChar(major), '.', DigitChar(minor), '.', DigitChar(patch)]
    ensures Parse(text) == Some(Version(major, minor, patch, [], []))
  {
    var v := Version(major, minor, patch, [], []);
    assert NatToDecimal(major) == [DigitChar(major)];
    assert NatToDecimal(minor) == [DigitChar(minor)];
    assert NatToDecimal(patch) == [DigitChar(patch)];
    JoinThree([DigitChar(major)], [DigitChar(minor)], [DigitChar(patch)], '.');
    assert CoreText(v) == text;
    assert Format(v) == text + "" + "" == text;
    ParseFormat(v);
  }

  /** `major.0.0-beta.1` reads as that pre-release. */
  lemma ParseBeta(text: string, major: nat)
    requires major < 10
    requires text == [DigitChar(major), '.', '0', '.', '0', '-', 'b', 'e', 't', 'a', '.', '1']
    ensures Parse(text) == Some(Version(major, 0, 0, [Alnum("beta"), Num(1)], []))
  {
    var v := Version(major, 0, 0, [Alnum("beta"), Num(1)], []);
    BetaPre();
    BetaCore(major);
    assert Format(v) == text;
    ParseFormat(v);
  }

  /** The core `major.0.0` with a single digit. */
  lemma BetaCore(major: nat)
    requires major < 10
    ensures CoreText(Version(major, 0, 0, [Alnum("beta"), Num(1)], [])) == [DigitChar(major), '.', '0', '.', '0']
  {
    assert NatToDecimal(major) == [DigitChar(major)];
    assert NatToDecimal(0) == "0";
    JoinThree([DigitChar(major)], "0", "0", '.');
  }

  /** The pre-release `beta.1` is valid and written `-beta.1`. */
  lemma BetaPre()
    ensures ValidIdentifier(Alnum("beta")) && ValidIdentifier(Num(1))
    ensures PreText([Alnum("beta"), Num(1)]) == ['-', 'b', 'e', 't', 'a', '.', '1']
  {
    assert !IsDigit("beta"[0]);
    assert NatToDecimal(1) == "1";
    assert IdentifierTexts([Alnum("beta"), Num(1)]) == ["beta", "1"];
    assert Join(["beta", "1"], '.') == "beta.1" by {
      assert ["beta", "1"][1..] == ["1"];
    }
  }

  /** The command for tag `latest`. */
  lemma LatestCommand(flags: string)
    ensures PublishCommand(Latest, flags) == "npm publish --tag=latest " + flags
  {
  }

  /** `1.0.0-beta.1` against latest `1.0.0` is tagged `old`, not `next`. */
  lemma OldPreReleaseExample(latest: string, version: string, missing: MissingLatest)
    requires latest == "1.0.0" && version == "1.0.0-beta.1"
    ensures GetTag(RegistryInfo(None, Some(latest)), version, missing) == Success(Old)
  {
    var w := Version(1, 0, 0, [], []);
    var v := Version(1, 0, 0, [Alnum("beta"), Num(1)], []);
    ParseRelease(latest, 1, 0, 0);
    ParseBeta(version, 1);
    assert Less(v, w);
  }

  /** `2.0.0-beta.1` against latest `1.0.0` is tagged `next`. */
  lemma NextPreReleaseExample(latest: string, version: string, missing: MissingLatest)
    requires latest == "1.0.0" && version == "2.0.0-beta.1"
    ensures GetTag(RegistryInfo(None, Some(latest)), version, missing) == Success(Next)
  {
    var w := Version(1, 0, 0, [], []);
    var v := Version(2, 0, 0, [Alnum("beta"), Num(1)], []);
    ParseRelease(latest, 1, 0, 0);
    ParseBeta(version, 2);
    assert !Less(v, w) && IsPreRelease(v);
  }

  /** `1.2.0` against latest `1.0.0` is tagged `latest`. */
  lemma NewReleaseTagExample(v100: string, v120: string, missing: MissingLatest)
    requires v100 == "1.0.0" && v120 == "1.2.0"
    ensures GetTag(RegistryInfo(Some([v100]), Some(v100)), v120, missing) == Success(Latest)
  {
    ParseRelease(v100, 1, 0, 0);
    ParseRelease(v120, 1, 2, 0);
    var v, w := Version(1, 2, 0, [], []), Version(1, 0, 0, [], []);
    assert !Less(v, w) && !IsPreRelease(v);
  }

  /** A package at `1.2.0` against a registry listing `1.0.0` as its only and
      latest version publishes with tag `latest`. */
  lemma NewReleaseExample(v100: string, v120: string, pkg: PackageDescriptor, flags: string, missing: MissingLatest)
    requires v100 == "1.0.0" && v120 == "1.2.0" && pkg.version == v120
    ensures Publish(pkg, flags, Shown(RegistryInfo(Some([v100]), Some(v100))), missing).outcome
            == Published("npm publish --tag=latest " + flags)
  {
    var info := RegistryInfo(Some([v100]), Some(v100));
    NewReleaseTagExample(v100, v120, missing);
    assert v120 != v100 by { assert v120[2] != v100[2]; }
    assert v120 !in VersionsOf(info);
    LatestCommand(flags);
  }

  /** The same run once `1.2.0` is listed skips. */
  lemma ListedReleaseExample(v100: string, v120: string, pkg: PackageDescriptor, flags: string, missing: MissingLatest)
    requires v100 == "1.0.0" && v120 == "1.2.0" && pkg.version == v120
    ensures Publish(pkg, flags, Shown(RegistryInfo(Some([v100, v120]), Some(v120))), missing).outcome == Skipped
  {
    var info := RegistryInfo(Some([v100, v120]), Some(v120));
    assert VersionsOf(info)[1] == v120;
  }

  /** npm's usual answer for an unknown package carries the E404 signature. */
  lemma NotFoundAnswerExample(stderr: string)
    requires stderr == "npm ERR! code E404\nnpm ERR! 404 Not Found"
    ensures GetPackageInfo(ShowFailed(Some(stderr))) == Success(EmptyInfo)
  {
    assert OccursAt(stderr, NotFoundSignature, 0);
  }

  /** A first release: the registry reports E404, and the version is published
      with tag `latest` when an undefined latest is treated as "not less". */
  lemma FirstReleaseExample(version: string, stderr: string, pkg: PackageDescriptor, flags: string)
    requires version == "1.0.0" && stderr == "npm ERR! code E404\nnpm ERR! 404 Not Found"
    requires pkg.version == version
    ensures Publish(pkg, flags, ShowFailed(Some(stderr)), TreatAsNotLess).outcome
            == Published("npm publish --tag=latest " + flags)
  {
    ParseRelease(version, 1, 0, 0);
    NotFoundAnswerExample(stderr);
    assert GetTag(EmptyInfo, version, TreatAsNotLess) == Success(Latest);
    LatestCommand(flags);
  }

  /** The same first release is fatal when the library rejects an undefined
      latest. */
  lemma FirstReleaseRejectedExample(version: string, stderr: string, pkg: PackageDescriptor, flags: string)
    requires version == "1.0.0" && stderr == "npm ERR! code E404\nnpm ERR! 404 Not Found"
    requires pkg.version == version
    ensures Publish(pkg, flags, ShowFailed(Some(stderr)), Reject).outcome == Fatal(NoLatest)
  {
    ParseRelease(version, 1, 0, 0);
    NotFoundAnswerExample(stderr);
  }
}
