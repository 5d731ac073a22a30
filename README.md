# npm-ci-scripts `publish`: a verified model of the release decision

`src/publish.js` publishes a package to an npm registry in one pass:

1. It reads `package.json` and takes the registry from `publishConfig.registry`,
   or from the public registry `https://registry.npmjs.org/` when none is set.
2. It runs `npm show <name> --registry=<registry> --json`.
   - A failure whose stderr contains `npm ERR! code E404` means the package has
     never been published. The run continues with `{}`.
   - Any other failure is rethrown.
3. If the version string is already in the registry's `versions` list, it
   stops without publishing.
4. Otherwise it picks a distribution tag:
   - `old` when the version is below `dist-tags.latest` by semantic-version
     precedence;
   - otherwise `next` for a pre-release;
   - otherwise `latest`.
5. It runs `npm publish --tag=<tag> <flags>`.

The model turns this run into one pure function, `Publish.Publish`. It takes
the package descriptor, the pass-through flags and the answer of `npm show`.
It returns the `npm show` command it issues and an outcome: `Fatal(error)`,
`Skipped` or `Published(command)`. The comparisons that the script hands to
the `semver` library are modelled from Semantic Versioning 2.0.0:

- `SemVer`: versions (section 2), pre-release identifiers (section 9) and
  precedence (section 11). Precedence is proved to be a strict order that is
  total up to build metadata.
- `SemVerSyntax`: reading and writing version strings, proved mutually
  inverse on canonical text.

Files:

- `Wrappers.dfy`: `Option` and `Result`.
- `Text.dfy`: `String.prototype.includes`, split and join, decimal numerals.
- `SemVer.dfy`: `Version`, `Less`, `IsPreRelease` and the order lemmas.
- `SemVerSyntax.dfy`: `Parse` and `Format`.
- `Publish.dfy`: the script's own functions, the run decision and the lemmas
  about them.

`semver.lt` with an undefined `dist-tags.latest` is decided by the library, not
by the script. This happens after an E404 lookup, for example. The model makes
it an explicit input, `MissingLatest`:

- `TreatAsNotLess`: for a version that parses, the comparison is false, so
  the flow falls to the pre-release test. An unparsable version still throws.
- `Reject`: the call throws and the run is fatal.

Every tag property for a defined latest holds under both choices.

## Model

| member | source | states |
|---|---|---|
| `Text.Contains` | src/publish.js:16 | `includes` on strings is true exactly when the needle occurs at some index of the haystack |
| `Publish.GetPackageInfo` | src/publish.js:12-21 | a successful lookup gives its info; a failure with the E404 signature in stderr gives `{}`; any other failure is rethrown; one without stderr fails with a TypeError from `toString`; both are fatal |
| `Publish.NotFoundAnswerExample` | src/publish.js:16-18 | npm's answer `npm ERR! code E404` followed by a `404 Not Found` line is classified as "not published yet" and gives `{}` |
| `Publish.Includes` | src/publish.js:26 | the array scan `includes(version)` is true exactly when the version string is an element of the list |
| `Publish.ShouldPublishPackage` | src/publish.js:24-27 | publishing is allowed exactly when the version string is not in `info.versions \|\| []`, i.e. no listed version equals it; a missing `versions` field always allows it |
| `SemVer.Less` | src/publish.js:30 | precedence of section 11 (major, minor, patch numerically, then pre-release fields); versions that precede one another never have equal precedence |
| `SemVer.IsPreRelease` | src/publish.js:31 | a version has a pre-release part exactly when it ranks below the same major.minor.patch without one |
| `SemVer.LessIrreflexive` | src/publish.js:30 | no version precedes itself |
| `SemVer.LessTransitive` | src/publish.js:30 | precedence is transitive |
| `SemVer.LessAsymmetric` | src/publish.js:30 | two versions never precede each other |
| `SemVer.LessTrichotomy` | src/publish.js:30 | for any two versions exactly one holds: the first precedes, the second precedes, or they have equal precedence (equal apart from build metadata) |
| `SemVer.PreReleaseBelowNormal` | src/publish.js:30 | section 11.3: a pre-release ranks below the normal version with the same major.minor.patch, and not above it |
| `SemVer.PrecedenceExample` | src/publish.js:30 | the example chain of section 11.4 (`1.0.0-alpha` < `1.0.0-alpha.1` < ... < `1.0.0-rc.1` < `1.0.0`) is strictly increasing |
| `SemVerSyntax.Parse` | src/publish.js:30-31 | every string that reads as a version is valid and is exactly that version's text, so no non-canonical spelling is accepted |
| `SemVerSyntax.ParseFormat` | src/publish.js:30-31 | every valid version is read back from its own text |
| `Publish.SemverLt` | src/publish.js:30 | `semver.lt` throws on an unparsable version before it looks at latest, then on an unparsable latest; an undefined latest follows `MissingLatest`; it answers true exactly when both parse and the version precedes latest |
| `Publish.HasPreRelease` | src/publish.js:31 | `semver.prerelease(version) !== null` exactly when the string parses to a version ranking below its own release; such a string contains a `-` |
| `Publish.GetTag` | src/publish.js:29-40 | `getTag` throws exactly when a string does not parse or latest is undefined under `Reject`; for parsed v and latest w, `old` iff v < w, `next` iff not v < w and v is a pre-release, `latest` iff neither; with no latest under `TreatAsNotLess` the pre-release test alone decides |
| `Publish.TagNames` | src/publish.js:8-10 | the tag name is one of `old`, `next`, `latest`, and distinct tags have distinct names |
| `Publish.OldIsBelowLatest` | src/publish.js:33-34 | a version tagged `old` parses and ranks strictly below a latest that is present and parses |
| `Publish.LatestNeverMovesBack` | src/publish.js:37-39 | a version tagged `latest` is not a pre-release and ranks at or above the registry's latest, so the `latest` tag never moves down |
| `Publish.NextIsNotBehind` | src/publish.js:35-36 | a version tagged `next` is a pre-release and ranks at or above the registry's latest |
| `Publish.PreReleaseOfLatestIsOld` | src/publish.js:30-36 | a pre-release of the version that is currently latest is tagged `old`, because the comparison runs before the pre-release test |
| `Publish.PublishCommand` | src/publish.js:43 | the command is `npm publish --tag=`, then the tag name, one space, then the flags unchanged, with the length of the three pieces |
| `Publish.PublishCommandInjective` | src/publish.js:43 | the publish command determines both its tag and its flags |
| `Publish.RegistryUrl` | src/publish.js:57 | the registry is `publishConfig.registry` when set, and `https://registry.npmjs.org/` otherwise |
| `Publish.ShowCommand` | src/publish.js:14 | the query is `npm show `, the name, ` --registry=`, the registry and ` --json`, each at its fixed place |
| `Publish.Publish` | src/publish.js:55-69 | a lookup error is fatal with that error; the run skips exactly when the info is available and lists the version string; it publishes exactly when the info is available, the version is not listed and `getTag` succeeds, with the command for that tag and the flags; otherwise the `getTag` error is fatal |
| `Publish.PublishQueriesRegistry` | src/publish.js:57-59 | the lookup goes to `publishConfig.registry` when it is set, and to `https://registry.npmjs.org/` otherwise |
| `Publish.LookupErrorIsFatal` | src/publish.js:15-20 | a lookup failure without the E404 signature ends the run as fatal, and nothing is published |
| `Publish.NotFoundProceedsEmpty` | src/publish.js:16-18 | an E404 failure leads to the same run as an empty registry answer, and that run never skips |
| `Publish.OldPreReleaseExample` | src/publish.js:33-34 | `1.0.0-beta.1` against latest `1.0.0` is tagged `old` |
| `Publish.NextPreReleaseExample` | src/publish.js:35-36 | `2.0.0-beta.1` against latest `1.0.0` is tagged `next` |
| `Publish.NewReleaseTagExample` | src/publish.js:37-39 | `1.2.0` against latest `1.0.0` is tagged `latest` |
| `Publish.NewReleaseExample` | src/publish.js:63-67 | a package at `1.2.0` against versions `["1.0.0"]` and latest `1.0.0` publishes with `npm publish --tag=latest <flags>` |
| `Publish.ListedReleaseExample` | src/publish.js:63-65 | the same package once `1.2.0` is listed skips |
| `Publish.FirstReleaseExample` | src/publish.js:55-69 | after an E404 lookup, a package at `1.0.0` publishes with `--tag=latest` under `TreatAsNotLess` |
| `Publish.FirstReleaseRejectedExample` | src/publish.js:29-33 | after an E404 lookup, the same package is fatal under `Reject`, because `semver.lt` throws on the undefined latest |

## Left out

- Subprocesses, file reading and JSON parsing are not modelled as actions.
  The `npm show` answer is the input `Lookup`. The parsed `package.json` is the
  input `PackageDescriptor`. The `npm publish` command is returned as a string,
  not run.
- A failure of `npm publish` itself propagates unchanged and is not modelled,
  because the model ends once the command is chosen.
- Logging (`console.log`, `console.error`) and `chalk` colouring are output
  only, so they are left out.
- `semver.lt` with an undefined latest is decided by the `semver` library,
  which is not visible here. It is the explicit input `MissingLatest`, with no
  default chosen.
- `semver` extensions beyond Semantic Versioning 2.0.0 are not modelled: a
  leading `v` or `=`, surrounding whitespace, and loose mode. A version string
  using them is read as invalid here.
- Comparison of alphanumeric identifiers is modelled as character-code order.
  This agrees with JavaScript's UTF-16 string comparison on the ASCII
  characters that SemVer identifiers allow.
- `lodash.get` is modelled only as "the value if present, else the default".
  A present but falsy `publishConfig.registry` (such as `""`) is used as it is.
- `info.versions || []` is modelled for an absent or present list only. Other
  falsy values, and a `versions` field that is a single string (where
  `includes` would test for a substring), are left out.
- Values of the wrong JavaScript type (a non-string `name` or `version`) are
  left out, because the descriptor carries strings.
- `SemVerSyntax.Parse`: has no bound on the size of numeric fields or on the
  length of the string. The `semver` library refuses a numeric field above
  `Number.MAX_SAFE_INTEGER` and a string longer than 256 characters; Semantic
  Versioning 2.0.0 sets no bound, and the model follows the standard.
