/** Versions and their precedence as Semantic Versioning 2.0.0 defines them: the
    numeric core of section 2, the pre-release identifiers of section 9, the build
    metadata of section 10 and the precedence rules of section 11. */
module SemVer {

  /** A pre-release identifier (section 9): numeric, or alphanumeric with at least
      one non-digit. */
  datatype Identifier = Num(value: nat) | Alnum(text: string)

  /** `major.minor.patch`, an optional pre-release and optional build metadata. */
  datatype Version = Version(major: nat, minor: nat, patch: nat, pre: seq<Identifier>, build: seq<string>)

  /** `semver.prerelease(v) !== null`: the version carries a pre-release part,
      which by section 11.3 is the same as ranking below its normal version. */
  predicate IsPreRelease(v: Version)
    ensures IsPreRelease(v) <==> Less(v, Version(v.major, v.minor, v.patch, [], v.build))
  {
    v.pre != []
  }

  /** String comparison in ASCII order (section 11.4.1, alphanumeric identifiers):
      the first differing character decides, and a proper prefix ranks lower. */
  predicate AsciiLess(a: string, b: string)
    decreases |a|
  {
    if a == [] then b != []
    else if b == [] then false
    else if a[0] != b[0] then a[0] < b[0]
    else AsciiLess(a[1..], b[1..])
  }

  /** Section 11.4.1-11.4.3: numeric identifiers compare numerically, alphanumeric
      ones in ASCII order, and numeric ones rank below alphanumeric ones. */
  predicate IdentifierLess(x: Identifier, y: Identifier) {
    match (x, y)
    case (Num(m), Num(n)) => m < n
    case (Num(_), Alnum(_)) => true
    case (Alnum(_), Num(_)) => false
    case (Alnum(s), Alnum(t)) => AsciiLess(s, t)
  }

  /** Section 11.4: compare identifier by identifier from left to right; when all
      preceding identifiers are equal, the longer list ranks higher (11.4.4). */
  predicate FieldsLess(p: seq<Identifier>, q: seq<Identifier>)
    decreases |p|
  {
    if p == [] then q != []
    else if q == [] then false
    else if p[0] != q[0] then IdentifierLess(p[0], q[0])
    else FieldsLess(p[1..], q[1..])
  }

  /** Section 11.3 and 11.4 for two equal cores: a pre-release ranks below the
      normal version, two pre-releases compare field by field. */
  predicate PreReleaseLess(p: seq<Identifier>, q: seq<Identifier>) {
    if p == [] then false
    else if q == [] then true
    else FieldsLess(p, q)
  }

  /** `semver.lt(a, b)`: `a` has lower precedence than `b` (section 11.2-11.4).
      Build metadata is not looked at (section 10). */
  predicate Less(a: Version, b: Version)
    ensures Less(a, b) ==> !SamePrecedence(a, b)
  {
    FieldsLessIrreflexive(a.pre);
    if a.major != b.major then a.major < b.major
    else if a.minor != b.minor then a.minor < b.minor
    else if a.patch != b.patch then a.patch < b.patch
    else PreReleaseLess(a.pre, b.pre)
  }

  /** Equal precedence: the same version apart from build metadata. */
  predicate SamePrecedence(a: Version, b: Version) {
    a.major == b.major && a.minor == b.minor && a.patch == b.patch && a.pre == b.pre
  }

  lemma {:induction false} AsciiLessIrreflexive(s: string)
    ensures !AsciiLess(s, s)
    decreases |s|
  {
    if s != [] {
      AsciiLessIrreflexive(s[1..]);
    }
  }

  lemma {:induction false} AsciiLessTransitive(a: string, b: string, c: string)
    requires AsciiLess(a, b) && AsciiLess(b, c)
    ensures AsciiLess(a, c)
    decreases |a|
  {
    if a != [] && a[0] == b[0] && b[0] == c[0] {
      AsciiLessTransitive(a[1..], b[1..], c[1..]);
    }
  }

  lemma {:induction false} AsciiLessTotal(a: string, b: string)
    ensures a == b || AsciiLess(a, b) || AsciiLess(b, a)
    decreases |a|
  {
    if a != [] && b != [] && a[0] == b[0] {
      AsciiLessTotal(a[1..], b[1..]);
      if a[1..] == b[1..] {
        assert a == [a[0]] + a[1..] && b == [b[0]] + b[1..];
      }
    }
  }

  lemma IdentifierLessIrreflexive(x: Identifier)
    ensures !IdentifierLess(x, x)
  {
    if x.Alnum? {
      AsciiLessIrreflexive(x.text);
    }
  }

  lemma IdentifierLessTransitive(x: Identifier, y: Identifier, z: Identifier)
    requires IdentifierLess(x, y) && IdentifierLess(y, z)
    ensures IdentifierLess(x, z)
  {
    if x.Alnum? && y.Alnum? && z.Alnum? {
      AsciiLessTransitive(x.text, y.text, z.text);
    }
  }

  lemma IdentifierLessTotal(x: Identifier, y: Identifier)
    ensures x == y || IdentifierLess(x, y) || IdentifierLess(y, x)
  {
    if x.Alnum? && y.Alnum? {
      AsciiLessTotal(x.text, y.text);
    }
  }

  lemma {:induction false} FieldsLessIrreflexive(p: seq<Identifier>)
    ensures !FieldsLess(p, p)
    decreases |p|
  {
    if p != [] {
      FieldsLessIrreflexive(p[1..]);
    }
  }

  lemma {:induction false} FieldsLessTransitive(p: seq<Identifier>, q: seq<Identifier>, r: seq<Identifier>)
    requires FieldsLess(p, q) && FieldsLess(q, r)
    ensures FieldsLess(p, r)
    decreases |p|
  {
    if p != [] && q != [] && r != [] {
      if p[0] == q[0] && q[0] == r[0] {
        FieldsLessTransitive(p[1..], q[1..], r[1..]);
      } else if p[0] != q[0] && q[0] != r[0] {
        IdentifierLessTransitive(p[0], q[0], r[0]);
        if p[0] == r[0] {
          IdentifierLessIrreflexive(p[0]);
        }
      } else if p[0] != q[0] && q[0] == r[0] {
        assert IdentifierLess(p[0], r[0]);
      }
    }
  }

  lemma {:induction false} FieldsLessTotal(p: seq<Identifier>, q: seq<Identifier>)
    ensures p == q || FieldsLess(p, q) || FieldsLess(q, p)
    decreases |p|
  {
    if p != [] && q != [] {
      if p[0] == q[0] {
        FieldsLessTotal(p[1..], q[1..]);
        if p[1..] == q[1..] {
          assert p == [p[0]] + p[1..] && q == [q[0]] + q[1..];
        }
      } else {
        IdentifierLessTotal(p[0], q[0]);
      }
    }
  }

  /** `Less` is irreflexive: no version precedes itself. */
  lemma LessIrreflexive(a: Version)
    ensures !Less(a, a)
  {
    FieldsLessIrreflexive(a.pre);
  }

  /** `Less` is transitive. */
  lemma LessTransitive(a: Version, b: Version, c: Version)
    requires Less(a, b) && Less(b, c)
    ensures Less(a, c)
  {
    if a.major == b.major == c.major && a.minor == b.minor == c.minor && a.patch == b.patch == c.patch {
      if a.pre != [] && b.pre != [] && c.pre != [] {
        FieldsLessTransitive(a.pre, b.pre, c.pre);
      }
    }
  }

  /** `Less` is asymmetric: two versions never precede each other. */
  lemma LessAsymmetric(a: Version, b: Version)
    requires Less(a, b)
    ensures !Less(b, a)
  {
    if Less(b, a) {
      LessTransitive(a, b, a);
      LessIrreflexive(a);
    }
  }

  /** Section 11: precedence is total up to build metadata. Exactly one of
      "a precedes b", "b precedes a" and "equal precedence" holds. */
  lemma LessTrichotomy(a: Version, b: Version)
    ensures Less(a, b) || Less(b, a) || SamePrecedence(a, b)
    ensures SamePrecedence(a, b) ==> !Less(a, b) && !Less(b, a)
    ensures !(Less(a, b) && Less(b, a))
  {
    FieldsLessTotal(a.pre, b.pre);
    FieldsLessIrreflexive(a.pre);
    if Less(a, b) {
      LessAsymmetric(a, b);
    }
  }

  /** Section 11.3: a pre-release ranks below the normal version with the same core. */
  lemma PreReleaseBelowNormal(v: Version, build: seq<string>)
    requires IsPreRelease(v)
    ensures Less(v, Version(v.major, v.minor, v.patch, [], build))
    ensures !Less(Version(v.major, v.minor, v.patch, [], build), v)
  {
  }

  /** The precedence chain that section 11.4 gives as its example:
      1.0.0-alpha < 1.0.0-alpha.1 < 1.0.0-alpha.beta < 1.0.0-beta < 1.0.0-beta.2
      < 1.0.0-beta.11 < 1.0.0-rc.1 < 1.0.0. */
  lemma PrecedenceExample()
    ensures var chain := [
      Version(1, 0, 0, [Alnum("alpha")], []),
      Version(1, 0, 0, [Alnum("alpha"), Num(1)], []),
      Version(1, 0, 0, [Alnum("alpha"), Alnum("beta")], []),
      Version(1, 0, 0, [Alnum("beta")], []),
      Version(1, 0, 0, [Alnum("beta"), Num(2)], []),
      Version(1, 0, 0, [Alnum("beta"), Num(11)], []),
      Version(1, 0, 0, [Alnum("rc"), Num(1)], []),
      Version(1, 0, 0, [], [])];
      forall i :: 0 <= i < |chain| - 1 ==> Less(chain[i], chain[i + 1])
  {
  }
}
