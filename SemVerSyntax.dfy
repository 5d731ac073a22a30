/** The text form of a version (Semantic Versioning 2.0.0, sections 2, 9 and 10,
    and the grammar at the end of the standard): reading a version string by
    the Semantic Versioning 2.0.0 grammar, and writing a version out. Reading and
    writing are inverse: every valid version is read back from its text, and
    every string that reads as a version is that version's text. */
module SemVerSyntax {
  import opened Wrappers
  import opened Text
  import opened SemVer

  /** The characters of an identifier: ASCII letters, digits and hyphens. */
  predicate IsIdentifierChar(c: char) {
    IsDigit(c) || 'A' <= c <= 'Z' || 'a' <= c <= 'z' || c == '-'
  }

  /** A non-empty run of identifier characters (build identifiers, section 10). */
  predicate IsIdentifierText(s: string) {
    |s| > 0 && forall i :: 0 <= i < |s| ==> IsIdentifierChar(s[i])
  }

  /** A well-formed pre-release identifier (section 9). An alphanumeric one must
      contain a non-digit, or it would be a numeric one. */
  predicate ValidIdentifier(id: Identifier) {
    id.Alnum? ==> IsIdentifierText(id.text) && !AllDigits(id.text)
  }

  /** A version that has a text form. */
  predicate Valid(v: Version) {
    && (forall i :: 0 <= i < |v.pre| ==> ValidIdentifier(v.pre[i]))
    && (forall i :: 0 <= i < |v.build| ==> IsIdentifierText(v.build[i]))
  }

  function IdentifierText(id: Identifier): string {
    match id
    case Num(n) => NatToDecimal(n)
    case Alnum(s) => s
  }

  function IdentifierTexts(ids: seq<Identifier>): (r: seq<string>)
    ensures |r| == |ids|
    ensures forall i :: 0 <= i < |ids| ==> r[i] == IdentifierText(ids[i])
  {
    if ids == [] then [] else [IdentifierText(ids[0])] + IdentifierTexts(ids[1..])
  }

  /** The text of a version: `major.minor.patch[-pre][+build]`. */
  function Format(v: Version): string {
    CoreText(v) + PreText(v.pre) + BuildText(v.build)
  }

  function CoreText(v: Version): string {
    Join([NatToDecimal(v.major), NatToDecimal(v.minor), NatToDecimal(v.patch)], '.')
  }

  function PreText(pre: seq<Identifier>): string {
    if pre == [] then "" else ['-'] + Join(IdentifierTexts(pre), '.')
  }

  function BuildText(build: seq<string>): string {
    if build == [] then "" else ['+'] + Join(build, '.')
  }

  /** `s` cut at the first `c`: the text before it and, if `c` occurs, the text
      after it. */
  function CutAt(s: string, c: char): (r: (string, Option<string>))
    ensures c !in r.0
    ensures r.1.None? ==> r.0 == s
    ensures r.1.Some? ==> s == r.0 + [c] + r.1.value
    decreases |s|
  {
    if |s| == 0 then ("", None)
    else if s[0] == c then ("", Some(s[1..]))
    else
      var (a, b) := CutAt(s[1..], c);
      assert b.Some? ==> [s[0]] + a + [c] + b.value == [s[0]] + (a + [c] + b.value);
      ([s[0]] + a, b)
  }

  /** A numeric field (section 2, section 9): a numeral without leading zeros. */
  function ParseNumber(s: string): Option<nat> {
    if IsCanonicalNumeral(s) then Some(DecimalValue(s)) else None
  }

  /** A pre-release identifier: numeric if it is all digits (then without leading
      zeros), alphanumeric otherwise. */
  function ParseIdentifier(s: string): Option<Identifier> {
    if !IsIdentifierText(s) then None
    else if AllDigits(s) then
      if IsCanonicalNumeral(s) then Some(Num(DecimalValue(s))) else None
    else Some(Alnum(s))
  }

  function ParseIdentifiers(parts: seq<string>): (r: Option<seq<Identifier>>)
    ensures r.Some? ==> |r.value| == |parts|
  {
    if parts == [] then Some([])
    else
      match (ParseIdentifier(parts[0]), ParseIdentifiers(parts[1..]))
      case (Some(id), Some(ids)) => Some([id] + ids)
      case _ => None
  }

  function ParseCore(s: string): Option<(nat, nat, nat)> {
    var parts := Split(s, '.');
    if |parts| != 3 then None
    else
      match (ParseNumber(parts[0]), ParseNumber(parts[1]), ParseNumber(parts[2]))
      case (Some(major), Some(minor), Some(patch)) => Some((major, minor, patch))
      case _ => None
  }

  function ParsePre(s: Option<string>): Option<seq<Identifier>> {
    match s
    case None => Some([])
    case Some(t) => ParseIdentifiers(Split(t, '.'))
  }

  function ParseBuild(s: Option<string>): Option<seq<string>> {
    match s
    case None => Some([])
    case Some(t) =>
      var parts := Split(t, '.');
      if forall i :: 0 <= i < |parts| ==> IsIdentifierText(parts[i]) then Some(parts) else None
  }

  /** Reads a version string by the Semantic Versioning 2.0.0 grammar: the build
      metadata follows the first `+`, the pre-release the first `-` before it.
      Every string it accepts is the text of a valid version, so it accepts
      canonical text only. */
  function Parse(s: string): (r: Option<Version>)
    ensures r.Some? ==> Valid(r.value) && Format(r.value) == s
  {
    var (main, build) := CutAt(s, '+');
    var (core, pre) := CutAt(main, '-');
    match (ParseCore(core), ParsePre(pre), ParseBuild(build))
    case (Some((major, minor, patch)), Some(ids), Some(meta)) =>
      var v := Version(major, minor, patch, ids, meta);
      FormatOfPieces(s, main, core, pre, build, v);
      Some(v)
    case _ => None
  }

  /** The text of a pre-release has a hyphen right after its core. */
  lemma PreReleaseHyphen(v: Version)
    requires v.pre != []
    ensures OccursAt(Format(v), "-", |CoreText(v)|)
    ensures Contains(Format(v), "-")
  {
    var n := |CoreText(v)|;
    var rest := PreText(v.pre) + BuildText(v.build);
    assert rest[0] == '-';
    assert Format(v) == CoreText(v) + rest;
    assert Format(v)[n] == '-';
    assert Format(v)[n..n + 1] == "-";
    assert OccursAt(Format(v), "-", n);
  }

  // Reading back what was written.

  lemma {:induction false} CutAtFirst(a: string, b: string, c: char)
    requires c !in a
    ensures CutAt(a + [c] + b, c) == (a, Some(b))
    decreases |a|
  {
    if |a| == 0 {
      assert a + [c] + b == [c] + b;
      assert ([c] + b)[1..] == b;
    } else {
      CutAtFirst(a[1..], b, c);
      assert (a + [c] + b)[1..] == a[1..] + [c] + b;
      assert [a[0]] + a[1..] == a;
    }
  }

  lemma CutAtAbsent(a: string, c: char)
    requires c !in a
    ensures CutAt(a, c) == (a, None)
  {
  }

  lemma NumeralAvoids(n: nat, c: char)
    requires !IsDigit(c)
    ensures c !in NatToDecimal(n)
  {
  }

  lemma IdentifierTextsAvoid(ids: seq<Identifier>, c: char)
    requires forall i :: 0 <= i < |ids| ==> ValidIdentifier(ids[i])
    requires !IsIdentifierChar(c)
    ensures forall i :: 0 <= i < |ids| ==> c !in IdentifierTexts(ids)[i]
  {
  }

  lemma {:induction false} ParseIdentifierText(id: Identifier)
    requires ValidIdentifier(id)
    ensures ParseIdentifier(IdentifierText(id)) == Some(id)
  {
    match id
    case Num(n) =>
      DecimalOfNumeral(n);
      var s := NatToDecimal(n);
      assert IsIdentifierText(s) by {
        forall i | 0 <= i < |s| ensures IsIdentifierChar(s[i]) {
          assert IsDigit(s[i]);
        }
      }
    case Alnum(_) =>
  }

  lemma ParseIdentifiersCons(p: string, rest: seq<string>, id: Identifier, ids: seq<Identifier>)
    requires ParseIdentifier(p) == Some(id) && ParseIdentifiers(rest) == Some(ids)
    ensures ParseIdentifiers([p] + rest) == Some([id] + ids)
  {
    assert ([p] + rest)[1..] == rest;
  }

  lemma {:induction false} ParseIdentifierTexts(ids: seq<Identifier>)
    requires forall i :: 0 <= i < |ids| ==> ValidIdentifier(ids[i])
    ensures ParseIdentifiers(IdentifierTexts(ids)) == Some(ids)
    decreases |ids|
  {
    if ids != [] {
      var rest := ids[1..];
      assert forall i :: 0 <= i < |rest| ==> ValidIdentifier(rest[i]) by {
        forall i | 0 <= i < |rest| ensures ValidIdentifier(rest[i]) {
          assert rest[i] == ids[i + 1];
        }
      }
      ParseIdentifierText(ids[0]);
      ParseIdentifierTexts(rest);
      ParseIdentifiersCons(IdentifierText(ids[0]), IdentifierTexts(rest), ids[0], rest);
      assert IdentifierTexts(ids) == [IdentifierText(ids[0])] + IdentifierTexts(rest);
      assert [ids[0]] + rest == ids;
    }
  }

  lemma ParseCoreText(v: Version)
    ensures ParseCore(CoreText(v)) == Some((v.major, v.minor, v.patch))
  {
    var parts := [NatToDecimal(v.major), NatToDecimal(v.minor), NatToDecimal(v.patch)];
    NumeralAvoids(v.major, '.');
    NumeralAvoids(v.minor, '.');
    NumeralAvoids(v.patch, '.');
    SplitJoin(parts, '.');
    DecimalOfNumeral(v.major);
    DecimalOfNumeral(v.minor);
    DecimalOfNumeral(v.patch);
  }

  /** Every valid version is read back from its text. */
  lemma ParseFormat(v: Version)
    requires Valid(v)
    ensures Parse(Format(v)) == Some(v)
  {
    var core := CoreText(v);
    var pre := PreText(v.pre);
    var build := BuildText(v.build);
    var parts := [NatToDecimal(v.major), NatToDecimal(v.minor), NatToDecimal(v.patch)];
    forall c | !IsDigit(c) && c != '.'
      ensures c !in core
    {
      NumeralAvoids(v.major, c);
      NumeralAvoids(v.minor, c);
      NumeralAvoids(v.patch, c);
      JoinAvoids(parts, '.', c);
    }
    IdentifierTextsAvoid(v.pre, '+');
    JoinAvoids(IdentifierTexts(v.pre), '.', '+');
    assert '+' !in core + pre;
    if v.build == [] {
      assert Format(v) == core + pre;
      CutAtAbsent(core + pre, '+');
    } else {
      assert Format(v) == core + pre + ['+'] + Join(v.build, '.');
      CutAtFirst(core + pre, Join(v.build, '.'), '+');
      SplitJoin(v.build, '.');
    }
    ParseCoreText(v);
    if v.pre == [] {
      assert core + pre == core;
      CutAtAbsent(core, '-');
    } else {
      assert core + pre == core + ['-'] + Join(IdentifierTexts(v.pre), '.');
      CutAtFirst(core, Join(IdentifierTexts(v.pre), '.'), '-');
      IdentifierTextsAvoid(v.pre, '.');
      SplitJoin(IdentifierTexts(v.pre), '.');
      ParseIdentifierTexts(v.pre);
    }
  }

  // Writing out what was read.

  lemma {:induction false} IdentifiersOfTexts(parts: seq<string>)
    requires ParseIdentifiers(parts).Some?
    ensures var ids := ParseIdentifiers(parts).value;
      (forall i :: 0 <= i < |ids| ==> ValidIdentifier(ids[i])) && IdentifierTexts(ids) == parts
    decreases |parts|
  {
    if parts != [] {
      IdentifiersOfTexts(parts[1..]);
      var s := parts[0];
      if AllDigits(s) {
        NumeralOfDecimal(s);
      }
      var ids := ParseIdentifiers(parts).value;
      assert ids[1..] == ParseIdentifiers(parts[1..]).value;
      assert IdentifierTexts(ids) == [IdentifierText(ids[0])] + IdentifierTexts(ids[1..]);
      assert [parts[0]] + parts[1..] == parts;
    }
  }

  lemma CoreOfText(core: string, major: nat, minor: nat, patch: nat)
    requires ParseCore(core) == Some((major, minor, patch))
    ensures Join([NatToDecimal(major), NatToDecimal(minor), NatToDecimal(patch)], '.') == core
  {
    var parts := Split(core, '.');
    NumeralOfDecimal(parts[0]);
    NumeralOfDecimal(parts[1]);
    NumeralOfDecimal(parts[2]);
    assert parts == [parts[0], parts[1], parts[2]];
  }

  lemma CutAtParts(s: string, c: char, a: string, b: Option<string>)
    requires CutAt(s, c) == (a, b)
    ensures s == a + (if b.None? then "" else [c] + b.value)
  {
  }

  lemma PreIdentifiersText(t: string, ids: seq<Identifier>)
    requires ParseIdentifiers(Split(t, '.')) == Some(ids)
    ensures forall i :: 0 <= i < |ids| ==> ValidIdentifier(ids[i])
    ensures PreText(ids) == ['-'] + t
  {
    var parts := Split(t, '.');
    IdentifiersOfTexts(parts);
    assert ids != [] && IdentifierTexts(ids) == parts;
  }

  lemma PreOfText(main: string, core: string, pre: Option<string>, ids: seq<Identifier>)
    requires CutAt(main, '-') == (core, pre)
    requires ParsePre(pre) == Some(ids)
    ensures forall i :: 0 <= i < |ids| ==> ValidIdentifier(ids[i])
    ensures main == core + PreText(ids)
  {
    CutAtParts(main, '-', core, pre);
    if pre.Some? {
      PreIdentifiersText(pre.value, ids);
    }
  }

  lemma BuildOfText(s: string, main: string, build: Option<string>, meta: seq<string>)
    requires CutAt(s, '+') == (main, build)
    requires ParseBuild(build) == Some(meta)
    ensures forall i :: 0 <= i < |meta| ==> IsIdentifierText(meta[i])
    ensures s == main + BuildText(meta)
  {
    CutAtParts(s, '+', main, build);
  }

  lemma FormatOfPieces(s: string, main: string, core: string, pre: Option<string>, build: Option<string>, v: Version)
    requires CutAt(s, '+') == (main, build) && CutAt(main, '-') == (core, pre)
    requires ParseCore(core) == Some((v.major, v.minor, v.patch))
    requires ParsePre(pre) == Some(v.pre) && ParseBuild(build) == Some(v.build)
    ensures Valid(v) && Format(v) == s
  {
    CoreOfText(core, v.major, v.minor, v.patch);
    PreOfText(main, core, pre, v.pre);
    BuildOfText(s, main, build, v.build);
  }
}
