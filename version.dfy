/**
 * Semantic versions `major.minor.patch`: parsing with an optional `v`
 * prefix, printing, the ordering by the component triple, and the
 * "is there a newer release" test.
 */
module Versions {
  import opened Wrappers
  import opened Text

  /** The version of this application. */
  const VERSION := "1.0.0"

  datatype Version = Version(major: int, minor: int, patch: int)

  /** `Version.from_string`: strip, drop every leading `v`, then exactly three integer parts. */
  function FromString(s: string): (r: Option<Version>)
    ensures r.Some? ==> |Split(LStripChar(Strip(s), 'v'), '.')| == 3
  {
    var parts := Split(LStripChar(Strip(s), 'v'), '.');
    if |parts| != 3 then None
    else
      var major := ParseInt(parts[0]);
      var minor := ParseInt(parts[1]);
      var patch := ParseInt(parts[2]);
      if major.None? || minor.None? || patch.None? then None
      else Some(Version(major.value, minor.value, patch.value))
  }

  /** `to_string`: "major.minor.patch". */
  function ToString(v: Version): (s: string)
    ensures s != [] && !IsSpace(s[0]) && s[0] != 'v'
  {
    IntToString(v.major) + "." + IntToString(v.minor) + "." + IntToString(v.patch)
  }

  /** Printing and parsing again gives the same version, for every component sign. */
  lemma RoundTrip(v: Version)
    ensures FromString(ToString(v)) == Some(v)
  {
    CleanText(v);
    SplitThree(IntToString(v.major), IntToString(v.minor), IntToString(v.patch));
    IntToStringRoundTrip(v.major);
    IntToStringRoundTrip(v.minor);
    IntToStringRoundTrip(v.patch);
  }

  lemma SplitThree(a: string, b: string, c: string)
    requires '.' !in a && '.' !in b && '.' !in c
    ensures Split(a + "." + b + "." + c, '.') == [a, b, c]
  {
    assert a + "." + b + "." + c == a + ['.'] + (b + ['.'] + c);
    SplitConcat(a, '.', b + ['.'] + c);
    SplitConcat(b, '.', c);
    SplitNoSep(c, '.');
  }

  lemma CleanText(v: Version)
    ensures LStripChar(Strip(ToString(v)), 'v') == ToString(v)
  {
    var s := ToString(v);
    var c := IntToString(v.patch);
    assert s[|s| - 1] == c[|c| - 1];
    StripUnchanged(s);
  }

  /** Any run of leading `v` characters and surrounding spaces is ignored. */
  lemma PrefixIgnored(v: Version, vs: string, pad: string)
    requires forall i :: 0 <= i < |vs| ==> vs[i] == 'v'
    requires AllSpaces(pad)
    ensures FromString(pad + vs + ToString(v)) == Some(v)
  {
    CleanPrefix(v, vs, pad);
    RoundTrip(v);
    CleanText(v);
  }

  lemma CleanPrefix(v: Version, vs: string, pad: string)
    requires forall i :: 0 <= i < |vs| ==> vs[i] == 'v'
    requires AllSpaces(pad)
    ensures LStripChar(Strip(pad + vs + ToString(v)), 'v') == ToString(v)
  {
    var s := ToString(v);
    var c := IntToString(v.patch);
    assert s[|s| - 1] == c[|c| - 1];
    CleanOfPadded(pad, vs, s);
  }

  lemma CleanOfPadded(pad: string, vs: string, s: string)
    requires forall i :: 0 <= i < |vs| ==> vs[i] == 'v'
    requires AllSpaces(pad)
    requires s != [] && !IsSpace(s[0]) && s[0] != 'v' && !IsSpace(s[|s| - 1])
    ensures LStripChar(Strip(pad + vs + s), 'v') == s
  {
    var x := vs + s;
    assert x[0] == (if vs != [] then 'v' else s[0]);
    TrimStartOfPad(pad, x);
    assert pad + vs + s == pad + x;
    assert x[|x| - 1] == s[|s| - 1];
    LStripVs(vs, s);
  }

  lemma {:induction false} TrimStartOfPad(pad: string, x: string)
    requires AllSpaces(pad)
    requires x != [] && !IsSpace(x[0])
    ensures TrimStart(pad + x) == x
  {
    if pad != [] {
      assert (pad + x)[1..] == pad[1..] + x;
      TrimStartOfPad(pad[1..], x);
    }
  }

  lemma {:induction false} LStripVs(vs: string, s: string)
    requires forall i :: 0 <= i < |vs| ==> vs[i] == 'v'
    requires s != [] && s[0] != 'v'
    ensures LStripChar(vs + s, 'v') == s
  {
    if vs != [] {
      assert (vs + s)[1..] == vs[1..] + s;
      LStripVs(vs[1..], s);
    }
  }

  /** A text without dots, such as "invalid", is not a version. */
  lemma NoDotsRejected(s: string)
    requires '.' !in LStripChar(Strip(s), 'v')
    ensures FromString(s) == None
  {
    SplitNoSep(LStripChar(Strip(s), 'v'), '.');
  }

  /** Two or four parts, such as "1.2" or "1.2.3.4", are not a version. */
  lemma WrongPartCountRejected(s: string)
    requires |Split(LStripChar(Strip(s), 'v'), '.')| != 3
    ensures FromString(s) == None
  {
  }

  /** `version < other`: the triples compared lexicographically. */
  predicate Less(a: Version, b: Version)
  {
    a.major < b.major ||
    (a.major == b.major && (a.minor < b.minor || (a.minor == b.minor && a.patch < b.patch)))
  }

  predicate LessOrEqual(a: Version, b: Version)
  {
    Less(a, b) || a == b
  }

  predicate Greater(a: Version, b: Version)
  {
    Less(b, a)
  }

  predicate GreaterOrEqual(a: Version, b: Version)
  {
    LessOrEqual(b, a)
  }

  /** Exactly one of `<`, `==` and `>` holds. */
  lemma Trichotomy(a: Version, b: Version)
    ensures Less(a, b) || a == b || Greater(a, b)
    ensures !(Less(a, b) && a == b) && !(Less(a, b) && Greater(a, b)) && !(a == b && Greater(a, b))
  {
  }

  lemma LessTransitive(a: Version, b: Version, c: Version)
    requires Less(a, b) && Less(b, c)
    ensures Less(a, c)
  {
  }

  /** `<=` and `>=` are the strict orders or equality; `>` is `<` reversed. */
  lemma OrderRelations(a: Version, b: Version)
    ensures LessOrEqual(a, b) <==> !Greater(a, b)
    ensures GreaterOrEqual(a, b) <==> !Less(a, b)
    ensures Greater(a, b) <==> Less(b, a)
  {
  }

  /** A value `==` can be compared with: a version or anything else. */
  datatype Value = VersionValue(version: Version) | OtherValue

  /** `__eq__`: false against anything that is not a version. */
  predicate Equals(a: Version, other: Value)
  {
    other.VersionValue? && a == other.version
  }

  lemma EqualsIff(a: Version, other: Value)
    ensures Equals(a, other) <==> other == VersionValue(a)
    ensures !Equals(a, OtherValue)
  {
  }

  /** `get_current_version` */
  function GetCurrentVersion(): (v: Version)
    ensures ToString(v) == VERSION
  {
    var v := Version(1, 0, 0);
    assert IntToString(1) == "1" && IntToString(0) == "0";
    v
  }

  /** The constant parses to the current version. */
  lemma CurrentVersionParses()
    ensures FromString(VERSION) == Some(GetCurrentVersion())
  {
    RoundTrip(GetCurrentVersion());
  }

  /** `is_newer_version`: the latest is strictly greater; a text that does not parse means no update. */
  predicate IsNewerVersion(current: string, latest: string)
  {
    var c := FromString(current);
    var l := FromString(latest);
    c.Some? && l.Some? && Greater(l.value, c.value)
  }

  lemma IsNewerVersionOf(a: Version, b: Version)
    ensures IsNewerVersion(ToString(a), ToString(b)) <==> Less(a, b)
    ensures !IsNewerVersion(ToString(a), ToString(a))
  {
    RoundTrip(a);
    RoundTrip(b);
  }

  /** Newer is irreflexive and asymmetric on any texts. */
  lemma IsNewerVersionAsymmetric(x: string, y: string)
    ensures !(IsNewerVersion(x, y) && IsNewerVersion(y, x))
    ensures !IsNewerVersion(x, x)
  {
  }

  lemma IsNewerVersionRejectsUnparsable(x: string, y: string)
    requires FromString(x).None? || FromString(y).None?
    ensures !IsNewerVersion(x, y)
  {
  }
}
