/**
 Test 4 of the smoke test: `RUBY_VERSION` is split on dots, every piece is
 read with `to_i`, and the first two numbers decide whether the running Ruby
 is one the rbspy 0.37.1 integration is meant for (3.4 or later) or an older
 one, for which only an informational note is printed.
 */
module VersionCheck {
  import opened RubyString

  /** `RUBY_VERSION.split('.').map(&:to_i)`. */
  function ParseVersion(s: string): (parts: seq<int>)
    ensures |parts| == |Split(s)|
  {
    var fields := Split(s);
    seq(|fields|, i requires 0 <= i < |fields| => ToI(fields[i]))
  }

  /** The version string that lists the given numbers in decimal, separated by dots. */
  function Dotted(ns: seq<nat>): string
    requires |ns| >= 1
  {
    Join(seq(|ns|, i requires 0 <= i < |ns| => Decimal(ns[i])))
  }

  lemma DottedCons(n: nat, ns: seq<nat>)
    requires |ns| >= 1
    ensures Dotted([n] + ns) == Decimal(n) + [Dot] + Dotted(ns)
  {
    var fs := seq(|ns| + 1, i requires 0 <= i < |ns| + 1 => Decimal(([n] + ns)[i]));
    assert fs[1..] == seq(|ns|, i requires 0 <= i < |ns| => Decimal(ns[i]));
  }

  /** Parsing a dotted list of decimal numbers gives back exactly those numbers, in order. */
  lemma ParseDotted(ns: seq<nat>)
    requires |ns| >= 1
    ensures ParseVersion(Dotted(ns)) == ns
  {
    var fs := seq(|ns|, i requires 0 <= i < |ns| => Decimal(ns[i]));
    SplitJoin(fs);
    var parts := ParseVersion(Dotted(ns));
    assert |parts| == |ns|;
    forall i | 0 <= i < |ns|
      ensures parts[i] == ns[i]
    {
      assert parts[i] == ToI(Decimal(ns[i]));
      ToIDecimal(ns[i]);
    }
  }

  // ---------------------------------------------------------------------------
  // The compatibility predicate
  // ---------------------------------------------------------------------------

  /** The two branches of the check: the ✓ branch and the informational ℹ branch. */
  datatype Verdict = Compatible | PreThreeFour

  /**
   What the check does with a parsed version: one of the two verdicts, or the
   `NoMethodError` Ruby raises when a missing component (`nil`) reaches a
   comparison.
   */
  datatype Outcome = Reported(verdict: Verdict) | NoMethodError

  /** The ordering of two versions, the shorter one padded with zeros. */
  datatype Ordering = Less | Same | Greater

  /** Lexicographic comparison of versions; missing trailing components count as 0. */
  function Compare(a: seq<int>, b: seq<int>): Ordering
    decreases |a| + |b|
  {
    if a == [] && b == [] then Same
    else
      var x := if a == [] then 0 else a[0];
      var y := if b == [] then 0 else b[0];
      if x < y then Less
      else if x > y then Greater
      else Compare(if a == [] then [] else a[1..], if b == [] then [] else b[1..])
  }

  /** The oldest Ruby the check calls compatible: 3.4. */
  const Threshold: seq<int> := [3, 4]

  /** The major and minor components, as far as they are present. */
  function MajorMinor(parts: seq<int>): (mm: seq<int>)
    ensures |mm| <= 2 && mm <= parts
  {
    parts[..if |parts| < 2 then |parts| else 2]
  }

  /**
   `parts[0] > 3 || (parts[0] == 3 && parts[1] >= 4)`, evaluated the way Ruby
   does, left to right and short-circuiting: indexing past the end gives
   `nil`, and comparing `nil` raises.
   */
  function Evaluate(parts: seq<int>): (r: Outcome)
    ensures r == NoMethodError <==> parts == [] || parts == [3]
    ensures r.Reported? ==> (r.verdict == Compatible <==> Compare(MajorMinor(parts), Threshold) != Less)
  {
    if |parts| == 0 then NoMethodError
    else if parts[0] > 3 then Reported(Compatible)
    else if parts[0] != 3 then Reported(PreThreeFour)
    else if |parts| < 2 then NoMethodError
    else
      ThresholdAtMajorThree(parts[..2]);
      if parts[1] >= 4 then Reported(Compatible)
      else Reported(PreThreeFour)
  }

  /** With major 3, a major.minor pair reaches the threshold exactly when its minor is at least 4. */
  lemma ThresholdAtMajorThree(mm: seq<int>)
    requires |mm| == 2 && mm[0] == 3
    ensures Compare(mm, Threshold) != Less <==> mm[1] >= 4
  {
    assert mm[1..] == [mm[1]];
    assert Compare(mm, Threshold) == Compare([mm[1]], [4]);
    assert [mm[1]][1..] == [];
  }

  /**
   The check of the running Ruby: parse `RUBY_VERSION`, then compare. It
   raises only when the version splits into no field, or into one field that
   reads as 3; otherwise its verdict follows the major and minor numbers read
   from the first two fields.
   */
  function CheckRubyVersion(rubyVersion: string): (r: Outcome)
    ensures var fields := Split(rubyVersion);
      r == NoMethodError <==> |fields| == 0 || (|fields| == 1 && ToI(fields[0]) == 3)
    ensures var fields := Split(rubyVersion);
      r.Reported? && |fields| >= 2 ==>
        (r.verdict == Compatible <==> Compare([ToI(fields[0]), ToI(fields[1])], Threshold) != Less)
  {
    var parts := ParseVersion(rubyVersion);
    ParsedMajorMinor(Split(rubyVersion), parts);
    Evaluate(parts)
  }

  /** The first two parsed numbers are the `to_i` of the first two fields. */
  lemma ParsedMajorMinor(fields: seq<string>, parts: seq<int>)
    requires |parts| == |fields|
    requires forall i :: 0 <= i < |parts| ==> parts[i] == ToI(fields[i])
    ensures parts == [] <==> |fields| == 0
    ensures parts == [3] <==> |fields| == 1 && ToI(fields[0]) == 3
    ensures |fields| >= 2 ==> MajorMinor(parts) == [ToI(fields[0]), ToI(fields[1])]
  {
    if |parts| == 1 {
      assert parts == [parts[0]];
    }
  }

  /** The mark printed in front of the verdict: never the ✗ of a failed check. */
  function Mark(v: Verdict): (c: char)
    ensures c != '✗'
    ensures c == '✓' <==> v == Compatible
  {
    match v
    case Compatible => '✓'
    case PreThreeFour => 'ℹ'
  }

  // ---------------------------------------------------------------------------
  // Properties of the check
  // ---------------------------------------------------------------------------

  /** Every version with a major and a minor component gets one of the two verdicts. */
  lemma TwoComponentsNeverRaise(parts: seq<int>)
    requires |parts| >= 2
    ensures Evaluate(parts).Reported?
  {
  }

  /** Only the first two components matter. */
  lemma LaterComponentsIgnored(p: seq<int>, q: seq<int>)
    requires |p| >= 2 && |q| >= 2 && p[0] == q[0] && p[1] == q[1]
    ensures Evaluate(p) == Evaluate(q)
  {
  }

  /** Every major version above 3 is compatible, whatever follows it. */
  lemma MajorAboveThree(parts: seq<int>)
    requires |parts| >= 1 && parts[0] >= 4
    ensures Evaluate(parts) == Reported(Compatible)
  {
  }

  /** Every major version below 3, and every 3.x with x below 4, is pre-3.4. */
  lemma BelowThreeFour(parts: seq<int>)
    requires (|parts| >= 1 && parts[0] < 3) || (|parts| >= 2 && parts[0] == 3 && parts[1] < 4)
    ensures Evaluate(parts) == Reported(PreThreeFour)
  {
  }

  /**
   At the level of the version string: for any dotted list of at least two
   decimal numbers, the check reports Compatible exactly when the list is at
   or above 3.4, and pre-3.4 otherwise.
   */
  lemma VerdictOfDotted(ns: seq<nat>)
    requires |ns| >= 2
    ensures CheckRubyVersion(Dotted(ns))
         == Reported(if Compare(ns[..2], Threshold) != Less then Compatible else PreThreeFour)
  {
    ParseDotted(ns);
    assert MajorMinor(ns) == ns[..2];
  }

  /** The boundary is inclusive: every 3.4.x release is compatible. */
  lemma EveryThreeFourPatchCompatible(patch: nat)
    ensures CheckRubyVersion("3.4." + Decimal(patch)) == Reported(Compatible)
  {
    DottedMinorPatch(3, 4, patch);
    assert DigitChar(3) == '3' && DigitChar(4) == '4';
    assert "3.4." + Decimal(patch) == Dotted([3, 4, patch]);
    VerdictOfDotted([3, 4, patch]);
    assert [3, 4, patch][..2] == Threshold;
    ThresholdAtMajorThree(Threshold);
  }

  /** Every 3.3.x release is pre-3.4. */
  lemma EveryThreeThreePatchPre(patch: nat)
    ensures CheckRubyVersion("3.3." + Decimal(patch)) == Reported(PreThreeFour)
  {
    DottedMinorPatch(3, 3, patch);
    assert DigitChar(3) == '3';
    assert "3.3." + Decimal(patch) == Dotted([3, 3, patch]);
    VerdictOfDotted([3, 3, patch]);
    assert [3, 3, patch][..2] == [3, 3];
    ThresholdAtMajorThree([3, 3]);
  }

  /** A single-digit major and minor followed by a patch number. */
  lemma DottedMinorPatch(major: nat, minor: nat, patch: nat)
    requires major < 10 && minor < 10
    ensures Dotted([major, minor, patch]) == [DigitChar(major), Dot, DigitChar(minor), Dot] + Decimal(patch)
  {
    assert [minor] + [patch] == [minor, patch];
    assert [major] + [minor, patch] == [major, minor, patch];
    DottedCons(minor, [patch]);
    DottedCons(major, [minor, patch]);
    assert Dotted([patch]) == Decimal(patch);
  }

  /** The version the smoke test is written for parses as 3, 4, 6 and is compatible. */
  lemma RubyThreeFourSix()
    ensures ParseVersion("3.4.6") == [3, 4, 6]
    ensures CheckRubyVersion("3.4.6") == Reported(Compatible)
  {
    DottedMinorPatch(3, 4, 6);
    assert Dotted([3, 4, 6]) == "3.4.6";
    ParseDotted([3, 4, 6]);
  }

  /**
   Versions with fewer than two components: "4" and "2" are decided by the
   major number alone, while "3" and "" raise, since the minor (or the major)
   component is `nil`.
   */
  lemma ShortVersions()
    ensures CheckRubyVersion("") == NoMethodError
    ensures CheckRubyVersion("3") == NoMethodError
    ensures CheckRubyVersion("4") == Reported(Compatible)
    ensures CheckRubyVersion("2") == Reported(PreThreeFour)
  {
    assert Split("") == [];
    assert Dotted([3]) == "3";
    ParseDotted([3]);
    assert Dotted([4]) == "4";
    ParseDotted([4]);
    assert Dotted([2]) == "2";
    ParseDotted([2]);
  }
}
