/**
 * The browser-side version comparator (js/utils/version-utils.js): a version
 * string becomes a sequence of naturals, and two sequences are compared
 * lexicographically with missing trailing tokens read as 0.
 */
module VersionUtils {
  import opened Wrappers
  import opened Text

  /** `'up'`: going from the first version to the second is an upgrade. */
  datatype Verdict = Up | Down | Equal

  function Flip(v: Verdict): Verdict
  {
    match v
    case Up => Down
    case Down => Up
    case Equal => Equal
  }

  const Separators: set<char> := {'.', '-'}

  /** The characters kept by `/[^\d.\-]/g` removal: ASCII digits, `.` and `-`. */
  predicate IsVersionChar(c: char) { IsDigit(c) || c == '.' || c == '-' }

  /** `version.replace(/[^\d.\-]/g, '')`. */
  function Clean(s: string): (r: string)
    ensures forall i :: 0 <= i < |r| ==> IsVersionChar(r[i])
  {
    if s == [] then []
    else (if IsVersionChar(s[0]) then [s[0]] else []) + Clean(s[1..])
  }

  /** The leading run of ASCII digits that `parseInt` reads. */
  function DigitPrefix(s: string): (r: string)
    ensures AllDigits(r) && |r| <= |s| && r == s[..|r|]
    ensures AllDigits(s) ==> r == s
  {
    if s != [] && IsDigit(s[0]) then [s[0]] + DigitPrefix(s[1..]) else []
  }

  /**
   * `parseInt(s)` on a string without leading blanks or sign: the value of its
   * leading digits, or `None` (NaN) when it does not start with a digit.
   */
  function ParseInt(s: string): (r: Option<nat>)
    ensures r.None? <==> (s == [] || !IsDigit(s[0]))
    ensures AllDigits(s) && s != [] ==> r == Some(DecimalValue(s))
  {
    var d := DigitPrefix(s);
    if d == [] then None else Some(DecimalValue(d))
  }

  /** `isNaN(parsed) ? 0 : parsed`. */
  function FragmentValue(f: string): nat
  {
    match ParseInt(f)
    case Some(n) => n
    case None => 0
  }

  /** `normalizeVersion`: clean, split on `.` or `-`, and read every fragment as a number. */
  function Normalize(v: string): (t: seq<nat>)
    ensures |t| >= 1
  {
    var fs := Split(Clean(v), Separators);
    seq(|fs|, i requires 0 <= i < |fs| => FragmentValue(fs[i]))
  }

  /** Token `i` of `v`, or 0 past its end (`v1[i] || 0`). */
  function At(v: seq<nat>, i: nat): nat
  {
    if i < |v| then v[i] else 0
  }

  function Drop1(v: seq<nat>): (r: seq<nat>)
    ensures forall i: nat :: At(r, i) == At(v, i + 1)
  {
    if v == [] then [] else v[1..]
  }

  /** The loop of `compareVersions`, one token position per call. */
  function CompareTokens(a: seq<nat>, b: seq<nat>): Verdict
    decreases |a| + |b|
  {
    if a == [] && b == [] then Equal
    else if At(a, 0) > At(b, 0) then Down
    else if At(a, 0) < At(b, 0) then Up
    else CompareTokens(Drop1(a), Drop1(b))
  }

  /** `compareVersions(version1, version2)`. */
  function Compare(version1: string, version2: string): Verdict
  {
    CompareTokens(Normalize(version1), Normalize(version2))
  }

  // ---------------------------------------------------------------------
  // Normalisation

  /** Every fragment is digits only (possibly empty) and its token is its decimal value. */
  lemma NormalizeFragments(v: string)
    ensures var fs := Split(Clean(v), Separators);
      |Normalize(v)| == |fs| &&
      forall i :: 0 <= i < |fs| ==> AllDigits(fs[i]) && Normalize(v)[i] == DecimalValue(fs[i])
  {
    var c := Clean(v);
    var fs := Split(c, Separators);
    forall i | 0 <= i < |fs|
      ensures AllDigits(fs[i]) && Normalize(v)[i] == DecimalValue(fs[i])
    {
      forall j | 0 <= j < |fs[i]| ensures IsDigit(fs[i][j]) {
        SplitFragmentChars(c, Separators, i, j);
        assert fs[i][j] in c && fs[i][j] !in Separators;
      }
    }
  }

  /** One token per fragment: one more than the number of separators kept by cleaning. */
  lemma NormalizeLength(v: string)
    ensures |Normalize(v)| == |SeparatorsOf(Clean(v), Separators)| + 1
  {
    SplitThenInterleave(Clean(v), Separators);
  }

  lemma {:induction false} CleanKeepsVersionChars(s: string)
    requires forall i :: 0 <= i < |s| ==> IsVersionChar(s[i])
    ensures Clean(s) == s
  {
    if s != [] {
      CleanKeepsVersionChars(s[1..]);
      assert s == [s[0]] + s[1..];
    }
  }

  lemma {:induction false} CleanDropsOthers(s: string)
    requires forall i :: 0 <= i < |s| ==> !IsVersionChar(s[i])
    ensures Clean(s) == []
  {
    if s != [] {
      CleanDropsOthers(s[1..]);
    }
  }

  lemma {:induction false} CleanAppend(s: string, t: string)
    ensures Clean(s + t) == Clean(s) + Clean(t)
  {
    if s == [] {
      assert s + t == t;
    } else {
      var c, s' := s[0], s[1..];
      CleanAppend(s', t);
      var head := if IsVersionChar(c) then [c] else [];
      assert s + t == [c] + (s' + t);
      CleanCons(c, s' + t);
      assert s == [c] + s';
      CleanCons(c, s');
      assert head + (Clean(s') + Clean(t)) == (head + Clean(s')) + Clean(t);
    }
  }

  lemma CleanCons(c: char, rest: string)
    ensures Clean([c] + rest) == (if IsVersionChar(c) then [c] else []) + Clean(rest)
  {
    assert ([c] + rest)[0] == c && ([c] + rest)[1..] == rest;
  }

  /** A version with no digit, `.` or `-` (`""`, `"RELEASE"`) reads as the single token 0. */
  lemma NoVersionCharsIsZero(v: string)
    requires forall i :: 0 <= i < |v| ==> !IsVersionChar(v[i])
    ensures Normalize(v) == [0]
  {
    CleanDropsOthers(v);
  }

  /** The dotted numeral of a token sequence, e.g. `[1, 10, 0]` is `"1.10.0"`. */
  function Render(t: seq<nat>): string
    requires |t| >= 1
  {
    Interleave(seq(|t|, i requires 0 <= i < |t| => ShowNat(t[i])), seq(|t| - 1, _ => '.'))
  }

  lemma {:induction false} InterleaveIsVersionChars(fs: seq<string>, cs: string)
    requires |fs| == |cs| + 1
    requires forall i :: 0 <= i < |fs| ==> AllDigits(fs[i])
    requires forall i :: 0 <= i < |cs| ==> cs[i] in Separators
    ensures forall i :: 0 <= i < |Interleave(fs, cs)| ==> IsVersionChar(Interleave(fs, cs)[i])
    decreases |cs|
  {
    if cs != [] {
      InterleaveIsVersionChars(fs[1..], cs[1..]);
      var r := Interleave(fs[1..], cs[1..]);
      var w := fs[0] + [cs[0]] + r;
      forall i | 0 <= i < |w| ensures IsVersionChar(w[i]) {
        if i < |fs[0]| {
          assert w[i] == fs[0][i];
        } else if i > |fs[0]| {
          assert w[i] == r[i - |fs[0]| - 1];
        }
      }
    }
  }

  /** A version glued from digit fragments and separators normalises to the fragments' values. */
  lemma NormalizeOfFragments(fs: seq<string>, cs: string)
    requires |fs| == |cs| + 1
    requires forall i :: 0 <= i < |fs| ==> AllDigits(fs[i])
    requires forall i :: 0 <= i < |cs| ==> cs[i] in Separators
    ensures |Normalize(Interleave(fs, cs))| == |fs|
    ensures forall i :: 0 <= i < |fs| ==> Normalize(Interleave(fs, cs))[i] == DecimalValue(fs[i])
  {
    InterleaveIsVersionChars(fs, cs);
    CleanKeepsVersionChars(Interleave(fs, cs));
    forall i, j | 0 <= i < |fs| && 0 <= j < |fs[i]| ensures fs[i][j] !in Separators {
      assert IsDigit(fs[i][j]);
    }
    InterleaveThenSplit(fs, cs, Separators);
  }

  /** Normalising the dotted numeral of a token sequence gives the sequence back. */
  lemma RenderRoundTrip(t: seq<nat>)
    requires |t| >= 1
    ensures Normalize(Render(t)) == t
  {
    var fs := seq(|t|, i requires 0 <= i < |t| => ShowNat(t[i]));
    NormalizeOfFragments(fs, seq(|t| - 1, _ => '.'));
    forall i | 0 <= i < |t| ensures DecimalValue(fs[i]) == t[i] {
      DecimalValueOfShowNat(t[i]);
    }
  }

  // ---------------------------------------------------------------------
  // The token order

  /** The padded sequences agree on every position below `k`. */
  ghost predicate AgreeBelow(a: seq<nat>, b: seq<nat>, k: nat)
  {
    forall j: nat :: j < k ==> At(a, j) == At(b, j)
  }

  lemma {:induction false} CompareTokensFlip(a: seq<nat>, b: seq<nat>)
    ensures CompareTokens(b, a) == Flip(CompareTokens(a, b))
    decreases |a| + |b|
  {
    if !(a == [] && b == []) && At(a, 0) == At(b, 0) {
      CompareTokensFlip(Drop1(a), Drop1(b));
    }
  }

  lemma {:induction false} CompareTokensRefl(a: seq<nat>)
    ensures CompareTokens(a, a) == Equal
    decreases |a|
  {
    if a != [] {
      CompareTokensRefl(Drop1(a));
    }
  }

  /** `'equal'` exactly when the zero-padded sequences coincide. */
  lemma {:induction false} CompareTokensEqualIff(a: seq<nat>, b: seq<nat>)
    ensures CompareTokens(a, b) == Equal <==> forall i: nat :: At(a, i) == At(b, i)
    decreases |a| + |b|
  {
    if a == [] && b == [] {
    } else if At(a, 0) != At(b, 0) {
    } else {
      CompareTokensEqualIff(Drop1(a), Drop1(b));
      if forall i: nat :: At(Drop1(a), i) == At(Drop1(b), i) {
        forall i: nat ensures At(a, i) == At(b, i) {
          if i > 0 {
            assert At(Drop1(a), i - 1) == At(Drop1(b), i - 1);
          }
        }
      } else {
        var i: nat :| At(Drop1(a), i) != At(Drop1(b), i);
        assert At(a, i + 1) != At(b, i + 1);
      }
    }
  }

  lemma {:induction false} UpHasWitness(a: seq<nat>, b: seq<nat>)
    requires CompareTokens(a, b) == Up
    ensures exists k: nat :: AgreeBelow(a, b, k) && At(a, k) < At(b, k)
    decreases |a| + |b|
  {
    if At(a, 0) < At(b, 0) {
      assert AgreeBelow(a, b, 0);
    } else {
      var a', b' := Drop1(a), Drop1(b);
      UpHasWitness(a', b');
      var k: nat :| AgreeBelow(a', b', k) && At(a', k) < At(b', k);
      assert AgreeBelow(a, b, k + 1) by {
        forall j: nat | j < k + 1 ensures At(a, j) == At(b, j) {
          if j > 0 {
            assert At(a', j - 1) == At(b', j - 1);
          }
        }
      }
      assert At(a, k + 1) < At(b, k + 1);
    }
  }

  lemma {:induction false} WitnessIsUp(a: seq<nat>, b: seq<nat>, k: nat)
    requires AgreeBelow(a, b, k) && At(a, k) < At(b, k)
    ensures CompareTokens(a, b) == Up
    decreases k
  {
    if k > 0 {
      var a', b' := Drop1(a), Drop1(b);
      assert At(a, 0) == At(b, 0);
      assert k < |b|;
      assert AgreeBelow(a', b', k - 1) by {
        forall j: nat | j < k - 1 ensures At(a', j) == At(b', j) {
          assert At(a, j + 1) == At(b, j + 1);
        }
      }
      WitnessIsUp(a', b', k - 1);
    }
  }

  /**
   * `'up'` exactly when, at the first position where the zero-padded
   * sequences differ, the first one holds the smaller token.
   */
  lemma CompareTokensUpIff(a: seq<nat>, b: seq<nat>)
    ensures CompareTokens(a, b) == Up <==>
      exists k: nat :: AgreeBelow(a, b, k) && At(a, k) < At(b, k)
  {
    if CompareTokens(a, b) == Up {
      UpHasWitness(a, b);
    }
    if exists k: nat :: AgreeBelow(a, b, k) && At(a, k) < At(b, k) {
      var k: nat :| AgreeBelow(a, b, k) && At(a, k) < At(b, k);
      WitnessIsUp(a, b, k);
    }
  }

  /** The order "not a downgrade" on token sequences is transitive. */
  lemma {:induction false} CompareTokensTransitive(a: seq<nat>, b: seq<nat>, c: seq<nat>)
    requires CompareTokens(a, b) != Down && CompareTokens(b, c) != Down
    ensures CompareTokens(a, c) != Down
    ensures CompareTokens(a, b) == Up || CompareTokens(b, c) == Up ==> CompareTokens(a, c) == Up
    decreases |a| + |b| + |c|
  {
    if a == [] && b == [] && c == [] {
    } else if At(a, 0) < At(b, 0) || At(b, 0) < At(c, 0) {
      assert At(a, 0) < At(c, 0);
    } else {
      assert At(a, 0) == At(b, 0) == At(c, 0);
      CompareTokensTransitive(Drop1(a), Drop1(b), Drop1(c));
    }
  }

  // ---------------------------------------------------------------------
  // compareVersions on strings

  /** Swapping the arguments swaps `'up'` and `'down'` and keeps `'equal'`. */
  lemma CompareAntisymmetric(version1: string, version2: string)
    ensures Compare(version2, version1) == Flip(Compare(version1, version2))
    ensures Compare(version1, version2) == Up <==> Compare(version2, version1) == Down
    ensures Compare(version1, version2) == Equal <==> Compare(version2, version1) == Equal
  {
    CompareTokensFlip(Normalize(version1), Normalize(version2));
  }

  lemma CompareReflexive(version: string)
    ensures Compare(version, version) == Equal
  {
    CompareTokensRefl(Normalize(version));
  }

  lemma CompareTransitive(version1: string, version2: string, version3: string)
    requires Compare(version1, version2) != Down && Compare(version2, version3) != Down
    ensures Compare(version1, version3) != Down
    ensures Compare(version1, version2) == Up || Compare(version2, version3) == Up ==>
      Compare(version1, version3) == Up
  {
    CompareTokensTransitive(Normalize(version1), Normalize(version2), Normalize(version3));
  }

  /** The verdict of `compareVersions`, stated on the zero-padded token sequences. */
  lemma CompareMeaning(version1: string, version2: string)
    ensures var a, b := Normalize(version1), Normalize(version2);
      && (Compare(version1, version2) == Up <==>
            exists k: nat :: AgreeBelow(a, b, k) && At(a, k) < At(b, k))
      && (Compare(version1, version2) == Down <==>
            exists k: nat :: AgreeBelow(b, a, k) && At(b, k) < At(a, k))
      && (Compare(version1, version2) == Equal <==> forall i: nat :: At(a, i) == At(b, i))
  {
    var a, b := Normalize(version1), Normalize(version2);
    CompareTokensUpIff(a, b);
    CompareTokensUpIff(b, a);
    CompareTokensFlip(a, b);
    CompareTokensEqualIff(a, b);
  }

  /** Any number of zero tokens appended at the end leaves the verdict `'equal'`. */
  lemma ZeroPaddedEqual(a: seq<nat>, zeros: seq<nat>)
    requires forall i :: 0 <= i < |zeros| ==> zeros[i] == 0
    ensures CompareTokens(a + zeros, a) == Equal
  {
    forall i: nat ensures At(a + zeros, i) == At(a, i) {
      if |a| <= i < |a| + |zeros| {
        assert (a + zeros)[i] == zeros[i - |a|];
      }
    }
    CompareTokensEqualIff(a + zeros, a);
  }

  /** `"1.0"` and `"1.0.0"`: a trailing `.0` never changes the verdict. */
  lemma TrailingZeroIsEqual(v: string)
    ensures Compare(v, v + ".0") == Equal
  {
    assert v + ".0" == v + ['.'] + "0";
    assert Clean("0") == "0";
    NormalizeSnoc(v, '.', "0");
    assert FragmentValue("0") == 0;
    ZeroPaddedEqual(Normalize(v), [0]);
    CompareTokensFlip(Normalize(v) + [0], Normalize(v));
  }

  /** `"1.0-alpha"` and `"1.0"`: a `-` suffix without digits reads as one more 0. */
  lemma QualifierSuffixIsEqual(v: string, qualifier: string)
    requires forall i :: 0 <= i < |qualifier| ==> !IsVersionChar(qualifier[i])
    ensures Compare(v + "-" + qualifier, v) == Equal
  {
    assert v + "-" + qualifier == v + ['-'] + qualifier;
    CleanDropsOthers(qualifier);
    NormalizeSnoc(v, '-', qualifier);
    assert FragmentValue("") == 0;
    ZeroPaddedEqual(Normalize(v), [0]);
  }

  /** A separator and then a piece without separators add one token, the value of that piece. */
  lemma NormalizeSnoc(v: string, sep: char, tail: string)
    requires sep in Separators
    requires forall j :: 0 <= j < |Clean(tail)| ==> Clean(tail)[j] !in Separators
    ensures Normalize(v + [sep] + tail) == Normalize(v) + [FragmentValue(Clean(tail))]
  {
    var c, f := Clean(v), Clean(tail);
    assert Clean(v + [sep] + tail) == c + [sep] + f by {
      CleanAppend(v + [sep], tail);
      CleanAppend(v, [sep]);
      assert Clean([sep]) == [sep];
    }
    assert Split(f, Separators) == [f] by {
      InterleaveThenSplit([f], "", Separators);
    }
    SplitAtSeparator(c, sep, f, Separators);
    var fs := Split(c, Separators);
    var gs := fs + [f];
    var t := Normalize(v + [sep] + tail);
    assert |t| == |fs| + 1;
    forall i | 0 <= i < |t| ensures t[i] == (Normalize(v) + [FragmentValue(f)])[i] {
      assert gs[i] == if i < |fs| then fs[i] else f;
    }
  }

  /** A three-part version made of digits normalises to the values of its parts. */
  lemma NormalizeThree(x: string, y: string, z: string)
    requires AllDigits(x) && AllDigits(y) && AllDigits(z)
    ensures Normalize(Interleave([x, y, z], "..")) == [DecimalValue(x), DecimalValue(y), DecimalValue(z)]
  {
    var fs := [x, y, z];
    NormalizeOfFragments(fs, "..");
    var t := Normalize(Interleave(fs, ".."));
    assert |t| == 3 && t[0] == DecimalValue(x) && t[1] == DecimalValue(y) && t[2] == DecimalValue(z);
  }

  /** Three-part versions made of digits compare by the values of their parts. */
  lemma CompareThreeParts(x1: string, y1: string, z1: string, x2: string, y2: string, z2: string)
    requires AllDigits(x1) && AllDigits(y1) && AllDigits(z1)
    requires AllDigits(x2) && AllDigits(y2) && AllDigits(z2)
    ensures Compare(Interleave([x1, y1, z1], ".."), Interleave([x2, y2, z2], "..")) ==
      CompareTokens([DecimalValue(x1), DecimalValue(y1), DecimalValue(z1)],
                    [DecimalValue(x2), DecimalValue(y2), DecimalValue(z2)])
  {
    NormalizeThree(x1, y1, z1);
    NormalizeThree(x2, y2, z2);
  }

  /** `"1.2.3"` to `"1.2.4"`: raising the last part, all else equal, is an upgrade. */
  lemma LastPartUpgrade(x: string, y: string, z1: string, z2: string)
    requires AllDigits(x) && AllDigits(y) && AllDigits(z1) && AllDigits(z2)
    requires DecimalValue(z1) < DecimalValue(z2)
    ensures Compare(Interleave([x, y, z1], ".."), Interleave([x, y, z2], "..")) == Up
  {
    CompareThreeParts(x, y, z1, x, y, z2);
    var a := [DecimalValue(x), DecimalValue(y), DecimalValue(z1)];
    var b := [DecimalValue(x), DecimalValue(y), DecimalValue(z2)];
    assert AgreeBelow(a, b, 2) && At(a, 2) < At(b, 2);
    WitnessIsUp(a, b, 2);
  }

  /**
   * `"1.10.0"` to `"1.2.0"`: parts compare as numbers, not as text, and the
   * first part that differs decides whatever follows it.
   */
  lemma MiddlePartDecides(x: string, y1: string, z1: string, y2: string, z2: string)
    requires AllDigits(x) && AllDigits(y1) && AllDigits(z1) && AllDigits(y2) && AllDigits(z2)
    requires DecimalValue(y1) > DecimalValue(y2)
    ensures Compare(Interleave([x, y1, z1], ".."), Interleave([x, y2, z2], "..")) == Down
  {
    CompareThreeParts(x, y1, z1, x, y2, z2);
    var a := [DecimalValue(x), DecimalValue(y1), DecimalValue(z1)];
    var b := [DecimalValue(x), DecimalValue(y2), DecimalValue(z2)];
    assert AgreeBelow(b, a, 1) && At(b, 1) < At(a, 1);
    WitnessIsUp(b, a, 1);
    CompareTokensFlip(b, a);
  }

  // ---------------------------------------------------------------------
  // Display mappers

  /** `getVersionChangeType`. */
  function GetVersionChangeType(version1: string, version2: string): (r: string)
    ensures r == "UPDATE" <==> Compare(version1, version2) == Up
    ensures r == "DOWNGRADE" <==> Compare(version1, version2) == Down
    ensures r == "IGUAL" <==> Compare(version1, version2) == Equal
  {
    match Compare(version1, version2)
    case Up => "UPDATE"
    case Down => "DOWNGRADE"
    case Equal => "IGUAL"
  }

  const UpBadge := "bg-green-100 text-green-800 border border-green-200"
  const DownBadge := "bg-red-100 text-red-800 border border-red-200"
  const EqualBadge := "bg-yellow-100 text-yellow-800 border border-yellow-200"

  /** `getVersionBadgeClass`: green, red or yellow; the grey default is unreachable. */
  function GetVersionBadgeClass(version1: string, version2: string): (r: string)
    ensures r == UpBadge <==> Compare(version1, version2) == Up
    ensures r == DownBadge <==> Compare(version1, version2) == Down
    ensures r == EqualBadge <==> Compare(version1, version2) == Equal
  {
    match Compare(version1, version2)
    case Up => UpBadge
    case Down => DownBadge
    case Equal => EqualBadge
  }

  const UpIcon := "fas fa-arrow-up text-green-600"
  const DownIcon := "fas fa-arrow-down text-red-600"
  const EqualIcon := "fas fa-equals text-yellow-600"

  /** `getVersionIcon`. */
  function GetVersionIcon(version1: string, version2: string): (r: string)
    ensures r == UpIcon <==> Compare(version1, version2) == Up
    ensures r == DownIcon <==> Compare(version1, version2) == Down
    ensures r == EqualIcon <==> Compare(version1, version2) == Equal
  {
    match Compare(version1, version2)
    case Up => UpIcon
    case Down => DownIcon
    case Equal => EqualIcon
  }

  /** Reading a change backwards turns an `UPDATE` into a `DOWNGRADE` and an up arrow into a down arrow. */
  lemma DisplaySwap(version1: string, version2: string)
    ensures GetVersionChangeType(version1, version2) == "UPDATE" <==>
            GetVersionChangeType(version2, version1) == "DOWNGRADE"
    ensures GetVersionIcon(version1, version2) == UpIcon <==>
            GetVersionIcon(version2, version1) == DownIcon
    ensures GetVersionChangeType(version1, version2) == GetVersionChangeType(version2, version1) <==>
            GetVersionChangeType(version1, version2) == "IGUAL"
  {
    CompareAntisymmetric(version1, version2);
  }
}
