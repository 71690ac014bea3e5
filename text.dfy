/** Characters, decimal numerals and separator splitting, shared by both version comparators. */
module Text {

  predicate IsDigit(c: char) { '0' <= c <= '9' }

  predicate AllDigits(s: string) { forall i :: 0 <= i < |s| ==> IsDigit(s[i]) }

  function DigitValue(c: char): (d: nat)
    requires IsDigit(c)
    ensures d < 10
  {
    (c as int) - ('0' as int)
  }

  function DigitChar(d: nat): (c: char)
    requires d < 10
    ensures IsDigit(c) && DigitValue(c) == d
  {
    ('0' as int + d) as char
  }

  /** The value of a string of decimal digits; the empty string has value 0. */
  function DecimalValue(s: string): nat
    requires AllDigits(s)
  {
    if s == [] then 0 else 10 * DecimalValue(s[..|s| - 1]) + DigitValue(s[|s| - 1])
  }

  /** The shortest decimal numeral of `n`. */
  function ShowNat(n: nat): (s: string)
    ensures |s| >= 1 && AllDigits(s)
  {
    if n < 10 then [DigitChar(n)] else ShowNat(n / 10) + [DigitChar(n % 10)]
  }

  lemma {:induction false} DecimalValueOfShowNat(n: nat)
    ensures DecimalValue(ShowNat(n)) == n
  {
    if n >= 10 {
      DecimalValueOfShowNat(n / 10);
      var s := ShowNat(n);
      assert s[..|s| - 1] == ShowNat(n / 10);
    }
  }

  /**
   * Splits `s` at every character of `seps`, keeping empty fragments, as both
   * `String.prototype.split` with a character-class pattern and Kotlin's
   * `split` do: the empty string gives one empty fragment.
   */
  function Split(s: string, seps: set<char>): (r: seq<string>)
    ensures |r| >= 1
    ensures forall i, j :: 0 <= i < |r| && 0 <= j < |r[i]| ==> r[i][j] !in seps
  {
    if s == [] then [""]
    else if s[0] in seps then [""] + Split(s[1..], seps)
    else
      var t := Split(s[1..], seps);
      [[s[0]] + t[0]] + t[1..]
  }

  /** Every character of a fragment is a character of the split string. */
  lemma {:induction false} SplitFragmentChars(s: string, seps: set<char>, i: nat, j: nat)
    requires i < |Split(s, seps)| && j < |Split(s, seps)[i]|
    ensures Split(s, seps)[i][j] in s
  {
    var r := Split(s, seps);
    if s != [] {
      var t := Split(s[1..], seps);
      if s[0] in seps {
        SplitFragmentChars(s[1..], seps, i - 1, j);
      } else if i == 0 && j == 0 {
      } else if i == 0 {
        SplitFragmentChars(s[1..], seps, 0, j - 1);
      } else {
        SplitFragmentChars(s[1..], seps, i, j);
      }
    }
  }

  /** The separator characters of `s`, in order. */
  function SeparatorsOf(s: string, seps: set<char>): (r: string)
    ensures forall i :: 0 <= i < |r| ==> r[i] in seps
  {
    if s == [] then []
    else (if s[0] in seps then [s[0]] else []) + SeparatorsOf(s[1..], seps)
  }

  /** `fs[0] + cs[0] + fs[1] + cs[1] + ... + fs[n]`: fragments glued back by separators. */
  function Interleave(fs: seq<string>, cs: string): string
    requires |fs| == |cs| + 1
  {
    if cs == [] then fs[0] else fs[0] + [cs[0]] + Interleave(fs[1..], cs[1..])
  }

  /** `Split` loses nothing: gluing the fragments back with the separators found restores `s`. */
  lemma {:induction false} SplitThenInterleave(s: string, seps: set<char>)
    ensures |Split(s, seps)| == |SeparatorsOf(s, seps)| + 1
    ensures Interleave(Split(s, seps), SeparatorsOf(s, seps)) == s
  {
    if s != [] {
      var t := s[1..];
      SplitThenInterleave(t, seps);
      var ft, ct := Split(t, seps), SeparatorsOf(t, seps);
      if s[0] in seps {
        assert Split(s, seps) == [""] + ft;
        assert SeparatorsOf(s, seps) == [s[0]] + ct;
        assert ([""] + ft)[1..] == ft;
        assert s == [s[0]] + t;
      } else {
        assert SeparatorsOf(s, seps) == ct;
        assert Split(s, seps) == [[s[0]] + ft[0]] + ft[1..];
        InterleaveGlued(s[0], ft, ct);
        assert s == [s[0]] + t;
      }
    }
  }

  /** A character glued to the front of the first fragment comes out in front. */
  lemma InterleaveGlued(c: char, fs: seq<string>, cs: string)
    requires |fs| == |cs| + 1
    ensures Interleave([[c] + fs[0]] + fs[1..], cs) == [c] + Interleave(fs, cs)
  {
    var gs := [[c] + fs[0]] + fs[1..];
    assert gs[0] == [c] + fs[0];
    if cs != [] {
      assert gs[1..] == fs[1..];
      var rest := Interleave(fs[1..], cs[1..]);
      assert Interleave(gs, cs) == (([c] + fs[0]) + [cs[0]]) + rest;
      assert Interleave(fs, cs) == (fs[0] + [cs[0]]) + rest;
      ConsAssoc(c, fs[0], [cs[0]], rest);
    }
  }

  lemma ConsAssoc(c: char, a: string, b: string, d: string)
    ensures (([c] + a) + b) + d == [c] + ((a + b) + d)
  {
  }

  /** A separator-free prefix stays glued to the first fragment of what follows it. */
  lemma {:induction false} SplitSeparatorFreePrefix(f: string, u: string, seps: set<char>)
    requires forall j :: 0 <= j < |f| ==> f[j] !in seps
    ensures Split(f + u, seps) == [f + Split(u, seps)[0]] + Split(u, seps)[1..]
  {
    if f == [] {
      var r := Split(u, seps);
      assert f + u == u && f + r[0] == r[0];
      assert r == [r[0]] + r[1..];
    } else {
      var f' := f[1..];
      SplitSeparatorFreePrefix(f', u, seps);
      assert (f + u)[0] == f[0];
      assert (f + u)[1..] == f' + u;
      assert [f[0]] + (f' + Split(u, seps)[0]) == f + Split(u, seps)[0];
    }
  }

  /** Splitting a string glued from separator-free fragments gives the fragments back. */
  lemma {:induction false} InterleaveThenSplit(fs: seq<string>, cs: string, seps: set<char>)
    requires |fs| == |cs| + 1
    requires forall i :: 0 <= i < |cs| ==> cs[i] in seps
    requires forall i, j :: 0 <= i < |fs| && 0 <= j < |fs[i]| ==> fs[i][j] !in seps
    ensures Split(Interleave(fs, cs), seps) == fs
    decreases |cs|
  {
    if cs == [] {
      SplitSeparatorFreePrefix(fs[0], "", seps);
      assert fs[0] + "" == fs[0];
    } else {
      var rest := Interleave(fs[1..], cs[1..]);
      InterleaveThenSplit(fs[1..], cs[1..], seps);
      assert forall j :: 0 <= j < |fs[0]| ==> fs[0][j] !in seps;
      assert Interleave(fs, cs) == fs[0] + ([cs[0]] + rest);
      SplitSeparatorFreePrefix(fs[0], [cs[0]] + rest, seps);
      assert ([cs[0]] + rest)[1..] == rest;
      assert Split([cs[0]] + rest, seps) == [""] + fs[1..];
      assert fs[0] + "" == fs[0];
    }
  }

  /** Splitting at a separator splits the two halves independently. */
  lemma {:induction false} SplitAtSeparator(s: string, c: char, t: string, seps: set<char>)
    requires c in seps
    ensures Split(s + [c] + t, seps) == Split(s, seps) + Split(t, seps)
  {
    if s == [] {
      assert s + [c] + t == [c] + t;
      SplitCons(c, t, seps);
    } else {
      var s' := s[1..];
      SplitAtSeparator(s', c, t, seps);
      assert s + [c] + t == [s[0]] + (s' + [c] + t);
      assert s == [s[0]] + s';
      SplitCons(s[0], s' + [c] + t, seps);
      SplitCons(s[0], s', seps);
      GlueAppend(s[0], s[0] in seps, Split(s', seps), Split(t, seps));
    }
  }

  lemma GlueAppend(x: char, sep: bool, a: seq<string>, b: seq<string>)
    requires |a| >= 1
    ensures (if sep then [""] + (a + b) else [[x] + (a + b)[0]] + (a + b)[1..]) ==
      (if sep then [""] + a else [[x] + a[0]] + a[1..]) + b
  {
    if !sep {
      assert (a + b)[1..] == a[1..] + b;
    }
  }

  /** Splitting a string with a known first character. */
  lemma SplitCons(x: char, rest: string, seps: set<char>)
    ensures Split([x] + rest, seps) ==
      if x in seps then [""] + Split(rest, seps)
      else [[x] + Split(rest, seps)[0]] + Split(rest, seps)[1..]
  {
    assert ([x] + rest)[0] == x && ([x] + rest)[1..] == rest;
  }

}
