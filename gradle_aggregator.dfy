/**
 * The Gradle task `generateDependenciesJson` (task-for-gradle-android.kts):
 * its own version comparison `compareVersions`, the reduction of every
 * resolved or declared `group:name` and version into one map that keeps the
 * higher version, and the `dependencies.json` text written from that map.
 */
module GradleAggregator {
  import opened Wrappers
  import opened Text
  import opened DepMaps
  import opened JsonOutput

  // ---------------------------------------------------------------------
  // Kotlin's `String.toIntOrNull` and `String.compareTo`

  /** The range of Kotlin's `Int`. */
  const IntMin: int := -0x8000_0000
  const IntMax: int := 0x7fff_ffff

  /**
   * `toIntOrNull()`: an optional `+` or `-` and at least one decimal digit,
   * with a value inside the `Int` range; anything else is `null`.
   */
  function ToIntOrNull(s: string): (r: Option<int>)
    ensures r.Some? ==> IntMin <= r.value <= IntMax
  {
    if s == [] then None
    else if s[0] == '-' || s[0] == '+' then
      var digits := s[1..];
      if digits == [] || !AllDigits(digits) then None
      else
        var v: int := if s[0] == '-' then -(DecimalValue(digits) as int) else DecimalValue(digits);
        if IntMin <= v <= IntMax then Some(v) else None
    else if !AllDigits(s) then None
    else if DecimalValue(s) <= IntMax then Some(DecimalValue(s))
    else None
  }

  /** The decimal numeral of every non-negative `Int` reads back as that number. */
  lemma ToIntOfShowNat(n: nat)
    requires n <= IntMax
    ensures ToIntOrNull(ShowNat(n)) == Some(n)
  {
    DecimalValueOfShowNat(n);
  }

  /** A part that is not a numeral, such as a qualifier `RC1`, never reads as a number. */
  lemma ToIntNeedsDigits(s: string, k: nat)
    requires 0 < k < |s| && !IsDigit(s[k])
    ensures ToIntOrNull(s) == None
  {
    if s[0] == '-' || s[0] == '+' {
      assert s[1..][k - 1] == s[k];
    }
  }

  /**
   * The sign of `a.compareTo(b)`: the first differing character decides,
   * and a proper prefix comes first.
   */
  function StrCompare(a: string, b: string): (c: int)
    ensures -1 <= c <= 1
    ensures c == 0 <==> a == b
  {
    if a == [] && b == [] then 0
    else if a == [] then -1
    else if b == [] then 1
    else if a[0] < b[0] then -1
    else if a[0] > b[0] then 1
    else
      var c := StrCompare(a[1..], b[1..]);
      assert c == 0 <==> a == b by {
        assert a == [a[0]] + a[1..] && b == [b[0]] + b[1..];
      }
      c
  }

  lemma {:induction false} StrCompareFlip(a: string, b: string)
    ensures StrCompare(b, a) == -StrCompare(a, b)
  {
    if a != [] && b != [] && a[0] == b[0] {
      StrCompareFlip(a[1..], b[1..]);
    }
  }

  lemma {:induction false} StrCompareTransitive(a: string, b: string, c: string)
    requires StrCompare(a, b) < 0 && StrCompare(b, c) < 0
    ensures StrCompare(a, c) < 0
  {
    if a != [] && b != [] && c != [] && a[0] == b[0] == c[0] {
      StrCompareTransitive(a[1..], b[1..], c[1..]);
    }
  }

  // ---------------------------------------------------------------------
  // `compareVersions`

  /** The separators of Kotlin's `split(".")`. */
  const Dot: set<char> := {'.'}

  function Max(a: nat, b: nat): nat
  {
    if a < b then b else a
  }

  /** `parts.getOrNull(i) ?: "0"`. */
  function PartAt(parts: seq<string>, i: nat): string
  {
    if i < |parts| then parts[i] else "0"
  }

  /** One step of the loop: numerically when both parts read as `Int`, else as strings. */
  function PartCompare(part1: string, part2: string): (c: int)
    ensures -1 <= c <= 1
  {
    var num1, num2 := ToIntOrNull(part1), ToIntOrNull(part2);
    if num1.Some? && num2.Some? then
      (if num1.value > num2.value then 1 else if num1.value < num2.value then -1 else 0)
    else StrCompare(part1, part2)
  }

  /** The loop from index `i` to `maxLength`: the verdict of the first part that does not tie. */
  function CompareFrom(parts1: seq<string>, parts2: seq<string>, i: nat): (c: int)
    ensures -1 <= c <= 1
    decreases Max(|parts1|, |parts2|) - i
  {
    if i >= Max(|parts1|, |parts2|) then 0
    else
      var c := PartCompare(PartAt(parts1, i), PartAt(parts2, i));
      if c != 0 then c else CompareFrom(parts1, parts2, i + 1)
  }

  /** `compareVersions(version1, version2)`: the higher of the two. */
  function HigherVersion(version1: string, version2: string): (r: string)
    ensures r == version1 || r == version2
  {
    if version1 == version2 then version1
    else
      var c := CompareFrom(Split(version1, Dot), Split(version2, Dot), 0);
      if c > 0 then version1
      else if c < 0 then version2
      else if |version1| >= |version2| then version1
      else version2
  }

  /** Both parts reading as `Int` compare by their values. */
  lemma NumericPartsCompareByValue(n1: nat, n2: nat)
    requires n1 <= IntMax && n2 <= IntMax
    ensures PartCompare(ShowNat(n1), ShowNat(n2)) == if n1 > n2 then 1 else if n1 < n2 then -1 else 0
  {
    ToIntOfShowNat(n1);
    ToIntOfShowNat(n2);
  }

  lemma PartCompareFlip(part1: string, part2: string)
    ensures PartCompare(part2, part1) == -PartCompare(part1, part2)
  {
    StrCompareFlip(part1, part2);
  }

  lemma PartCompareRefl(part: string)
    ensures PartCompare(part, part) == 0
  {
  }

  lemma {:induction false} CompareFromFlip(parts1: seq<string>, parts2: seq<string>, i: nat)
    ensures CompareFrom(parts2, parts1, i) == -CompareFrom(parts1, parts2, i)
    decreases Max(|parts1|, |parts2|) - i
  {
    if i < Max(|parts1|, |parts2|) {
      PartCompareFlip(PartAt(parts1, i), PartAt(parts2, i));
      CompareFromFlip(parts1, parts2, i + 1);
    }
  }

  /**
   * The first part that does not tie decides: when the parts at `i` up to
   * `k` tie and those at `k` do not, the verdict is theirs.
   */
  lemma {:induction false} FirstDifferingPartDecides(parts1: seq<string>, parts2: seq<string>, i: nat, k: nat)
    requires i <= k < Max(|parts1|, |parts2|)
    requires forall j :: i <= j < k ==> PartCompare(PartAt(parts1, j), PartAt(parts2, j)) == 0
    requires PartCompare(PartAt(parts1, k), PartAt(parts2, k)) != 0
    ensures CompareFrom(parts1, parts2, i) == PartCompare(PartAt(parts1, k), PartAt(parts2, k))
    decreases k - i
  {
    if i < k {
      assert PartCompare(PartAt(parts1, i), PartAt(parts2, i)) == 0;
      FirstDifferingPartDecides(parts1, parts2, i + 1, k);
    }
  }

  /** Parts missing from the shorter side count as `"0"`: trailing `"0"` parts tie. */
  lemma {:induction false} ZeroPartsTie(parts: seq<string>, zeros: nat, i: nat)
    ensures CompareFrom(parts, parts + seq(zeros, _ => "0"), i) == 0
    decreases |parts| + zeros - i
  {
    var longer := parts + seq(zeros, _ => "0");
    if i < |longer| {
      assert PartAt(parts, i) == PartAt(longer, i);
      ZeroPartsTie(parts, zeros, i + 1);
    }
  }

  /** `compareVersions(v, v)` is `v`. */
  lemma HigherVersionRefl(v: string)
    ensures HigherVersion(v, v) == v
  {
  }

  /**
   * Comparing with the same version and a further `.0`: every part ties,
   * so the longer string wins, whichever side it is on (`"1.0"` against
   * `"1.0.0"` gives `"1.0.0"`).
   */
  lemma TrailingZeroPartWins(v: string)
    ensures HigherVersion(v, v + ".0") == v + ".0"
    ensures HigherVersion(v + ".0", v) == v + ".0"
  {
    var w := v + ".0";
    assert w == v + ['.'] + "0";
    SplitAtSeparator(v, '.', "0", Dot);
    assert "0"[1..] == [] && "0"[0] !in Dot && ['0'] + "" == "0";
    assert Split("0", Dot) == ["0"];
    var parts := Split(v, Dot);
    assert Split(w, Dot) == parts + seq(1, _ => "0");
    ZeroPartsTie(parts, 1, 0);
    CompareFromFlip(parts, Split(w, Dot), 0);
    assert |w| > |v|;
  }

  /**
   * The verdict does not depend on the order of the arguments, except when
   * every part ties and the two strings are equally long: then the first
   * argument wins.
   */
  lemma HigherVersionCommutes(version1: string, version2: string)
    ensures HigherVersion(version1, version2) != HigherVersion(version2, version1) <==>
      version1 != version2 && |version1| == |version2| &&
      CompareFrom(Split(version1, Dot), Split(version2, Dot), 0) == 0
  {
    CompareFromFlip(Split(version1, Dot), Split(version2, Dot), 0);
  }

  /** A version of one part, without a `.`, splits into itself. */
  lemma SplitWithoutDot(v: string)
    requires forall k :: 0 <= k < |v| ==> v[k] != '.'
    ensures Split(v, Dot) == [v]
  {
    SplitSeparatorFreePrefix(v, "", Dot);
    assert v + "" == v;
  }

  /** Two versions of one part each, which do not tie: the part decides. */
  lemma OnePartVersions(version1: string, version2: string)
    requires forall k :: 0 <= k < |version1| ==> version1[k] != '.'
    requires forall k :: 0 <= k < |version2| ==> version2[k] != '.'
    requires PartCompare(version1, version2) != 0
    ensures HigherVersion(version1, version2) == if PartCompare(version1, version2) > 0 then version1 else version2
  {
    SplitWithoutDot(version1);
    SplitWithoutDot(version2);
  }

  lemma PartCompareExamples()
    ensures PartCompare("10", "9") == 1
    ensures PartCompare("9", "1a") == 1
    ensures PartCompare("1a", "10") == 1
  {
    assert ShowNat(10) == "10" && ShowNat(9) == "9";
    NumericPartsCompareByValue(10, 9);
    ToIntNeedsDigits("1a", 1);
  }

  /**
   * `compareVersions` is not an order: numerically `10` beats `9`, as
   * strings `9` beats `1a` and `1a` beats `10`, so no version of the three
   * is the highest.
   */
  lemma HigherVersionIsNotTransitive()
    ensures HigherVersion("10", "9") == "10"
    ensures HigherVersion("9", "1a") == "9"
    ensures HigherVersion("1a", "10") == "1a"
  {
    PartCompareExamples();
    OnePartVersions("10", "9");
    OnePartVersions("9", "1a");
    OnePartVersions("1a", "10");
  }

  // ---------------------------------------------------------------------
  // `addDependency` over `dependenciesMap`

  /** The map after `addDependency(key, version)`. */
  function AddVersion(m: DepMap, key: string, version: string): DepMap
  {
    if HasKey(m, key) then
      var existing := Get(m, key);
      var higher := HigherVersion(existing, version);
      if higher != existing then Put(m, key, higher) else m
    else Put(m, key, version)
  }

  /** The map after `addDependency` for each pair in turn, starting from `m`. */
  function Collect(m: DepMap, pairs: seq<Entry>): DepMap
  {
    if pairs == [] then m
    else
      var last := pairs[|pairs| - 1];
      AddVersion(Collect(m, pairs[..|pairs| - 1]), last.key, last.version)
  }

  /** A new key is appended with its version. */
  lemma AddVersionNew(m: DepMap, key: string, version: string)
    requires !HasKey(m, key)
    ensures AddVersion(m, key, version) == m + [Entry(key, version)]
  {
    PutOrder(m, key, version);
  }

  /**
   * A present key ends up with `compareVersions(existing, version)`, the map
   * being left alone when that is `existing`.
   */
  lemma AddVersionPresent(m: DepMap, key: string, version: string)
    requires HasKey(m, key)
    ensures HasKey(AddVersion(m, key, version), key)
    ensures Get(AddVersion(m, key, version), key) == HigherVersion(Get(m, key), version)
    ensures HigherVersion(Get(m, key), version) == Get(m, key) ==> AddVersion(m, key, version) == m
  {
    PutGet(m, key, HigherVersion(Get(m, key), version), key);
  }

  /** No other key changes. */
  lemma AddVersionOthers(m: DepMap, key: string, version: string, k: string)
    requires k != key
    ensures HasKey(AddVersion(m, key, version), k) <==> HasKey(m, k)
    ensures HasKey(m, k) ==> Get(AddVersion(m, key, version), k) == Get(m, k)
  {
    PutGet(m, key, if HasKey(m, key) then HigherVersion(Get(m, key), version) else version, k);
  }

  lemma AddVersionKeys(m: DepMap, key: string, version: string)
    ensures KeySet(AddVersion(m, key, version)) == KeySet(m) + {key}
  {
    var v := if HasKey(m, key) then HigherVersion(Get(m, key), version) else version;
    PutOrder(m, key, v);
    if HasKey(m, key) {
      assert key in KeySet(m);
    }
  }

  /** The keys at the end are exactly the keys passed, after those already there. */
  lemma {:induction false} CollectKeys(m: DepMap, pairs: seq<Entry>)
    ensures KeySet(Collect(m, pairs)) == KeySet(m) + KeySet(pairs)
  {
    if pairs != [] {
      var front, last := pairs[..|pairs| - 1], pairs[|pairs| - 1];
      var before := Collect(m, front);
      assert Collect(m, pairs) == AddVersion(before, last.key, last.version);
      CollectKeys(m, front);
      AddVersionKeys(before, last.key, last.version);
      assert pairs == front + [last];
      KeySetSnoc(front, last);
    }
  }

  /** Every version kept for a key is one of the versions met for that key. */
  lemma {:induction false} CollectKeepsSeenVersions(m: DepMap, pairs: seq<Entry>, k: string)
    requires HasKey(Collect(m, pairs), k)
    ensures Entry(k, Get(Collect(m, pairs), k)) in m + pairs
  {
    var r := Collect(m, pairs);
    if pairs == [] {
      MemberIffGet(m, k, Get(m, k));
    } else {
      var front, last := pairs[..|pairs| - 1], pairs[|pairs| - 1];
      var before := Collect(m, front);
      assert pairs == front + [last];
      if k == last.key {
        if HasKey(before, k) {
          AddVersionPresent(before, k, last.version);
          if Get(r, k) == Get(before, k) {
            CollectKeepsSeenVersions(m, front, k);
          }
        } else {
          AddVersionNew(before, k, last.version);
          PutGet(before, k, last.version, k);
        }
      } else {
        AddVersionOthers(before, last.key, last.version, k);
        CollectKeepsSeenVersions(m, front, k);
      }
    }
  }

  /** One more pair, met last. */
  lemma CollectSnoc(m: DepMap, pairs: seq<Entry>, e: Entry)
    ensures Collect(m, pairs + [e]) == AddVersion(Collect(m, pairs), e.key, e.version)
  {
    assert (pairs + [e])[..|pairs|] == pairs;
  }

  /** Three versions of one key, met in turn: the verdicts chain from the left. */
  lemma CollectOneKey(key: string, a: string, b: string, c: string)
    ensures var r := Collect([], [Entry(key, a), Entry(key, b), Entry(key, c)]);
      HasKey(r, key) && Get(r, key) == HigherVersion(HigherVersion(a, b), c)
  {
    var ea, eb, ec := Entry(key, a), Entry(key, b), Entry(key, c);
    CollectSnoc([], [], ea);
    assert [] + [ea] == [ea];
    var m1 := Collect([], [ea]);
    assert Collect([], []) == [];
    AddVersionNew([], key, a);
    PutGet([], key, a, key);
    CollectSnoc([], [ea], eb);
    var m2 := Collect([], [ea, eb]);
    assert [ea] + [eb] == [ea, eb];
    AddVersionPresent(m1, key, b);
    CollectSnoc([], [ea, eb], ec);
    assert [ea, eb] + [ec] == [ea, eb, ec];
    AddVersionPresent(m2, key, c);
  }

  /**
   * Since `compareVersions` is not an order, the version kept depends on the
   * order in which the traversal meets the versions.
   */
  lemma KeptVersionDependsOnOrder(key: string)
    ensures var r := Collect([], [Entry(key, "10"), Entry(key, "9"), Entry(key, "1a")]);
      HasKey(r, key) && Get(r, key) == "1a"
    ensures var r := Collect([], [Entry(key, "1a"), Entry(key, "10"), Entry(key, "9")]);
      HasKey(r, key) && Get(r, key) == "9"
  {
    assert HigherVersion(HigherVersion("10", "9"), "1a") == "1a" by {
      HigherVersionIsNotTransitive();
      HigherVersionCommutes("1a", "10");
    }
    assert HigherVersion(HigherVersion("1a", "10"), "9") == "9" by {
      HigherVersionIsNotTransitive();
      HigherVersionCommutes("9", "1a");
    }
    CollectOneKey(key, "10", "9", "1a");
    CollectOneKey(key, "1a", "10", "9");
  }

  // ---------------------------------------------------------------------
  // `entries.sortedBy { it.key }`

  predicate KeysAscending(es: seq<Entry>)
  {
    forall i, j :: 0 <= i < j < |es| ==> StrCompare(es[i].key, es[j].key) < 0
  }

  function InsertByKey(e: Entry, es: seq<Entry>): (r: seq<Entry>)
    ensures multiset(r) == multiset(es) + multiset{e}
  {
    if es == [] || StrCompare(e.key, es[0].key) < 0 then [e] + es
    else
      assert es == [es[0]] + es[1..];
      [es[0]] + InsertByKey(e, es[1..])
  }

  /** The entries ordered by key. */
  function SortByKey(es: seq<Entry>): (r: seq<Entry>)
    ensures multiset(r) == multiset(es)
  {
    if es == [] then []
    else
      assert es == [es[0]] + es[1..];
      InsertByKey(es[0], SortByKey(es[1..]))
  }

  /** An entry whose key is below every key of an ascending list can go in front of it. */
  lemma ConsAscending(x: Entry, tail: seq<Entry>)
    requires KeysAscending(tail)
    requires forall j :: 0 <= j < |tail| ==> StrCompare(x.key, tail[j].key) < 0
    ensures KeysAscending([x] + tail)
  {
    var r := [x] + tail;
    forall i, j | 0 <= i < j < |r| ensures StrCompare(r[i].key, r[j].key) < 0 {
      assert r[j] == tail[j - 1];
      if i > 0 {
        assert r[i] == tail[i - 1];
      }
    }
  }

  /** A key below the first of an ascending list is below all of them. */
  lemma BelowFirstIsBelowAll(key: string, es: seq<Entry>)
    requires KeysAscending(es) && es != [] && StrCompare(key, es[0].key) < 0
    ensures forall j :: 0 <= j < |es| ==> StrCompare(key, es[j].key) < 0
  {
    forall j | 1 <= j < |es| ensures StrCompare(key, es[j].key) < 0 {
      StrCompareTransitive(key, es[0].key, es[j].key);
    }
  }

  /** The first entry of an ascending list stays below everything inserted after it. */
  lemma FirstBelowInsertion(e: Entry, es: seq<Entry>)
    requires KeysAscending(es) && es != [] && StrCompare(es[0].key, e.key) < 0
    ensures forall j :: 0 <= j < |InsertByKey(e, es[1..])| ==>
      StrCompare(es[0].key, InsertByKey(e, es[1..])[j].key) < 0
  {
    var tail := InsertByKey(e, es[1..]);
    forall j | 0 <= j < |tail| ensures StrCompare(es[0].key, tail[j].key) < 0 {
      assert tail[j] in multiset(es[1..]) + multiset{e};
      if tail[j] != e {
        assert tail[j] in es[1..];
        var k :| 0 <= k < |es[1..]| && es[1..][k] == tail[j];
        assert es[k + 1] == tail[j];
      }
    }
  }

  lemma {:induction false} InsertKeepsAscending(e: Entry, es: seq<Entry>)
    requires KeysAscending(es)
    requires forall x :: x in es ==> x.key != e.key
    ensures KeysAscending(InsertByKey(e, es))
  {
    if es == [] || StrCompare(e.key, es[0].key) < 0 {
      if es != [] {
        BelowFirstIsBelowAll(e.key, es);
      }
      ConsAscending(e, es);
    } else {
      assert es[0] in es;
      StrCompareFlip(e.key, es[0].key);
      assert KeysAscending(es[1..]) by {
        forall i, j | 0 <= i < j < |es[1..]| ensures StrCompare(es[1..][i].key, es[1..][j].key) < 0 {
          assert es[1..][i] == es[i + 1] && es[1..][j] == es[j + 1];
        }
      }
      forall x | x in es[1..] ensures x.key != e.key {
        assert x in es;
      }
      InsertKeepsAscending(e, es[1..]);
      FirstBelowInsertion(e, es);
      ConsAscending(es[0], InsertByKey(e, es[1..]));
    }
  }

  /** `sortedBy { it.key }` on a map: every entry, in ascending key order. */
  lemma {:induction false} SortByKeyAscending(es: DepMap)
    ensures KeysAscending(SortByKey(es))
  {
    if es != [] {
      var rest: DepMap := es[1..];
      SortByKeyAscending(rest);
      forall x | x in SortByKey(rest) ensures x.key != es[0].key {
        assert x in multiset(rest);
        var k :| 0 <= k < |rest| && rest[k] == x;
        assert es[k + 1] == x;
      }
      InsertKeepsAscending(es[0], SortByKey(rest));
    }
  }

  // ---------------------------------------------------------------------
  // The task's state

  class Aggregator {
    /** `dependenciesMap`: one version per `group:name`, in the order keys were first met. */
    var dependenciesMap: DepMap

    constructor ()
      ensures dependenciesMap == []
    {
      dependenciesMap := [];
    }

    /** `addDependency(key, version)`. */
    method AddDependency(key: string, version: string)
      modifies this
      ensures dependenciesMap == AddVersion(old(dependenciesMap), key, version)
    {
      if HasKey(dependenciesMap, key) {
        var existingVersion := Get(dependenciesMap, key);
        var higherVersion := HigherVersion(existingVersion, version);
        if higherVersion != existingVersion {
          dependenciesMap := Put(dependenciesMap, key, higherVersion);
        }
      } else {
        dependenciesMap := Put(dependenciesMap, key, version);
      }
    }

    /** `addDependency` for every resolved or declared dependency, in the order met. */
    method AddAll(pairs: seq<Entry>)
      modifies this
      ensures dependenciesMap == Collect(old(dependenciesMap), pairs)
    {
      for i := 0 to |pairs|
        invariant dependenciesMap == Collect(old(dependenciesMap), pairs[..i])
      {
        assert pairs[..i + 1][..i] == pairs[..i];
        AddDependency(pairs[i].key, pairs[i].version);
      }
      assert pairs[..|pairs|] == pairs;
    }

    /** The `buildString` block: the text of `dependencies.json`. */
    method DependenciesJson() returns (json: string)
      ensures json == JsonText(SortByKey(dependenciesMap), EscapeQuotes)
    {
      var entries := SortByKey(dependenciesMap);
      json := "{\n";
      for index := 0 to |entries|
        invariant json + LinesFrom(entries, EscapeQuotes, index) == "{\n" + LinesFrom(entries, EscapeQuotes, 0)
      {
        var entry := entries[index];
        var escapedKey := EscapeQuotes(entry.key);
        var escapedValue := EscapeQuotes(entry.version);
        var line := "  \"" + escapedKey + "\": \"" + escapedValue + "\"";
        if index < |entries| - 1 {
          line := line + ",";
        }
        line := line + "\n";
        LineStep(json, entries, EscapeQuotes, index, escapedKey, escapedValue, line);
        json := json + line;
      }
      json := json + "}";
    }
  }

  /** One turn of the loop writing the lines. */
  lemma LineStep(json: string, es: seq<Entry>, escape: string -> string, i: nat,
                 escapedKey: string, escapedValue: string, line: string)
    requires i < |es| && escapedKey == escape(es[i].key) && escapedValue == escape(es[i].version)
    requires var front := "  \"" + escapedKey + "\": \"" + escapedValue + "\"";
      line == if i < |es| - 1 then front + "," + "\n" else front + "\n"
    ensures json + LinesFrom(es, escape, i) == (json + line) + LinesFrom(es, escape, i + 1)
  {
    var front := "  \"" + escapedKey + "\": \"" + escapedValue + "\"";
    assert front + "" == front;
  }

  /**
   * `dependencies.json` lists every entry of the map and nothing else, in
   * ascending key order, and, when no key or version holds `\` or a control
   * character, reads back as exactly those entries.
   */
  lemma DependenciesFileReadsBack(m: DepMap)
    requires forall j :: 0 <= j < |m| ==> Plain(m[j].key) && Plain(m[j].version)
    ensures multiset(SortByKey(m)) == multiset(m)
    ensures KeysAscending(SortByKey(m))
    ensures ReadObject(JsonText(SortByKey(m), EscapeQuotes)) == Some(SortByKey(m))
  {
    var sorted := SortByKey(m);
    SortByKeyAscending(m);
    forall j | 0 <= j < |sorted|
      ensures Plain(sorted[j].key) && Plain(sorted[j].version)
    {
      assert sorted[j] in multiset(m);
      var k :| 0 <= k < |m| && m[k] == sorted[j];
    }
    PlainTextReadsBack(sorted);
  }
}
