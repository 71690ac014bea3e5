/**
 * The dependency differ (js/components/comparator.js): both inputs must decode
 * to plain objects, old first; the diff lists the added, removed and changed
 * dependencies by walking the two objects.
 */
module Comparator {
  import opened Wrappers
  import opened Seqs
  import opened DepMaps

  /**
   * The shape of a value produced by `JSON.parse`. Members of an object are
   * taken to hold strings, the only values a dependency listing carries.
   */
  datatype Json =
    | JNull
    | JBool(b: bool)
    | JNumber(n: int)
    | JString(s: string)
    | JArray(items: seq<Json>)
    | JObject(members: DepMap)

  /** A dependency present on both sides under different version strings. */
  datatype Change = Change(key: string, oldVersion: string, newVersion: string)

  /** The `added`, `removed` and `changed` lists of one comparison. */
  datatype Diff = Diff(added: seq<Entry>, removed: seq<Entry>, changed: seq<Change>)

  datatype Side = OldSide | NewSide

  /** What `compareJsons` reports: the error notification of one side, or the completed comparison. */
  datatype Outcome =
    | Rejected(side: Side, message: string)
    | Completed(diff: Diff, depsOld: DepMap, depsNew: DepMap)

  /** The entries of `scan` whose key `other` lacks, in the order of `scan`. */
  function Missing(scan: seq<Entry>, other: seq<Entry>): seq<Entry>
  {
    if scan == [] then []
    else
      var front, e := scan[..|scan| - 1], scan[|scan| - 1];
      Missing(front, other) + (if HasKey(other, e.key) then [] else [e])
  }

  /** An entry is missing exactly when it is scanned and `other` lacks its key. */
  lemma {:induction false} MissingMembers(scan: seq<Entry>, other: seq<Entry>)
    ensures forall e :: e in Missing(scan, other) <==> e in scan && !HasKey(other, e.key)
  {
    if scan != [] {
      var front, e := scan[..|scan| - 1], scan[|scan| - 1];
      assert scan == front + [e];
      MissingMembers(front, other);
    }
  }

  /** One more scanned entry: `Missing` grows by that entry exactly when `other` lacks its key. */
  lemma MissingStep(scan: seq<Entry>, e: Entry, other: seq<Entry>)
    ensures Missing(scan + [e], other) == Missing(scan, other) + (if HasKey(other, e.key) then [] else [e])
  {
    assert (scan + [e])[..|scan|] == scan;
  }

  /** `Missing` keeps the order of the scanned map. */
  lemma {:induction false} MissingInOrder(scan: seq<Entry>, other: seq<Entry>)
    ensures Subseq(Missing(scan, other), scan)
  {
    if scan == [] {
    } else {
      var front, e := scan[..|scan| - 1], scan[|scan| - 1];
      assert scan == front + [e];
      MissingInOrder(front, other);
      SubseqExtend(Missing(front, other), front, e, !HasKey(other, e.key));
    }
  }

  /** Nothing is missing when every key of `scan` is a key of `other`. */
  lemma {:induction false} MissingNone(scan: seq<Entry>, other: seq<Entry>)
    requires forall e :: e in scan ==> HasKey(other, e.key)
    ensures Missing(scan, other) == []
  {
    if scan != [] {
      var front := scan[..|scan| - 1];
      assert forall e :: e in front ==> e in scan;
      MissingNone(front, other);
      assert scan[|scan| - 1] in scan;
    }
  }

  /** The new-side entry of every change: its key with its new version. */
  function NewSides(cs: seq<Change>): (r: seq<Entry>)
    ensures |r| == |cs|
    ensures forall i :: 0 <= i < |cs| ==> r[i] == Entry(cs[i].key, cs[i].newVersion)
  {
    if cs == [] then [] else NewSides(cs[..|cs| - 1]) + [Entry(cs[|cs| - 1].key, cs[|cs| - 1].newVersion)]
  }

  /** The entries of `scan` that `base` holds under a different string, in the order of `scan`. */
  function Changes(base: seq<Entry>, scan: seq<Entry>): seq<Change>
  {
    if scan == [] then []
    else
      var front, e := scan[..|scan| - 1], scan[|scan| - 1];
      var keep := HasKey(base, e.key) && Get(base, e.key) != e.version;
      Changes(base, front) + if keep then [Change(e.key, Get(base, e.key), e.version)] else []
  }

  /** A change is listed exactly when its new side is scanned and `base` holds its key under its old, different, string. */
  lemma {:induction false} ChangesMembers(base: seq<Entry>, scan: seq<Entry>)
    ensures forall c :: c in Changes(base, scan) <==>
      Entry(c.key, c.newVersion) in scan && HasKey(base, c.key) && Get(base, c.key) == c.oldVersion &&
      c.oldVersion != c.newVersion
  {
    if scan != [] {
      var front, e := scan[..|scan| - 1], scan[|scan| - 1];
      assert scan == front + [e];
      ChangesMembers(base, front);
    }
  }

  /** One more scanned entry: `Changes` grows by it exactly when `base` holds its key under another string. */
  lemma ChangesStep(base: seq<Entry>, scan: seq<Entry>, e: Entry)
    ensures Changes(base, scan + [e]) == Changes(base, scan) +
      if HasKey(base, e.key) && Get(base, e.key) != e.version then [Change(e.key, Get(base, e.key), e.version)] else []
  {
    assert (scan + [e])[..|scan|] == scan;
  }

  /** `Changes` keeps the order of the scanned map. */
  lemma {:induction false} ChangesInOrder(base: seq<Entry>, scan: seq<Entry>)
    ensures Subseq(NewSides(Changes(base, scan)), scan)
  {
    if scan != [] {
      var front, e := scan[..|scan| - 1], scan[|scan| - 1];
      assert scan == front + [e];
      ChangesInOrder(base, front);
      var keep := HasKey(base, e.key) && Get(base, e.key) != e.version;
      assert NewSides(Changes(base, scan)) == NewSides(Changes(base, front)) + (if keep then [e] else []);
      SubseqExtend(NewSides(Changes(base, front)), front, e, keep);
    }
  }

  /** Nothing changed when `base` holds every entry of `scan` with the same string. */
  lemma {:induction false} ChangesNone(base: seq<Entry>, scan: seq<Entry>)
    requires forall e :: e in scan ==> HasKey(base, e.key) && Get(base, e.key) == e.version
    ensures Changes(base, scan) == []
  {
    if scan != [] {
      var front := scan[..|scan| - 1];
      assert forall e :: e in front ==> e in scan;
      ChangesNone(base, front);
      assert scan[|scan| - 1] in scan;
    }
  }

  /** The diff of two dependency maps, as the two loops of `compareJsons` build it. */
  function DiffOf(depsOld: DepMap, depsNew: DepMap): Diff
  {
    Diff(Missing(depsNew, depsOld), Missing(depsOld, depsNew), Changes(depsOld, depsNew))
  }

  function ErrorPrefix(side: Side): string
  {
    match side
    case OldSide => "Error in old JSON: "
    case NewSide => "Error in new JSON: "
  }

  function ShapeError(side: Side): string
  {
    match side
    case OldSide => "Old JSON must be a dependencies object."
    case NewSide => "New JSON must be a dependencies object."
  }

  /**
   * One `try` block of `compareJsons`: `typeof v !== 'object'`, `Array.isArray(v)`
   * and `v === null` all reject, with the message shown for that side.
   */
  function CheckSide(side: Side, parsed: Result<Json>): (r: Result<DepMap>)
    ensures r.Success? <==> parsed.Success? && parsed.value.JObject?
    ensures r.Success? ==> r.value == parsed.value.members
    ensures r.Failure? ==> |ErrorPrefix(side)| <= |r.error| && r.error[..|ErrorPrefix(side)|] == ErrorPrefix(side)
    ensures parsed.Failure? ==> r.error == ErrorPrefix(side) + parsed.error
  {
    match parsed
    case Failure(e) => Failure(ErrorPrefix(side) + e)
    case Success(JObject(m)) => Success(m)
    case Success(_) => Failure(ErrorPrefix(side) + ShapeError(side))
  }

  /** The outcome of `compareJsons` when the two texts decode to `parsedOld` and `parsedNew`. */
  function CompareOutcome(parsedOld: Result<Json>, parsedNew: Result<Json>): Outcome
  {
    match CheckSide(OldSide, parsedOld)
    case Failure(e) => Rejected(OldSide, e)
    case Success(o) =>
      match CheckSide(NewSide, parsedNew)
      case Failure(e) => Rejected(NewSide, e)
      case Success(n) => Completed(DiffOf(o, n), o, n)
  }

  /** The two `for…in` loops of `compareJsons`, pushing onto `added`, `changed` and `removed`. */
  method DiffDependencies(o: DepMap, n: DepMap) returns (diff: Diff)
    ensures diff == DiffOf(o, n)
  {
    var added: seq<Entry> := [];
    var removed: seq<Entry> := [];
    var changed: seq<Change> := [];

    // Added or changed dependencies.
    var i := 0;
    while i < |n|
      invariant 0 <= i <= |n|
      invariant added == Missing(n[..i], o)
      invariant changed == Changes(o, n[..i])
    {
      ScanNewStep(o, n, i);
      var key := n[i].key;
      if HasKey(o, key) {
        if Get(o, key) != n[i].version {
          changed := changed + [Change(key, Get(o, key), n[i].version)];
        }
      } else {
        added := added + [Entry(key, n[i].version)];
      }
      i := i + 1;
    }

    // Removed dependencies.
    var j := 0;
    while j < |o|
      invariant 0 <= j <= |o|
      invariant removed == Missing(o[..j], n)
    {
      ScanOldStep(o, n, j);
      if !HasKey(n, o[j].key) {
        removed := removed + [Entry(o[j].key, o[j].version)];
      }
      j := j + 1;
    }
    assert n[..|n|] == n && o[..|o|] == o;
    diff := Diff(added, removed, changed);
  }

  /** One turn of the loop over the new map. */
  lemma ScanNewStep(o: DepMap, n: DepMap, i: nat)
    requires i < |n|
    ensures Missing(n[..i + 1], o) ==
      if HasKey(o, n[i].key) then Missing(n[..i], o) else Missing(n[..i], o) + [n[i]]
    ensures Changes(o, n[..i + 1]) ==
      if HasKey(o, n[i].key) && Get(o, n[i].key) != n[i].version
      then Changes(o, n[..i]) + [Change(n[i].key, Get(o, n[i].key), n[i].version)]
      else Changes(o, n[..i])
  {
    assert n[..i + 1] == n[..i] + [n[i]];
    MissingStep(n[..i], n[i], o);
    ChangesStep(o, n[..i], n[i]);
    assert Missing(n[..i], o) + [] == Missing(n[..i], o);
    assert Changes(o, n[..i]) + [] == Changes(o, n[..i]);
  }

  /** One turn of the loop over the old map. */
  lemma ScanOldStep(o: DepMap, n: DepMap, j: nat)
    requires j < |o|
    ensures Missing(o[..j + 1], n) ==
      if HasKey(n, o[j].key) then Missing(o[..j], n) else Missing(o[..j], n) + [o[j]]
  {
    assert o[..j + 1] == o[..j] + [o[j]];
    MissingStep(o[..j], o[j], n);
    assert Missing(o[..j], n) + [] == Missing(o[..j], n);
  }

  class ComparatorComponent {
    var jsonOld: string
    var jsonNew: string
    var depsOld: Json
    var depsNew: Json

    constructor ()
      ensures jsonOld == "" && jsonNew == ""
      ensures depsOld == JObject([]) && depsNew == JObject([])
    {
      jsonOld, jsonNew := "", "";
      depsOld, depsNew := JObject([]), JObject([]);
    }

    /**
     * `compareJsons`, with `JSON.parse` as the parameter `parse` (a failure
     * carries the exception's message). A decoded value is stored in its field
     * before its shape is checked, as the source does.
     */
    method CompareJsons(parse: string -> Result<Json>) returns (outcome: Outcome)
      modifies this
      ensures jsonOld == old(jsonOld) && jsonNew == old(jsonNew)
      ensures outcome == CompareOutcome(parse(jsonOld), parse(jsonNew))
      ensures depsOld == if parse(jsonOld).Success? then parse(jsonOld).value else old(depsOld)
      ensures depsNew ==
        if CheckSide(OldSide, parse(jsonOld)).Success? && parse(jsonNew).Success?
        then parse(jsonNew).value else old(depsNew)
    {
      var parsedOld := parse(jsonOld);
      if parsedOld.Failure? {
        return Rejected(OldSide, ErrorPrefix(OldSide) + parsedOld.error);
      }
      depsOld := parsedOld.value;
      if !depsOld.JObject? {
        return Rejected(OldSide, ErrorPrefix(OldSide) + ShapeError(OldSide));
      }

      var parsedNew := parse(jsonNew);
      if parsedNew.Failure? {
        return Rejected(NewSide, ErrorPrefix(NewSide) + parsedNew.error);
      }
      depsNew := parsedNew.value;
      if !depsNew.JObject? {
        return Rejected(NewSide, ErrorPrefix(NewSide) + ShapeError(NewSide));
      }

      var o, n := depsOld.members, depsNew.members;
      var diff := DiffDependencies(o, n);
      outcome := Completed(diff, o, n);
    }

    /** `swapJsons`: exchanges the two input texts; applying it twice restores both. */
    method SwapJsons()
      modifies this
      ensures jsonOld == old(jsonNew) && jsonNew == old(jsonOld)
      ensures depsOld == old(depsOld) && depsNew == old(depsNew)
    {
      var temp := jsonOld;
      jsonOld := jsonNew;
      jsonNew := temp;
    }
  }

  // ---------------------------------------------------------------------
  // Properties of the outcome

  /** An input that is not a plain object is rejected, naming its side; old is checked first. */
  lemma RejectionNamesSide(parsedOld: Result<Json>, parsedNew: Result<Json>)
    ensures CompareOutcome(parsedOld, parsedNew).Completed? <==>
      parsedOld.Success? && parsedOld.value.JObject? && parsedNew.Success? && parsedNew.value.JObject?
    ensures !(parsedOld.Success? && parsedOld.value.JObject?) ==>
      CompareOutcome(parsedOld, parsedNew).Rejected? && CompareOutcome(parsedOld, parsedNew).side == OldSide
    ensures parsedOld.Success? && parsedOld.value.JObject? && !(parsedNew.Success? && parsedNew.value.JObject?) ==>
      CompareOutcome(parsedOld, parsedNew).Rejected? && CompareOutcome(parsedOld, parsedNew).side == NewSide
  {
  }

  /** When the old input fails, the new input does not matter. */
  lemma OldFailureIgnoresNew(parsedOld: Result<Json>, parsedNew: Result<Json>, otherNew: Result<Json>)
    requires CheckSide(OldSide, parsedOld).Failure?
    ensures CompareOutcome(parsedOld, parsedNew) == CompareOutcome(parsedOld, otherNew)
  {
  }

  /** `[1,2,3]`, `null` and `42` are rejected as the old input. */
  lemma ShapeExamples(parsedNew: Result<Json>)
    ensures CompareOutcome(Success(JArray([JNumber(1), JNumber(2), JNumber(3)])), parsedNew) ==
      Rejected(OldSide, ErrorPrefix(OldSide) + ShapeError(OldSide))
    ensures CompareOutcome(Success(JNull), parsedNew) == Rejected(OldSide, ErrorPrefix(OldSide) + ShapeError(OldSide))
    ensures CompareOutcome(Success(JNumber(42)), parsedNew) == Rejected(OldSide, ErrorPrefix(OldSide) + ShapeError(OldSide))
  {
  }

  /** The two sides' messages can always be told apart. */
  lemma ErrorPrefixesDiffer(side: Side, message: string)
    requires |ErrorPrefix(side)| <= |message| && message[..|ErrorPrefix(side)|] == ErrorPrefix(side)
    ensures var other := if side == OldSide then NewSide else OldSide;
      message[..|ErrorPrefix(other)|] != ErrorPrefix(other)
  {
    assert message[9] == ErrorPrefix(side)[9];
  }

  // ---------------------------------------------------------------------
  // Properties of the diff

  function ChangeKeys(cs: seq<Change>): set<string>
  {
    set i | 0 <= i < |cs| :: cs[i].key
  }

  lemma {:induction false} SubseqKeepsDistinctKeys(xs: seq<Entry>, ys: seq<Entry>)
    requires Subseq(xs, ys) && DistinctKeys(ys)
    ensures DistinctKeys(xs)
    decreases |ys|
  {
    if xs != [] {
      var xs', ys' := xs[..|xs| - 1], ys[..|ys| - 1];
      if xs[|xs| - 1] == ys[|ys| - 1] && Subseq(xs', ys') {
        SubseqKeepsDistinctKeys(xs', ys');
        SubseqMembers(xs', ys');
        forall i | 0 <= i < |xs'| ensures xs'[i].key != xs[|xs| - 1].key {
          assert xs'[i] in ys';
        }
      } else {
        SubseqKeepsDistinctKeys(xs, ys');
      }
    }
  }

  lemma KeySetMembers(m: seq<Entry>, k: string)
    ensures k in KeySet(m) <==> exists v :: Entry(k, v) in m
  {
    HasKeyIffMember(m, k);
  }

  /** `added` holds exactly the keys only the new map has. */
  lemma AddedKeys(depsOld: DepMap, depsNew: DepMap)
    ensures KeySet(DiffOf(depsOld, depsNew).added) == KeySet(depsNew) - KeySet(depsOld)
  {
    var added := DiffOf(depsOld, depsNew).added;
    MissingMembers(depsNew, depsOld);
    forall k ensures k in KeySet(added) <==> k in KeySet(depsNew) - KeySet(depsOld) {
      KeySetMembers(added, k);
      KeySetMembers(depsNew, k);
      HasKeyIffMember(depsOld, k);
    }
  }

  /** `removed` holds exactly the keys only the old map has. */
  lemma RemovedKeys(depsOld: DepMap, depsNew: DepMap)
    ensures KeySet(DiffOf(depsOld, depsNew).removed) == KeySet(depsOld) - KeySet(depsNew)
  {
    var removed := DiffOf(depsOld, depsNew).removed;
    MissingMembers(depsOld, depsNew);
    forall k ensures k in KeySet(removed) <==> k in KeySet(depsOld) - KeySet(depsNew) {
      KeySetMembers(removed, k);
      KeySetMembers(depsOld, k);
      HasKeyIffMember(depsNew, k);
    }
  }

  /** `changed` holds exactly the keys both maps hold under different strings. */
  lemma ChangedKeys(depsOld: DepMap, depsNew: DepMap)
    ensures forall k :: k in ChangeKeys(DiffOf(depsOld, depsNew).changed) <==>
      HasKey(depsOld, k) && HasKey(depsNew, k) && Get(depsOld, k) != Get(depsNew, k)
  {
    var changed := DiffOf(depsOld, depsNew).changed;
    ChangesMembers(depsOld, depsNew);
    forall k ensures k in ChangeKeys(changed) <==>
      HasKey(depsOld, k) && HasKey(depsNew, k) && Get(depsOld, k) != Get(depsNew, k)
    {
      if k in ChangeKeys(changed) {
        var i :| 0 <= i < |changed| && changed[i].key == k;
        var c := changed[i];
        assert c in changed;
        MemberIffGet(depsNew, k, c.newVersion);
      }
      if HasKey(depsOld, k) && HasKey(depsNew, k) && Get(depsOld, k) != Get(depsNew, k) {
        var c := Change(k, Get(depsOld, k), Get(depsNew, k));
        MemberIffGet(depsNew, k, c.newVersion);
        assert c in changed;
        var i :| 0 <= i < |changed| && changed[i] == c;
      }
    }
  }

  /** Each list names a key at most once. */
  lemma DiffDistinct(depsOld: DepMap, depsNew: DepMap)
    ensures DistinctKeys(DiffOf(depsOld, depsNew).added)
    ensures DistinctKeys(DiffOf(depsOld, depsNew).removed)
    ensures DistinctKeys(NewSides(DiffOf(depsOld, depsNew).changed))
  {
    var d := DiffOf(depsOld, depsNew);
    MissingInOrder(depsNew, depsOld);
    MissingInOrder(depsOld, depsNew);
    ChangesInOrder(depsOld, depsNew);
    SubseqKeepsDistinctKeys(d.added, depsNew);
    SubseqKeepsDistinctKeys(d.removed, depsOld);
    SubseqKeepsDistinctKeys(NewSides(d.changed), depsNew);
  }

  /**
   * The three lists partition the keys: no key is in two of them, and a key
   * of either map is in none exactly when both maps give it the same string.
   */
  lemma DiffPartition(depsOld: DepMap, depsNew: DepMap)
    ensures var d := DiffOf(depsOld, depsNew);
      && KeySet(d.added) !! KeySet(d.removed)
      && KeySet(d.added) !! ChangeKeys(d.changed)
      && KeySet(d.removed) !! ChangeKeys(d.changed)
    ensures var d := DiffOf(depsOld, depsNew);
      forall k :: k in KeySet(depsOld) + KeySet(depsNew) ==>
        (k !in KeySet(d.added) + KeySet(d.removed) + ChangeKeys(d.changed) <==>
         HasKey(depsOld, k) && HasKey(depsNew, k) && Get(depsOld, k) == Get(depsNew, k))
  {
    AddedKeys(depsOld, depsNew);
    RemovedKeys(depsOld, depsNew);
    ChangedKeys(depsOld, depsNew);
    var d := DiffOf(depsOld, depsNew);
    forall k ensures HasKey(depsOld, k) <==> k in KeySet(depsOld) {}
    forall k ensures HasKey(depsNew, k) <==> k in KeySet(depsNew) {}
  }

  /** A map compared with itself has no differences. */
  lemma SelfDiffIsEmpty(m: DepMap)
    ensures DiffOf(m, m) == Diff([], [], [])
  {
    forall e | e in m ensures HasKey(m, e.key) && Get(m, e.key) == e.version {
      MemberIffGet(m, e.key, e.version);
    }
    MissingNone(m, m);
    ChangesNone(m, m);
  }

  function Reversed(c: Change): Change
  {
    Change(c.key, c.newVersion, c.oldVersion)
  }

  /** Swapping the inputs exchanges added and removed and reverses every change. */
  lemma SwapDiff(depsOld: DepMap, depsNew: DepMap)
    ensures DiffOf(depsNew, depsOld).added == DiffOf(depsOld, depsNew).removed
    ensures DiffOf(depsNew, depsOld).removed == DiffOf(depsOld, depsNew).added
    ensures forall c :: c in DiffOf(depsNew, depsOld).changed <==> Reversed(c) in DiffOf(depsOld, depsNew).changed
  {
    ChangesMembers(depsOld, depsNew);
    ChangesMembers(depsNew, depsOld);
    forall c ensures c in DiffOf(depsNew, depsOld).changed <==> Reversed(c) in DiffOf(depsOld, depsNew).changed {
      MemberIffGet(depsOld, c.key, c.newVersion);
      MemberIffGet(depsNew, c.key, c.oldVersion);
    }
  }

  /**
   * Old `{a: v1, c: v3}` against new `{a: v2, e: v4}` with three different
   * keys and `v1 != v2`: `e` added, `c` removed, `a` changed.
   */
  lemma DiffExample(a: string, c: string, e: string, v1: string, v2: string, v3: string, v4: string)
    requires a != c && a != e && c != e && v1 != v2
    ensures DiffOf([Entry(a, v1), Entry(c, v3)], [Entry(a, v2), Entry(e, v4)]) ==
      Diff([Entry(e, v4)], [Entry(c, v3)], [Change(a, v1, v2)])
  {
    var o := [Entry(a, v1), Entry(c, v3)];
    var n := [Entry(a, v2), Entry(e, v4)];
    assert o == [] + [o[0]] + [o[1]] && n == [] + [n[0]] + [n[1]];
    assert HasKey(o, a) && !HasKey(o, e) && Get(o, a) == v1;
    assert HasKey(n, a) && !HasKey(n, c);
    MissingStep([], n[0], o);
    MissingStep([n[0]], n[1], o);
    MissingStep([], o[0], n);
    MissingStep([o[0]], o[1], n);
    ChangesStep(o, [], n[0]);
    ChangesStep(o, [n[0]], n[1]);
  }
}
