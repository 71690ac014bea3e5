/**
 * The results panel (js/components/comparison-results.js): the diff of the
 * comparator seen through the switches of the filter panel, whether anything
 * is left to show, and the labels of the switches that restrict the view.
 */
module ComparisonResults {
  import opened Seqs
  import opened DepMaps
  import opened VersionUtils
  import opened Comparator
  import opened FilterSettings

  /** Whether `showOnlyExisting` lets an entry under `key` through: `depsOld.hasOwnProperty(key)`. */
  predicate PassesExisting(f: Filters, depsOld: seq<Entry>, key: string)
  {
    !f.showOnlyExisting || HasKey(depsOld, key)
  }

  /** The direction switch for a verdict of `compareVersions`. */
  predicate ShowsVerdict(f: Filters, v: Verdict)
  {
    match v
    case Up => f.showUp
    case Down => f.showDown
    case Equal => f.showEqual
  }

  /**
   * `filteredResults`: the `showOnlyExisting` filter on all three lists, the
   * direction filter on `changed`, then the three master switches.
   */
  function FilteredResults(results: Diff, depsOld: seq<Entry>, f: Filters): (r: Diff)
    ensures forall e :: e in r.added <==>
      f.showAdded && e in results.added && PassesExisting(f, depsOld, e.key)
    ensures forall e :: e in r.removed <==>
      f.showRemoved && e in results.removed && PassesExisting(f, depsOld, e.key)
    ensures forall c :: c in r.changed <==>
      f.showChanged && c in results.changed && PassesExisting(f, depsOld, c.key) &&
      ShowsVerdict(f, Compare(c.oldVersion, c.newVersion))
  {
    var existing := (e: Entry) => HasKey(depsOld, e.key);
    var existingChange := (c: Change) => HasKey(depsOld, c.key);
    var added := if f.showOnlyExisting then Filter(existing, results.added) else results.added;
    var changed := if f.showOnlyExisting then Filter(existingChange, results.changed) else results.changed;
    var removed := if f.showOnlyExisting then Filter(existing, results.removed) else results.removed;
    var shown := Filter((c: Change) => ShowsVerdict(f, Compare(c.oldVersion, c.newVersion)), changed);
    Diff(if f.showAdded then added else [],
         if f.showRemoved then removed else [],
         if f.showChanged then shown else [])
  }

  /** `hasVisibleChanges`: some entry of the diff passes every switch that applies to it. */
  function HasVisibleChanges(results: Diff, depsOld: seq<Entry>, f: Filters): (b: bool)
    ensures b <==>
      (f.showAdded && exists e :: e in results.added && PassesExisting(f, depsOld, e.key)) ||
      (f.showRemoved && exists e :: e in results.removed && PassesExisting(f, depsOld, e.key)) ||
      (f.showChanged && exists c :: (c in results.changed && PassesExisting(f, depsOld, c.key) &&
                                     ShowsVerdict(f, Compare(c.oldVersion, c.newVersion))))
  {
    var r := FilteredResults(results, depsOld, f);
    assert r.added != [] ==> r.added[0] in r.added;
    assert r.removed != [] ==> r.removed[0] in r.removed;
    assert r.changed != [] ==> r.changed[0] in r.changed;
    |r.added| > 0 || |r.removed| > 0 || |r.changed| > 0
  }

  // ---------------------------------------------------------------------
  // Properties of the filtered view

  /** Each filtered list keeps the order of the list it came from. */
  lemma FilteredInOrder(results: Diff, depsOld: seq<Entry>, f: Filters)
    ensures Subseq(FilteredResults(results, depsOld, f).added, results.added)
    ensures Subseq(FilteredResults(results, depsOld, f).removed, results.removed)
    ensures Subseq(FilteredResults(results, depsOld, f).changed, results.changed)
  {
    var existing := (e: Entry) => HasKey(depsOld, e.key);
    var existingChange := (c: Change) => HasKey(depsOld, c.key);
    var directed := (c: Change) => ShowsVerdict(f, Compare(c.oldVersion, c.newVersion));
    SubseqEmpty(results.added);
    SubseqEmpty(results.removed);
    SubseqEmpty(results.changed);
    if f.showOnlyExisting {
      FilterInOrder(existing, results.added);
      FilterInOrder(existing, results.removed);
      FilterInOrder(existingChange, results.changed);
      FilterInOrder(directed, Filter(existingChange, results.changed));
      SubseqTrans(Filter(directed, Filter(existingChange, results.changed)),
                  Filter(existingChange, results.changed), results.changed);
    } else {
      SubseqRefl(results.added);
      SubseqRefl(results.removed);
      FilterInOrder(directed, results.changed);
    }
  }

  /** With every `show*` switch on and `showOnlyExisting` off, the view is the whole diff. */
  lemma WidestFiltersShowAll(results: Diff, depsOld: seq<Entry>, f: Filters)
    requires f.showAdded && f.showChanged && f.showRemoved && f.showUp && f.showDown && f.showEqual
    requires !f.showOnlyExisting
    ensures FilteredResults(results, depsOld, f) == results
  {
    FilterKeepsAll((c: Change) => ShowsVerdict(f, Compare(c.oldVersion, c.newVersion)), results.changed);
  }

  /** The initial panel shows the whole diff. */
  lemma InitialShowsAll(results: Diff, depsOld: seq<Entry>)
    ensures FilteredResults(results, depsOld, Initial) == results
    ensures HasVisibleChanges(results, depsOld, Initial) <==> results != Diff([], [], [])
  {
    WidestFiltersShowAll(results, depsOld, Initial);
  }

  /** Restricted to existing dependencies, the view of a comparison lists no additions. */
  lemma OnlyExistingHidesAdded(depsOld: DepMap, depsNew: DepMap, f: Filters)
    requires f.showOnlyExisting
    ensures FilteredResults(DiffOf(depsOld, depsNew), depsOld, f).added == []
  {
    var added := DiffOf(depsOld, depsNew).added;
    MissingMembers(depsNew, depsOld);
    FilterKeepsNone((e: Entry) => HasKey(depsOld, e.key), added);
  }

  /** A master switch turned off empties its list, whatever the other switches say. */
  lemma MasterSwitchesEmpty(results: Diff, depsOld: seq<Entry>, f: Filters)
    ensures !f.showAdded ==> FilteredResults(results, depsOld, f).added == []
    ensures !f.showRemoved ==> FilteredResults(results, depsOld, f).removed == []
    ensures !f.showChanged ==> FilteredResults(results, depsOld, f).changed == []
  {
  }

  /** The direction switches never touch the added and removed lists. */
  lemma DirectionsIgnoreAddedRemoved(results: Diff, depsOld: seq<Entry>, f: Filters, g: Filters)
    requires f.showAdded == g.showAdded && f.showRemoved == g.showRemoved
    requires f.showOnlyExisting == g.showOnlyExisting
    ensures FilteredResults(results, depsOld, f).added == FilteredResults(results, depsOld, g).added
    ensures FilteredResults(results, depsOld, f).removed == FilteredResults(results, depsOld, g).removed
  {
  }

  /** After "deselect all" nothing is visible. */
  lemma DeselectAllHidesEverything(results: Diff, depsOld: seq<Entry>, f: Filters)
    ensures FilteredResults(results, depsOld, DeselectAll(f)) == Diff([], [], [])
    ensures !HasVisibleChanges(results, depsOld, DeselectAll(f))
  {
  }

  /** After "only changes" every shown change moves its version up or down. */
  lemma OnlyChangesHidesEqual(results: Diff, depsOld: seq<Entry>, f: Filters)
    ensures forall c :: c in FilteredResults(results, depsOld, OnlyChanges(f)).changed ==>
      c in results.changed && Compare(c.oldVersion, c.newVersion) != Equal
    ensures forall c ::
      (c in results.changed && Compare(c.oldVersion, c.newVersion) != Equal && PassesExisting(f, depsOld, c.key)) ==>
      c in FilteredResults(results, depsOld, OnlyChanges(f)).changed
  {
  }

  // ---------------------------------------------------------------------
  // activeFilters

  /** Every label `activeFilters` can emit, in the order it emits them. */
  const AllLabels: seq<string> :=
    ["Only Existing", "No Additions", "No Modifications", "No Removals", "No Up", "No Down", "No Equal"]

  /** Which switches are away from the initial panel, in the order of `AllLabels`. */
  function Restrictions(f: Filters): (r: seq<bool>)
    ensures |r| == |AllLabels|
  {
    [f.showOnlyExisting, !f.showAdded, !f.showChanged, !f.showRemoved, !f.showUp, !f.showDown, !f.showEqual]
  }

  /** One possible `push` of `activeFilters`: the name when its flag is set. */
  function Pick(flag: bool, name: string): seq<string>
  {
    if flag then [name] else []
  }

  /** The names among the first `k` whose flag is set, in order. */
  function PickedFirst(flags: seq<bool>, names: seq<string>, k: nat): seq<string>
    requires |flags| == |names| && k <= |flags|
  {
    if k == 0 then [] else PickedFirst(flags, names, k - 1) + Pick(flags[k - 1], names[k - 1])
  }

  lemma {:induction false} PickedInOrder(flags: seq<bool>, names: seq<string>, k: nat)
    requires |flags| == |names| && k <= |flags|
    ensures Subseq(PickedFirst(flags, names, k), names[..k])
  {
    if k == 0 {
      SubseqEmpty(names[..0]);
    } else {
      PickedInOrder(flags, names, k - 1);
      SubseqExtend(PickedFirst(flags, names, k - 1), names[..k - 1], names[k - 1], flags[k - 1]);
      assert names[..k - 1] + [names[k - 1]] == names[..k];
    }
  }

  /** With distinct names, a name is picked exactly when its flag is set. */
  lemma {:induction false} PickedMembers(flags: seq<bool>, names: seq<string>, k: nat)
    requires |flags| == |names| && k <= |flags|
    requires forall i, j :: 0 <= i < j < |names| ==> names[i] != names[j]
    ensures forall i :: 0 <= i < k ==> (names[i] in PickedFirst(flags, names, k) <==> flags[i])
  {
    if k > 0 {
      var front := PickedFirst(flags, names, k - 1);
      PickedMembers(flags, names, k - 1);
      PickedInOrder(flags, names, k - 1);
      SubseqMembers(front, names[..k - 1]);
      assert names[k - 1] !in front by {
        assert names[k - 1] !in names[..k - 1];
      }
      forall i | 0 <= i < k ensures names[i] in PickedFirst(flags, names, k) <==> flags[i] {
        if i < k - 1 {
          assert names[i] != names[k - 1];
        }
      }
    }
  }

  /** Nothing is picked exactly when no flag is set. */
  lemma {:induction false} PickedNone(flags: seq<bool>, names: seq<string>, k: nat)
    requires |flags| == |names| && k <= |flags|
    ensures PickedFirst(flags, names, k) == [] <==> forall i :: 0 <= i < k ==> !flags[i]
  {
    if k > 0 {
      PickedNone(flags, names, k - 1);
    }
  }

  /** The seven labels are different strings. */
  lemma AllLabelsDistinct()
    ensures forall i, j :: 0 <= i < j < |AllLabels| ==> AllLabels[i] != AllLabels[j]
  {
  }

  /** Every switch is restrictive only away from the initial panel. */
  lemma NoRestrictionIsInitial(f: Filters)
    ensures (forall i :: 0 <= i < |AllLabels| ==> !Restrictions(f)[i]) <==> f == Initial
  {
    var r := Restrictions(f);
    assert r[0] == f.showOnlyExisting && r[1] == !f.showAdded && r[2] == !f.showChanged;
    assert r[3] == !f.showRemoved && r[4] == !f.showUp && r[5] == !f.showDown && r[6] == !f.showEqual;
  }

  /**
   * One conditional `push` of `activeFilters`: after the `k`-th switch the
   * labels are those picked from the first `k + 1` switches.
   */
  lemma PushedLabel(f: Filters, k: nat, before: seq<string>, after: seq<string>)
    requires k < |AllLabels|
    requires before == PickedFirst(Restrictions(f), AllLabels, k)
    requires after == if Restrictions(f)[k] then before + [AllLabels[k]] else before
    ensures after == PickedFirst(Restrictions(f), AllLabels, k + 1)
  {
  }

  /** The labels come in order, one per restrictive switch, and none exactly on the initial panel. */
  lemma ActiveLabelsMeaning(f: Filters, labels: seq<string>)
    requires labels == PickedFirst(Restrictions(f), AllLabels, |AllLabels|)
    ensures Subseq(labels, AllLabels)
    ensures forall i :: 0 <= i < |AllLabels| ==> (AllLabels[i] in labels <==> Restrictions(f)[i])
    ensures labels == [] <==> f == Initial
  {
    PickedInOrder(Restrictions(f), AllLabels, |AllLabels|);
    assert AllLabels[..|AllLabels|] == AllLabels;
    AllLabelsDistinct();
    PickedMembers(Restrictions(f), AllLabels, |AllLabels|);
    PickedNone(Restrictions(f), AllLabels, |AllLabels|);
    NoRestrictionIsInitial(f);
  }

  /**
   * `activeFilters`: one label pushed per restrictive switch. The labels come
   * in the fixed order of `AllLabels`, a label is present exactly when its
   * switch restricts the view, and there are none exactly on the initial panel.
   */
  method ActiveFilters(f: Filters) returns (labels: seq<string>)
    ensures Subseq(labels, AllLabels)
    ensures forall i :: 0 <= i < |AllLabels| ==> (AllLabels[i] in labels <==> Restrictions(f)[i])
    ensures labels == [] <==> f == Initial
  {
    labels := [];
    ghost var pushed := labels;
    if f.showOnlyExisting { labels := labels + ["Only Existing"]; }
    PushedLabel(f, 0, pushed, labels);
    pushed := labels;
    if !f.showAdded { labels := labels + ["No Additions"]; }
    PushedLabel(f, 1, pushed, labels);
    pushed := labels;
    if !f.showChanged { labels := labels + ["No Modifications"]; }
    PushedLabel(f, 2, pushed, labels);
    pushed := labels;
    if !f.showRemoved { labels := labels + ["No Removals"]; }
    PushedLabel(f, 3, pushed, labels);
    pushed := labels;
    if !f.showUp { labels := labels + ["No Up"]; }
    PushedLabel(f, 4, pushed, labels);
    pushed := labels;
    if !f.showDown { labels := labels + ["No Down"]; }
    PushedLabel(f, 5, pushed, labels);
    pushed := labels;
    if !f.showEqual { labels := labels + ["No Equal"]; }
    PushedLabel(f, 6, pushed, labels);
    ActiveLabelsMeaning(f, labels);
  }
}
