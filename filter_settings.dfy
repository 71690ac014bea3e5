/**
 * The filter panel (js/components/filter.js): seven switches that decide
 * which parts of a comparison are shown, and three presets that set six of
 * them at once.
 */
module FilterSettings {

  /** The `filters` record of the filter component. */
  datatype Filters = Filters(
    showAdded: bool,
    showChanged: bool,
    showRemoved: bool,
    showOnlyExisting: bool,
    showUp: bool,
    showDown: bool,
    showEqual: bool)

  /** Every kind of entry shown, no restriction to existing dependencies. */
  const Initial := Filters(true, true, true, false, true, true, true)

  /** The six `show*` switches with their target values, `showOnlyExisting` left as `f` has it. */
  function WithShows(f: Filters, entries: bool, equal: bool): (r: Filters)
    ensures r.showOnlyExisting == f.showOnlyExisting
    ensures r.showAdded == r.showChanged == r.showRemoved == r.showUp == r.showDown == entries
    ensures r.showEqual == equal
  {
    f.(showAdded := entries, showChanged := entries, showRemoved := entries,
       showUp := entries, showDown := entries, showEqual := equal)
  }

  /** The state `selectAllFilters` leaves. */
  function SelectAll(f: Filters): Filters
  {
    WithShows(f, true, true)
  }

  /** The state `deselectAllFilters` leaves. */
  function DeselectAll(f: Filters): Filters
  {
    WithShows(f, false, false)
  }

  /** The state `selectOnlyChanges` leaves. */
  function OnlyChanges(f: Filters): Filters
  {
    WithShows(f, true, false)
  }

  class FilterComponent {
    var filters: Filters

    constructor ()
      ensures filters == Initial
    {
      filters := Initial;
    }

    method SelectAllFilters()
      modifies this
      ensures filters == SelectAll(old(filters))
    {
      filters := filters.(showAdded := true);
      filters := filters.(showChanged := true);
      filters := filters.(showRemoved := true);
      filters := filters.(showUp := true);
      filters := filters.(showDown := true);
      filters := filters.(showEqual := true);
    }

    method DeselectAllFilters()
      modifies this
      ensures filters == DeselectAll(old(filters))
    {
      filters := filters.(showAdded := false);
      filters := filters.(showChanged := false);
      filters := filters.(showRemoved := false);
      filters := filters.(showUp := false);
      filters := filters.(showDown := false);
      filters := filters.(showEqual := false);
    }

    method SelectOnlyChanges()
      modifies this
      ensures filters == OnlyChanges(old(filters))
    {
      filters := filters.(showAdded := true);
      filters := filters.(showChanged := true);
      filters := filters.(showRemoved := true);
      filters := filters.(showUp := true);
      filters := filters.(showDown := true);
      filters := filters.(showEqual := false);
    }
  }

  // ---------------------------------------------------------------------
  // Properties of the presets

  /** Applying a preset a second time changes nothing. */
  lemma PresetsIdempotent(f: Filters)
    ensures SelectAll(SelectAll(f)) == SelectAll(f)
    ensures DeselectAll(DeselectAll(f)) == DeselectAll(f)
    ensures OnlyChanges(OnlyChanges(f)) == OnlyChanges(f)
  {
  }

  /** A preset's result depends on the prior state only through `showOnlyExisting`. */
  lemma PresetsForgetShows(f: Filters, g: Filters)
    ensures f.showOnlyExisting == g.showOnlyExisting <==> SelectAll(f) == SelectAll(g)
    ensures f.showOnlyExisting == g.showOnlyExisting <==> DeselectAll(f) == DeselectAll(g)
    ensures f.showOnlyExisting == g.showOnlyExisting <==> OnlyChanges(f) == OnlyChanges(g)
  {
  }

  /** The last preset applied decides the six `show*` switches, whatever came before. */
  lemma LastPresetWins(f: Filters)
    ensures SelectAll(DeselectAll(f)) == SelectAll(f) && SelectAll(OnlyChanges(f)) == SelectAll(f)
    ensures DeselectAll(SelectAll(f)) == DeselectAll(f) && DeselectAll(OnlyChanges(f)) == DeselectAll(f)
    ensures OnlyChanges(SelectAll(f)) == OnlyChanges(f) && OnlyChanges(DeselectAll(f)) == OnlyChanges(f)
  {
  }

  /** "Select all" from the initial panel is the initial panel. */
  lemma SelectAllOfInitial()
    ensures SelectAll(Initial) == Initial
    ensures OnlyChanges(Initial) == Initial.(showEqual := false)
  {
  }
}
