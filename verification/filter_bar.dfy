/**
  The filter bar's handlers (frontend/src/components/FilterBar.js): toggling
  a stage filter, clearing the filters, and the "select all" checkbox over
  the employees currently shown.
 */
module FilterBar {

  import opened Base
  import opened Seqs
  import opened EmployeeContext

  /** `handleStatusToggle`: the stage leaves the filter if it is in it and
      joins at the end otherwise; the search text is kept. */
  function ToggleStatus(f: Filters, status: string): (r: Filters)
    ensures r.search == f.search
    ensures status in r.statuses <==> status !in f.statuses
    ensures forall s :: s != status ==> (s in r.statuses <==> s in f.statuses)
    ensures status !in f.statuses ==> r.statuses == f.statuses + [status]
    ensures status in f.statuses ==> Subsequence(r.statuses, f.statuses) && |r.statuses| < |f.statuses|
  {
    f.(statuses := Toggle(f.statuses, status))
  }

  /** Choosing a stage and unchoosing it restores the filters. */
  lemma StatusToggleTwice(f: Filters, status: string)
    requires status !in f.statuses
    ensures ToggleStatus(ToggleStatus(f, status), status) == f
  {
    ToggleTwice(f.statuses, status);
  }

  /** `clearFilters`. */
  function ClearFilters(): (r: Filters)
    ensures |r.statuses| == 0 && r.search == ""
  {
    Filters([], "")
  }

  /** After clearing the filters every employee is shown, in order. */
  lemma ClearedFiltersShowAll(cache: seq<Entry>)
    ensures ApplyFilters(ClearFilters(), cache) == cache
  {
    NoFiltersShowAll(ClearFilters(), cache);
  }

  /** `allSelected`: something is shown and the selection is as long as
      what is shown. Only the lengths are compared. */
  predicate AllSelected(shown: seq<Entry>, selected: seq<Id>) {
    |shown| > 0 && |selected| == |shown|
  }

  /** `handleSelectAll`: when the selection is as long as the list shown it
      is cleared, otherwise it becomes the ids shown, in order. */
  function SelectAll(shown: seq<Entry>, selected: seq<Id>): (r: seq<Id>)
    ensures |selected| == |shown| ==> r == []
    ensures |selected| != |shown| ==> r == Ids(shown) && forall c :: c in shown ==> c.employee.id in r
  {
    if |selected| == |shown| then []
    else
      MapMembers(EntryId, shown);
      Ids(shown)
  }

  /** Clicking "select all" when not everything counts as selected selects
      everything shown, and clicking again clears the selection. */
  lemma SelectAllThenClear(shown: seq<Entry>, selected: seq<Id>)
    requires |shown| > 0 && !AllSelected(shown, selected)
    ensures AllSelected(shown, SelectAll(shown, selected))
    ensures SelectAll(shown, SelectAll(shown, selected)) == []
  {
  }

  /** Comparing lengths only: one employee shown, one other employee
      selected. The checkbox shows everything selected though the employee
      shown is not, and clicking it clears the selection instead of
      selecting that employee. */
  lemma LengthOnlySelectAll(shown: seq<Entry>, selected: seq<Id>)
    requires |shown| == 1 && selected == [shown[0].employee.id + 1]
    ensures AllSelected(shown, selected)
    ensures shown[0].employee.id !in selected
    ensures SelectAll(shown, selected) == []
  {
  }

  /** The checkbox as evidently intended: something is shown and every
      employee shown is selected. */
  predicate AllShownSelected(shown: seq<Entry>, selected: seq<Id>) {
    |shown| > 0 && forall c :: c in shown ==> c.employee.id in selected
  }

  /** "Select all" as evidently intended: clear the selection when every
      employee shown is selected, otherwise select what is shown. */
  function SelectAllShown(shown: seq<Entry>, selected: seq<Id>): (r: seq<Id>)
    ensures AllShownSelected(shown, selected) ==> r == []
    ensures !AllShownSelected(shown, selected) ==> forall c :: c in shown ==> c.employee.id in r
  {
    if AllShownSelected(shown, selected) then []
    else
      MapMembers(EntryId, shown);
      Ids(shown)
  }

  /** The intended checkbox is checked after an intended "select all"
      click whenever that click selects, and the intended click never
      clears a selection that misses a shown employee. */
  lemma SelectAllShownSelectsShown(shown: seq<Entry>, selected: seq<Id>)
    requires |shown| > 0
    ensures !AllShownSelected(shown, selected) ==> AllShownSelected(shown, SelectAllShown(shown, selected))
    ensures (exists c :: c in shown && c.employee.id !in selected) ==> SelectAllShown(shown, selected) != []
  {
    if exists c :: c in shown && c.employee.id !in selected {
      var c :| c in shown && c.employee.id !in selected;
      assert c.employee.id in SelectAllShown(shown, selected);
    }
  }

  /** With no duplicate ids on either side the two checkboxes agree when
      the selection holds only employees shown. */
  lemma CheckboxesAgreeOnShownSelections(shown: seq<Entry>, selected: seq<Id>)
    requires Distinct(Ids(shown)) && Distinct(selected)
    requires forall k :: k in selected ==> k in Ids(shown)
    ensures AllSelected(shown, selected) <==> AllShownSelected(shown, selected)
  {
    MapMembers(EntryId, shown);
    var ids := set k | k in Ids(shown);
    var chosen := set k | k in selected;
    DistinctCard(Ids(shown));
    DistinctCard(selected);
    assert chosen <= ids;
    if AllShownSelected(shown, selected) {
      assert ids <= chosen;
      assert chosen == ids;
      assert |selected| == |chosen| == |ids| == |Ids(shown)|;
    }
    if AllSelected(shown, selected) {
      SubsetSameSize(chosen, ids);
      forall c | c in shown
        ensures c.employee.id in selected
      {
        assert c.employee.id in ids;
      }
    }
  }

  /** A sequence without duplicates has as many values as elements. */
  lemma {:induction false} DistinctCard<T>(s: seq<T>)
    requires Distinct(s)
    ensures |set x | x in s| == |s|
    decreases |s|
  {
    if |s| > 0 {
      var t := s[1..];
      assert Distinct(t) by {
        forall i, j | 0 <= i < j < |t|
          ensures t[i] != t[j]
        {
          assert t[i] == s[i + 1] && t[j] == s[j + 1];
        }
      }
      DistinctCard(t);
      assert s[0] !in t by {
        forall j | 0 <= j < |t|
          ensures t[j] != s[0]
        {
          assert t[j] == s[j + 1];
        }
      }
      assert (set x | x in s) == (set x | x in t) + {s[0]};
    }
  }

  /** A subset as large as a finite set is the set. */
  lemma SubsetSameSize<T>(a: set<T>, b: set<T>)
    requires a <= b && |a| == |b|
    ensures b <= a
  {
    if !(b <= a) {
      var x :| x in b && x !in a;
      SubsetCard(a, b - {x});
    }
  }

  /** A subset is no larger than the set. */
  lemma {:induction false} SubsetCard<T>(a: set<T>, b: set<T>)
    requires a <= b
    ensures |a| <= |b|
    decreases a
  {
    if a != {} {
      var y :| y in a;
      SubsetCard(a - {y}, b - {y});
    }
  }
}
