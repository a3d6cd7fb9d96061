/**
 * The budget editor's per-category limits (components/Budget.tsx): setting
 * a limit replaces the category's entry, or removes it when the input is
 * not a positive number, and the form reads a category's limit back.
 */
module Budget {
  import opened Types
  import opened Lists

  function OtherCategory(category: string): BudgetLimit -> bool
  {
    (l: BudgetLimit) => l.category != category
  }

  function OfCategory(category: string): BudgetLimit -> bool
  {
    (l: BudgetLimit) => l.category == category
  }

  /** `parseFloat(value) || 0`: an unparsable input (NaN) counts as zero. */
  function NumValue(parsed: Option<real>): real
  {
    if parsed.Some? then parsed.value else 0.0
  }

  /** The limits after editing one category, as handleLimitChange builds them. */
  function LimitsAfterChange(limits: seq<BudgetLimit>, category: string, parsed: Option<real>): seq<BudgetLimit>
  {
    var numValue := NumValue(parsed);
    Filter(limits, OtherCategory(category))
      + (if numValue > 0.0 then [BudgetLimit(category, numValue)] else [])
  }

  /** No two limits are for the same category. */
  predicate CategoriesUnique(limits: seq<BudgetLimit>)
  {
    forall i, j :: 0 <= i < j < |limits| ==> limits[i].category != limits[j].category
  }

  /**
   * getLimit: the limit of the first entry for the category; `None` (the
   * empty string in the form) when there is none or that limit is zero.
   */
  function GetLimit(limits: seq<BudgetLimit>, category: string): (r: Option<real>)
    ensures r.Some? ==> r.value != 0.0
    ensures r.Some? ==> exists i :: 0 <= i < |limits| && limits[i] == BudgetLimit(category, r.value)
    ensures (forall i :: 0 <= i < |limits| ==> limits[i].category != category) ==> r == None
    ensures forall i :: 0 <= i < |limits| && limits[i].category == category
                        && (forall j :: 0 <= j < i ==> limits[j].category != category)
                        ==> r == (if limits[i].limit == 0.0 then None else Some(limits[i].limit))
  {
    if limits == [] then None
    else if limits[0].category == category then
      (if limits[0].limit == 0.0 then None else Some(limits[0].limit))
    else
      var r := GetLimit(limits[1..], category);
      assert r.Some? ==> exists i :: 0 <= i < |limits| && limits[i] == BudgetLimit(category, r.value) by {
        if r.Some? {
          var i :| 0 <= i < |limits[1..]| && limits[1..][i] == BudgetLimit(category, r.value);
          assert limits[i + 1] == limits[1..][i];
        }
      }
      assert forall i :: 0 <= i < |limits| && limits[i].category == category
                         && (forall j :: 0 <= j < i ==> limits[j].category != category)
                         ==> r == (if limits[i].limit == 0.0 then None else Some(limits[i].limit)) by {
        forall i | 0 <= i < |limits| && limits[i].category == category
                   && (forall j :: 0 <= j < i ==> limits[j].category != category)
          ensures r == (if limits[i].limit == 0.0 then None else Some(limits[i].limit))
        {
          assert i != 0;
          assert limits[1..][i - 1] == limits[i];
          forall j | 0 <= j < i - 1 ensures limits[1..][j].category != category {
            assert limits[1..][j] == limits[j + 1];
          }
        }
      }
      r
  }

  /**
   * Editing a category removes all its earlier entries, keeps every other
   * entry in order, and leaves the category exactly one entry holding the
   * new value when that is positive, and none otherwise.
   */
  lemma ChangeEffect(limits: seq<BudgetLimit>, category: string, parsed: Option<real>)
    ensures var after := LimitsAfterChange(limits, category, parsed);
            Filter(after, OtherCategory(category)) == Filter(limits, OtherCategory(category))
            && Filter(after, OfCategory(category))
               == (if NumValue(parsed) > 0.0 then [BudgetLimit(category, NumValue(parsed))] else [])
  {
    var kept := Filter(limits, OtherCategory(category));
    var added := if NumValue(parsed) > 0.0 then [BudgetLimit(category, NumValue(parsed))] else [];
    FilterAppend(kept, added, OtherCategory(category));
    FilterAppend(kept, added, OfCategory(category));
    FilterIdempotent(limits, OtherCategory(category));
    FilterNone(kept, OfCategory(category));
    if added != [] {
      FilterSingle(added[0], OtherCategory(category));
      FilterSingle(added[0], OfCategory(category));
    }
    assert kept + [] == kept;
  }

  /** Editing keeps the categories of the limits unique. */
  lemma ChangeKeepsUnique(limits: seq<BudgetLimit>, category: string, parsed: Option<real>)
    requires CategoriesUnique(limits)
    ensures CategoriesUnique(LimitsAfterChange(limits, category, parsed))
  {
    var kept := Filter(limits, OtherCategory(category));
    FilterUniquePreserved(limits, category);
    forall i | 0 <= i < |kept| ensures kept[i].category != category {
      assert OtherCategory(category)(kept[i]);
    }
  }

  /** A filtered list of unique categories has unique categories. */
  lemma {:induction false} FilterUniquePreserved(limits: seq<BudgetLimit>, category: string)
    requires CategoriesUnique(limits)
    ensures CategoriesUnique(Filter(limits, OtherCategory(category)))
  {
    if limits != [] {
      var rest := Filter(limits[1..], OtherCategory(category));
      FilterUniquePreserved(limits[1..], category);
      forall j | 0 <= j < |rest| ensures rest[j].category != limits[0].category {
        FilterMember(limits[1..], OtherCategory(category), rest[j]);
      }
    }
  }

  /** Reading a category back after editing it gives the new positive value, or nothing. */
  lemma ChangeThenGet(limits: seq<BudgetLimit>, category: string, parsed: Option<real>)
    ensures GetLimit(LimitsAfterChange(limits, category, parsed), category)
         == if NumValue(parsed) > 0.0 then Some(NumValue(parsed)) else None
  {
    var kept := Filter(limits, OtherCategory(category));
    var added := if NumValue(parsed) > 0.0 then [BudgetLimit(category, NumValue(parsed))] else [];
    forall i | 0 <= i < |kept| ensures kept[i].category != category {
      assert OtherCategory(category)(kept[i]);
    }
    GetLimitSkips(kept, added, category);
  }

  /** Entries for other categories in front do not change what is read back. */
  lemma {:induction false} GetLimitSkips(front: seq<BudgetLimit>, back: seq<BudgetLimit>, category: string)
    requires forall i :: 0 <= i < |front| ==> front[i].category != category
    ensures GetLimit(front + back, category) == GetLimit(back, category)
  {
    if front != [] {
      assert (front + back)[1..] == front[1..] + back;
      GetLimitSkips(front[1..], back, category);
    } else {
      assert front + back == back;
    }
  }

  /** The budget editor's working copy of the limits. */
  class BudgetEditor {
    var localLimits: seq<BudgetLimit>

    constructor (categoryLimits: seq<BudgetLimit>)
      ensures localLimits == categoryLimits
    {
      localLimits := categoryLimits;
    }

    /**
     * handleLimitChange: drop the category's entries, then push the new
     * limit when it is positive. `parsed` is parseFloat of the input,
     * `None` for NaN.
     */
    method HandleLimitChange(category: string, parsed: Option<real>)
      modifies this
      ensures localLimits == LimitsAfterChange(old(localLimits), category, parsed)
    {
      var numValue := NumValue(parsed);
      var newLimits := Filter(localLimits, OtherCategory(category));
      if numValue > 0.0 {
        newLimits := newLimits + [BudgetLimit(category, numValue)];
      }
      localLimits := newLimits;
    }
  }
}
