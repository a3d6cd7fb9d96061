/**
 * The category list editor of the settings view (components/Settings.tsx).
 * A handler that returns `None` leaves the list as it is; `Some(list)` is
 * the list handed to the parent.
 */
module Settings {
  import opened Types
  import opened Lists
  import opened Text

  /** No category is listed twice. */
  predicate NoDuplicates(categories: seq<string>)
  {
    forall i, j :: 0 <= i < j < |categories| ==> categories[i] != categories[j]
  }

  /** handleAddCategory: the trimmed name is appended unless it is blank or already listed. */
  function AddCategory(categories: seq<string>, newCategory: string): seq<string>
  {
    var name := Trim(newCategory);
    if name == "" || name in categories then categories else categories + [name]
  }

  /**
   * A blank or already listed name leaves the list unchanged; any other
   * name is appended, trimmed, after the unchanged earlier entries.
   */
  lemma AddCategoryEffect(categories: seq<string>, newCategory: string)
    ensures var name := Trim(newCategory);
            var r := AddCategory(categories, newCategory);
            (name == "" || name in categories ==> r == categories)
            && (name != "" && name !in categories ==>
                  |r| == |categories| + 1 && r[..|categories|] == categories && r[|categories|] == name
                  && !IsWhitespace(name[0]) && !IsWhitespace(name[|name| - 1]))
  {
    var r := AddCategory(categories, newCategory);
    if Trim(newCategory) != "" && Trim(newCategory) !in categories {
      assert r[..|categories|] == categories;
    }
  }

  /** A whitespace-only name adds nothing. */
  lemma AddBlank(categories: seq<string>, newCategory: string)
    requires forall k :: 0 <= k < |newCategory| ==> IsWhitespace(newCategory[k])
    ensures AddCategory(categories, newCategory) == categories
  {
    TrimBlank(newCategory);
  }

  /** Adding keeps the list free of duplicates. */
  lemma AddKeepsNoDuplicates(categories: seq<string>, newCategory: string)
    requires NoDuplicates(categories)
    ensures NoDuplicates(AddCategory(categories, newCategory))
  {
  }

  /** Adding the same name again changes nothing. */
  lemma AddIdempotent(categories: seq<string>, newCategory: string)
    ensures AddCategory(AddCategory(categories, newCategory), newCategory) == AddCategory(categories, newCategory)
  {
  }

  function NotName(cat: string): string -> bool
  {
    c => c != cat
  }

  /** handleDeleteCategory: once confirmed, every occurrence of the name goes. */
  function DeleteCategory(categories: seq<string>, cat: string, confirmed: bool): Option<seq<string>>
  {
    if confirmed then Some(Filter(categories, NotName(cat))) else None
  }

  /**
   * A confirmed delete keeps exactly the other names, each as often as
   * before; an unconfirmed one hands nothing over.
   */
  lemma DeleteCategoryEffect(categories: seq<string>, cat: string, confirmed: bool, c: string)
    ensures !confirmed ==> DeleteCategory(categories, cat, confirmed) == None
    ensures confirmed ==>
              var r := DeleteCategory(categories, cat, confirmed).value;
              cat !in r
              && multiset(r)[c] == (if c == cat then 0 else multiset(categories)[c])
  {
    if confirmed {
      FilterMember(categories, NotName(cat), cat);
      FilterCount(categories, NotName(cat), c);
    }
  }

  /**
   * A confirmed delete works piece by piece: deleting from a joined list
   * joins what is left of each part, so the kept names stay in order.
   */
  lemma DeleteDistributes(front: seq<string>, back: seq<string>, cat: string)
    ensures DeleteCategory(front + back, cat, true).value
         == DeleteCategory(front, cat, true).value + DeleteCategory(back, cat, true).value
  {
    FilterAppend(front, back, NotName(cat));
  }

  /**
   * In a list holding the name once, a confirmed delete removes just that
   * entry and leaves the names before and after it in their order.
   */
  lemma DeleteKeepsOrder(before: seq<string>, cat: string, after: seq<string>)
    requires cat !in before && cat !in after
    ensures DeleteCategory(before + [cat] + after, cat, true) == Some(before + after)
  {
    forall i | 0 <= i < |before| ensures NotName(cat)(before[i]) {
      assert before[i] in before;
    }
    forall i | 0 <= i < |after| ensures NotName(cat)(after[i]) {
      assert after[i] in after;
    }
    FilterCut(before, cat, after, NotName(cat));
  }

  /** Deleting a name just added restores a list that did not have it. */
  lemma AddThenDelete(categories: seq<string>, newCategory: string)
    requires Trim(newCategory) !in categories
    ensures DeleteCategory(AddCategory(categories, newCategory), Trim(newCategory), true)
         == Some(categories)
  {
    var name := Trim(newCategory);
    forall i | 0 <= i < |categories| ensures NotName(name)(categories[i]) {
      assert categories[i] in categories;
    }
    FilterAll(categories, NotName(name));
    if name != "" {
      FilterAppend(categories, [name], NotName(name));
      FilterSingle(name, NotName(name));
      assert categories + [] == categories;
    }
  }
}
