/**
 * The history view (components/TransactionHistory.tsx): a case-insensitive
 * search over description and category, a stable sort by date or amount in
 * either direction, grouping by month, and the sort-header toggle.
 */
module History {
  import opened Types
  import opened Lists
  import opened Sorting
  import opened Calendar

  // ---------------------------------------------------------------- search

  /** String.prototype.toLowerCase on one character, for the Latin capitals A to Z. */
  function LowerChar(c: char): char
  {
    if 'A' <= c <= 'Z' then (c as int - 'A' as int + 'a' as int) as char else c
  }

  /** toLowerCase: every capital lowered, everything else kept, length kept. */
  function Lower(s: string): (r: string)
    ensures |r| == |s|
    ensures forall i :: 0 <= i < |s| ==> r[i] == LowerChar(s[i])
  {
    if s == [] then [] else [LowerChar(s[0])] + Lower(s[1..])
  }

  /** Lowering twice is lowering once, and a lowered string has no capitals left. */
  lemma LowerIdempotent(s: string)
    ensures Lower(Lower(s)) == Lower(s)
    ensures forall i :: 0 <= i < |s| ==> !('A' <= Lower(s)[i] <= 'Z')
  {
  }

  /** String.prototype.includes: `sub` occurs in `s` at some position. */
  predicate Contains(s: string, sub: string)
  {
    exists i :: 0 <= i <= |s| && OccursAt(s, sub, i)
  }

  predicate OccursAt(s: string, sub: string, i: nat)
  {
    i + |sub| <= |s| && s[i..i + |sub|] == sub
  }

  /** The search test: description or category contains the term, ignoring case. */
  predicate Matches(t: Transaction, term: string)
  {
    Contains(Lower(t.description), Lower(term)) || Contains(Lower(t.category), Lower(term))
  }

  function MatchesTerm(term: string): Transaction -> bool
  {
    t => Matches(t, term)
  }

  /** The empty search term keeps every entry. */
  lemma EmptyTermKeepsAll(txs: seq<Transaction>)
    ensures Filter(txs, MatchesTerm("")) == txs
  {
    forall i | 0 <= i < |txs| ensures Matches(txs[i], "") {
      assert OccursAt(Lower(txs[i].description), Lower(""), 0);
    }
    FilterAll(txs, MatchesTerm(""));
  }

  /** A term found in a description is found in it whatever the case of either. */
  lemma ContainsLowered(s: string, sub: string)
    requires Contains(s, sub)
    ensures Contains(Lower(s), Lower(sub))
  {
    var i :| 0 <= i <= |s| && OccursAt(s, sub, i);
    assert Lower(s)[i..i + |sub|] == Lower(sub);
    assert OccursAt(Lower(s), Lower(sub), i);
  }

  // ------------------------------------------------------------------ sort

  datatype SortKey = DateKey | AmountKey

  datatype Direction = Asc | Desc

  /** The comparator's `comparison`, and its negation for a descending sort. */
  function Comparator(a: Transaction, b: Transaction, key: SortKey, direction: Direction): real
  {
    var comparison := if key == DateKey then a.date as real - b.date as real else a.amount - b.amount;
    if direction == Asc then comparison else -comparison
  }

  /** The number the comparator orders by: date or amount, negated for a descending sort. */
  function SortValue(key: SortKey, direction: Direction): Transaction -> real
  {
    (t: Transaction) =>
      var v := if key == DateKey then t.date as real else t.amount;
      if direction == Asc then v else -v
  }

  /**
   * The comparator orders two entries as their sort values do, so sorting
   * by the value is sorting with the comparator; and the descending
   * comparison is the exact negation of the ascending one.
   */
  lemma ComparatorMatchesValue(a: Transaction, b: Transaction, key: SortKey, direction: Direction)
    ensures Comparator(a, b, key, direction) == SortValue(key, direction)(a) - SortValue(key, direction)(b)
    ensures Comparator(a, b, key, Desc) == -Comparator(a, b, key, Asc)
    ensures Comparator(a, b, key, direction) < 0.0 <==> SortValue(key, direction)(a) < SortValue(key, direction)(b)
  {
  }

  /** filteredTransactions: the matching entries, sorted stably by the comparator. */
  function FilteredTransactions(transactions: seq<Transaction>, searchTerm: string,
                                key: SortKey, direction: Direction): seq<Transaction>
  {
    SortBy(Filter(transactions, MatchesTerm(searchTerm)), SortValue(key, direction))
  }

  /** Reads the sort field of an entry. */
  function Field(t: Transaction, key: SortKey): real
  {
    if key == DateKey then t.date as real else t.amount
  }

  /**
   * The list shown holds exactly the matching entries, as often as the
   * input does, ordered by the chosen field in the chosen direction.
   */
  lemma FilteredIsSortedSelection(transactions: seq<Transaction>, searchTerm: string,
                                  key: SortKey, direction: Direction)
    ensures var r := FilteredTransactions(transactions, searchTerm, key, direction);
            multiset(r) == multiset(Filter(transactions, MatchesTerm(searchTerm)))
            && (forall t :: t in r <==> t in transactions && Matches(t, searchTerm))
            && forall i, j :: 0 <= i < j < |r| ==>
                 if direction == Asc then Field(r[i], key) <= Field(r[j], key)
                 else Field(r[i], key) >= Field(r[j], key)
  {
    var kept := Filter(transactions, MatchesTerm(searchTerm));
    var r := FilteredTransactions(transactions, searchTerm, key, direction);
    forall t ensures t in r <==> t in transactions && Matches(t, searchTerm) {
      assert t in r <==> t in multiset(kept);
      FilterMember(transactions, MatchesTerm(searchTerm), t);
    }
    forall i, j | 0 <= i < j < |r|
      ensures if direction == Asc then Field(r[i], key) <= Field(r[j], key)
              else Field(r[i], key) >= Field(r[j], key)
    {
      assert SortValue(key, direction)(r[i]) <= SortValue(key, direction)(r[j]);
    }
  }

  /** Entries the comparator finds equal keep their relative order. */
  lemma FilteredIsStable(transactions: seq<Transaction>, searchTerm: string,
                         key: SortKey, direction: Direction, v: real)
    ensures var kept := Filter(transactions, MatchesTerm(searchTerm));
            WithKey(FilteredTransactions(transactions, searchTerm, key, direction), SortValue(key, direction), v)
            == WithKey(kept, SortValue(key, direction), v)
  {
    SortStable(Filter(transactions, MatchesTerm(searchTerm)), SortValue(key, direction), v);
  }

  // ---------------------------------------------------------------- groups

  /** A group label: the single amount-sort group, or a month of a year. */
  datatype GroupKey = AllTransactions | MonthGroup(year: int, month: int)

  function GroupOf(t: Transaction): GroupKey
  {
    MonthGroup(YearOf(t.date), MonthOf(t.date))
  }

  function InGroup(k: GroupKey): Transaction -> bool
  {
    t => GroupOf(t) == k
  }

  /** The entries of group `k`, in list order. */
  function Members(ts: seq<Transaction>, k: GroupKey): seq<Transaction>
  {
    Filter(ts, InGroup(k))
  }

  /** The month groups in order of first appearance, as the record's keys enumerate. */
  function GroupOrder(ts: seq<Transaction>): seq<GroupKey>
  {
    if ts == [] then []
    else
      var prev := GroupOrder(ts[..|ts| - 1]);
      var k := GroupOf(ts[|ts| - 1]);
      if k in prev then prev else prev + [k]
  }

  /** The group order never lists a month twice. */
  lemma {:induction false} GroupOrderDistinct(ts: seq<Transaction>)
    ensures forall i, j :: 0 <= i < j < |GroupOrder(ts)| ==> GroupOrder(ts)[i] != GroupOrder(ts)[j]
  {
    hide GroupOf;
    if ts != [] {
      GroupOrderDistinct(ts[..|ts| - 1]);
    }
  }

  /** The group order lists the month of every entry. */
  lemma {:induction false} GroupOrderCovers(ts: seq<Transaction>)
    ensures forall i :: 0 <= i < |ts| ==> GroupOf(ts[i]) in GroupOrder(ts)
  {
    hide GroupOf;
    if ts != [] {
      var init := ts[..|ts| - 1];
      GroupOrderCovers(init);
      forall i | 0 <= i < |init| ensures GroupOf(ts[i]) in GroupOrder(ts) {
        assert ts[i] == init[i];
      }
    }
  }

  /** The group order lists no month without an entry. */
  lemma {:induction false} GroupOrderSound(ts: seq<Transaction>, k: GroupKey)
    requires k in GroupOrder(ts)
    ensures exists i :: 0 <= i < |ts| && GroupOf(ts[i]) == k
  {
    hide GroupOf;
    var init := ts[..|ts| - 1];
    if k in GroupOrder(init) {
      GroupOrderSound(init, k);
      var i :| 0 <= i < |init| && GroupOf(init[i]) == k;
      assert ts[i] == init[i];
    } else {
      assert GroupOf(ts[|ts| - 1]) == k;
    }
  }

  /** One more entry joins the end of its own group and no other. */
  lemma MembersSnoc(ts: seq<Transaction>, t: Transaction, k: GroupKey)
    ensures Members(ts + [t], k) == Members(ts, k) + (if GroupOf(t) == k then [t] else [])
  {
    hide GroupOf;
    FilterAppend(ts, [t], InGroup(k));
    FilterSingle(t, InGroup(k));
  }

  /** A month not yet seen has no members. */
  lemma {:induction false} MembersUnseen(ts: seq<Transaction>, k: GroupKey)
    requires k !in GroupOrder(ts)
    ensures Members(ts, k) == []
  {
    hide GroupOf;
    if ts != [] {
      var init := ts[..|ts| - 1];
      assert ts == init + [ts[|ts| - 1]];
      MembersUnseen(init, k);
      MembersSnoc(init, ts[|ts| - 1], k);
    }
  }

  /**
   * groupedTransactions: under the amount sort, one group holding the whole
   * list; under the date sort, one group per month in order of first
   * appearance, each holding that month's entries in list order. `order`
   * is the order of the record's keys.
   */
  method GroupTransactions(filtered: seq<Transaction>, key: SortKey)
    returns (order: seq<GroupKey>, groups: map<GroupKey, seq<Transaction>>)
    ensures key == AmountKey ==> order == [AllTransactions] && groups == map[AllTransactions := filtered]
    ensures key == DateKey ==> order == GroupOrder(filtered)
    ensures key == DateKey ==> forall k :: k in groups <==> k in order
    ensures key == DateKey ==> forall k :: k in groups ==> groups[k] == Members(filtered, k)
  {
    hide GroupOf;
    if key == AmountKey {
      return [AllTransactions], map[AllTransactions := filtered];
    }
    order := [];
    groups := map[];
    var i := 0;
    while i < |filtered|
      invariant 0 <= i <= |filtered|
      invariant order == GroupOrder(filtered[..i])
      invariant forall k :: k in groups <==> k in order
      invariant forall k :: k in groups ==> groups[k] == Members(filtered[..i], k)
    {
      var t := filtered[i];
      var k := GroupOf(t);
      assert filtered[..i + 1] == filtered[..i] + [t];
      assert filtered[..i + 1][..i] == filtered[..i];
      if k !in groups {
        MembersUnseen(filtered[..i], k);
        groups := groups[k := []];
        order := order + [k];
      }
      groups := groups[k := groups[k] + [t]];
      forall g | g in groups ensures groups[g] == Members(filtered[..i + 1], g) {
        MembersSnoc(filtered[..i], t, g);
      }
      i := i + 1;
    }
    assert filtered[..i] == filtered;
  }

  /**
   * Each entry of the list lies in exactly one month group, the one of its
   * own date, and every group keeps the list's sort order.
   */
  lemma GroupsPartition(filtered: seq<Transaction>, sortValue: Transaction -> real, t: Transaction, k: GroupKey)
    requires SortedBy(filtered, sortValue)
    ensures t in Members(filtered, k) <==> t in filtered && GroupOf(t) == k
    ensures SortedBy(Members(filtered, k), sortValue)
  {
    FilterMember(filtered, InGroup(k), t);
    FilterSorted(filtered, sortValue, InGroup(k));
  }

  // ------------------------------------------------------------ sort state

  datatype SortState = SortState(key: SortKey, direction: Direction)

  /** handleSort: the active key flips its direction; another key becomes active, descending. */
  function SortStep(s: SortState, key: SortKey): (t: SortState)
    ensures t.key == key
  {
    if s.key == key then s.(direction := if s.direction == Asc then Desc else Asc)
    else SortState(key, Desc)
  }

  /**
   * Clicking the active header twice restores the state; clicking another
   * header makes it active, descending, and a second click makes it ascending.
   */
  lemma SortStepTwice(s: SortState, key: SortKey)
    ensures s.key == key ==> SortStep(SortStep(s, key), key) == s
    ensures s.key == key ==> SortStep(s, key).direction != s.direction
    ensures s.key != key ==> (SortStep(s, key) == SortState(key, Desc)
                              && SortStep(SortStep(s, key), key) == SortState(key, Asc))
  {
  }

  /** The history view's own state. */
  class HistoryState {
    var searchTerm: string
    var sortKey: SortKey
    var sortDirection: Direction

    function State(): SortState
      reads this
    {
      SortState(sortKey, sortDirection)
    }

    /** Starts with no search, newest first. */
    constructor ()
      ensures searchTerm == "" && sortKey == DateKey && sortDirection == Desc
    {
      searchTerm := "";
      sortKey := DateKey;
      sortDirection := Desc;
    }

    method HandleSort(key: SortKey)
      modifies this
      ensures State() == SortStep(old(State()), key)
      ensures searchTerm == old(searchTerm)
    {
      if sortKey == key {
        sortDirection := if sortDirection == Asc then Desc else Asc;
      } else {
        sortKey := key;
        sortDirection := Desc;
      }
    }
  }
}
