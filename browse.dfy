/** The browse view's filter, its status counters and its "Clear Filters"
    reset (src/components/BrowseItems.tsx). */
module BrowseItems {
  import opened App
  import opened Text

  /** A select box value: `'all'` or one specific value. */
  datatype Choice<T> = All | Only(value: T)

  /** The five pieces of filter state held by the view. */
  datatype Criteria = Criteria(
    searchTerm: string,
    status: Choice<Status>,
    category: Choice<Category>,
    location: string,
    showResolved: bool)

  /** The state the view starts in: no text filters, every status and
      category, resolved items hidden. */
  const Initial: Criteria := Criteria("", All, All, "", false)

  /** Search clause: an empty term is falsy and disables it; otherwise the
      lower-cased title or the lower-cased description must include the
      lower-cased term. */
  predicate MatchesSearch(item: Item, term: string) {
    term == []
    || Contains(Lower(item.title), Lower(term))
    || Contains(Lower(item.description), Lower(term))
  }

  predicate MatchesChoice<T(==)>(choice: Choice<T>, v: T) {
    choice == All || choice == Only(v)
  }

  /** Location clause: an empty filter disables it. */
  predicate MatchesLocation(item: Item, location: string) {
    location == [] || Contains(Lower(item.location), Lower(location))
  }

  /** The predicate passed to `items.filter`: the five clauses, all required. */
  predicate Matches(item: Item, c: Criteria) {
    && MatchesSearch(item, c.searchTerm)
    && MatchesChoice(c.status, item.status)
    && MatchesChoice(c.category, item.category)
    && MatchesLocation(item, c.location)
    && (c.showResolved || !IsResolved(item))
  }

  /** `filteredItems`. */
  function Filter(items: seq<Item>, c: Criteria): (r: seq<Item>)
    ensures |r| <= |items|
  {
    if items == [] then []
    else (if Matches(items[0], c) then [items[0]] else []) + Filter(items[1..], c)
  }

  /** `a` can be obtained from `b` by deleting elements. */
  predicate IsSubsequence(a: seq<Item>, b: seq<Item>)
    decreases |b|
  {
    if a == [] then true
    else if b == [] then false
    else (a[0] == b[0] && IsSubsequence(a[1..], b[1..])) || IsSubsequence(a, b[1..])
  }

  /** The result keeps items of the input only, in their original relative order. */
  lemma {:induction false} FilterIsSubsequence(items: seq<Item>, c: Criteria)
    ensures IsSubsequence(Filter(items, c), items)
  {
    if items != [] {
      FilterIsSubsequence(items[1..], c);
      if Matches(items[0], c) {
        assert Filter(items, c)[1..] == Filter(items[1..], c);
      } else {
        assert Filter(items, c) == Filter(items[1..], c);
      }
    }
  }

  /** Soundness: every kept item is in the input and passes all five clauses. */
  lemma {:induction false} FilterSound(items: seq<Item>, c: Criteria)
    ensures forall x :: x in Filter(items, c) ==> x in items && Matches(x, c)
  {
    if items != [] {
      FilterSound(items[1..], c);
    }
  }

  /** Completeness: every input item that passes all five clauses is kept. */
  lemma {:induction false} FilterComplete(items: seq<Item>, c: Criteria)
    ensures forall x :: x in items && Matches(x, c) ==> x in Filter(items, c)
  {
    if items != [] {
      FilterComplete(items[1..], c);
      assert forall x :: x in items ==> x == items[0] || x in items[1..];
    }
  }

  /** Filtering a concatenation filters each part: the result is in input order. */
  lemma {:induction false} FilterAppend(a: seq<Item>, b: seq<Item>, c: Criteria)
    ensures Filter(a + b, c) == Filter(a, c) + Filter(b, c)
  {
    if a == [] {
      assert a + b == b;
    } else {
      assert (a + b)[1..] == a[1..] + b;
      FilterAppend(a[1..], b, c);
    }
  }

  /** The clause-by-clause guarantees on every item shown. */
  lemma FilterClauses(items: seq<Item>, c: Criteria, x: Item)
    requires x in Filter(items, c)
    ensures c.searchTerm != [] ==>
      Contains(Lower(x.title), Lower(c.searchTerm)) || Contains(Lower(x.description), Lower(c.searchTerm))
    ensures c.status.Only? ==> x.status == c.status.value
    ensures c.category.Only? ==> x.category == c.category.value
    ensures c.location != [] ==> Contains(Lower(x.location), Lower(c.location))
    ensures !c.showResolved ==> !IsResolved(x)
  {
    FilterSound(items, c);
  }

  /** The result size is the number of input items that pass. */
  lemma {:induction false} FilterLength(items: seq<Item>, c: Criteria)
    ensures |Filter(items, c)| == Count(items, x => Matches(x, c))
  {
    if items != [] {
      FilterLength(items[1..], c);
    }
  }

  /** The "No items found" panel appears exactly when no input item passes. */
  lemma NoItemsFound(items: seq<Item>, c: Criteria)
    ensures Filter(items, c) == [] <==> forall x :: x in items ==> !Matches(x, c)
  {
    FilterSound(items, c);
    FilterComplete(items, c);
  }

  /** The search is case-insensitive in the term: folding the term first
      changes nothing. */
  lemma SearchIgnoresTermCase(item: Item, term: string)
    ensures MatchesSearch(item, Lower(term)) == MatchesSearch(item, term)
  {
    LowerIdempotent(term);
  }

  /** No text filter, every status, every category. */
  predicate IsNeutral(c: Criteria) {
    c.searchTerm == [] && c.status == All && c.category == All && c.location == []
  }

  /** The "Clear Filters" button: resets four criteria, keeps `showResolved`. */
  function ClearFilters(c: Criteria): (r: Criteria)
    ensures IsNeutral(r)
    ensures r.showResolved == c.showResolved
  {
    c.(searchTerm := [], status := All, category := All, location := [])
  }

  /** The items whose `resolved` is not truthy, in order. */
  function Unresolved(items: seq<Item>): (r: seq<Item>)
    ensures |r| <= |items|
  {
    if items == [] then []
    else (if IsResolved(items[0]) then [] else [items[0]]) + Unresolved(items[1..])
  }

  /** With neutral criteria the result depends only on `showResolved`: the
      whole list when it is set, the unresolved items otherwise. */
  lemma {:induction false} NeutralFilter(items: seq<Item>, c: Criteria)
    requires IsNeutral(c)
    ensures Filter(items, c) == if c.showResolved then items else Unresolved(items)
  {
    if items != [] {
      NeutralFilter(items[1..], c);
      assert items == [items[0]] + items[1..];
    }
  }

  /** After "Clear Filters" the view shows every item, or every unresolved item. */
  lemma ClearedFilter(items: seq<Item>, c: Criteria)
    ensures Filter(items, ClearFilters(c)) == if c.showResolved then items else Unresolved(items)
  {
    NeutralFilter(items, ClearFilters(c));
  }

  /** On first display the view lists exactly the unresolved items. */
  lemma InitialFilter(items: seq<Item>)
    ensures Filter(items, Initial) == Unresolved(items)
  {
    NeutralFilter(items, Initial);
  }

  /** The `lostCount` callback: a lost item that is not resolved. */
  predicate IsOpenLost(item: Item) {
    item.status == Lost && !IsResolved(item)
  }

  /** The `foundCount` callback: a found item that is not resolved. */
  predicate IsOpenFound(item: Item) {
    item.status == Found && !IsResolved(item)
  }

  /** `lostCount`. */
  function LostCount(items: seq<Item>): (n: nat)
    ensures n == |Positions(items, IsOpenLost)|
  {
    CountIsPositions(items, IsOpenLost);
    Count(items, IsOpenLost)
  }

  /** `foundCount`. */
  function FoundCount(items: seq<Item>): (n: nat)
    ensures n == |Positions(items, IsOpenFound)|
  {
    CountIsPositions(items, IsOpenFound);
    Count(items, IsOpenFound)
  }

  /** `resolvedCount`. */
  function ResolvedCount(items: seq<Item>): (n: nat)
    ensures n == |Positions(items, IsResolved)|
  {
    CountResolved(items)
  }

  /** Every item is counted by exactly one of the three tiles, because a
      status is either lost or found. */
  lemma {:induction false} CountersPartition(items: seq<Item>)
    ensures LostCount(items) + FoundCount(items) + ResolvedCount(items) == |items|
  {
    if items != [] {
      CountersPartition(items[1..]);
    }
  }

  /** The lost and found tiles together count the unresolved items. */
  lemma {:induction false} OpenCounts(items: seq<Item>)
    ensures LostCount(items) + FoundCount(items) == |Unresolved(items)|
  {
    if items != [] {
      OpenCounts(items[1..]);
    }
  }
}
