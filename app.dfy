/** The item record of the lost-and-found board and the in-memory item store
    that the top-level application component owns (src/App.tsx). */
module App {

  datatype Option<T> = None | Some(value: T)

  /** `ItemStatus`: an item is either reported lost or reported found. */
  datatype Status = Lost | Found

  /** `ItemCategory`: the nine fixed categories. */
  datatype Category =
    | Electronics | Wallets | Keys | Jewelry | Clothing | Bags | Pets | Documents | Other

  /** `LostFoundItem`. `imageUrl` and `resolved` are optional properties: `None`
      is an absent property, distinct from an explicit `Some(false)`. */
  datatype Item = Item(
    id: string,
    title: string,
    description: string,
    category: Category,
    status: Status,
    location: string,
    contactName: string,
    contactEmail: string,
    contactPhone: string,
    imageUrl: Option<string>,
    datePosted: string,
    dateOccurred: string,
    resolved: Option<bool>)

  /** `Omit<LostFoundItem, 'id' | 'datePosted'>`: what the posting form submits. */
  datatype Submission = Submission(
    title: string,
    description: string,
    category: Category,
    status: Status,
    location: string,
    contactName: string,
    contactEmail: string,
    contactPhone: string,
    imageUrl: Option<string>,
    dateOccurred: string,
    resolved: Option<bool>)

  /** The truthiness of `item.resolved`: only an explicit `true` counts. */
  predicate IsResolved(item: Item) {
    item.resolved == Some(true)
  }

  /** The submitted part of an item: every field except `id` and `datePosted`. */
  function Submitted(item: Item): Submission {
    Submission(item.title, item.description, item.category, item.status, item.location,
               item.contactName, item.contactEmail, item.contactPhone, item.imageUrl,
               item.dateOccurred, item.resolved)
  }

  /** The record `addItem` builds: the submitted fields spread unchanged, with
      the identifier and the posting time supplied by the caller. */
  function Compose(sub: Submission, id: string, datePosted: string): (r: Item)
    ensures Submitted(r) == sub
    ensures r.id == id && r.datePosted == datePosted
  {
    Item(id, sub.title, sub.description, sub.category, sub.status, sub.location,
         sub.contactName, sub.contactEmail, sub.contactPhone, sub.imageUrl,
         datePosted, sub.dateOccurred, sub.resolved)
  }

  /** An item is determined by its submitted part, its id and its posting time. */
  lemma ComposeSubmitted(item: Item)
    ensures Compose(Submitted(item), item.id, item.datePosted) == item
  {
  }

  /** The callback given to `map` in `markResolved`. */
  function ResolveIfMatch(item: Item, id: string): Item {
    if item.id == id then item.(resolved := Some(true)) else item
  }

  /** `items.map(item => item.id === id ? { ...item, resolved: true } : item)`. */
  function MarkedResolved(items: seq<Item>, id: string): (r: seq<Item>)
    ensures |r| == |items|
  {
    if items == [] then [] else [ResolveIfMatch(items[0], id)] + MarkedResolved(items[1..], id)
  }

  /** Position by position, `markResolved` sets `resolved` to `true` on the items
      with the given id, leaves their other fields alone, and leaves every
      other item exactly as it was. */
  lemma {:induction false} MarkedResolvedAt(items: seq<Item>, id: string, i: int)
    requires 0 <= i < |items|
    ensures items[i].id == id ==>
      MarkedResolved(items, id)[i] == items[i].(resolved := Some(true))
    ensures items[i].id == id ==> IsResolved(MarkedResolved(items, id)[i])
    ensures items[i].id != id ==> MarkedResolved(items, id)[i] == items[i]
    ensures MarkedResolved(items, id)[i].id == items[i].id
  {
    if i > 0 {
      MarkedResolvedAt(items[1..], id, i - 1);
    }
  }

  /** No item carries the given id. */
  predicate Absent(items: seq<Item>, id: string) {
    forall k :: 0 <= k < |items| ==> items[k].id != id
  }

  /** Resolving an id that no item carries changes nothing. */
  lemma {:induction false} MarkResolvedAbsent(items: seq<Item>, id: string)
    requires Absent(items, id)
    ensures MarkedResolved(items, id) == items
  {
    forall i | 0 <= i < |items| ensures MarkedResolved(items, id)[i] == items[i] {
      MarkedResolvedAt(items, id, i);
    }
  }

  /** Resolving the same id twice is the same as resolving it once. */
  lemma {:induction false} MarkResolvedIdempotent(items: seq<Item>, id: string)
    ensures MarkedResolved(MarkedResolved(items, id), id) == MarkedResolved(items, id)
  {
    var once := MarkedResolved(items, id);
    forall i | 0 <= i < |items|
      ensures MarkedResolved(once, id)[i] == once[i]
    {
      MarkedResolvedAt(items, id, i);
      MarkedResolvedAt(once, id, i);
    }
  }

  /** The ids of the items, in list order, are untouched by `markResolved`. */
  lemma {:induction false} MarkResolvedKeepsIds(items: seq<Item>, id: string)
    ensures forall i :: 0 <= i < |items| ==> MarkedResolved(items, id)[i].id == items[i].id
  {
    forall i | 0 <= i < |items| ensures MarkedResolved(items, id)[i].id == items[i].id {
      MarkedResolvedAt(items, id, i);
    }
  }

  /** `resolved` only moves from unset or false to true: an item resolved
      before `markResolved` is still resolved, at the same position, after it. */
  lemma {:induction false} MarkResolvedMonotone(items: seq<Item>, id: string)
    ensures forall i :: 0 <= i < |items| && IsResolved(items[i]) ==>
      IsResolved(MarkedResolved(items, id)[i])
  {
    forall i | 0 <= i < |items| && IsResolved(items[i])
      ensures IsResolved(MarkedResolved(items, id)[i])
    {
      MarkedResolvedAt(items, id, i);
    }
  }

  /** Posting an item under a fresh id and then resolving that id yields the
      posted item with `resolved` set and every older item unchanged. */
  lemma PostThenResolve(items: seq<Item>, sub: Submission, id: string, datePosted: string)
    requires Absent(items, id)
    ensures MarkedResolved([Compose(sub, id, datePosted)] + items, id)
         == [Compose(sub, id, datePosted).(resolved := Some(true))] + items
  {
    var posted := [Compose(sub, id, datePosted)] + items;
    assert posted[1..] == items;
    MarkResolvedAbsent(items, id);
  }

  /** `items.filter(p).length`. */
  function Count(items: seq<Item>, p: Item -> bool): (n: nat)
    ensures n <= |items|
  {
    if items == [] then 0 else (if p(items[0]) then 1 else 0) + Count(items[1..], p)
  }

  /** Counting distributes over concatenation. */
  lemma {:induction false} CountAppend(a: seq<Item>, b: seq<Item>, p: Item -> bool)
    ensures Count(a + b, p) == Count(a, p) + Count(b, p)
  {
    if a != [] {
      assert (a + b)[1..] == a[1..] + b;
      CountAppend(a[1..], b, p);
    } else {
      assert a + b == b;
    }
  }

  /** The positions of `items` whose item satisfies `p`. */
  function Positions(items: seq<Item>, p: Item -> bool): set<int> {
    set i | 0 <= i < |items| && p(items[i])
  }

  /** The count is the number of positions holding a qualifying item. */
  lemma {:induction false} CountIsPositions(items: seq<Item>, p: Item -> bool)
    ensures Count(items, p) == |Positions(items, p)|
    decreases |items|
  {
    if items != [] {
      var n := |items| - 1;
      var init := items[..n];
      assert items == init + [items[n]];
      CountAppend(init, [items[n]], p);
      CountIsPositions(init, p);
      assert Count([items[n]], p) == if p(items[n]) then 1 else 0;
      if p(items[n]) {
        assert Positions(items, p) == Positions(init, p) + {n};
      } else {
        assert Positions(items, p) == Positions(init, p);
      }
    }
  }

  /** The number of resolved items, the "items reunited" statistic. */
  function CountResolved(items: seq<Item>): (n: nat)
    ensures n == |Positions(items, IsResolved)|
    ensures n <= |items|
  {
    CountIsPositions(items, IsResolved);
    Count(items, IsResolved)
  }

  /** Resolving an id never lowers the number of resolved items. */
  lemma {:induction false} MarkResolvedCount(items: seq<Item>, id: string)
    ensures CountResolved(items) <= CountResolved(MarkedResolved(items, id))
  {
    MarkResolvedMonotone(items, id);
    var after := MarkedResolved(items, id);
    assert Positions(items, IsResolved) <= Positions(after, IsResolved);
    SubsetCard(Positions(items, IsResolved), Positions(after, IsResolved));
  }

  lemma SubsetCard(a: set<int>, b: set<int>)
    requires a <= b
    ensures |a| <= |b|
  {
    assert b == a + (b - a);
  }

  /** Item ids are pairwise distinct. */
  predicate DistinctIds(items: seq<Item>) {
    forall i, j :: 0 <= i < j < |items| ==> items[i].id != items[j].id
  }

  /** With distinct ids, `markResolved` finds the one item carrying the id
      and resolves it; the items before and after it are left as they were. */
  lemma {:induction false} MarkResolvedFindsOne(items: seq<Item>, id: string, i: int)
    requires DistinctIds(items)
    requires 0 <= i < |items| && items[i].id == id
    ensures MarkedResolved(items, id)
         == items[..i] + [items[i].(resolved := Some(true))] + items[i + 1..]
  {
    var r := MarkedResolved(items, id);
    var e := items[..i] + [items[i].(resolved := Some(true))] + items[i + 1..];
    forall k | 0 <= k < |items| ensures r[k] == e[k] {
      MarkedResolvedAt(items, id, k);
      if k < i {
        assert items[k].id != items[i].id;
      } else if k > i {
        assert items[i].id != items[k].id;
      }
    }
  }

  /** The `items` state of the application: newest first. The timestamp-based
      id of the source can collide, so callers must supply a fresh id. */
  class ItemStore {
    var items: seq<Item>

    /** The store's invariant: no two items share an id. */
    ghost predicate Valid()
      reads this
    {
      DistinctIds(items)
    }

    /** `useState<LostFoundItem[]>([])`: the store starts empty. */
    constructor ()
      ensures Valid()
      ensures items == []
    {
      items := [];
    }

    /** `addItem`: the composed record goes to the head; the previous list
        follows unchanged and in order. */
    method AddItem(sub: Submission, id: string, datePosted: string)
      requires Valid()
      requires Absent(items, id)
      modifies this
      ensures Valid()
      ensures items == [Compose(sub, id, datePosted)] + old(items)
      ensures |items| == |old(items)| + 1
    {
      items := [Compose(sub, id, datePosted)] + items;
    }

    /** `markResolved`: every item with the given id becomes resolved. */
    method MarkResolved(id: string)
      modifies this
      ensures items == MarkedResolved(old(items), id)
      ensures Valid() <==> old(Valid())
      ensures old(Valid()) ==> forall i :: 0 <= i < |old(items)| && old(items)[i].id == id ==>
        items == old(items)[..i] + [old(items)[i].(resolved := Some(true))] + old(items)[i + 1..]
    {
      MarkResolvedKeepsIds(items, id);
      if Valid() {
        forall i | 0 <= i < |items| && items[i].id == id
          ensures MarkedResolved(items, id)
               == items[..i] + [items[i].(resolved := Some(true))] + items[i + 1..]
        {
          MarkResolvedFindsOne(items, id, i);
        }
      }
      items := MarkedResolved(items, id);
    }
  }
}
