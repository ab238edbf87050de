/** The home page's two summaries of the item list
    (src/components/HomePage.tsx). */
module HomePage {
  import opened App

  /** How many posts the "Recent Posts" section shows at most. */
  const RecentLimit: nat := 6

  /** `items.slice(0, 6)`: the newest posts, at most six of them. */
  function RecentItems(items: seq<Item>): (r: seq<Item>)
    ensures |r| <= RecentLimit && |r| <= |items|
    ensures |r| == if |items| < RecentLimit then |items| else RecentLimit
    ensures forall i :: 0 <= i < |r| ==> r[i] == items[i]
  {
    if |items| <= RecentLimit then items else items[..RecentLimit]
  }

  /** Lists of at most six items are shown whole; longer lists lose exactly
      their tail beyond the sixth item. */
  lemma RecentItemsPrefix(items: seq<Item>)
    ensures |items| <= RecentLimit ==> RecentItems(items) == items
    ensures |items| > RecentLimit ==> RecentItems(items) + items[RecentLimit..] == items
  {
    var r := RecentItems(items);
    if |items| > RecentLimit {
      assert r == items[..RecentLimit];
    } else {
      assert r == items;
    }
  }

  /** `recentItems.length > 0`: whether the "Recent Posts" section is rendered. */
  predicate ShowsRecentPosts(items: seq<Item>) {
    |RecentItems(items)| > 0
  }

  /** The section appears exactly when some item has been posted. */
  lemma ShowsRecentPostsIff(items: seq<Item>)
    ensures ShowsRecentPosts(items) <==> items != []
  {
  }

  /** `successStories`: the number of resolved items. */
  function SuccessStories(items: seq<Item>): (n: nat)
    ensures n == |Positions(items, IsResolved)|
    ensures n <= |items|
  {
    CountResolved(items)
  }
}
