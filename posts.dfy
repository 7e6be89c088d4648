/**
 * The post query helpers of the blog (src/posts.ts): read-only views over
 * the collection of posts held by the content store. The collection is an
 * input sequence, in the order the store yields it, and `slugify` is a
 * function parameter `slug` about which nothing is assumed.
 */
module Posts {
  import opened Seqs
  import opened StableSort
  import opened JsKeys

  /** A post's frontmatter; `date` is the timestamp of its date in milliseconds. */
  datatype Post = Post(title: string, date: int, category: string, tags: seq<string>)

  datatype Category = Category(slug: string, name: string)

  datatype Tag = Tag(slug: string, name: string, count: nat)

  /** How many posts `getLatestPosts` returns. */
  const LatestCount: nat := 10

  /** How many posts `getCategoriesWithPosts` keeps per category. */
  const PostsPerCategory: nat := 5

  function Date(p: Post): int { p.date }

  /** The sort key of a descending order by date. */
  function Recency(p: Post): int { -p.date }

  function TagsOf(p: Post): seq<string> { p.tags }

  function DateIs(d: int): Post -> bool { KeyIs(Date, d) }

  function HasCategory(name: string): Post -> bool { (p: Post) => p.category == name }

  function HasTag(name: string): Post -> bool { (p: Post) => name in p.tags }

  function CategorySlug(slug: string -> string): Post -> string { (p: Post) => slug(p.category) }

  function SlugOf(c: Category): string { c.slug }

  predicate OldestFirst(s: seq<Post>) {
    forall i, j :: 0 <= i < j < |s| ==> s[i].date <= s[j].date
  }

  predicate NewestFirst(s: seq<Post>) {
    forall i, j :: 0 <= i < j < |s| ==> s[i].date >= s[j].date
  }

  // ---------------------------------------------------------------- getAllPosts

  /**
   * `getAllPosts`: the collection sorted by ascending date; posts with the
   * same date keep their order in the collection.
   */
  function AllPosts(posts: seq<Post>): (r: seq<Post>)
    ensures multiset(r) == multiset(posts)
    ensures OldestFirst(r)
    ensures forall d :: Filter(DateIs(d), r) == Filter(DateIs(d), posts)
  {
    SortByIsStableSort(Date, posts);
    SortBy(Date, posts)
  }

  /**
   * Sortedness and the order of equal dates determine the result: every
   * stable sort of the collection by date is `AllPosts`.
   */
  lemma AllPostsUnique(posts: seq<Post>, r: seq<Post>)
    requires OldestFirst(r)
    requires forall d :: Filter(DateIs(d), r) == Filter(DateIs(d), posts)
    ensures r == AllPosts(posts)
  {
    assert IsStableSortOf(Date, r, posts) by {
      forall k ensures Filter(KeyIs(Date, k), r) == Filter(KeyIs(Date, k), posts) {
        assert DateIs(k) == KeyIs(Date, k);
      }
    }
    StableSortUnique(Date, r, posts);
  }

  /**
   * Sorting an already sorted collection changes nothing, so each helper's
   * own `getAllPosts` call gives the same order even when the store hands out
   * an array an earlier call has already sorted in place.
   */
  lemma AllPostsIdempotent(posts: seq<Post>)
    ensures AllPosts(AllPosts(posts)) == AllPosts(posts)
  {
    AllPostsUnique(AllPosts(posts), AllPosts(posts));
  }

  // ------------------------------------------------------------- getLatestPosts

  /**
   * `getLatestPosts` as written: the first ten posts of the ascending order,
   * that is, the ten OLDEST posts (see `LatestPostsAreNotTheNewest`).
   */
  function LatestPosts(posts: seq<Post>): (r: seq<Post>)
    ensures |r| == Min(LatestCount, |posts|)
    ensures r <= AllPosts(posts)
    ensures forall x, y :: x in r && y in multiset(posts) - multiset(r) ==> x.date <= y.date
  {
    var all := AllPosts(posts);
    assert SortedBy(Date, all);
    SortedPrefix(Date, all, Min(LatestCount, |posts|));
    Take(all, LatestCount)
  }

  /**
   * `r` holds the `n` newest posts of `s` (all of them when there are fewer),
   * newest first; among posts with the same date, those earlier in `s` are
   * taken first and listed first.
   */
  ghost predicate IsMostRecent(r: seq<Post>, s: seq<Post>, n: nat) {
    && |r| == Min(n, |s|)
    && NewestFirst(r)
    && multiset(r) <= multiset(s)
    && (forall x, y :: x in r && y in multiset(s) - multiset(r) ==> y.date <= x.date)
    && (forall d :: Filter(DateIs(d), r) <= Filter(DateIs(d), s))
  }

  /** Taking from the descending order takes posts of `s`. */
  lemma MostRecentFromInput(s: seq<Post>, n: nat)
    ensures multiset(Take(SortBy(Recency, s), n)) <= multiset(s)
  {
    var t := SortBy(Recency, s);
    var m := Min(n, |s|);
    SortByMultiset(Recency, s);
    assert t == t[..m] + t[m..];
    assert multiset(t) == multiset(t[..m]) + multiset(t[m..]);
  }

  /** Taking from the descending order keeps the newest posts and leaves the older ones. */
  lemma MostRecentKeepsNewest(s: seq<Post>, n: nat)
    ensures var r := Take(SortBy(Recency, s), n);
      forall x, y :: x in r && y in multiset(s) - multiset(r) ==> y.date <= x.date
  {
    var t := SortBy(Recency, s);
    var r := Take(t, n);
    SortBySorted(Recency, s);
    SortByMultiset(Recency, s);
    SortedPrefix(Recency, t, Min(n, |s|));
    forall x, y | x in r && y in multiset(s) - multiset(r) ensures y.date <= x.date {
      assert Recency(x) <= Recency(y);
    }
  }

  lemma MostRecentNewestFirst(s: seq<Post>, n: nat)
    ensures NewestFirst(Take(SortBy(Recency, s), n))
  {
    var t := SortBy(Recency, s);
    var r := Take(t, n);
    SortBySorted(Recency, s);
    forall i, j | 0 <= i < j < |r| ensures r[i].date >= r[j].date {
      assert r[i] == t[i] && r[j] == t[j];
      assert Recency(t[i]) <= Recency(t[j]);
    }
  }

  lemma DateIsRecency(d: int)
    ensures forall p :: DateIs(d)(p) == KeyIs(Recency, -d)(p)
  {
    forall p ensures DateIs(d)(p) == KeyIs(Recency, -d)(p) {
      assert DateIs(d) == KeyIs(Date, d);
      assert KeyIs(Date, d)(p) == (Date(p) == d);
      assert KeyIs(Recency, -d)(p) == (Recency(p) == -d);
    }
  }

  /** Posts of equal date are taken in their order in `s`. */
  lemma MostRecentTies(s: seq<Post>, n: nat)
    ensures forall d :: Filter(DateIs(d), Take(SortBy(Recency, s), n)) <= Filter(DateIs(d), s)
  {
    var t := SortBy(Recency, s);
    var m := Min(n, |s|);
    forall d ensures Filter(DateIs(d), t[..m]) <= Filter(DateIs(d), s) {
      SortByStable(Recency, s, -d);
      DateIsRecency(d);
      FilterPrefix(DateIs(d), t, m);
      FilterExt(DateIs(d), KeyIs(Recency, -d), t);
      FilterExt(DateIs(d), KeyIs(Recency, -d), s);
    }
  }

  lemma MostRecentSpec(s: seq<Post>, n: nat)
    ensures IsMostRecent(Take(SortBy(Recency, s), n), s, n)
  {
    SortByMultiset(Recency, s);
    MostRecentFromInput(s, n);
    MostRecentKeepsNewest(s, n);
    MostRecentNewestFirst(s, n);
    MostRecentTies(s, n);
  }

  /**
   * lodash `orderBy(date, 'desc')` followed by `take(n)`: the `n` most
   * recent posts of `s`, newest first.
   */
  function MostRecent(s: seq<Post>, n: nat): (r: seq<Post>)
    ensures IsMostRecent(r, s, n)
  {
    MostRecentSpec(s, n);
    Take(SortBy(Recency, s), n)
  }

  /** The evidently intended `getLatestPosts`: the ten most recent posts, newest first. */
  function NewestPosts(posts: seq<Post>): (r: seq<Post>)
    ensures IsMostRecent(r, posts, LatestCount)
  {
    MostRecent(posts, LatestCount)
  }

  /** Eleven posts on eleven successive dates, oldest first. */
  function Eleven(): seq<Post> {
    seq(11, i requires 0 <= i < 11 => Post("", i, "", []))
  }

  /**
   * With eleven posts on successive dates, `getLatestPosts` as written leaves
   * out the newest post and lists the oldest first, so it does not return the
   * most recent posts.
   */
  lemma LatestPostsAreNotTheNewest()
    ensures Post("", 10, "", []) in Eleven()
    ensures Post("", 10, "", []) !in LatestPosts(Eleven())
    ensures !IsMostRecent(LatestPosts(Eleven()), Eleven(), LatestCount)
  {
    var posts := Eleven();
    assert posts[10] == Post("", 10, "", []);
    AllPostsUnique(posts, posts);
    var r := LatestPosts(posts);
    assert r == posts[..10];
    assert r[0].date == 0 && r[1].date == 1;
  }

  // ----------------------------------------------------- getCategoriesWithPosts

  /**
   * Selecting posts commutes with the date order: the selected posts of
   * `AllPosts` are `AllPosts` of the selected posts.
   */
  lemma FilterOfAllPosts(f: Post -> bool, posts: seq<Post>)
    ensures Filter(f, AllPosts(posts)) == AllPosts(Filter(f, posts))
  {
    var all := AllPosts(posts);
    var r := Filter(f, all);
    assert SortedBy(Date, all);
    FilterSorted(Date, f, all);
    assert OldestFirst(r) by {
      assert SortedBy(Date, r);
      forall i, j | 0 <= i < j < |r| ensures r[i].date <= r[j].date {
        assert Date(r[i]) <= Date(r[j]);
      }
    }
    forall d ensures Filter(DateIs(d), r) == Filter(DateIs(d), Filter(f, posts)) {
      FilterCommute(DateIs(d), f, all);
      FilterCommute(DateIs(d), f, posts);
    }
    AllPostsUnique(Filter(f, posts), r);
  }

  /** Being the newest posts of `g` carries over to any `s` with the same posts and ties. */
  lemma IsMostRecentTransfer(r: seq<Post>, g: seq<Post>, s: seq<Post>, n: nat)
    requires IsMostRecent(r, g, n)
    requires multiset(g) == multiset(s)
    requires forall d :: Filter(DateIs(d), g) == Filter(DateIs(d), s)
    ensures IsMostRecent(r, s, n)
  {
    assert |g| == |multiset(g)| == |multiset(s)| == |s|;
  }

  /** The newest posts of a category that has posts are at least one post, all of that category. */
  lemma CategoryGroupMembers(posts: seq<Post>, c: string, r: seq<Post>)
    requires c in (set p | p in posts :: p.category)
    requires |r| == Min(PostsPerCategory, |Filter(HasCategory(c), posts)|)
    requires multiset(r) <= multiset(Filter(HasCategory(c), posts))
    ensures |r| >= 1 && forall p :: p in r ==> p.category == c
  {
    var s := Filter(HasCategory(c), posts);
    FilterMembers(HasCategory(c), posts);
    var q :| q in posts && q.category == c;
    assert q in s;
    forall p | p in r ensures p.category == c {
      assert p in multiset(r);
      assert p in multiset(s);
      assert p in s;
      assert HasCategory(c)(p);
    }
  }

  /** lodash `groupBy(category)` then `mapValues(orderBy(date, 'desc'), take(5))`, for one category. */
  function CategoryGroup(all: seq<Post>, c: string): (r: seq<Post>)
    ensures IsMostRecent(r, Filter(HasCategory(c), all), PostsPerCategory)
  {
    MostRecent(Filter(HasCategory(c), all), PostsPerCategory)
  }

  lemma CategoryGroupSpec(posts: seq<Post>, c: string)
    requires c in (set p | p in posts :: p.category)
    ensures var r := CategoryGroup(AllPosts(posts), c);
      && IsMostRecent(r, Filter(HasCategory(c), posts), PostsPerCategory)
      && |r| >= 1
      && forall p :: p in r ==> p.category == c
  {
    var g, s := Filter(HasCategory(c), AllPosts(posts)), Filter(HasCategory(c), posts);
    var r := MostRecent(g, PostsPerCategory);
    FilterOfAllPosts(HasCategory(c), posts);
    IsMostRecentTransfer(r, g, s, PostsPerCategory);
    CategoryGroupMembers(posts, c, r);
  }

  lemma CategoryGroupsSpec(posts: seq<Post>)
    ensures forall c | c in (set p | p in posts :: p.category) ::
      && IsMostRecent(CategoryGroup(AllPosts(posts), c), Filter(HasCategory(c), posts), PostsPerCategory)
      && |CategoryGroup(AllPosts(posts), c)| >= 1
      && forall p :: p in CategoryGroup(AllPosts(posts), c) ==> p.category == c
  {
    forall c | c in (set p | p in posts :: p.category)
      ensures && IsMostRecent(CategoryGroup(AllPosts(posts), c), Filter(HasCategory(c), posts), PostsPerCategory)
              && |CategoryGroup(AllPosts(posts), c)| >= 1
              && forall p :: p in CategoryGroup(AllPosts(posts), c) ==> p.category == c
    {
      CategoryGroupSpec(posts, c);
    }
  }

  function CategoryName(p: Post): string { p.category }

  /**
   * `getCategoriesWithPosts`: for each category of the collection, its five
   * most recent posts, newest first.
   */
  function CategoriesWithPosts(posts: seq<Post>): (m: map<string, seq<Post>>)
    ensures m.Keys == set p | p in posts :: p.category
    ensures forall c :: c in m ==> |m[c]| >= 1 && forall p :: p in m[c] ==> p.category == c
    ensures forall c :: c in m ==> IsMostRecent(m[c], Filter(HasCategory(c), posts), PostsPerCategory)
  {
    var all := AllPosts(posts);
    KeySetPermutation(CategoryName, all, posts);
    CategoryGroupsSpec(posts);
    assert (set p | p in all :: p.category) == set p | p in posts :: p.category by {
      assert KeySet(CategoryName, all) == set p | p in all :: p.category;
      assert KeySet(CategoryName, posts) == set p | p in posts :: p.category;
    }
    map c | c in (set p | p in all :: p.category) :: CategoryGroup(all, c)
  }

  // -------------------------------------------- getPostsByCategory, getPostsByTag

  /**
   * What a selection of `AllPosts` holds: every post of the collection that
   * `f` selects, as often as it occurs there, in date order, as a
   * subsequence of `AllPosts`; nothing when `f` selects no post.
   */
  lemma SelectionSpec(f: Post -> bool, posts: seq<Post>)
    ensures var r := Filter(f, AllPosts(posts));
      && r == AllPosts(Filter(f, posts))
      && (forall p :: multiset(r)[p] == if f(p) then multiset(posts)[p] else 0)
      && IsSubseq(r, AllPosts(posts))
      && OldestFirst(r)
      && (r == [] <==> forall p | p in posts :: !f(p))
  {
    var all := AllPosts(posts);
    var r := Filter(f, all);
    FilterOfAllPosts(f, posts);
    FilterMultiset(f, all);
    FilterIsSubseq(f, all);
    SelectionEmpty(f, posts);
  }

  /** A selection from `AllPosts` is empty exactly when no post is selected. */
  lemma SelectionEmpty(f: Post -> bool, posts: seq<Post>)
    ensures Filter(f, AllPosts(posts)) == [] <==> forall p | p in posts :: !f(p)
  {
    var all := AllPosts(posts);
    FilterMembers(f, all);
    forall p | p in posts && f(p) ensures Filter(f, all) != [] {
      assert p in multiset(all);
      assert p in Filter(f, all);
    }
    if forall p | p in posts :: !f(p) {
      forall p | p in all ensures !f(p) {
        assert p in multiset(posts);
      }
      FilterNone(f, all);
    }
  }

  /**
   * `getPostsByCategory`: the posts whose category is the category's name
   * (its slug plays no part), oldest first.
   */
  function PostsByCategory(posts: seq<Post>, c: Category): (r: seq<Post>)
    ensures r == AllPosts(Filter(HasCategory(c.name), posts))
    ensures forall p :: multiset(r)[p] == if p.category == c.name then multiset(posts)[p] else 0
    ensures IsSubseq(r, AllPosts(posts))
    ensures OldestFirst(r)
    ensures r == [] <==> forall p | p in posts :: p.category != c.name
  {
    SelectionSpec(HasCategory(c.name), posts);
    Filter(HasCategory(c.name), AllPosts(posts))
  }

  /**
   * `getPostsByTag`: the posts whose tags include the tag's name (its slug
   * and count play no part), oldest first.
   */
  function PostsByTag(posts: seq<Post>, t: Tag): (r: seq<Post>)
    ensures r == AllPosts(Filter(HasTag(t.name), posts))
    ensures forall p :: multiset(r)[p] == if t.name in p.tags then multiset(posts)[p] else 0
    ensures IsSubseq(r, AllPosts(posts))
    ensures OldestFirst(r)
    ensures r == [] <==> forall p | p in posts :: t.name !in p.tags
  {
    SelectionSpec(HasTag(t.name), posts);
    Filter(HasTag(t.name), AllPosts(posts))
  }

  // ----------------------------------------------------------- getAllCategories

  /**
   * lodash `map` with the iteratee `p => ({ slug: slug(p.category), name: p.category })`:
   * the second `ensures` is the definition of that `map`, one entry per post,
   * position by position.
   */
  function CategoryEntries(slug: string -> string, s: seq<Post>): (r: seq<Category>)
    ensures |r| == |s|
    ensures forall i :: 0 <= i < |s| ==> r[i] == Category(slug(s[i].category), s[i].category)
  {
    seq(|s|, i requires 0 <= i < |s| => Category(slug(s[i].category), s[i].category))
  }

  /** The entries' slugs are the posts' category slugs, position by position. */
  lemma CategoryEntriesKeys(slug: string -> string, all: seq<Post>, k: string)
    ensures var e := CategoryEntries(slug, all);
      && FirstIndex(SlugOf, e, k) == FirstIndex(CategorySlug(slug), all, k)
      && KeySet(SlugOf, e) == KeySet(CategorySlug(slug), all)
  {
    var e := CategoryEntries(slug, all);
    forall i | 0 <= i < |e| ensures SlugOf(e[i]) == CategorySlug(slug)(all[i]) {
    }
    FirstIndexSameKeys(SlugOf, e, CategorySlug(slug), all, k);
  }

  /**
   * `getAllCategories`: one category per distinct category slug.
   * Each entry is named after the category of the first post in date order
   * that has its slug, and the entries come in the order of those posts. So
   * when two category names share a slug, the one used first wins.
   */
  function AllCategories(posts: seq<Post>, slug: string -> string): (r: seq<Category>)
    ensures forall i, j :: 0 <= i < j < |r| ==> r[i].slug != r[j].slug
    ensures forall c | c in r :: c.slug == slug(c.name)
    ensures (set c | c in r :: c.slug) == set p | p in posts :: slug(p.category)
    ensures var all := AllPosts(posts);
      forall i :: 0 <= i < |r| ==>
        && FirstIndex(CategorySlug(slug), all, r[i].slug) < |all|
        && r[i].name == all[FirstIndex(CategorySlug(slug), all, r[i].slug)].category
    ensures var all := AllPosts(posts);
      forall i, j :: 0 <= i < j < |r| ==>
        FirstIndex(CategorySlug(slug), all, r[i].slug) < FirstIndex(CategorySlug(slug), all, r[j].slug)
  {
    var e := CategoryEntries(slug, AllPosts(posts));
    var r := UniqBy(SlugOf, e);
    UniqByKeys(SlugOf, e);
    AllCategoriesFirst(posts, slug);
    AllCategoriesSlugs(posts, slug, r);
    r
  }

  /** What `uniqBy` keeps of the entries, in terms of the posts in date order. */
  lemma AllCategoriesFirst(posts: seq<Post>, slug: string -> string)
    ensures var all := AllPosts(posts);
      var r := UniqBy(SlugOf, CategoryEntries(slug, all));
      && (forall c | c in r :: c.slug == slug(c.name))
      && (forall i :: 0 <= i < |r| ==>
            && FirstIndex(CategorySlug(slug), all, r[i].slug) < |all|
            && r[i].name == all[FirstIndex(CategorySlug(slug), all, r[i].slug)].category)
      && (forall i, j :: 0 <= i < j < |r| ==>
            FirstIndex(CategorySlug(slug), all, r[i].slug) < FirstIndex(CategorySlug(slug), all, r[j].slug))
  {
    var all := AllPosts(posts);
    var e := CategoryEntries(slug, all);
    var r := UniqBy(SlugOf, e);
    UniqByFirst(SlugOf, e);
    forall k ensures FirstIndex(SlugOf, e, k) == FirstIndex(CategorySlug(slug), all, k) {
      CategoryEntriesKeys(slug, all, k);
    }
  }

  /** The slugs kept by `uniqBy` are the category slugs of the collection. */
  lemma AllCategoriesSlugs(posts: seq<Post>, slug: string -> string, r: seq<Category>)
    requires KeySet(SlugOf, r) == KeySet(SlugOf, CategoryEntries(slug, AllPosts(posts)))
    ensures (set c | c in r :: c.slug) == set p | p in posts :: slug(p.category)
  {
    var all := AllPosts(posts);
    CategoryEntriesKeys(slug, all, "");
    KeySetPermutation(CategorySlug(slug), all, posts);
    assert KeySet(SlugOf, r) == set c | c in r :: c.slug;
    assert KeySet(CategorySlug(slug), posts) == set p | p in posts :: slug(p.category);
  }

  // ----------------------------------------------------------------- getAllTags

  /** lodash `map` over the `countBy` object: one tag per key, with its count in `flat`. */
  function TagEntries(slug: string -> string, names: seq<string>, flat: seq<string>): (r: seq<Tag>)
    ensures |r| == |names|
    ensures forall i :: 0 <= i < |names| ==> r[i] == Tag(slug(names[i]), names[i], multiset(flat)[names[i]])
  {
    if names == [] then []
    else [Tag(slug(names[0]), names[0], multiset(flat)[names[0]])] + TagEntries(slug, names[1..], flat)
  }

  /** The sum of the counts of `ts`. */
  function TotalCount(ts: seq<Tag>): nat {
    if ts == [] then 0 else ts[0].count + TotalCount(ts[1..])
  }

  lemma {:induction false} TotalCountOfEntries(slug: string -> string, names: seq<string>, flat: seq<string>)
    ensures TotalCount(TagEntries(slug, names, flat)) == CountSum(names, flat)
  {
    if names != [] {
      TotalCountOfEntries(slug, names[1..], flat);
    }
  }

  /** Where a tag name first occurs in `flat`. */
  function FirstSeen(flat: seq<string>): string -> int {
    (n: string) => FirstIndex(Id, flat, n)
  }

  /** The keys of the `countBy` object, in the order they were created. */
  function CreatedKeys(flat: seq<string>): seq<string> {
    UniqBy(Id, flat)
  }

  /** Each tag name of `flat` is created once, on its first occurrence. */
  lemma CreatedKeysSpec(flat: seq<string>)
    ensures var created := CreatedKeys(flat);
      && IncreasingBy(FirstSeen(flat), created)
      && forall n :: n in created <==> n in flat
  {
    var created := UniqBy(Id, flat);
    UniqByKeys(Id, flat);
    UniqByFirst(Id, flat);
    forall i, j | 0 <= i < j < |created| ensures FirstSeen(flat)(created[i]) < FirstSeen(flat)(created[j]) {
      assert Id(created[i]) == created[i] && Id(created[j]) == created[j];
    }
    forall n ensures n in created <==> n in KeySet(Id, created) {
      if n in created {
        assert Id(n) == n;
      }
    }
    forall n ensures n in flat <==> n in KeySet(Id, flat) {
      if n in flat {
        assert Id(n) == n;
      }
    }
  }

  /**
   * `getAllTags`: one tag per distinct tag name used by the posts, counting
   * its uses. The names come in the key order of the `countBy` object: names
   * that are array indices first, by value, then the other names in the order
   * of their first use, scanning the posts oldest first.
   */
  function AllTags(posts: seq<Post>, slug: string -> string): (r: seq<Tag>)
    ensures forall i, j :: 0 <= i < j < |r| ==> r[i].name != r[j].name
    ensures forall t | t in r ::
      && t.slug == slug(t.name)
      && t.count == multiset(FlatMap(TagsOf, posts))[t.name]
      && t.count >= 1
    ensures (set t | t in r :: t.name) == set n | n in FlatMap(TagsOf, posts)
    ensures TotalCount(r) == |FlatMap(TagsOf, posts)|
    ensures forall i, j :: 0 <= i < j < |r| && IsArrayIndex(r[j].name) ==>
      IsArrayIndex(r[i].name) && DecimalValue(r[i].name) <= DecimalValue(r[j].name)
    ensures var flat := FlatMap(TagsOf, AllPosts(posts));
      forall i, j :: 0 <= i < j < |r| && !IsArrayIndex(r[i].name) && !IsArrayIndex(r[j].name) ==>
        FirstIndex(Id, flat, r[i].name) < FirstIndex(Id, flat, r[j].name)
  {
    var flat := FlatMap(TagsOf, AllPosts(posts));
    var created := CreatedKeys(flat);
    var names := OwnKeyOrder(created);
    var r := TagEntries(slug, names, flat);
    AllTagsSpec(posts, slug, flat, created, names, r);
    r
  }

  lemma AllTagsSpec(posts: seq<Post>, slug: string -> string, flat: seq<string>,
                    created: seq<string>, names: seq<string>, r: seq<Tag>)
    requires flat == FlatMap(TagsOf, AllPosts(posts))
    requires created == CreatedKeys(flat) && names == OwnKeyOrder(created)
    requires r == TagEntries(slug, names, flat)
    ensures forall i, j :: 0 <= i < j < |r| ==> r[i].name != r[j].name
    ensures forall t | t in r ::
      && t.slug == slug(t.name)
      && t.count == multiset(FlatMap(TagsOf, posts))[t.name]
      && t.count >= 1
    ensures (set t | t in r :: t.name) == set n | n in FlatMap(TagsOf, posts)
    ensures TotalCount(r) == |FlatMap(TagsOf, posts)|
    ensures forall i, j :: 0 <= i < j < |r| && IsArrayIndex(r[j].name) ==>
      IsArrayIndex(r[i].name) && DecimalValue(r[i].name) <= DecimalValue(r[j].name)
    ensures forall i, j :: 0 <= i < j < |r| && !IsArrayIndex(r[i].name) && !IsArrayIndex(r[j].name) ==>
      FirstIndex(Id, flat, r[i].name) < FirstIndex(Id, flat, r[j].name)
  {
    var used := FlatMap(TagsOf, posts);
    FlatMapPermutation(TagsOf, AllPosts(posts), posts);
    CreatedKeysSpec(flat);
    OwnKeyOrderProperties(created, FirstSeen(flat));
    NamesAreUsed(flat, created, names, used);
    TagEntriesRecords(slug, names, flat, used);
    TagEntriesNames(slug, names, flat, used);
    TagEntriesOrder(slug, names, flat);
    TotalCountOfEntries(slug, names, flat);
    CountSumOfDistinct(names, flat);
    assert |flat| == |multiset(flat)| == |multiset(used)| == |used|;
  }

  /** Each tag has its name's slug and its name's number of uses, at least one. */
  lemma TagEntriesRecords(slug: string -> string, names: seq<string>, flat: seq<string>, used: seq<string>)
    requires multiset(flat) == multiset(used)
    requires forall n :: n in names ==> n in flat
    ensures forall t | t in TagEntries(slug, names, flat) ::
      t.slug == slug(t.name) && t.count == multiset(used)[t.name] && t.count >= 1
  {
    var r := TagEntries(slug, names, flat);
    forall t | t in r ensures t.slug == slug(t.name) && t.count == multiset(used)[t.name] && t.count >= 1 {
      var i :| 0 <= i < |r| && r[i] == t;
      assert names[i] in names;
      assert names[i] in multiset(flat);
    }
  }

  lemma TagEntriesNames(slug: string -> string, names: seq<string>, flat: seq<string>, used: seq<string>)
    requires forall n :: n in names <==> n in used
    ensures (set t | t in TagEntries(slug, names, flat) :: t.name) == set n | n in used
  {
    var r := TagEntries(slug, names, flat);
    forall n | n in names ensures n in (set t | t in r :: t.name) {
      var i :| 0 <= i < |names| && names[i] == n;
      assert r[i] in r;
    }
  }

  /** The tags come in the order of their names, which are distinct. */
  lemma TagEntriesOrder(slug: string -> string, names: seq<string>, flat: seq<string>)
    requires Distinct(names)
    requires forall i, j :: 0 <= i < j < |names| && IsArrayIndex(names[j]) ==>
      IsArrayIndex(names[i]) && DecimalValue(names[i]) <= DecimalValue(names[j])
    requires forall i, j :: 0 <= i < j < |names| && !IsArrayIndex(names[i]) && !IsArrayIndex(names[j]) ==>
      FirstSeen(flat)(names[i]) < FirstSeen(flat)(names[j])
    ensures var r := TagEntries(slug, names, flat);
      && (forall i, j :: 0 <= i < j < |r| ==> r[i].name != r[j].name)
      && (forall i, j :: 0 <= i < j < |r| && IsArrayIndex(r[j].name) ==>
            IsArrayIndex(r[i].name) && DecimalValue(r[i].name) <= DecimalValue(r[j].name))
      && (forall i, j :: 0 <= i < j < |r| && !IsArrayIndex(r[i].name) && !IsArrayIndex(r[j].name) ==>
            FirstIndex(Id, flat, r[i].name) < FirstIndex(Id, flat, r[j].name))
  {
    var r := TagEntries(slug, names, flat);
    forall i, j | 0 <= i < j < |r| && !IsArrayIndex(r[i].name) && !IsArrayIndex(r[j].name)
      ensures FirstIndex(Id, flat, r[i].name) < FirstIndex(Id, flat, r[j].name)
    {
      assert FirstSeen(flat)(names[i]) < FirstSeen(flat)(names[j]);
    }
  }

  /** The enumerated keys are exactly the tag names used. */
  lemma NamesAreUsed(flat: seq<string>, created: seq<string>, names: seq<string>, used: seq<string>)
    requires forall n :: n in created <==> n in flat
    requires multiset(names) == multiset(created)
    requires multiset(flat) == multiset(used)
    ensures forall n :: n in names <==> n in flat
    ensures forall n :: n in names <==> n in used
  {
    forall n ensures n in names <==> n in flat {
      assert n in names <==> n in multiset(names);
      assert n in created <==> n in multiset(created);
    }
    forall n ensures n in flat <==> n in used {
      assert n in flat <==> n in multiset(flat);
      assert n in used <==> n in multiset(used);
    }
  }

  // ------------------------------------------------------------------- example

  /** Two posts, on 2023-01-01 and 2023-06-01 (UTC), sharing the tag "x". */
  function TwoPosts(): seq<Post> {
    [Post("first", 1672531200000, "A", ["x"]), Post("second", 1685577600000, "B", ["x", "y"])]
  }

  lemma TwoPostsSorted()
    ensures AllPosts(TwoPosts()) == TwoPosts()
  {
    var posts := TwoPosts();
    assert posts[1..][1..] == [];
    assert SortBy(Date, posts[1..]) == posts[1..];
  }

  lemma TwoPostsCreatedKeys()
    ensures CreatedKeys(["x", "x", "y"]) == ["x", "y"]
  {
    var flat := ["x", "x", "y"];
    assert flat[..2] == ["x", "x"] && flat[..2][..1] == ["x"] && ["x"][..0] == [];
    assert KeySet(Id, ["x"]) == {"x"} by {
      assert Id("x") == "x";
    }
    assert UniqBy(Id, ["x"]) == ["x"];
    assert UniqBy(Id, ["x", "x"]) == ["x"];
  }

  lemma TwoPostsKeyOrder()
    ensures OwnKeyOrder(["x", "y"]) == ["x", "y"]
  {
    assert !IsArrayIndex("x") && !IsArrayIndex("y");
    assert Filter(IsArrayIndex, ["x", "y"]) == [];
    assert Filter(NotArrayIndex, ["x", "y"]) == ["x", "y"];
  }

  /** The tags of `TwoPosts` with slugs taken as the names themselves. */
  lemma TwoPostsTags()
    ensures AllTags(TwoPosts(), Id) == [Tag("x", "x", 2), Tag("y", "y", 1)]
  {
    var flat := ["x", "x", "y"];
    TwoPostsSorted();
    assert FlatMap(TagsOf, TwoPosts()) == flat;
    TwoPostsCreatedKeys();
    TwoPostsKeyOrder();
    assert AllTags(TwoPosts(), Id) == TagEntries(Id, ["x", "y"], flat);
    TwoPostsEntries();
  }

  lemma TwoPostsEntries()
    ensures TagEntries(Id, ["x", "y"], ["x", "x", "y"]) == [Tag("x", "x", 2), Tag("y", "y", 1)]
  {
    var flat := ["x", "x", "y"];
    assert multiset(flat)["x"] == 2 && multiset(flat)["y"] == 1;
    assert ["x", "y"][1..] == ["y"] && ["y"][1..] == [];
  }

  lemma TwoPostsGroups()
    ensures CategoryGroup(TwoPosts(), "A") == [TwoPosts()[0]]
    ensures CategoryGroup(TwoPosts(), "B") == [TwoPosts()[1]]
  {
    var posts := TwoPosts();
    assert Filter(HasCategory("A"), posts) == [posts[0]];
    assert SortBy(Recency, [posts[0]]) == [posts[0]];
    assert Filter(HasCategory("B"), posts) == [posts[1]];
    assert SortBy(Recency, [posts[1]]) == [posts[1]];
  }

  lemma TwoPostsCategoryNames()
    ensures (set p | p in TwoPosts() :: p.category) == {"A", "B"}
  {
    var posts := TwoPosts();
    assert posts[0] in posts && posts[1] in posts;
  }

  /** Each category of `TwoPosts` lists its one post. */
  lemma TwoPostsCategories()
    ensures var m := CategoriesWithPosts(TwoPosts());
      m.Keys == {"A", "B"} && m["A"] == [TwoPosts()[0]] && m["B"] == [TwoPosts()[1]]
  {
    TwoPostsSorted();
    TwoPostsGroups();
    TwoPostsCategoryNames();
  }
}
