# Blog post queries

A model of the post query helpers of a static blog (`src/posts.ts`). The
helpers are read-only views over the collection of posts held by the
content store. Each post has a title, a date, a category and a list of tags.

- `getAllPosts` sorts the collection by ascending date.
- `getLatestPosts` takes the first ten posts of that order.
- `getCategoriesWithPosts` groups the posts by category. It keeps the five
  newest posts of each group, newest first.
- `getAllCategories` lists one category per distinct slug.
- `getPostsByCategory` and `getPostsByTag` select posts from the date
  order.
- `getAllTags` counts how often each tag is used.

How the model stands in for the source:

- The collection is an input `seq<Post>`, in the order the store yields it.
- A date is its timestamp in milliseconds, an `int`.
- `slugify` is a function parameter `slug: string -> string`. Nothing is
  assumed about it, not even that it is injective.
- The model is pure, like the source. Every helper is a function whose
  contract states what it returns, with lemmas beside it.

Modules:

- `Seqs` (`seqs.dfy`) holds the sequence steps the lodash pipelines are made
  of: `filter`, `take`, `flatMap`, `uniqBy`, and the counts `countBy`
  produces.
- `StableSort` (`stable_sort.dfy`) is one stable insertion sort.
  It stands for both `Array.prototype.sort` (stable since ECMAScript 2019)
  and lodash `orderBy`.
  `StableSort.StableSortUnique` proves that every stable sort by the same key
  gives the same result, so the choice of algorithm cannot be observed.
  A descending order by date is the ascending order by the negated date.
- `JsKeys` (`js_keys.dfy`) models the order in which ECMAScript enumerates
  the keys of an ordinary object (OrdinaryOwnPropertyKeys, section 10.1.11.1
  of ECMA-262). Keys that are array indices come first, in ascending numeric
  order. The other keys follow in the order they were created. This order
  decides the order of the `getAllTags` result, because lodash `map` walks
  the `countBy` object in it.
- `Posts` (`posts.dfy`) holds the records and the seven helpers.

Two points where the code does something other than what a reader might
expect:

- Tag names that are array indices (such as "2023") come first, in numeric
  order. Only the other names keep first-seen order.
- The name `getLatestPosts` suggests the newest posts. As written, it
  returns the ten oldest (see Findings).

## Model

| member | source | states |
|---|---|---|
| Posts.AllPosts | src/posts.ts:9-13 | the result is a permutation of the collection, ordered by ascending date; posts with equal dates keep their collection order |
| Posts.AllPostsUnique | src/posts.ts:10-12 | any ordering by ascending date that keeps equal dates in collection order equals `AllPosts`, so the result does not depend on the sorting algorithm |
| Posts.AllPostsIdempotent | src/posts.ts:10-12 | sorting the result of `AllPosts` again gives it back unchanged, so a collection an earlier call sorted in place yields the same order |
| StableSort.SortBy | src/posts.ts:10-12 | the stable sort standing for `Array.prototype.sort` and lodash `orderBy` (also at src/posts.ts:24); its properties are stated by `StableSort.SortByIsStableSort` and `StableSort.StableSortUnique` |
| Seqs.Take | src/posts.ts:16 | `slice(0, n)` and lodash `take(n)` (also at src/posts.ts:25): min(n, length) elements, a prefix of the input |
| Posts.CategoryGroup | src/posts.ts:21-26 | the list `groupBy` then `mapValues(orderBy(date, 'desc'), take(5))` keeps for one category: the five most recent posts of that category, newest first (its use on `AllPosts` is `Posts.CategoryGroupSpec`) |
| Posts.CategoryEntries | src/posts.ts:33 | lodash `map` of each post to `{ slug: slug(category), name: category }`, one entry per post in position; its slugs are related to the posts by `Posts.CategoryEntriesKeys` |
| Seqs.UniqBy | src/posts.ts:34 | lodash `uniqBy`; its properties are stated by `Seqs.UniqByKeys` and `Seqs.UniqByFirst` |
| Seqs.Filter | src/posts.ts:40 | lodash `filter` (also at src/posts.ts:54); its properties are stated by `Seqs.FilterMultiset`, `Seqs.FilterIsSubseq` and `Posts.SelectionSpec` |
| Seqs.FlatMap | src/posts.ts:46 | lodash `flatMap` over the posts' tag lists; `Seqs.FlatMapPermutation` shows the multiset of tags does not depend on the post order |
| Posts.CreatedKeys | src/posts.ts:47 | the keys `countBy` creates, in creation order; stated by `Posts.CreatedKeysSpec` |
| JsKeys.OwnKeyOrder | src/posts.ts:47-48 | the order in which lodash `map` walks the keys of the `countBy` object; stated by `JsKeys.OwnKeyOrderProperties` |
| Posts.TagEntries | src/posts.ts:48 | lodash `map` with `(count, name) => ({ slug: slug(name), name, count })`, one tag per key in position; stated by `Posts.TagEntriesRecords`, `Posts.TagEntriesNames` and `Posts.TagEntriesOrder` |
| StableSort.SortByIsStableSort | src/posts.ts:10-12 | the insertion sort is sorted by its key, is a permutation of its input, and keeps elements with equal keys in input order |
| StableSort.StableSortUnique | src/posts.ts:10-12 | every stable sort of a sequence by a key equals `SortBy` by that key |
| Posts.LatestPosts | src/posts.ts:15-17 | min(10, n) posts; a prefix of `AllPosts`; no post it leaves out is older than a post it keeps |
| Posts.LatestPostsAreNotTheNewest | src/posts.ts:16 | for eleven posts on successive dates, the result omits the newest post and is not the ten most recent posts |
| Posts.NewestPosts | src/posts.ts:15-17 | the ten most recent posts (all of them if fewer), newest first; equal dates are taken and listed in collection order |
| Posts.MostRecent | src/posts.ts:23-26 | `orderBy(date, 'desc')` then `take(n)`: min(n, length) posts drawn from the input, newest first; none left out is newer than one kept; equal dates keep their input order |
| Posts.IsMostRecentTransfer | src/posts.ts:20-26 | being the n newest posts of a group carries over to any sequence with the same posts and the same order among equal dates |
| Posts.FilterOfAllPosts | src/posts.ts:20-21 | selecting posts from `AllPosts` gives `AllPosts` of the selected posts: selection commutes with the date sort |
| Posts.CategoryGroupMembers | src/posts.ts:20-26 | the list kept for a category that occurs has at least one post, and every post in it has that category |
| Posts.CategoryGroupSpec | src/posts.ts:20-26 | the list kept for a category is its five most recent posts among the collection's posts of that category, newest first, non-empty |
| Posts.CategoriesWithPosts | src/posts.ts:19-29 | the keys are exactly the categories of the posts; each list is non-empty, holds only posts of that category, and is that category's five most recent posts, newest first |
| Posts.SelectionSpec | src/posts.ts:38-42 | a selection from `AllPosts` holds every selected post as often as the collection does and nothing else; it is ordered by date, is a subsequence of `AllPosts`, and is empty exactly when no post is selected |
| Posts.PostsByCategory | src/posts.ts:38-42 | exactly the posts whose category equals the category's name, each as often as in the collection, in `AllPosts` order; empty exactly when no post has that category |
| Posts.PostsByTag | src/posts.ts:52-56 | exactly the posts whose tags include the tag's name, each as often as in the collection, in `AllPosts` order; empty exactly when no post has that tag |
| Seqs.FilterIsSubseq | src/posts.ts:40 | a filter result is a subsequence of its input |
| Seqs.FilterMultiset | src/posts.ts:40 | a filter keeps every occurrence of a selected value and none of the others |
| Seqs.UniqByKeys | src/posts.ts:34 | `uniqBy` keeps no key twice and keeps every key of its input |
| Seqs.UniqByFirst | src/posts.ts:34 | each element `uniqBy` keeps is the first input element with its key, and the kept elements are in the order of those first occurrences |
| Posts.CategoryEntriesKeys | src/posts.ts:33 | the mapped entries' slugs are the posts' category slugs, position by position, so they have the same first occurrences and the same set of slugs |
| Posts.AllCategoriesSlugs | src/posts.ts:32-35 | the slugs kept by `uniqBy` are exactly the category slugs of the collection |
| Posts.AllCategories | src/posts.ts:31-36 | no two entries share a slug; each slug is `slug(name)`; the slugs are exactly the posts' category slugs; each entry is named after the category of the first post in date order with that slug; entries come in the order of those posts |
| Seqs.FlatMapPermutation | src/posts.ts:46 | reordering the posts does not change the multiset of their tags |
| Posts.CreatedKeysSpec | src/posts.ts:47 | `countBy` creates one key per distinct tag name, in the order of first use |
| JsKeys.OwnKeyOrderProperties | src/posts.ts:47-48 | the object's enumeration lists each created key once; array-index keys come first in ascending value; the other keys keep their creation order |
| Seqs.CountSumOfDistinct | src/posts.ts:47 | adding up the counts of the distinct values of a sequence gives its length |
| Posts.TotalCountOfEntries | src/posts.ts:47-48 | the counts of the tag records add up to the occurrence counts of their names |
| Posts.TagEntriesRecords | src/posts.ts:48 | each tag record's slug is `slug(name)`; its count is the number of uses of its name, at least one |
| Posts.TagEntriesNames | src/posts.ts:48 | the tag records' names are exactly the enumerated keys |
| Posts.TagEntriesOrder | src/posts.ts:48 | the tag records keep the order of the enumerated keys, which are distinct |
| Posts.AllTagsSpec | src/posts.ts:44-50 | all the `AllTags` properties, for the pipeline's intermediate values |
| Posts.AllTags | src/posts.ts:44-50 | the names are distinct and are exactly the tags used; each count is the name's number of uses, at least one; each slug is `slug(name)`; the counts add up to the total number of tag uses; array-index names come first in ascending value, and the other names in order of first use over `AllPosts` |
| Posts.TwoPostsTags | src/posts.ts:44-50 | for two posts tagged ["x"] and ["x", "y"], the tags are x with count 2, then y with count 1 |
| Posts.TwoPostsCategories | src/posts.ts:19-29 | for the same two posts, in categories "A" and "B", each category lists its one post |

## Left out

- `getCollection('posts')` and the `async`/`Promise` plumbing: content-store I/O. The model takes the collection as the parameter `posts`.
- The internals of `slugify` (a foreign library): it is the function parameter `slug`.
- The lodash `chain` wrapper mechanics: only the sequence each pipeline produces is modelled.
- Post fields other than title, date, category and tags (entry id, body, rendering): no helper reads them.
- The schema in `src/content/config.ts`, including its runtime date coercion: it is a foreign validation library. So invalid dates (`NaN` timestamps, which would break the sort comparator) are not modelled; every date is an integer.
- The in-place reordering by `Array.prototype.sort`: the model returns the sorted permutation as a new value. The store may hand out a shared array that an earlier call already sorted in place. Every helper sorts again, and a stable sort of an already sorted collection changes nothing (`Posts.AllPostsIdempotent`). So the helpers' results do not depend on that sharing.
- Posts.CategoriesWithPosts: returns a map, so the enumeration order of the keys of the JS object `groupBy` builds is not modelled.
- Posts.AllTags: a tag literally named "length" makes lodash treat the `countBy` object as array-like. The values `map` then visits are not those of a plain object. This is not modelled: the contract describes a plain object's enumeration.
- `colors.js`, `tailwind.config.mjs`, `tailwind.config.js`, `astro.config.mjs`: static tables and build configuration with no behaviour.
- `js/main.js`: UI wiring (an event hook and a scroll-progress widget).

## Findings

| source | as written | input that shows it | evidently intended | confidence | as-written member | corrected member |
|---|---|---|---|---|---|---|
| src/posts.ts:16 | `getLatestPosts` takes `slice(0, 10)` of the ascending date order, that is, the ten oldest posts, oldest first | eleven posts dated 0, 1, …, 10: the result leaves out the post dated 10 and starts with the post dated 0 | the ten most recent posts, newest first, the same shape as the per-category lists of `getCategoriesWithPosts` | medium (the name says latest; the code keeps the oldest); not executed | Posts.LatestPostsAreNotTheNewest | Posts.NewestPosts |
