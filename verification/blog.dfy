/**
 * The blog index's client-side filter (`src/app/blog/BlogIndexClient.tsx`):
 * a category menu and a case-insensitive search over title and excerpt.
 */
module Blog {
  import opened Text
  import opened Seqs
  import opened Catalogue

  /** The fields of a post the index uses. */
  datatype Post = Post(title: string, excerpt: string, slug: string, category: string)

  /** The category of a post, the key the menu is built from. */
  function PostCategory(p: Post): string { p.category }

  /**
   * `categories`: `'All'` and then each post's category; with an empty query,
   * every entry after `'All'` shows at least one post.
   */
  function Categories(posts: seq<Post>): (r: seq<string>)
    ensures |r| >= 1 && r[0] == All
    ensures forall i :: 0 <= i < |posts| ==> posts[i].category in r[1..]
    ensures forall j :: 1 <= j < |r| ==> |FilteredPosts(posts, r[j], "")| > 0
    ensures Distinct(r[1..])
  {
    var r := Menu(posts, PostCategory);
    assert forall j :: 1 <= j < |r| ==> |FilteredPosts(posts, r[j], "")| > 0 by {
      forall j | 1 <= j < |r| ensures |FilteredPosts(posts, r[j], "")| > 0 {
        var i :| 0 <= i < |posts| && PostCategory(posts[i]) == r[j];
        CategoryShowsItsPost(posts, i);
      }
    }
    r
  }

  predicate MatchesCategory(p: Post, category: string) {
    category == All || p.category == category
  }

  /** The lower-cased query occurs in the lower-cased title or excerpt. */
  predicate MatchesSearch(p: Post, query: string) {
    Contains(Lower(p.title), Lower(query)) || Contains(Lower(p.excerpt), Lower(query))
  }

  /** The callback given to `posts.filter`. */
  function KeepPost(category: string, query: string): Post -> bool {
    (p: Post) => MatchesCategory(p, category) && MatchesSearch(p, query)
  }

  /** `filteredPosts`. */
  function FilteredPosts(posts: seq<Post>, category: string, query: string): (r: seq<Post>)
    ensures IsSubseq(r, posts)
    ensures forall i :: 0 <= i < |r| ==> r[i] in posts && MatchesCategory(r[i], category) && MatchesSearch(r[i], query)
    ensures forall i :: 0 <= i < |posts| && MatchesCategory(posts[i], category) && MatchesSearch(posts[i], query) ==>
              posts[i] in r
    ensures forall p :: multiset(r)[p] ==
              if MatchesCategory(p, category) && MatchesSearch(p, query) then multiset(posts)[p] else 0
  {
    FilterIsSubseq(KeepPost(category, query), posts);
    FilterCounts(KeepPost(category, query), posts);
    Filter(KeepPost(category, query), posts)
  }

  /** `'All'` with an empty query shows every post. */
  lemma AllWithEmptyQueryShowsAll(posts: seq<Post>)
    ensures FilteredPosts(posts, All, "") == posts
  {
    forall i | 0 <= i < |posts| ensures KeepPost(All, "")(posts[i]) {
      ContainsEmpty(Lower(posts[i].title));
    }
    FilterKeepsAll(KeepPost(All, ""), posts);
  }

  /** Appending to the query only removes posts: the new result is carved out of the old one. */
  lemma LongerQueryShrinks(posts: seq<Post>, category: string, t: string, u: string)
    ensures FilteredPosts(posts, category, t + u) == Filter(KeepPost(category, t + u), FilteredPosts(posts, category, t))
    ensures IsSubseq(FilteredPosts(posts, category, t + u), FilteredPosts(posts, category, t))
    ensures |FilteredPosts(posts, category, t + u)| <= |FilteredPosts(posts, category, t)|
  {
    LowerConcat(t, u);
    forall i | 0 <= i < |posts| && KeepPost(category, t + u)(posts[i]) ensures KeepPost(category, t)(posts[i]) {
      var p := posts[i];
      if Contains(Lower(p.title), Lower(t) + Lower(u)) {
        ContainsPrefixOfNeedle(Lower(p.title), Lower(t), Lower(u));
      } else {
        ContainsPrefixOfNeedle(Lower(p.excerpt), Lower(t), Lower(u));
      }
    }
    FilterStronger(KeepPost(category, t), KeepPost(category, t + u), posts);
    FilterIsSubseq(KeepPost(category, t + u), FilteredPosts(posts, category, t));
  }

  /** A post's own category, with an empty query, shows that post. */
  lemma CategoryShowsItsPost(posts: seq<Post>, i: nat)
    requires i < |posts|
    ensures posts[i] in FilteredPosts(posts, posts[i].category, "")
  {
    ContainsEmpty(Lower(posts[i].title));
    assert MatchesSearch(posts[i], "");
  }
}
