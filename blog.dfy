/** The blog page (src/pages/BlogPage.tsx): a category menu derived from the
    posts, the active category the menu selects, the published posts under
    that category, and their split into one featured post and the rest.
    The posts come from an external store and are an argument here. */
module Blog {
  import opened Seqs

  const AllCategory: string := "All"
  const PublishedStatus: string := "published"
  const NoPublishedMessage: string := "No published articles available yet."

  /** A blog post, reduced to the fields the page's logic looks at (and the
      two it shows). */
  datatype Post = Post(id: string, title: string, status: string, categories: seq<string>)

  /** JavaScript truthiness of the active category: `null` and `''` are false. */
  predicate Truthy(category: Option<string>) {
    category.Some? && category.value != ""
  }

  // ----- The category menu -----

  /** `posts.flatMap(post => post.categories)`. */
  function AllCategories(posts: seq<Post>): (r: seq<string>)
    ensures forall c :: c in r <==> exists p :: p in posts && c in p.categories
  {
    if posts == [] then []
    else
      assert forall p :: p in posts <==> p == posts[0] || p in posts[1..];
      posts[0].categories + AllCategories(posts[1..])
  }

  /** `['All', ...Array.from(new Set(allCategories))]`: `'All'` first, then
      every category of every post once. */
  function CategoryMenu(posts: seq<Post>): (r: seq<string>)
    ensures |r| >= 1 && r[0] == AllCategory
    ensures NoDup(r[1..])
    ensures forall c :: c in r[1..] <==> exists p :: p in posts && c in p.categories
  {
    var cats := AllCategories(posts);
    var distinct := Dedup(cats);
    assert forall c :: c in distinct <==> c in cats by {
      forall c ensures c in distinct <==> c in cats {
        if c in distinct {
          var i :| 0 <= i < |distinct| && distinct[i] == c;
        }
        if c in cats {
          var i :| 0 <= i < |cats| && cats[i] == c;
        }
      }
    }
    assert ([AllCategory] + distinct)[1..] == distinct;
    [AllCategory] + distinct
  }

  /** After `'All'`, the menu lists categories in the order in which they
      first appear across the posts. */
  lemma CategoryMenuOrder(posts: seq<Post>)
    ensures forall i, j :: 1 <= i < j < |CategoryMenu(posts)| ==>
      CategoryMenu(posts)[i] in AllCategories(posts) && CategoryMenu(posts)[j] in AllCategories(posts) &&
      FirstIndex(AllCategories(posts), CategoryMenu(posts)[i]) < FirstIndex(AllCategories(posts), CategoryMenu(posts)[j])
  {
    var cats := AllCategories(posts);
    var menu := CategoryMenu(posts);
    assert menu == [AllCategory] + Dedup(cats);
    DedupFirstAppearance(cats);
    forall i, j | 1 <= i < j < |menu|
      ensures menu[i] in cats && menu[j] in cats && FirstIndex(cats, menu[i]) < FirstIndex(cats, menu[j])
    {
      assert menu[i] == Dedup(cats)[i - 1] && menu[j] == Dedup(cats)[j - 1];
    }
  }

  // ----- Choosing a category -----

  /** `category === 'All' ? null : category`. */
  function ActiveFor(category: string): (r: Option<string>)
    ensures r == None <==> category == AllCategory
    ensures r.Some? ==> r.value == category
  {
    if category == AllCategory then None else Some(category)
  }

  // ----- Filtering -----

  /** `posts.filter(post => post.status === 'published')`. */
  function Published(posts: seq<Post>): (r: seq<Post>)
    ensures forall p :: p in r <==> p in posts && p.status == PublishedStatus
  {
    if posts == [] then []
    else if posts[0].status == PublishedStatus then [posts[0]] + Published(posts[1..])
    else Published(posts[1..])
  }

  /** `posts.filter(post => post.categories.includes(category))`. */
  function InCategory(posts: seq<Post>, category: string): (r: seq<Post>)
    ensures forall p :: p in r <==> p in posts && category in p.categories
  {
    if posts == [] then []
    else if category in posts[0].categories then [posts[0]] + InCategory(posts[1..], category)
    else InCategory(posts[1..], category)
  }

  /** `getFilteredPosts`: the published posts, narrowed to the active
      category when one is set (a falsy or `'All'` category sets none). */
  function GetFilteredPosts(posts: seq<Post>, activeCategory: Option<string>): (r: seq<Post>)
    ensures forall p :: p in r ==> p in posts && p.status == PublishedStatus
    ensures !Truthy(activeCategory) || activeCategory.value == AllCategory ==> r == Published(posts)
    ensures Truthy(activeCategory) && activeCategory.value != AllCategory ==>
      forall p :: p in r <==> p in posts && p.status == PublishedStatus && activeCategory.value in p.categories
  {
    var published := Published(posts);
    if !Truthy(activeCategory) || activeCategory.value == AllCategory then published
    else InCategory(published, activeCategory.value)
  }

  /** Whether a post belongs on the page for the given active category. */
  predicate Selected(p: Post, activeCategory: Option<string>) {
    p.status == PublishedStatus &&
    (Truthy(activeCategory) && activeCategory.value != AllCategory ==> activeCategory.value in p.categories)
  }

  lemma FilteredCons(posts: seq<Post>, activeCategory: Option<string>)
    requires posts != []
    ensures GetFilteredPosts(posts, activeCategory) ==
      (if Selected(posts[0], activeCategory) then [posts[0]] else []) + GetFilteredPosts(posts[1..], activeCategory)
  {
    var p, rest := posts[0], posts[1..];
    if p.status == PublishedStatus {
      assert Published(posts) == [p] + Published(rest);
      assert ([p] + Published(rest))[1..] == Published(rest);
    }
  }

  /** The filtered posts are exactly the selected posts, each as often as it
      occurs in `posts`, in their original order. */
  lemma {:induction false} FilteredPostsSpec(posts: seq<Post>, activeCategory: Option<string>)
    ensures forall p :: p in GetFilteredPosts(posts, activeCategory) <==> p in posts && Selected(p, activeCategory)
    ensures forall p :: multiset(GetFilteredPosts(posts, activeCategory))[p]
                          == if Selected(p, activeCategory) then multiset(posts)[p] else 0
    ensures IsSubseq(GetFilteredPosts(posts, activeCategory), posts)
    decreases |posts|
  {
    if posts != [] {
      var p, rest := posts[0], posts[1..];
      assert posts == [p] + rest;
      FilteredCons(posts, activeCategory);
      FilteredPostsSpec(rest, activeCategory);
      var r, r' := GetFilteredPosts(posts, activeCategory), GetFilteredPosts(rest, activeCategory);
      if Selected(p, activeCategory) {
        assert r[0] == p && r[1..] == r';
      } else if r != [] {
        assert r[0] in r';
        assert r[0] != p;
      }
    }
  }

  /** With no active category (null, empty or `'All'`) the page shows all
      published posts in their original order. */
  lemma UnfilteredIsPublished(posts: seq<Post>, activeCategory: Option<string>)
    requires !Truthy(activeCategory) || activeCategory.value == AllCategory
    ensures GetFilteredPosts(posts, activeCategory) == Published(posts)
    ensures forall p :: p in GetFilteredPosts(posts, activeCategory) <==> p in posts && p.status == PublishedStatus
  {
  }

  /** Choosing a menu entry: `'All'` (or the empty category) shows every
      published post, any other entry exactly the published posts tagged
      with it. */
  lemma ChooseCategory(posts: seq<Post>, category: string)
    ensures forall p :: p in GetFilteredPosts(posts, ActiveFor(category)) <==>
      p in posts && p.status == PublishedStatus &&
      (category != AllCategory && category != "" ==> category in p.categories)
  {
    FilteredPostsSpec(posts, ActiveFor(category));
  }

  // ----- Featured post and the rest -----

  /** `publishedPosts.slice(0, 1)`. */
  function FeaturedPosts(posts: seq<Post>): (r: seq<Post>)
    ensures |r| <= 1
    ensures |r| == 1 <==> posts != []
    ensures r == posts[..|r|]
  {
    if posts == [] then [] else posts[..1]
  }

  /** `publishedPosts.slice(1)`: everything after the featured post. */
  function RecentPosts(posts: seq<Post>): (r: seq<Post>)
    ensures FeaturedPosts(posts) + r == posts
  {
    if posts == [] then [] else posts[1..]
  }

  /** The message shown when nothing passes the filter: it names the active
      category when one is set, and says that nothing is published otherwise. */
  function NoPostsMessage(filtered: seq<Post>, activeCategory: Option<string>): (r: Option<string>)
    ensures r.Some? <==> filtered == []
    ensures r.Some? && Truthy(activeCategory) ==> Contains(r.value, activeCategory.value)
    ensures r.Some? && !Truthy(activeCategory) ==> r.value == NoPublishedMessage
  {
    if filtered != [] then None
    else if Truthy(activeCategory) then
      var prefix, category := "No articles found in the ", activeCategory.value;
      var message := prefix + category + " category.";
      assert message[|prefix|..|prefix| + |category|] == category;
      assert OccursAt(message, category, |prefix|);
      ContainsAt(message, category, |prefix|);
      Some(message)
    else Some(NoPublishedMessage)
  }

  /** The page's own state: the active category and the category menu. */
  class BlogPage {
    var activeCategory: Option<string>
    var categories: seq<string>

    constructor ()
      ensures activeCategory == None && categories == []
    {
      activeCategory := None;
      categories := [];
    }

    /** The effect that runs whenever `posts` changes. */
    method PostsChanged(posts: seq<Post>)
      modifies this`categories
      ensures categories == CategoryMenu(posts)
    {
      categories := CategoryMenu(posts);
    }

    /** `filterPostsByCategory`: the active category is never `'All'`. */
    method FilterPostsByCategory(category: string)
      modifies this`activeCategory
      ensures activeCategory == ActiveFor(category)
      ensures activeCategory != Some(AllCategory)
    {
      activeCategory := if category == AllCategory then None else Some(category);
    }

    /** What a render derives from the state: the featured post, the rest,
        and the message shown when there is nothing to show. */
    method Render(posts: seq<Post>) returns (featured: seq<Post>, recent: seq<Post>, emptyMessage: Option<string>)
      ensures |featured| <= 1
      ensures featured == FeaturedPosts(GetFilteredPosts(posts, activeCategory))
      ensures recent == RecentPosts(GetFilteredPosts(posts, activeCategory))
      ensures emptyMessage == NoPostsMessage(GetFilteredPosts(posts, activeCategory), activeCategory)
      ensures featured + recent == GetFilteredPosts(posts, activeCategory)
      ensures forall p :: p in featured + recent <==> p in posts && Selected(p, activeCategory)
      ensures emptyMessage.Some? <==> featured == [] && recent == []
    {
      var filtered := GetFilteredPosts(posts, activeCategory);
      FilteredPostsSpec(posts, activeCategory);
      featured := FeaturedPosts(filtered);
      recent := RecentPosts(filtered);
      emptyMessage := NoPostsMessage(filtered, activeCategory);
    }
  }
}
