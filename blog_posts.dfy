/** The blog post controller (Controllers/BlogPostsController.cs): the paged listing, update and
    creation with derived slugs, and deletion of a single post. */
module BlogPostsController {
  import opened Entities
  import opened Tables
  import opened Slugs
  import opened SlugTables
  import opened Pagination
  import opened Listing
  import opened Data

  function Posted(b: BlogPost): int { b.datePosted }
  function Title(b: BlogPost): string { b.title }
  function StoredSlug(b: BlogPost): string { b.slug }

  function Everything(b: BlogPost): bool { true }

  /** GetBlogPost (the list): every post, newest first, one page of them; the header counts all
      posts. */
  function GetBlogPost(posts: seq<BlogPost>, pageNumber: int, pageSize: int): (r: Listed<BlogPost>)
    requires pageNumber >= 1 && pageSize >= 1
    ensures r.pagination.totalCount == |posts| && r.pagination.currentPage == pageNumber
    ensures |r.rows| <= pageSize
    ensures forall i :: 0 <= i < |r.rows| ==> r.rows[i] in posts
    ensures SortedDesc(r.rows, Posted)
    ensures r.rows == Page(SortDesc(posts, Posted), pageNumber, pageSize)
    ensures r.pagination == Create(|posts|, pageNumber, pageSize)
  {
    WhereEverything(posts, Everything);
    Select(posts, Everything, Posted, pageNumber, pageSize)
  }

  /** PutBlogPost on the post table: the id check, then the body with its slug recomputed from
      its title and the id replaces the stored post. */
  function UpdatePost(posts: seq<BlogPost>, id: int, b: BlogPost): (r: (Status, seq<BlogPost>))
    ensures r.0 == Ok || r.0 == BadRequest || r.0 == NotFound
    ensures r.0 == BadRequest <==> id != b.id
    ensures r.0 == NotFound <==> id == b.id && forall i :: 0 <= i < |posts| ==> posts[i].id != id
    ensures r.0 != Ok ==> r.1 == posts
    ensures |r.1| == |posts|
    ensures r.0 == Ok ==> exists k :: 0 <= k < |posts| && posts[k].id == id
                                      && r.1 == posts[k := b.(slug := Slug(b.title, id))]
  {
    Update(posts, BlogPostId, id, b.(slug := Slug(b.title, id)))
  }

  /** An update keeps every stored slug derived from its own row, whatever slug the body carried,
      and so keeps all slugs distinct. */
  lemma UpdatePostKeepsSlugs(posts: seq<BlogPost>, id: int, b: BlogPost)
    requires SlugsDerived(posts, Title, BlogPostId, StoredSlug) && UniqueKeys(posts, BlogPostId)
    requires KeysNatural(posts, BlogPostId)
    ensures SlugsDerived(UpdatePost(posts, id, b).1, Title, BlogPostId, StoredSlug)
    ensures UniqueKeys(UpdatePost(posts, id, b).1, StoredSlug)
  {
    var k := IndexOf(posts, BlogPostId, id);
    if id == b.id && k >= 0 {
      ReplaceKeepsSlugs(posts, k, b.(slug := Slug(b.title, id)), Title, BlogPostId, StoredSlug);
    } else {
      DerivedSlugsUnique(posts, Title, BlogPostId, StoredSlug);
    }
  }

  /** PostBlogPost on the post table: the post is stored under the key the store draws, and a
      second save sets its slug from the title and that key. */
  function AddPost(posts: seq<BlogPost>, b: BlogPost, newId: int): (r: seq<BlogPost>)
    ensures |r| == |posts| + 1 && r[..|posts|] == posts
    ensures r[|posts|].id == newId && r[|posts|].slug == Slug(b.title, newId)
    ensures r[|posts|] == b.(id := newId, slug := r[|posts|].slug)
  {
    var stored := posts + [b.(id := newId)];
    stored[|posts| := b.(id := newId, slug := Slug(b.title, newId))]
  }

  /** A create under a fresh key keeps every stored slug derived and all slugs distinct. */
  lemma AddPostKeepsSlugs(posts: seq<BlogPost>, b: BlogPost, newId: int)
    requires SlugsDerived(posts, Title, BlogPostId, StoredSlug) && UniqueKeys(posts, BlogPostId)
    requires KeysNatural(posts, BlogPostId)
    requires newId >= 0 && forall i :: 0 <= i < |posts| ==> posts[i].id != newId
    ensures SlugsDerived(AddPost(posts, b, newId), Title, BlogPostId, StoredSlug)
    ensures UniqueKeys(AddPost(posts, b, newId), BlogPostId)
    ensures UniqueKeys(AddPost(posts, b, newId), StoredSlug)
  {
    var x := b.(id := newId, slug := Slug(b.title, newId));
    assert AddPost(posts, b, newId) == posts + [x];
    InsertKeepsSlugs(posts, x, Title, BlogPostId, StoredSlug);
  }

  /** DeleteBlogPost on the post table: NotFound when no post has the id, otherwise the post
      found is removed. */
  function RemovePost(posts: seq<BlogPost>, id: int): (r: (Status, seq<BlogPost>))
    ensures r.0 == Ok || r.0 == NotFound
    ensures r.0 == NotFound <==> forall i :: 0 <= i < |posts| ==> posts[i].id != id
    ensures r.0 == NotFound ==> r.1 == posts
    ensures r.0 == Ok ==> |r.1| == |posts| - 1
  {
    var k := IndexOf(posts, BlogPostId, id);
    if k < 0 then (NotFound, posts) else (Ok, RemoveAt(posts, k))
  }

  /** A delete removes exactly the post asked for: every other post stays, and with unique keys
      none under the id is left. */
  lemma RemovePostExactly(posts: seq<BlogPost>, id: int)
    requires RemovePost(posts, id).0 == Ok
    ensures forall b :: b in posts && b.id != id ==> b in RemovePost(posts, id).1
    ensures UniqueKeys(posts, BlogPostId) ==> forall b :: b in RemovePost(posts, id).1 ==> b.id != id
  {
    RemoveFoundKeepsOthers(posts, BlogPostId, id);
  }

  method PutBlogPost(db: Database, id: int, b: BlogPost) returns (status: Status)
    requires db.Valid()
    modifies db`blogPosts
    ensures (status, db.blogPosts) == UpdatePost(old(db.blogPosts), id, b)
    ensures db.Valid()
  {
    if id != b.id {
      return BadRequest;
    }
    var stored := b.(slug := Slug(b.title, id));
    var k := IndexOf(db.blogPosts, BlogPostId, id);
    if k < 0 {
      return NotFound;
    }
    KeysBelowSameKeys(db.blogPosts, db.blogPosts[k := stored], BlogPostId, db.nextId);
    db.SaveBlogPosts(db.blogPosts[k := stored]);
    status := Ok;
  }

  /** The rows after PostBlogPost's two saves: their keys stay below the moved generator, and a
      store whose slugs are derived and distinct stays so. */
  lemma AddedUnderFreshKey(posts: seq<BlogPost>, b: BlogPost, id: int, saved: seq<BlogPost>)
    requires id >= 1 && KeysBelow(posts, BlogPostId, id)
    requires saved == (posts + [b.(id := id)])[|posts| := b.(id := id, slug := Slug(b.title, id))]
    ensures saved == AddPost(posts, b, id)
    ensures KeysBelow(saved, BlogPostId, id + 1)
    ensures SlugsDerived(posts, Title, BlogPostId, StoredSlug) && UniqueKeys(posts, BlogPostId) ==>
              && SlugsDerived(saved, Title, BlogPostId, StoredSlug)
              && UniqueKeys(saved, BlogPostId) && UniqueKeys(saved, StoredSlug)
  {
    var x := b.(id := id, slug := Slug(b.title, id));
    assert saved == posts + [x];
    BoundIsFresh(posts, BlogPostId, id);
    KeysBelowAppend(posts, BlogPostId, id, x);
    if SlugsDerived(posts, Title, BlogPostId, StoredSlug) && UniqueKeys(posts, BlogPostId) {
      AddPostKeepsSlugs(posts, b, id);
    }
  }

  /** The identity column hands out a key no stored post has, so a store whose slugs are derived
      and distinct stays so. */
  method PostBlogPost(db: Database, b: BlogPost) returns (status: Status)
    requires db.Valid()
    modifies db`blogPosts, db`nextId
    ensures db.nextId == old(db.nextId) + 1
    ensures db.blogPosts == AddPost(old(db.blogPosts), b, old(db.nextId))
    ensures status == Created
    ensures db.Valid()
    ensures SlugsDerived(old(db.blogPosts), Title, BlogPostId, StoredSlug) && UniqueKeys(old(db.blogPosts), BlogPostId) ==>
              && SlugsDerived(db.blogPosts, Title, BlogPostId, StoredSlug)
              && UniqueKeys(db.blogPosts, BlogPostId) && UniqueKeys(db.blogPosts, StoredSlug)
  {
    var posts := db.blogPosts;
    var id := db.NewKey();
    var added := posts + [b.(id := id)];
    var slug := Slug(b.title, id);
    var saved := added[|added| - 1 := b.(id := id, slug := slug)];
    AddedUnderFreshKey(posts, b, id, saved);
    db.SaveBlogPosts(saved);
    status := Created;
  }

  /** Only the post table changes: comments and stars of the post stay as they are. */
  method DeleteBlogPost(db: Database, id: int) returns (status: Status)
    requires db.Valid()
    modifies db`blogPosts
    ensures (status, db.blogPosts) == RemovePost(old(db.blogPosts), id)
    ensures db.Valid()
  {
    var k := IndexOf(db.blogPosts, BlogPostId, id);
    if k < 0 {
      return NotFound;
    }
    KeysBelowRemoveAt(db.blogPosts, BlogPostId, db.nextId, k);
    db.SaveBlogPosts(RemoveAt(db.blogPosts, k));
    status := Ok;
  }
}
