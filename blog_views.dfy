/** The blog's views over in-memory post, tag and comment tables: the post list and its tag
    variants, the search, the author-only checks of the edit and delete views, and the
    comment views that bind a comment to its post and to the requesting user. */
module BlogViews {
  import opened Wrappers
  import Text
  import Ordering
  import BlogForms

  datatype Tag = Tag(id: nat, name: string, slug: string)

  /** A post; `tags` holds the ids of the tags attached to it. */
  datatype Post = Post(id: nat, title: string, content: string, publishedDate: int, author: nat, tags: set<nat>)

  /** A comment; `createdAt` and `updatedAt` are the `auto_now_add` and `auto_now` stamps. */
  datatype Comment = Comment(id: nat, post: nat, author: nat, content: string, createdAt: int, updatedAt: int)

  function PostKey(): Post -> nat {
    (p: Post) => p.id
  }

  function CommentKey(): Comment -> nat {
    (c: Comment) => c.id
  }

  /** Primary keys are unique. */
  predicate UniquePostIds(posts: seq<Post>) {
    Ordering.DistinctKeys(posts, PostKey())
  }

  // ---------------------------------------------------------------- listing

  /** `order_by('-published_date')`: newer first. */
  function NewerFirst(): (Post, Post) -> bool {
    (a: Post, b: Post) => a.publishedDate >= b.publishedDate
  }

  /** `PostListView.get_queryset`: every post, newest first, each once. */
  function PostList(posts: seq<Post>): (r: seq<Post>)
    ensures multiset(r) == multiset(posts)
  {
    Ordering.SortBy(posts, NewerFirst())
  }

  lemma NewerFirstIsTotal()
    ensures Ordering.TotalPreorder(NewerFirst())
  {
  }

  /** The post list is ordered by publication date, newest first, holds every post, and holds none twice. */
  lemma PostListOrdered(posts: seq<Post>)
    requires UniquePostIds(posts)
    ensures forall i, j :: 0 <= i < j < |PostList(posts)| ==> PostList(posts)[i].publishedDate >= PostList(posts)[j].publishedDate
    ensures forall p :: p in PostList(posts) <==> p in posts
    ensures Ordering.NoDuplicates(PostList(posts))
  {
    NewerFirstIsTotal();
    Ordering.SortBySorted(posts, NewerFirst());
    forall p ensures p in PostList(posts) <==> p in posts {
      Ordering.SortByMembers(posts, NewerFirst(), p);
    }
    Ordering.PermutationNoDuplicates(posts, PostList(posts));
  }

  function TagWithSlug(slug: string): Tag -> bool {
    (t: Tag) => t.slug == slug
  }

  /** The first tag with the given slug (`get_object_or_404(Tag, slug=...)`). */
  function FindTagBySlug(tags: seq<Tag>, slug: string): Option<Tag> {
    Ordering.FirstWhere(tags, TagWithSlug(slug))
  }

  function CarriesTag(tagId: nat): Post -> bool {
    (p: Post) => tagId in p.tags
  }

  /** `PostByTagListView.get_queryset`: with a slug, the ordered list narrowed to the posts
      carrying that tag, or NotFound for an unknown slug; without one, the whole ordered list. */
  function PostsByTagList(posts: seq<Post>, tags: seq<Tag>, slug: Option<string>): (r: Option<seq<Post>>)
    ensures slug.None? || slug.value == "" ==> r == Some(PostList(posts))
    ensures slug.Some? && slug.value != "" && FindTagBySlug(tags, slug.value).None? ==> r.None?
  {
    if slug.None? || slug.value == "" then Some(PostList(posts))
    else match FindTagBySlug(tags, slug.value)
      case None => None
      case Some(tag) => Some(Ordering.Filter(PostList(posts), CarriesTag(tag.id)))
  }

  /** A known slug keeps exactly the posts carrying that tag, newest first. */
  lemma PostsByTagListMembers(posts: seq<Post>, tags: seq<Tag>, slug: string, p: Post)
    requires slug != "" && FindTagBySlug(tags, slug).Some?
    ensures PostsByTagList(posts, tags, Some(slug)).Some?
    ensures p in PostsByTagList(posts, tags, Some(slug)).value
        <==> p in posts && FindTagBySlug(tags, slug).value.id in p.tags
  {
    var tag := FindTagBySlug(tags, slug).value;
    Ordering.FilterMembers(PostList(posts), CarriesTag(tag.id), p);
    Ordering.SortByMembers(posts, NewerFirst(), p);
  }

  /** `post_list_by_tag`: the posts carrying the tag, in store order, or NotFound. */
  function PostListByTag(posts: seq<Post>, tags: seq<Tag>, slug: string): (r: Option<seq<Post>>)
    ensures r.None? <==> FindTagBySlug(tags, slug).None?
    ensures r.Some? ==> forall i :: 0 <= i < |r.value| ==> FindTagBySlug(tags, slug).value.id in r.value[i].tags
  {
    match FindTagBySlug(tags, slug)
    case None => None
    case Some(tag) => Some(Ordering.Filter(posts, CarriesTag(tag.id)))
  }

  lemma PostListByTagMembers(posts: seq<Post>, tags: seq<Tag>, slug: string, p: Post)
    requires FindTagBySlug(tags, slug).Some?
    ensures p in PostListByTag(posts, tags, slug).value <==> p in posts && FindTagBySlug(tags, slug).value.id in p.tags
  {
    Ordering.FilterMembers(posts, CarriesTag(FindTagBySlug(tags, slug).value.id), p);
  }

  // ---------------------------------------------------------------- search

  /** Some tag attached to `p` has a name containing `q`, ignoring case (`tags__name__icontains`). */
  predicate TagNameMatches(tags: seq<Tag>, p: Post, q: string) {
    exists t :: t in tags && t.id in p.tags && Text.IContains(t.name, q)
  }

  function SearchMatches(tags: seq<Tag>, q: string): Post -> bool {
    (p: Post) => Text.IContains(p.title, q) || Text.IContains(p.content, q) || TagNameMatches(tags, p, q)
  }

  /** `post_search`: with no (or an empty) `q` every post; otherwise the posts whose title,
      content or some tag name contains `q`, ignoring case, each once. */
  function PostSearch(posts: seq<Post>, tags: seq<Tag>, q: Option<string>): (r: seq<Post>)
    ensures multiset(r) <= multiset(posts)
  {
    if q.None? || q.value == "" then posts
    else Ordering.Filter(posts, SearchMatches(tags, q.value))
  }

  lemma PostSearchNoQuery(posts: seq<Post>, tags: seq<Tag>)
    ensures PostSearch(posts, tags, None) == posts
    ensures PostSearch(posts, tags, Some("")) == posts
  {
  }

  /** A post is found exactly when one of the three criteria matches it. */
  lemma PostSearchMembers(posts: seq<Post>, tags: seq<Tag>, q: string, p: Post)
    requires q != ""
    ensures p in PostSearch(posts, tags, Some(q))
        <==> p in posts && (Text.IContains(p.title, q) || Text.IContains(p.content, q)
                             || exists t :: t in tags && t.id in p.tags && Text.IContains(t.name, q))
  {
    Ordering.FilterMembers(posts, SearchMatches(tags, q), p);
  }

  /** The search never returns a post twice, however many criteria or tags it matches. */
  lemma PostSearchDistinct(posts: seq<Post>, tags: seq<Tag>, q: Option<string>)
    requires UniquePostIds(posts)
    ensures Ordering.NoDuplicates(PostSearch(posts, tags, q))
  {
    if q.Some? && q.value != "" {
      Ordering.FilterNoDuplicates(posts, SearchMatches(tags, q.value));
    }
  }

  // ---------------------------------------------------------------- author-only views

  /** What `LoginRequiredMixin` and `UserPassesTestMixin` decide for an edit or delete view. */
  datatype Access = LoginRedirect | Refused | Granted

  /** `test_func` of the comment edit and delete views, behind the login check: only the
      object's author is let through. `None` is the anonymous user. */
  function OwnerAccess(user: Option<nat>, author: nat): (a: Access)
    ensures a == LoginRedirect <==> user.None?
    ensures a == Granted <==> user == Some(author)
  {
    if user.None? then LoginRedirect
    else if user.value == author then Granted
    else Refused
  }

  /** The post edit and delete views override `handle_no_permission` with a redirect to the
      post's own page. `LoginRequiredMixin` answers an anonymous user through that same
      method, so nobody is sent to log in: whoever is not the author is sent to the post. */
  function PostOwnerAccess(user: Option<nat>, author: nat): (a: Access)
    ensures a != LoginRedirect
    ensures a == Granted <==> user == Some(author)
  {
    if user == Some(author) then Granted else Refused
  }

  /** The post views differ from the comment views only for the anonymous user. */
  lemma PostAccessDiffersOnlyWhenAnonymous(user: Option<nat>, author: nat)
    ensures user.Some? ==> PostOwnerAccess(user, author) == OwnerAccess(user, author)
    ensures user.None? ==> PostOwnerAccess(user, author) == Refused && OwnerAccess(user, author) == LoginRedirect
  {
  }

  /** What a comment or post view answers. */
  datatype Outcome =
    | LoginRequired                 // redirect to the login page
    | NotFound                      // `get_object_or_404` / `get_object` found nothing
    | PermissionDenied              // `test_func` failed (403), or the post views' redirect to the post page
    | FormInvalid(error: BlogForms.CommentError)  // the form is shown again with its error
    | Done                          // the change was made

  /** `get_object_or_404(Post, pk=...)`: the post's position in the table. */
  function IndexOfPost(posts: seq<Post>, pk: nat): (r: Option<nat>)
    ensures r.Some? ==> r.value < |posts| && posts[r.value].id == pk
    ensures r.None? ==> forall i :: 0 <= i < |posts| ==> posts[i].id != pk
  {
    if posts == [] then None
    else if posts[0].id == pk then Some(0)
    else match IndexOfPost(posts[1..], pk)
      case None => None
      case Some(i) => Some(i + 1)
  }

  /** `get_object()` on the comment views: the comment's position in the table. This is the
      lookup of `IndexOfPost` over the comment table, written out for `Comment` rather than
      through the generic `Ordering.IndexWhere`, whose predicate argument makes the `Blog`
      methods costly to verify. */
  function IndexOfComment(comments: seq<Comment>, pk: nat): (r: Option<nat>)
    ensures r.Some? ==> r.value < |comments| && comments[r.value].id == pk
    ensures r.None? ==> forall i :: 0 <= i < |comments| ==> comments[i].id != pk
  {
    if comments == [] then None
    else if comments[0].id == pk then Some(0)
    else match IndexOfComment(comments[1..], pk)
      case None => None
      case Some(i) => Some(i + 1)
  }

  predicate UniqueCommentIds(comments: seq<Comment>) {
    Ordering.DistinctKeys(comments, CommentKey())
  }

  predicate CommentIdsBelow(comments: seq<Comment>, bound: nat) {
    forall i :: 0 <= i < |comments| ==> comments[i].id < bound
  }

  /** Appending a comment under the next id keeps ids unique and below the new bound. */
  lemma AppendKeepsCommentIds(comments: seq<Comment>, c: Comment, bound: nat)
    requires UniqueCommentIds(comments) && CommentIdsBelow(comments, bound) && c.id == bound
    ensures UniqueCommentIds(comments + [c]) && CommentIdsBelow(comments + [c], bound + 1)
  {
    var s := comments + [c];
    forall i | 0 <= i < |s| ensures s[i].id < bound + 1 {
      if i < |comments| {
        assert s[i] == comments[i];
      }
    }
    forall i, j | 0 <= i < j < |s| ensures CommentKey()(s[i]) != CommentKey()(s[j]) {
      assert s[i] == comments[i];
      if j < |comments| {
        assert s[j] == comments[j];
      }
    }
  }

  /** Changing one comment's content keeps the ids as they were. */
  lemma EditKeepsCommentIds(comments: seq<Comment>, i: nat, text: string, now: int, bound: nat)
    requires UniqueCommentIds(comments) && CommentIdsBelow(comments, bound) && i < |comments|
    ensures UniqueCommentIds(comments[i := comments[i].(content := text, updatedAt := now)])
    ensures CommentIdsBelow(comments[i := comments[i].(content := text, updatedAt := now)], bound)
  {
    var s := comments[i := comments[i].(content := text, updatedAt := now)];
    forall k | 0 <= k < |s| ensures s[k].id == comments[k].id {
    }
    forall a, b | 0 <= a < b < |s| ensures CommentKey()(s[a]) != CommentKey()(s[b]) {
      assert CommentKey()(comments[a]) != CommentKey()(comments[b]);
    }
  }

  /** Deleting a post with its comments keeps the ids sound, and leaves nothing that refers to it. */
  lemma CascadeKeepsIds(posts: seq<Post>, comments: seq<Comment>, pk: nat, bound: nat)
    requires UniquePostIds(posts) && UniqueCommentIds(comments) && CommentIdsBelow(comments, bound)
    ensures UniquePostIds(Ordering.Filter(posts, NotPost(pk)))
    ensures UniqueCommentIds(Ordering.Filter(comments, NotOnPost(pk)))
    ensures CommentIdsBelow(Ordering.Filter(comments, NotOnPost(pk)), bound)
    ensures forall i :: 0 <= i < |Ordering.Filter(posts, NotPost(pk))| ==> Ordering.Filter(posts, NotPost(pk))[i].id != pk
    ensures forall i :: 0 <= i < |Ordering.Filter(comments, NotOnPost(pk))| ==> Ordering.Filter(comments, NotOnPost(pk))[i].post != pk
  {
    var ps := Ordering.Filter(posts, NotPost(pk));
    var cs := Ordering.Filter(comments, NotOnPost(pk));
    Ordering.FilterDistinctKeys(posts, NotPost(pk), PostKey());
    Ordering.FilterDistinctKeys(comments, NotOnPost(pk), CommentKey());
    forall a | 0 <= a < |cs| ensures cs[a].id < bound {
      assert cs[a] in multiset(comments);
    }
    forall i | 0 <= i < |ps| ensures ps[i].id != pk {
      assert NotPost(pk)(ps[i]);
    }
    forall i | 0 <= i < |cs| ensures cs[i].post != pk {
      assert NotOnPost(pk)(cs[i]);
    }
  }

  function NotPost(pk: nat): Post -> bool {
    (p: Post) => p.id != pk
  }

  function NotOnPost(pk: nat): Comment -> bool {
    (c: Comment) => c.post != pk
  }

  function RemoveComment(comments: seq<Comment>, i: nat): seq<Comment>
    requires i < |comments|
  {
    comments[..i] + comments[i + 1..]
  }

  /** Removing one comment keeps the remaining ids unique and below the bound. */
  lemma RemoveKeepsCommentIds(comments: seq<Comment>, i: nat, bound: nat)
    requires UniqueCommentIds(comments) && CommentIdsBelow(comments, bound) && i < |comments|
    ensures UniqueCommentIds(RemoveComment(comments, i)) && CommentIdsBelow(RemoveComment(comments, i), bound)
  {
    var s := RemoveComment(comments, i);
    forall k | 0 <= k < |s| ensures k < i ==> s[k] == comments[k]
      ensures k >= i ==> s[k] == comments[k + 1]
    {
    }
    forall a, b | 0 <= a < b < |s| ensures CommentKey()(s[a]) != CommentKey()(s[b]) {
      var a' := if a < i then a else a + 1;
      var b' := if b < i then b else b + 1;
      assert s[a] == comments[a'] && s[b] == comments[b'];
      assert CommentKey()(comments[a']) != CommentKey()(comments[b']);
    }
  }

  /** The blog's post and comment tables. */
  class Blog {
    var posts: seq<Post>
    var comments: seq<Comment>
    var nextCommentId: nat

    ghost predicate Valid()
      reads this
    {
      && UniquePostIds(posts)
      && UniqueCommentIds(comments)
      && CommentIdsBelow(comments, nextCommentId)
    }

    constructor (posts: seq<Post>)
      requires UniquePostIds(posts)
      ensures Valid() && this.posts == posts && comments == []
    {
      this.posts := posts;
      comments := [];
      nextCommentId := 1;
    }

    /** `CommentCreateView`: the comment's post is the one named in the URL and its author
        is the requesting user, whatever the form instance held. */
    method AddComment(user: Option<nat>, postPk: nat, content: Option<string>, now: int) returns (o: Outcome)
      requires Valid()
      modifies this
      ensures Valid() && posts == old(posts)
      ensures user.None? ==>
        o == LoginRequired && comments == old(comments) && nextCommentId == old(nextCommentId)
      ensures user.Some? && IndexOfPost(posts, postPk).None? ==>
        o == NotFound && comments == old(comments) && nextCommentId == old(nextCommentId)
      ensures user.Some? && IndexOfPost(posts, postPk).Some? ==>
        var form := BlogForms.CleanCommentForm(content);
        if form.Err? then
          o == FormInvalid(form.error) && comments == old(comments) && nextCommentId == old(nextCommentId)
        else
          && o == Done
          && comments == old(comments) + [Comment(old(nextCommentId), postPk, user.value, form.value, now, now)]
          && nextCommentId == old(nextCommentId) + 1
    {
      if user.None? {
        return LoginRequired;
      }
      var post := IndexOfPost(posts, postPk);
      if post.None? {
        return NotFound;
      }
      o := AddFound(posts[post.value].id, user.value, BlogForms.CleanCommentForm(content), now);
    }

    /** `CommentCreateView.form_valid` once the post is found: the form's answer `cleaned`
        decides; a valid form saves a comment bound to the post and the requesting user. */
    method AddFound(postId: nat, author: nat, cleaned: Result<string, BlogForms.CommentError>, now: int) returns (o: Outcome)
      requires Valid()
      modifies this
      ensures Valid() && posts == old(posts)
      ensures
        if cleaned.Err? then
          o == FormInvalid(cleaned.error) && comments == old(comments) && nextCommentId == old(nextCommentId)
        else
          && o == Done
          && comments == old(comments) + [Comment(old(nextCommentId), postId, author, cleaned.value, now, now)]
          && nextCommentId == old(nextCommentId) + 1
    {
      match cleaned
      case Err(e) =>
        o := FormInvalid(e);
      case Ok(text) =>
        var c := Comment(nextCommentId, 0, 0, text, now, now);
        c := c.(post := postId);
        c := c.(author := author);
        SaveNew(c);
        o := Done;
    }

    /** Saving a new comment: it takes the next id, which is then used up. */
    method SaveNew(c: Comment)
      requires Valid() && c.id == nextCommentId
      modifies this
      ensures Valid() && posts == old(posts)
      ensures comments == old(comments) + [c] && nextCommentId == old(nextCommentId) + 1
    {
      AppendKeepsCommentIds(comments, c, nextCommentId);
      comments := comments + [c];
      nextCommentId := nextCommentId + 1;
    }

    /** `CommentUpdateView`: only the author may change the content, which is cleaned first;
        saving stamps `updated_at` with the current time. */
    method EditComment(user: Option<nat>, pk: nat, content: Option<string>, now: int) returns (o: Outcome)
      requires Valid()
      modifies this
      ensures Valid() && posts == old(posts) && nextCommentId == old(nextCommentId)
      ensures user.None? ==> o == LoginRequired && comments == old(comments)
      ensures user.Some? && IndexOfComment(old(comments), pk).None? ==> o == NotFound && comments == old(comments)
      ensures user.Some? && IndexOfComment(old(comments), pk).Some? ==>
        var i := IndexOfComment(old(comments), pk).value;
        var form := BlogForms.CleanCommentForm(content);
        if OwnerAccess(user, old(comments)[i].author) != Granted then
          o == PermissionDenied && comments == old(comments)
        else if form.Err? then
          o == FormInvalid(form.error) && comments == old(comments)
        else
          o == Done && comments == old(comments)[i := old(comments)[i].(content := form.value, updatedAt := now)]
    {
      if user.None? {
        return LoginRequired;
      }
      var found := IndexOfComment(comments, pk);
      if found.None? {
        return NotFound;
      }
      o := EditFound(user, found.value, BlogForms.CleanCommentForm(content), now);
    }

    /** `CommentUpdateView` once the comment is found: the author check, then the form's
        answer `cleaned`, then the save. */
    method EditFound(user: Option<nat>, i: nat, cleaned: Result<string, BlogForms.CommentError>, now: int) returns (o: Outcome)
      requires Valid() && i < |comments|
      modifies this
      ensures Valid() && posts == old(posts) && nextCommentId == old(nextCommentId)
      ensures
        if OwnerAccess(user, old(comments)[i].author) != Granted then
          o == (if user.None? then LoginRequired else PermissionDenied) && comments == old(comments)
        else if cleaned.Err? then
          o == FormInvalid(cleaned.error) && comments == old(comments)
        else
          o == Done && comments == old(comments)[i := old(comments)[i].(content := cleaned.value, updatedAt := now)]
    {
      if OwnerAccess(user, comments[i].author) != Granted {
        return if user.None? then LoginRequired else PermissionDenied;
      }
      if cleaned.Err? {
        return FormInvalid(cleaned.error);
      }
      SaveEdit(i, cleaned.value, now);
      o := Done;
    }

    /** Saving an edited comment: its content and `updated_at` change, nothing else. */
    method SaveEdit(i: nat, text: string, now: int)
      requires Valid() && i < |comments|
      modifies this
      ensures Valid() && posts == old(posts) && nextCommentId == old(nextCommentId)
      ensures comments == old(comments)[i := old(comments)[i].(content := text, updatedAt := now)]
    {
      EditKeepsCommentIds(comments, i, text, now, nextCommentId);
      comments := comments[i := comments[i].(content := text, updatedAt := now)];
    }

    /** `CommentDeleteView` on POST: only the author may delete; exactly that comment goes. */
    method DeleteComment(user: Option<nat>, pk: nat) returns (o: Outcome)
      requires Valid()
      modifies this
      ensures Valid() && posts == old(posts) && nextCommentId == old(nextCommentId)
      ensures user.None? ==> o == LoginRequired
      ensures user.Some? && IndexOfComment(old(comments), pk).None? ==> o == NotFound
      ensures o != Done ==> comments == old(comments)
      ensures user.Some? && IndexOfComment(old(comments), pk).Some?
        && OwnerAccess(user, old(comments)[IndexOfComment(old(comments), pk).value].author) != Granted
        ==> o == PermissionDenied
      ensures o == Done <==>
        IndexOfComment(old(comments), pk).Some?
        && OwnerAccess(user, old(comments)[IndexOfComment(old(comments), pk).value].author) == Granted
      ensures o == Done ==>
        IndexOfComment(old(comments), pk).Some? && comments == RemoveComment(old(comments), IndexOfComment(old(comments), pk).value)
    {
      if user.None? {
        return LoginRequired;
      }
      var found := IndexOfComment(comments, pk);
      if found.None? {
        return NotFound;
      }
      var i := found.value;
      if OwnerAccess(user, comments[i].author) != Granted {
        return PermissionDenied;
      }
      RemoveKeepsCommentIds(comments, i, nextCommentId);
      comments := RemoveComment(comments, i);
      o := Done;
    }

    /** `PostDeleteView` on POST. The post is looked up first: an unknown key is NotFound for
        everybody, since the redirect to the post page needs the post. Whoever is not the
        author, the anonymous user included, is sent to the post's page. For the author the post
        goes, and with it (on_delete=CASCADE) every comment on it. */
    method DeletePost(user: Option<nat>, pk: nat) returns (o: Outcome)
      requires Valid()
      modifies this
      ensures Valid() && nextCommentId == old(nextCommentId)
      ensures o != LoginRequired
      ensures IndexOfPost(old(posts), pk).None? ==> o == NotFound
      ensures IndexOfPost(old(posts), pk).Some? && user != Some(old(posts)[IndexOfPost(old(posts), pk).value].author) ==>
        o == PermissionDenied
      ensures o != Done ==> posts == old(posts) && comments == old(comments)
      ensures o == Done <==>
        IndexOfPost(old(posts), pk).Some?
        && PostOwnerAccess(user, old(posts)[IndexOfPost(old(posts), pk).value].author) == Granted
      ensures o == Done ==>
        posts == Ordering.Filter(old(posts), NotPost(pk)) && comments == Ordering.Filter(old(comments), NotOnPost(pk))
      ensures o == Done ==>
        (forall i :: 0 <= i < |posts| ==> posts[i].id != pk) && forall i :: 0 <= i < |comments| ==> comments[i].post != pk
    {
      var found := IndexOfPost(posts, pk);
      if found.None? {
        return NotFound;
      }
      if PostOwnerAccess(user, posts[found.value].author) != Granted {
        return PermissionDenied;
      }
      CascadeKeepsIds(posts, comments, pk, nextCommentId);
      posts := Ordering.Filter(posts, NotPost(pk));
      comments := Ordering.Filter(comments, NotOnPost(pk));
      o := Done;
    }
  }
}
