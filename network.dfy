/** The in-memory micro-blog network: the posts indexed by id and by
    author, the follow map derived from likes, the id counter, and the
    queries over them. */
module Network {
  import opened Outcomes
  import opened Text
  import opened Posts
  import opened NetworkSpec

  /** The ids of the stored posts written by `a`. */
  function IdsBy(lookup: PostMap, a: string): set<int>
  {
    set id | id in lookup && lookup[id].author == a
  }

  /** The representation invariant of the network's four fields: every
      post is valid and stored under its id, below the next id; the author
      index files every stored post under its author and nothing else; the
      author index and the follow map have an entry for exactly the
      authors. */
  ghost predicate Indexed(lookup: PostMap, byAuthor: map<string, set<int>>,
                          follows: map<string, set<string>>, next: int)
  {
    0 <= next &&
    (forall id | id in lookup :: 0 <= id < next && lookup[id].id == id && ValidPost(lookup[id])) &&
    byAuthor.Keys == AuthorsOf(lookup) && follows.Keys == AuthorsOf(lookup) &&
    (forall a | a in byAuthor :: byAuthor[a] == IdsBy(lookup, a))
  }

  /** The author index after `id` is filed under `a`. */
  function FileUnder(byAuthor: map<string, set<int>>, a: string, id: int): map<string, set<int>>
  {
    byAuthor[a := (if a in byAuthor then byAuthor[a] else {}) + {id}]
  }

  /** The follow map after `a` writes a post: a first-time author gets an
      empty entry. */
  function EnsureUser(follows: map<string, set<string>>, a: string): map<string, set<string>>
  {
    if a in follows then follows else follows[a := {}]
  }

  /** Storing a post under a new id adds its author to the authors and its
      id to its author's ids. */
  lemma StoreExtendsAuthors(lookup: PostMap, id: int, p: PostValue)
    requires id !in lookup
    ensures AuthorsOf(lookup[id := p]) == AuthorsOf(lookup) + {p.author}
    ensures forall a :: IdsBy(lookup[id := p], a) == IdsBy(lookup, a) + (if a == p.author then {id} else {})
  {
    var after := lookup[id := p];
    forall a | a in AuthorsOf(after)
      ensures a in AuthorsOf(lookup) + {p.author}
    {
      var j :| j in after && after[j].author == a;
      if j != id {
        assert j in lookup && lookup[j].author == a;
      }
    }
    forall a | a in AuthorsOf(lookup)
      ensures a in AuthorsOf(after)
    {
      var j :| j in lookup && lookup[j].author == a;
      assert j in after && after[j].author == a;
    }
    assert after[id].author == p.author;
    forall a
      ensures IdsBy(after, a) == IdsBy(lookup, a) + (if a == p.author then {id} else {})
    {
      forall j
        ensures j in IdsBy(after, a) <==> j in IdsBy(lookup, a) || (a == p.author && j == id)
      {
      }
    }
  }

  /** Filing a newly stored post under its author keeps the author index
      in step with the posts. */
  lemma FileUnderKeepsIndex(lookup: PostMap, byAuthor: map<string, set<int>>, id: int, p: PostValue)
    requires id !in lookup
    requires byAuthor.Keys == AuthorsOf(lookup)
    requires forall a | a in byAuthor :: byAuthor[a] == IdsBy(lookup, a)
    ensures var filed := FileUnder(byAuthor, p.author, id);
      filed.Keys == AuthorsOf(lookup[id := p]) &&
      forall a | a in filed :: filed[a] == IdsBy(lookup[id := p], a)
  {
    StoreExtendsAuthors(lookup, id, p);
    if p.author !in byAuthor {
      forall j | j in lookup
        ensures lookup[j].author != p.author
      {
        assert lookup[j].author in AuthorsOf(lookup);
      }
      assert IdsBy(lookup, p.author) == {};
    }
  }

  /** Storing a valid post under the next id, filing it under its author
      and advancing the counter keeps the fields indexed. */
  lemma StoreKeepsIndexed(lookup: PostMap, byAuthor: map<string, set<int>>,
                          follows: map<string, set<string>>, next: int, p: PostValue)
    requires Indexed(lookup, byAuthor, follows, next)
    requires ValidPost(p) && p.id == next
    ensures next !in lookup
    ensures Indexed(lookup[next := p], FileUnder(byAuthor, p.author, next),
                    EnsureUser(follows, p.author), next + 1)
  {
    assert next !in lookup;
    FileUnderKeepsIndex(lookup, byAuthor, next, p);
    StoreExtendsAuthors(lookup, next, p);
  }

  /** Replacing a stored post by a valid post with the same id and author
      keeps the fields indexed. */
  lemma UpdateKeepsIndexed(lookup: PostMap, byAuthor: map<string, set<int>>,
                           follows: map<string, set<string>>, next: int, p: PostValue)
    requires Indexed(lookup, byAuthor, follows, next)
    requires p.id in lookup && lookup[p.id].author == p.author && ValidPost(p)
    ensures Indexed(lookup[p.id := p], byAuthor, follows, next)
  {
    var after := lookup[p.id := p];
    assert AuthorsOf(after) == AuthorsOf(lookup) by {
      forall a | a in AuthorsOf(after)
        ensures a in AuthorsOf(lookup)
      {
        var id :| id in after && after[id].author == a;
        assert id in lookup && lookup[id].author == a;
      }
      forall a | a in AuthorsOf(lookup)
        ensures a in AuthorsOf(after)
      {
        var id :| id in lookup && lookup[id].author == a;
        assert id in after && after[id].author == a;
      }
    }
    forall a
      ensures IdsBy(after, a) == IdsBy(lookup, a)
    {
    }
  }

  /** A like by a non-blank user other than the author keeps the fields
      indexed and a derived follow map derived, and under a derived follow
      map the author is new to the liker's entry exactly when the liker had
      liked none of the author's posts. */
  lemma LikeKeepsIndexed(lookup: PostMap, byAuthor: map<string, set<int>>,
                         follows: map<string, set<string>>, next: int, id: int, user: string)
    requires Indexed(lookup, byAuthor, follows, next)
    requires id in lookup && !Blank(user) && user != lookup[id].author
    ensures Indexed(WithLike(lookup, id, user), byAuthor, Follow(follows, user, lookup[id].author), next)
    ensures follows == FollowGraph(lookup, follows.Keys) ==>
      var g := Follow(follows, user, lookup[id].author);
      g == FollowGraph(WithLike(lookup, id, user), g.Keys)
  {
    var p := lookup[id];
    AddLikeKeepsValid(p, user);
    UpdateKeepsIndexed(lookup, byAuthor, follows, next, p.(likes := AddLikeTo(p.likes, user)));
    if follows == FollowGraph(lookup, follows.Keys) {
      LikeKeepsGraph(lookup, follows, id, user);
      FollowsIffLikedPost(lookup, user, p.author);
    }
  }

  /** Withdrawing a like keeps the fields indexed, whether or not the
      unliker's entry then loses the author, and keeps a derived follow map
      derived when it loses the author exactly if the unliker likes no other
      post by them. */
  lemma UnlikeKeepsIndexed(lookup: PostMap, byAuthor: map<string, set<int>>,
                           follows: map<string, set<string>>, next: int, id: int, user: string)
    requires Indexed(lookup, byAuthor, follows, next)
    requires id in lookup
    ensures Indexed(WithoutLike(lookup, id, user), byAuthor, follows, next)
    ensures Indexed(WithoutLike(lookup, id, user), byAuthor, Unfollow(follows, user, lookup[id].author), next)
    ensures lookup[id].author in byAuthor && !Blank(lookup[id].author)
    ensures follows == FollowGraph(lookup, follows.Keys) ==>
      var after := WithoutLike(lookup, id, user);
      var g := if LikedPostIds(after, user, lookup[id].author) == {}
        then Unfollow(follows, user, lookup[id].author) else follows;
      g == FollowGraph(after, g.Keys)
  {
    var p := lookup[id];
    RemoveKeepsValid(p, user);
    RemoveFromNoDuplicates(p.likes, user);
    UpdateKeepsIndexed(lookup, byAuthor, follows, next, p.(likes := RemoveFrom(p.likes, user)));
    assert p.author in AuthorsOf(lookup);
    if follows == FollowGraph(lookup, follows.Keys) {
      UnlikeKeepsGraph(lookup, follows, id, user, RemoveFrom(p.likes, user));
    }
  }

  /** The store while `MicroBlog(posts)` replays `ps`: the first `created`
      posts are stored under their positions with the replay time `now`,
      and the first `liked` of them already carry their likes. */
  function Replayed(ps: seq<PostValue>, now: Timestamp, created: int, liked: int): PostMap
    requires 0 <= created <= |ps|
  {
    map j | 0 <= j < created ::
      PostValue(j, ps[j].author, ps[j].text, now, if j < liked then ps[j].likes else [])
  }

  /** Creating post `i` extends the replayed store by that post. */
  lemma CreateStep(ps: seq<PostValue>, now: Timestamp, i: int)
    requires 0 <= i < |ps|
    ensures Replayed(ps, now, i, 0)[i := PostValue(i, ps[i].author, ps[i].text, now, [])] ==
            Replayed(ps, now, i + 1, 0)
  {
  }

  /** Before any like is replayed nobody follows anybody. */
  lemma NoLikesYet(ps: seq<PostValue>, now: Timestamp, i: int, u: string)
    requires 0 <= i <= |ps|
    ensures LikedAuthors(Replayed(ps, now, i, 0), u) == {}
  {
    var m := Replayed(ps, now, i, 0);
    forall id | id in m
      ensures u !in m[id].likes
    {
    }
  }

  /** Replaying the likes of post `i` moves the replay one post on. */
  lemma LikeStep(ps: seq<PostValue>, now: Timestamp, i: int)
    requires 0 <= i < |ps|
    ensures var m := Replayed(ps, now, |ps|, i);
      i in m && m[i].likes == [] &&
      m[i := m[i].(likes := ps[i].likes)] == Replayed(ps, now, |ps|, i + 1)
  {
  }

  /** The authors of the fully created replay are the authors mentioned
      by the history. */
  lemma ReplayedAuthors(ps: seq<PostValue>, now: Timestamp, liked: int)
    ensures AuthorsOf(Replayed(ps, now, |ps|, liked)) == Mentioned(ps)
  {
    var m := Replayed(ps, now, |ps|, liked);
    forall a | a in Mentioned(ps)
      ensures a in AuthorsOf(m)
    {
      var i :| 0 <= i < |ps| && ps[i].author == a;
      assert i in m && m[i].author == a;
    }
  }

  /** In indexed fields the posts are keyed by their ids and no user with
      a follow entry is blank. */
  lemma IndexedUsers(lookup: PostMap, byAuthor: map<string, set<int>>,
                     follows: map<string, set<string>>, next: int)
    requires Indexed(lookup, byAuthor, follows, next)
    ensures KeyedById(lookup)
    ensures forall a :: a in follows ==> !Blank(a)
  {
    forall a | a in follows
      ensures !Blank(a)
    {
      var id :| id in lookup && lookup[id].author == a;
    }
  }

  /** Some element of a non-empty set (the next one an iterator over the
      set hands out). */
  method PickFrom<T>(s: set<T>) returns (k: T)
    requires s != {}
    ensures k in s
  {
    assert |s| != 0;
    k :| k in s;
  }

  /** Counts the posts among `ids` that carry a like by `u`, visiting the
      ids one at a time in no particular order. */
  method CountLikedBy(posts: PostMap, ids: set<int>, u: string) returns (count: int)
    requires ids <= posts.Keys
    ensures count == |set id | id in ids && u in posts[id].likes|
  {
    var remaining := ids;
    count := 0;
    ghost var counted: set<int> := {};
    while remaining != {}
      invariant remaining <= ids
      invariant counted == set id | id in ids - remaining && u in posts[id].likes
      invariant count == |counted|
      decreases |remaining|
    {
      var k := PickFrom(remaining);
      if u in posts[k].likes {
        count := count + 1;
        counted := counted + {k};
      }
      remaining := remaining - {k};
    }
    assert ids - remaining == ids;
  }

  class MicroBlog {
    /** user -> the users they follow */
    var followRelations: map<string, set<string>>
    /** author -> the ids of the posts they wrote */
    var postRelations: map<string, set<int>>
    /** id -> the post stored under it */
    var postLookup: PostMap
    /** the id the next post will receive */
    var nextId: int

    /** The representation invariant (see `Indexed`). */
    ghost predicate Valid()
      reads this
    {
      Indexed(postLookup, postRelations, followRelations, nextId)
    }

    /** The derived-follow invariant: every user with a follow entry follows
        exactly the authors of the posts they have liked. */
    ghost predicate FollowsDerived()
      reads this
    {
      followRelations == FollowGraph(postLookup, followRelations.Keys)
    }

    /** The empty network. */
    constructor ()
      ensures Valid() && FollowsDerived()
      ensures postLookup == map[] && postRelations == map[] && followRelations == map[]
      ensures nextId == 0
    {
      followRelations := map[];
      postRelations := map[];
      postLookup := map[];
      nextId := 0;
    }

    /** `MicroBlog(posts)`: replays a post history on an empty network in
        two passes: first every post is created, in list order, under ids
        0, 1, ...; then every like of every post is replayed on the post
        created from it, so that each liker is already an author when
        liking. Valid posts never exceed the text limit, so no creation
        fails. */
    constructor FromPosts(ps: seq<PostValue>, now: Timestamp)
      requires forall i :: 0 <= i < |ps| ==> ValidPost(ps[i])
      ensures Valid() && FollowsDerived()
      ensures nextId == |ps|
      ensures forall id :: id in postLookup <==> 0 <= id < |ps|
      ensures forall i :: 0 <= i < |ps| ==>
        postLookup[i] == PostValue(i, ps[i].author, ps[i].text, now, ps[i].likes)
      ensures followRelations == GuessedGraph(ps)
    {
      followRelations := map[];
      postRelations := map[];
      postLookup := map[];
      nextId := 0;
      new;
      var references := CreateAll(ps, now);
      for i := 0 to |references|
        invariant Valid() && FollowsDerived()
        invariant nextId == |ps|
        invariant postLookup == Replayed(ps, now, |ps|, i)
      {
        LikeStep(ps, now, i);
        ReplayLikesOf(references[i], ps[i].likes);
      }
      ReplayedAuthors(ps, now, |ps|);
      ReplayGraph(ps, postLookup);
    }

    /** The first pass of `MicroBlog(posts)`: creates the posts of `ps` in
        order and collects the ids handed out, which are 0, 1, ... */
    method CreateAll(ps: seq<PostValue>, now: Timestamp) returns (references: seq<int>)
      requires Valid() && FollowsDerived()
      requires postLookup == map[] && nextId == 0
      requires forall i :: 0 <= i < |ps| ==> ValidPost(ps[i])
      modifies this
      ensures Valid() && FollowsDerived()
      ensures nextId == |ps| && |references| == |ps|
      ensures forall j :: 0 <= j < |ps| ==> references[j] == j
      ensures postLookup == Replayed(ps, now, |ps|, 0)
    {
      references := [];
      for i := 0 to |ps|
        invariant Valid() && FollowsDerived()
        invariant nextId == i && |references| == i
        invariant forall j :: 0 <= j < i ==> references[j] == j
        invariant postLookup == Replayed(ps, now, i, 0)
      {
        NoLikesYet(ps, now, i, ps[i].author);
        CreateStep(ps, now, i);
        var reference := CreateValid(ps[i].author, ps[i].text, now);
        references := references + [reference];
      }
    }

    /** `createPost` on a valid author and text by an author who has liked
        nothing yet: it succeeds under the next id and keeps the follow map
        derived. */
    method CreateValid(author: string, text: string, now: Timestamp) returns (id: int)
      requires Valid() && FollowsDerived()
      requires !Blank(author) && ValidText(text) && LikedAuthors(postLookup, author) == {}
      modifies this
      ensures Valid() && FollowsDerived()
      ensures id == old(nextId) && nextId == old(nextId) + 1
      ensures postLookup == old(postLookup)[id := PostValue(id, author, text, now, [])]
    {
      var r := CreatePost(author, text, now);
      id := r.value;
    }

    /** The second pass of `MicroBlog(posts)` for one post: likes the post
        stored under `id`, which has none yet, once by each user of `likes`,
        in order. */
    method ReplayLikesOf(id: int, likes: seq<string>)
      requires Valid() && FollowsDerived()
      requires id in postLookup && postLookup[id].likes == []
      requires forall k :: 0 <= k < |likes| ==> !Blank(likes[k]) && likes[k] != postLookup[id].author
      requires NoDuplicates(likes)
      modifies this
      ensures Valid() && FollowsDerived() && nextId == old(nextId)
      ensures postLookup == old(postLookup)[id := old(postLookup)[id].(likes := likes)]
    {
      for k := 0 to |likes|
        invariant Valid() && FollowsDerived() && nextId == old(nextId)
        invariant postLookup == old(postLookup)[id := old(postLookup)[id].(likes := likes[..k])]
      {
        assert likes[k] !in likes[..k];
        assert likes[..k + 1] == likes[..k] + [likes[k]];
        var liked := LikePost(id, likes[k]);
      }
      assert likes[..|likes|] == likes;
    }

    /** `getUniqueId`: hands out the counter and increments it. */
    method GetUniqueId() returns (id: int)
      modifies this`nextId
      ensures id == old(nextId) && nextId == old(nextId) + 1
    {
      id := nextId;
      nextId := nextId + 1;
    }

    /** `getPostById`: a negative id is an illegal argument; otherwise the
        post with that id, if there is one. */
    function GetPostById(id: int): (r: Result<Option<PostValue>>)
      reads this
      ensures r.Err? <==> id < 0
      ensures r.Err? ==> r.error == IllegalArgument
      ensures r == Ok(None) <==> id >= 0 && id !in postLookup
      ensures r.Ok? && r.value.Some? ==> id in postLookup && r.value.value == postLookup[id]
    {
      if id < 0 then Err(IllegalArgument)
      else if id in postLookup then Ok(Some(postLookup[id]))
      else Ok(None)
    }

    /** `editPost` called on the post stored under `id`: a blank text is an
        illegal argument and a text over 140 UTF-16 units exceeds the limit,
        and both leave the post as it was; otherwise only that post's text
        changes. */
    method EditStored(id: int, newText: string) returns (r: Result<()>)
      requires Valid() && id in postLookup
      modifies this
      ensures Valid()
      ensures postRelations == old(postRelations) && followRelations == old(followRelations)
      ensures nextId == old(nextId)
      ensures Blank(newText) ==> r == Err(IllegalArgument) && postLookup == old(postLookup)
      ensures !Blank(newText) && Utf16Length(newText) > MaxLength ==>
        r == Err(LimitExceeded) && postLookup == old(postLookup)
      ensures ValidText(newText) ==> r == Ok(()) && postLookup == WithText(old(postLookup), id, newText)
      ensures old(FollowsDerived()) ==> FollowsDerived()
    {
      if Blank(newText) {
        return Err(IllegalArgument);
      }
      if Utf16Length(newText) > MaxLength {
        return Err(LimitExceeded);
      }
      UpdateKeepsIndexed(postLookup, postRelations, followRelations, nextId,
                         postLookup[id].(text := newText));
      EditKeepsGraph(postLookup, id, newText, followRelations.Keys);
      postLookup := WithText(postLookup, id, newText);
      r := Ok(());
    }

    /** `createPost`: validates author and text, takes a fresh id and stores
        the new post under it and under its author; a first-time author also
        gets an empty follow entry. A text over 140 UTF-16 units fails in the
        `Post` constructor, after the id has been taken. */
    method CreatePost(author: string, text: string, now: Timestamp) returns (r: Result<int>)
      requires Valid()
      modifies this
      ensures Valid()
      ensures Blank(author) || Blank(text) ==>
        r == Err(IllegalArgument) && unchanged(this)
      ensures !Blank(author) && !Blank(text) && Utf16Length(text) > MaxLength ==>
        r == Err(LimitExceeded) && nextId == old(nextId) + 1 &&
        postLookup == old(postLookup) && postRelations == old(postRelations) &&
        followRelations == old(followRelations)
      ensures !Blank(author) && ValidText(text) ==>
        r == Ok(old(nextId)) && old(nextId) !in old(postLookup) && nextId == old(nextId) + 1 &&
        postLookup == old(postLookup)[old(nextId) := PostValue(old(nextId), author, text, now, [])] &&
        postRelations == FileUnder(old(postRelations), author, old(nextId)) &&
        followRelations == EnsureUser(old(followRelations), author)
      ensures old(FollowsDerived()) ==>
        (author in old(followRelations) || LikedAuthors(old(postLookup), author) == {}) ==>
        FollowsDerived()
    {
      if Blank(author) || Blank(text) {
        return Err(IllegalArgument);
      }
      ghost var wasDerived := FollowsDerived();
      var newId := GetUniqueId();
      var created := NewPost(newId, author, text, now);
      if created.Err? {
        return Err(created.error);
      }
      var post := created.value.Value();
      StoreKeepsIndexed(postLookup, postRelations, followRelations, newId, post);
      if wasDerived && (author in followRelations || LikedAuthors(postLookup, author) == {}) {
        AddPostKeepsGraph(postLookup, followRelations, newId, post);
      }
      postLookup := postLookup[newId := post];
      postRelations := FileUnder(postRelations, author, newId);
      followRelations := EnsureUser(followRelations, author);
      r := Ok(newId);
    }

    /** `likePost`: a blank user or a negative id is an illegal argument and
        an unknown id has no such element; the post's `addLike` then rejects
        the author liking their own post. Otherwise the like is added, and
        the author joins the liker's follow set when the liker has an entry
        that does not yet hold them; the result says whether that happened. */
    method LikePost(postId: int, user: string) returns (r: Result<bool>)
      requires Valid()
      modifies this
      ensures Valid()
      ensures postRelations == old(postRelations) && nextId == old(nextId)
      ensures Blank(user) || postId < 0 ==> r == Err(IllegalArgument) && unchanged(this)
      ensures !Blank(user) && postId >= 0 && postId !in old(postLookup) ==>
        r == Err(NoSuchElement) && unchanged(this)
      ensures !Blank(user) && postId in old(postLookup) && user == old(postLookup)[postId].author ==>
        r == Err(IllegalState) && unchanged(this)
      ensures !Blank(user) && postId in old(postLookup) && user != old(postLookup)[postId].author ==>
        var a := old(postLookup)[postId].author;
        postLookup == WithLike(old(postLookup), postId, user) &&
        r == Ok(user in old(followRelations) && a !in old(followRelations)[user]) &&
        followRelations == Follow(old(followRelations), user, a)
      ensures old(FollowsDerived()) ==> FollowsDerived()
    {
      if Blank(user) || postId < 0 {
        return Err(IllegalArgument);
      }
      var found := GetPostById(postId);
      if found.value.None? {
        return Err(NoSuchElement);
      }
      var post := found.value.value;
      assert post == postLookup[postId];
      if user == post.author {
        return Err(IllegalState);
      }
      var added := RecordLike(postId, user);
      r := Ok(added);
    }

    /** The effect of an accepted like: the post gains the like and the
        liker's entry, if any, gains the post's author; the result says
        whether the author was new to that entry. */
    method RecordLike(postId: int, user: string) returns (added: bool)
      requires Valid()
      requires postId in postLookup && !Blank(user) && user != postLookup[postId].author
      modifies this
      ensures Valid()
      ensures postRelations == old(postRelations) && nextId == old(nextId)
      ensures postLookup == WithLike(old(postLookup), postId, user)
      ensures followRelations == Follow(old(followRelations), user, old(postLookup)[postId].author)
      ensures added == (user in old(followRelations) &&
                        old(postLookup)[postId].author !in old(followRelations)[user])
      ensures old(FollowsDerived()) ==> FollowsDerived()
    {
      var lookup, follows := postLookup, followRelations;
      var author := lookup[postId].author;
      LikeKeepsIndexed(lookup, postRelations, follows, nextId, postId, user);
      added := user in follows && author !in follows[user];
      postLookup, followRelations := WithLike(lookup, postId, user), Follow(follows, user, author);
    }

    /** `getNumberOfLikedPosts`: how many posts by `ofAuthor` carry a like by
        `likedBy`, counted over the author's entry in the author index. A
        blank name is an illegal argument; an author without an entry makes
        the lookup fail with a null pointer. */
    method GetNumberOfLikedPosts(likedBy: string, ofAuthor: string) returns (r: Result<int>)
      requires Valid()
      ensures Blank(likedBy) || Blank(ofAuthor) ==> r == Err(IllegalArgument)
      ensures !Blank(likedBy) && !Blank(ofAuthor) && ofAuthor !in postRelations ==>
        r == Err(NullPointer)
      ensures !Blank(likedBy) && !Blank(ofAuthor) && ofAuthor in postRelations ==>
        r == Ok(|LikedPostIds(postLookup, likedBy, ofAuthor)|)
    {
      if Blank(likedBy) || Blank(ofAuthor) {
        return Err(IllegalArgument);
      }
      if ofAuthor !in postRelations {
        return Err(NullPointer);
      }
      var ids := postRelations[ofAuthor];
      var count := CountLikedBy(postLookup, ids, likedBy);
      assert ids == IdsBy(postLookup, ofAuthor);
      assert (set id | id in ids && likedBy in postLookup[id].likes) ==
        LikedPostIds(postLookup, likedBy, ofAuthor);
      r := Ok(count);
    }

    /** `unlikePost`: a blank user or a negative id is an illegal argument and
        an unknown id has no such element. Otherwise the like is removed;
        when the user then likes no post by the author any more, the author
        leaves the user's follow set and the result is true (and a user
        without a follow entry makes that removal fail with a null pointer,
        after the like is gone); otherwise the result is false. */
    method UnlikePost(postId: int, user: string) returns (r: Result<bool>)
      requires Valid()
      modifies this
      ensures Valid()
      ensures postRelations == old(postRelations) && nextId == old(nextId)
      ensures Blank(user) || postId < 0 ==> r == Err(IllegalArgument) && unchanged(this)
      ensures !Blank(user) && postId >= 0 && postId !in old(postLookup) ==>
        r == Err(NoSuchElement) && unchanged(this)
      ensures !Blank(user) && postId in old(postLookup) ==>
        var a := old(postLookup)[postId].author;
        postLookup == WithoutLike(old(postLookup), postId, user) &&
        (LikedPostIds(postLookup, user, a) != {} ==>
           r == Ok(false) && followRelations == old(followRelations)) &&
        (LikedPostIds(postLookup, user, a) == {} && user in old(followRelations) ==>
           r == Ok(true) && followRelations == Unfollow(old(followRelations), user, a)) &&
        (LikedPostIds(postLookup, user, a) == {} && user !in old(followRelations) ==>
           r == Err(NullPointer) && followRelations == old(followRelations))
      ensures old(FollowsDerived()) ==> FollowsDerived()
    {
      if Blank(user) || postId < 0 {
        return Err(IllegalArgument);
      }
      var found := GetPostById(postId);
      if found.value.None? {
        return Err(NoSuchElement);
      }
      r := RecordUnlike(postId, user);
    }

    /** The effect of an accepted unlike: the post loses the like; when the
        user then likes no post by the author, the author leaves the user's
        entry (a user without an entry makes that fail with a null pointer,
        after the like is gone). */
    method RecordUnlike(postId: int, user: string) returns (r: Result<bool>)
      requires Valid()
      requires postId in postLookup && !Blank(user)
      modifies this
      ensures Valid()
      ensures postRelations == old(postRelations) && nextId == old(nextId)
      ensures postLookup == WithoutLike(old(postLookup), postId, user)
      ensures var a := old(postLookup)[postId].author;
        (LikedPostIds(postLookup, user, a) != {} ==>
           r == Ok(false) && followRelations == old(followRelations)) &&
        (LikedPostIds(postLookup, user, a) == {} && user in old(followRelations) ==>
           r == Ok(true) && followRelations == Unfollow(old(followRelations), user, a)) &&
        (LikedPostIds(postLookup, user, a) == {} && user !in old(followRelations) ==>
           r == Err(NullPointer) && followRelations == old(followRelations))
      ensures old(FollowsDerived()) ==> FollowsDerived()
    {
      var author := postLookup[postId].author;
      UnlikeKeepsIndexed(postLookup, postRelations, followRelations, nextId, postId, user);
      postLookup := WithoutLike(postLookup, postId, user);
      var count := GetNumberOfLikedPosts(user, author);
      if count.value == 0 {
        if user !in followRelations {
          return Err(NullPointer);
        }
        followRelations := followRelations[user := followRelations[user] - {author}];
        return Ok(true);
      }
      return Ok(false);
    }

    /** The posts in the order the model fixes for iterating over the post
        index: ascending id. */
    function Listing(): seq<PostValue>
      reads this
    {
      PostsBelow(postLookup, nextId)
    }

    /** `getAllPosts`: a copy of every stored post, visiting the ids below
        the counter in ascending order. */
    method GetAllPosts() returns (ps: seq<PostValue>)
      requires Valid()
      ensures ps == Listing()
      ensures forall x :: x in ps <==> x.id in postLookup && postLookup[x.id] == x
      ensures forall i, j :: 0 <= i < j < |ps| ==> ps[i].id < ps[j].id
    {
      ps := [];
      var id := 0;
      while id < nextId
        invariant 0 <= id <= nextId
        invariant ps == PostsBelow(postLookup, id)
      {
        if id in postLookup {
          ps := ps + [postLookup[id]];
        }
        id := id + 1;
      }
      IndexedUsers(postLookup, postRelations, followRelations, nextId);
      PostsBelowListsPosts(postLookup, nextId);
    }

    /** `writtenBy(username)`: the stored posts written by `username`. */
    method WrittenBy(username: string) returns (r: Result<seq<PostValue>>)
      requires Valid()
      ensures Blank(username) ==> r == Err(IllegalArgument)
      ensures !Blank(username) ==> r == Ok(ByAuthor(Listing(), username))
      ensures r.Ok? ==> forall x :: x in r.value <==>
        x.id in postLookup && postLookup[x.id] == x && x.author == username
    {
      var all := GetAllPosts();
      r := WrittenByIn(all, username);
    }

    /** `writtenBy(ps, username)`: the posts of `ps` written by `username`,
        in their order. */
    static method WrittenByIn(ps: seq<PostValue>, username: string) returns (r: Result<seq<PostValue>>)
      ensures Blank(username) ==> r == Err(IllegalArgument)
      ensures !Blank(username) ==> r == Ok(ByAuthor(ps, username))
      ensures r.Ok? ==> forall x :: x in r.value <==> x in ps && x.author == username
    {
      if Blank(username) {
        return Err(IllegalArgument);
      }
      var out := [];
      for i := 0 to |ps|
        invariant out == ByAuthor(ps[..i], username)
      {
        FilterAppend(ps[..i], ps[i], ByAuthorOf(username));
        assert ps[..i + 1] == ps[..i] + [ps[i]];
        if ps[i].author == username {
          out := out + [ps[i]];
        }
      }
      assert ps[..|ps|] == ps;
      r := Ok(out);
    }

    /** Whether `text` contains every word, checking the words in order and
        stopping at the first one missing. */
    static method ContainsAllWords(text: string, words: seq<string>) returns (b: bool)
      ensures b == MatchesAll(text, words)
    {
      b := true;
      var i := 0;
      while i < |words|
        invariant 0 <= i <= |words|
        invariant forall j :: 0 <= j < i ==> ContainsWord(text, words[j])
      {
        if !ContainsWord(text, words[i]) {
          return false;
        }
        i := i + 1;
      }
    }

    /** `containing(words)`: a blank word is an illegal argument; otherwise
        the stored posts that contain every word, in listing order. */
    method Containing(words: seq<string>) returns (r: Result<seq<PostValue>>)
      requires Valid()
      ensures (exists i :: 0 <= i < |words| && Blank(words[i])) ==> r == Err(IllegalArgument)
      ensures (forall i :: 0 <= i < |words| ==> !Blank(words[i])) ==>
        r == Ok(ContainingAll(Listing(), words))
      ensures r.Ok? ==> forall x :: x in r.value <==>
        x.id in postLookup && postLookup[x.id] == x && MatchesAll(x.text, words)
    {
      for i := 0 to |words|
        invariant forall j :: 0 <= j < i ==> !Blank(words[j])
      {
        if Blank(words[i]) {
          return Err(IllegalArgument);
        }
      }
      var all := Listing();
      var out := [];
      for i := 0 to |all|
        invariant out == ContainingAll(all[..i], words)
      {
        FilterAppend(all[..i], all[i], WithAllWords(words));
        assert all[..i + 1] == all[..i] + [all[i]];
        var valid := ContainsAllWords(all[i].text, words);
        if valid {
          out := out + [all[i]];
        }
      }
      assert all[..|all|] == all;
      IndexedUsers(postLookup, postRelations, followRelations, nextId);
      PostsBelowListsPosts(postLookup, nextId);
      r := Ok(out);
    }

    /** `sortByRelevance(words)`: every stored post, ranked by how many of
        the words it contains, most first, by a stable sort of the listing.
        The words are not validated. */
    method SortByRelevance(words: seq<string>) returns (ps: seq<PostValue>)
      requires Valid()
      ensures ps == RankByRelevance(Listing(), words)
      ensures multiset(ps) == multiset(Listing())
      ensures RankedByRelevance(ps, words)
    {
      var all := GetAllPosts();
      ps := RankByRelevance(all, words);
    }

    /** `getMentionedUsers()`: the authors of the stored posts, which are
        exactly the users with a follow entry. */
    method GetMentionedUsers() returns (users: set<string>)
      requires Valid()
      ensures users == AuthorsOf(postLookup)
      ensures users == followRelations.Keys
    {
      var all := GetAllPosts();
      users := MentionedUsers(all);
      IndexedUsers(postLookup, postRelations, followRelations, nextId);
      MentionedListing(postLookup, nextId);
    }

    /** `getMentionedUsers(ps)`: the authors of the posts of `ps`. */
    static method MentionedUsers(ps: seq<PostValue>) returns (users: set<string>)
      ensures users == Mentioned(ps)
      ensures forall i :: 0 <= i < |ps| ==> ps[i].author in users
    {
      users := {};
      for i := 0 to |ps|
        invariant users == set j | 0 <= j < i :: ps[j].author
      {
        assert (set j | 0 <= j < i + 1 :: ps[j].author) ==
          (set j | 0 <= j < i :: ps[j].author) + {ps[i].author};
        users := users + {ps[i].author};
      }
    }

    /** The follow map as `getFollowRelations` copies it: an entry for every
        author, and, while the follows are derived, each entry is the set of
        authors of the posts its user likes. */
    function GetFollowRelations(): (f: map<string, set<string>>)
      requires Valid()
      reads this
      ensures f.Keys == AuthorsOf(postLookup)
      ensures FollowsDerived() ==> f == FollowGraph(postLookup, AuthorsOf(postLookup))
    {
      followRelations
    }

    /** `guessFollowers(ps)`: the follow map of a network rebuilt from
        `ps`: each author of `ps` follows the authors of the posts of `ps`
        they like. */
    static method GuessFollowers(ps: seq<PostValue>, now: Timestamp) returns (f: map<string, set<string>>)
      requires forall i :: 0 <= i < |ps| ==> ValidPost(ps[i])
      ensures f == GuessedGraph(ps)
      ensures f.Keys == Mentioned(ps)
    {
      var derived := new MicroBlog.FromPosts(ps, now);
      f := derived.GetFollowRelations();
    }

    /** `getNumerOfFollowers(user)`: how many users follow `user`. */
    method GetNumberOfFollowers(user: string) returns (r: Result<int>)
      ensures Blank(user) ==> r == Err(IllegalArgument)
      ensures !Blank(user) ==> r == Ok(|Followers(followRelations, user)|)
    {
      if Blank(user) {
        return Err(IllegalArgument);
      }
      r := NumberOfFollowers(user, followRelations);
    }

    /** `getNumerOfFollowers(user, followers)`: how many entries of the map
        hold `user`, visiting the entries in no particular order. */
    static method NumberOfFollowers(user: string, followers: map<string, set<string>>) returns (r: Result<int>)
      ensures Blank(user) ==> r == Err(IllegalArgument)
      ensures !Blank(user) ==> r == Ok(|Followers(followers, user)|)
    {
      if Blank(user) {
        return Err(IllegalArgument);
      }
      var count := 0;
      var remaining := followers.Keys;
      ghost var counted: set<string> := {};
      while remaining != {}
        invariant remaining <= followers.Keys
        invariant counted == set k | k in followers.Keys - remaining && user in followers[k]
        invariant count == |counted|
        decreases |remaining|
      {
        var k := PickFrom(remaining);
        if user in followers[k] {
          count := count + 1;
          counted := counted + {k};
        }
        remaining := remaining - {k};
      }
      assert followers.Keys - remaining == followers.Keys;
      r := Ok(count);
    }

    /** `influencers()`: the influencers of the network's follow map; every
        user of the network is non-blank, so the computation succeeds. */
    method Influencers() returns (r: Result<set<string>>)
      requires Valid()
      ensures r == Ok(InfluencerSet(followRelations))
    {
      IndexedUsers(postLookup, postRelations, followRelations, nextId);
      r := InfluencersOf(GetFollowRelations());
    }

    /** `influencers(followers)`: the users followed by more users than they
        follow, visiting the entries in no particular order; counting the
        followers of a blank user is an illegal argument. */
    static method InfluencersOf(followers: map<string, set<string>>) returns (r: Result<set<string>>)
      ensures r.Err? <==> exists u :: u in followers && Blank(u)
      ensures r.Err? ==> r.error == IllegalArgument
      ensures r.Ok? ==> r.value == InfluencerSet(followers)
    {
      var influencers: set<string> := {};
      var remaining := followers.Keys;
      while remaining != {}
        invariant remaining <= followers.Keys
        invariant forall u :: u in followers.Keys - remaining ==> !Blank(u)
        invariant influencers ==
          set u | u in followers.Keys - remaining && |followers[u]| < |Followers(followers, u)|
        decreases |remaining|
      {
        var k := PickFrom(remaining);
        var count := NumberOfFollowers(k, followers);
        if count.Err? {
          return Err(count.error);
        }
        if |followers[k]| < count.value {
          influencers := influencers + {k};
        }
        remaining := remaining - {k};
      }
      assert followers.Keys - remaining == followers.Keys;
      r := Ok(influencers);
    }
  }
}
