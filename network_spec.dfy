/** The definitions the micro-blog network is specified against: the
    follow graph derived from likes, the post listings and filters, the
    relevance ranking and the influencer test, all over snapshots of posts. */
module NetworkSpec {
  import opened Text
  import opened Posts

  /** A snapshot of the network's posts, keyed by id. */
  type PostMap = map<int, PostValue>

  /** Every post is stored under its own id. */
  predicate KeyedById(posts: PostMap)
  {
    forall id :: id in posts ==> posts[id].id == id
  }

  // ---------------------------------------------------------------------
  // The derived follow graph
  // ---------------------------------------------------------------------

  /** The authors of the posts `u` has liked: the users `u` follows. */
  function LikedAuthors(posts: PostMap, u: string): set<string>
  {
    set id | id in posts && u in posts[id].likes :: posts[id].author
  }

  /** The ids of the posts by `a` that `u` has liked. */
  function LikedPostIds(posts: PostMap, u: string, a: string): set<int>
  {
    set id | id in posts && posts[id].author == a && u in posts[id].likes
  }

  /** The follow map a network over `posts` must hold for the users `users`:
      `v` is followed by `u` exactly when `u` likes some post by `v`. */
  function FollowGraph(posts: PostMap, users: set<string>): map<string, set<string>>
  {
    map u | u in users :: LikedAuthors(posts, u)
  }

  /** The authors of the posts. */
  function AuthorsOf(posts: PostMap): set<string>
  {
    set id | id in posts :: posts[id].author
  }

  /** `u` follows `a` exactly when some post by `a` carries a like by `u`. */
  lemma {:induction false} FollowsIffLikedPost(posts: PostMap, u: string, a: string)
    ensures a in LikedAuthors(posts, u) <==> LikedPostIds(posts, u, a) != {}
  {
    if a in LikedAuthors(posts, u) {
      var id :| id in posts && u in posts[id].likes && posts[id].author == a;
      assert id in LikedPostIds(posts, u, a);
    }
    if a !in LikedAuthors(posts, u) {
      forall id | id in posts && u in posts[id].likes
        ensures posts[id].author != a
      {
        assert posts[id].author in LikedAuthors(posts, u);
      }
      assert LikedPostIds(posts, u, a) == {};
    }
  }

  /** A new post without likes changes nobody's follows. */
  lemma AddPostKeepsFollows(posts: PostMap, id: int, p: PostValue, u: string)
    requires id !in posts && p.likes == []
    ensures LikedAuthors(posts[id := p], u) == LikedAuthors(posts, u)
  {
    var after := posts[id := p];
    forall v | v in LikedAuthors(after, u)
      ensures v in LikedAuthors(posts, u)
    {
      var j :| j in after && u in after[j].likes && after[j].author == v;
      assert j != id;
      assert j in posts && u in posts[j].likes;
    }
    forall v | v in LikedAuthors(posts, u)
      ensures v in LikedAuthors(after, u)
    {
      var j :| j in posts && u in posts[j].likes && posts[j].author == v;
      assert j in after && u in after[j].likes;
    }
  }

  /** Storing a new post without likes, and giving its author an empty
      follow entry when they have none, keeps a derived follow map derived,
      provided a newcomer author has liked nothing yet. */
  lemma AddPostKeepsGraph(posts: PostMap, f: map<string, set<string>>, id: int, p: PostValue)
    requires id !in posts && p.likes == []
    requires f == FollowGraph(posts, f.Keys)
    requires p.author in f || LikedAuthors(posts, p.author) == {}
    ensures var g := if p.author in f then f else f[p.author := {}];
      g == FollowGraph(posts[id := p], g.Keys)
  {
    var g := if p.author in f then f else f[p.author := {}];
    forall u | u in g
      ensures g[u] == LikedAuthors(posts[id := p], u)
    {
      AddPostKeepsFollows(posts, id, p, u);
    }
  }

  /** A like by `user` on post `id` adds that post's author to what `user`
      follows, and changes nothing for anyone else. */
  lemma {:induction false} LikeExtendsFollows(posts: PostMap, id: int, user: string, u: string)
    requires id in posts
    ensures LikedAuthors(posts[id := posts[id].(likes := AddLikeTo(posts[id].likes, user))], u) ==
      if u == user then LikedAuthors(posts, u) + {posts[id].author}
      else LikedAuthors(posts, u)
  {
    var after := posts[id := posts[id].(likes := AddLikeTo(posts[id].likes, user))];
    var l1, l2 := LikedAuthors(posts, u), LikedAuthors(after, u);
    forall v | v in l2
      ensures v in l1 || (u == user && v == posts[id].author)
    {
      var j :| j in after && u in after[j].likes && after[j].author == v;
      if j != id || u != user {
        assert j in posts && u in posts[j].likes;
      }
    }
    forall v | v in l1
      ensures v in l2
    {
      var j :| j in posts && u in posts[j].likes && posts[j].author == v;
      assert j in after && u in after[j].likes;
    }
    if u == user {
      assert id in after && u in after[id].likes;
    }
  }

  /** Dropping the like of `user` from post `id` (any new like list that
      keeps every other liker and loses `user`) changes nothing for anyone
      else; for `user` it keeps every other author, and keeps the post's
      author exactly while `user` still likes another post by them. */
  lemma {:induction false} UnlikeShrinksFollows(posts: PostMap, id: int, user: string, likes: seq<string>, u: string)
    requires id in posts
    requires user !in likes && forall x :: x != user ==> (x in likes <==> x in posts[id].likes)
    ensures var after := posts[id := posts[id].(likes := likes)];
      LikedAuthors(after, u) ==
        if u != user then LikedAuthors(posts, u)
        else if LikedPostIds(after, u, posts[id].author) == {}
        then LikedAuthors(posts, u) - {posts[id].author}
        else LikedAuthors(posts, u)
  {
    var a := posts[id].author;
    var after := posts[id := posts[id].(likes := likes)];
    var l1, l2 := LikedAuthors(posts, u), LikedAuthors(after, u);
    forall v | v in l2
      ensures v in l1
    {
      var j :| j in after && u in after[j].likes && after[j].author == v;
      assert j in posts && u in posts[j].likes;
    }
    forall v | v in l1 && (u != user || v != a)
      ensures v in l2
    {
      var j :| j in posts && u in posts[j].likes && posts[j].author == v;
      assert j in after && u in after[j].likes;
    }
    FollowsIffLikedPost(after, u, a);
  }

  /** Under a derived follow map, a liker with an entry does not yet
      follow the post's author exactly when they like none of that author's
      posts: the like that adds the author is the liker's first on them. */
  lemma NewFollowIffFirstLike(posts: PostMap, f: map<string, set<string>>, id: int, user: string)
    requires id in posts
    requires f == FollowGraph(posts, f.Keys)
    ensures (user in f && posts[id].author !in f[user]) <==>
            (user in f && LikedPostIds(posts, user, posts[id].author) == {})
  {
    if user in f {
      FollowsIffLikedPost(posts, user, posts[id].author);
    }
  }

  /** The posts after `user` likes post `id`. */
  function WithLike(posts: PostMap, id: int, user: string): PostMap
    requires id in posts
  {
    posts[id := posts[id].(likes := AddLikeTo(posts[id].likes, user))]
  }

  /** The follow map after `user`, when they have an entry, starts
      following `a`. */
  function Follow(f: map<string, set<string>>, user: string, a: string): (r: map<string, set<string>>)
    ensures r.Keys == f.Keys
    ensures user in f ==> r[user] == f[user] + {a}
    ensures forall u :: u in f && u != user ==> r[u] == f[u]
  {
    if user in f then f[user := f[user] + {a}] else f
  }

  /** A like keeps a derived follow map derived once the liker's entry, if
      they have one, gains the post's author. */
  lemma LikeKeepsGraph(posts: PostMap, f: map<string, set<string>>, id: int, user: string)
    requires id in posts
    requires f == FollowGraph(posts, f.Keys)
    ensures Follow(f, user, posts[id].author).Keys == f.Keys
    ensures Follow(f, user, posts[id].author) == FollowGraph(WithLike(posts, id, user), f.Keys)
  {
    var g := Follow(f, user, posts[id].author);
    assert g.Keys == f.Keys;
    forall u | u in g
      ensures g[u] == LikedAuthors(WithLike(posts, id, user), u)
    {
      LikeExtendsFollows(posts, id, user, u);
    }
  }

  /** The posts after `user` withdraws their like from post `id`. */
  function WithoutLike(posts: PostMap, id: int, user: string): PostMap
    requires id in posts
  {
    posts[id := posts[id].(likes := RemoveFrom(posts[id].likes, user))]
  }

  /** The follow map after `user`, when they have an entry, stops
      following `a`. */
  function Unfollow(f: map<string, set<string>>, user: string, a: string): (r: map<string, set<string>>)
    ensures r.Keys == f.Keys
  {
    if user in f then f[user := f[user] - {a}] else f
  }

  /** An unlike keeps a derived follow map derived once the unliker's entry,
      if they have one, loses the post's author when no other like of theirs
      on that author's posts remains. */
  lemma UnlikeKeepsGraph(posts: PostMap, f: map<string, set<string>>, id: int, user: string, likes: seq<string>)
    requires id in posts
    requires user !in likes && forall x :: x != user ==> (x in likes <==> x in posts[id].likes)
    requires f == FollowGraph(posts, f.Keys)
    ensures var after := posts[id := posts[id].(likes := likes)];
      var g := if user in f && LikedPostIds(after, user, posts[id].author) == {}
        then f[user := f[user] - {posts[id].author}] else f;
      g == FollowGraph(after, g.Keys)
  {
    var a := posts[id].author;
    var after := posts[id := posts[id].(likes := likes)];
    forall u | u in f
      ensures LikedAuthors(after, u) ==
        if u != user then f[u]
        else if LikedPostIds(after, u, a) == {} then f[u] - {a}
        else f[u]
    {
      UnlikeShrinksFollows(posts, id, user, likes, u);
    }
    if user in f && LikedPostIds(after, user, a) == {} {
      var g := f[user := f[user] - {a}];
      assert g.Keys == f.Keys;
      assert g == FollowGraph(after, f.Keys);
    } else {
      assert f == FollowGraph(after, f.Keys);
    }
  }

  /** The posts after the text of post `id` is replaced by `t`. */
  function WithText(posts: PostMap, id: int, t: string): PostMap
    requires id in posts
  {
    posts[id := posts[id].(text := t)]
  }

  /** Editing a text changes neither the authors nor anybody's follows. */
  lemma EditKeepsGraph(posts: PostMap, id: int, t: string, users: set<string>)
    requires id in posts
    ensures AuthorsOf(WithText(posts, id, t)) == AuthorsOf(posts)
    ensures FollowGraph(WithText(posts, id, t), users) == FollowGraph(posts, users)
  {
    var after := WithText(posts, id, t);
    forall a
      ensures a in AuthorsOf(after) <==> a in AuthorsOf(posts)
    {
      if a in AuthorsOf(after) {
        var j :| j in after && after[j].author == a;
        assert j in posts && posts[j].author == a;
      }
      if a in AuthorsOf(posts) {
        var j :| j in posts && posts[j].author == a;
        assert j in after && after[j].author == a;
      }
    }
    forall u | u in users
      ensures LikedAuthors(after, u) == LikedAuthors(posts, u)
    {
      forall v
        ensures v in LikedAuthors(after, u) <==> v in LikedAuthors(posts, u)
      {
        if v in LikedAuthors(after, u) {
          var j :| j in after && u in after[j].likes && after[j].author == v;
          assert j in posts && u in posts[j].likes && posts[j].author == v;
        }
        if v in LikedAuthors(posts, u) {
          var j :| j in posts && u in posts[j].likes && posts[j].author == v;
          assert j in after && u in after[j].likes && after[j].author == v;
        }
      }
    }
  }

  /** The derived-follow invariant is not preserved by a first post of a
      user who has already liked a post: Bob likes Alice's post while he has
      no entry, then writes his first post and gets an empty entry, although
      he likes a post by Alice. */
  lemma FirstPostAfterLikeLosesFollow(t: Timestamp)
    ensures var before := map[0 := PostValue(0, "alice", "hi", t, ["bob"])];
      var f := map["alice" := {}];
      var after := before[1 := PostValue(1, "bob", "hello", t, [])];
      f == FollowGraph(before, f.Keys) &&
      f["bob" := {}] != FollowGraph(after, f["bob" := {}].Keys)
  {
    var before := map[0 := PostValue(0, "alice", "hi", t, ["bob"])];
    var f := map["alice" := {}];
    var after := before[1 := PostValue(1, "bob", "hello", t, [])];
    assert "alice" != "bob";
    assert LikedAuthors(before, "alice") == {} by {
      assert "alice" !in before[0].likes;
    }
    assert f == FollowGraph(before, f.Keys);
    var g := FollowGraph(after, f["bob" := {}].Keys);
    assert "alice" in g["bob"] by {
      assert 0 in after && "bob" in after[0].likes;
    }
  }

  // ---------------------------------------------------------------------
  // Listing posts
  // ---------------------------------------------------------------------

  /** The posts with an id below `n`, in ascending id order (the order the
      model fixes for iterating over the post index). */
  function PostsBelow(posts: PostMap, n: int): (r: seq<PostValue>)
    decreases if n < 0 then 0 else n
  {
    if n <= 0 then []
    else PostsBelow(posts, n - 1) + (if n - 1 in posts then [posts[n - 1]] else [])
  }

  /** `PostsBelow` lists exactly the stored posts with ids below `n`, each
      once, in strictly ascending id order. */
  lemma {:induction false} PostsBelowListsPosts(posts: PostMap, n: int)
    requires KeyedById(posts)
    ensures forall x :: x in PostsBelow(posts, n) <==> x.id in posts && 0 <= x.id < n && posts[x.id] == x
    ensures forall i, j :: 0 <= i < j < |PostsBelow(posts, n)| ==>
      PostsBelow(posts, n)[i].id < PostsBelow(posts, n)[j].id
    ensures forall i :: 0 <= i < |PostsBelow(posts, n)| ==> 0 <= PostsBelow(posts, n)[i].id < n
    decreases if n < 0 then 0 else n
  {
    if n > 0 {
      PostsBelowListsPosts(posts, n - 1);
      var prev := PostsBelow(posts, n - 1);
      var tail := if n - 1 in posts then [posts[n - 1]] else [];
      assert PostsBelow(posts, n) == prev + tail;
      forall x: PostValue
        ensures x in prev + tail <==> x.id in posts && 0 <= x.id < n && posts[x.id] == x
      {
        if x.id == n - 1 && x.id in posts && posts[x.id] == x {
          assert x in tail;
        }
      }
      var r := prev + tail;
      forall i, j | 0 <= i < j < |r|
        ensures r[i].id < r[j].id
      {
        if j >= |prev| {
          assert r[j] == posts[n - 1] && r[j].id == n - 1;
          assert r[i] == prev[i];
        }
      }
      forall i | 0 <= i < |r|
        ensures 0 <= r[i].id < n
      {
        if i >= |prev| {
          assert r[i] == posts[n - 1];
        }
      }
    }
  }

  /** Every word of `words` occurs in `text` as a whole word. */
  predicate MatchesAll(text: string, words: seq<string>)
  {
    forall i :: 0 <= i < |words| ==> ContainsWord(text, words[i])
  }

  /** The selections the queries make over a post list. */
  datatype Criterion =
    | ByAuthorOf(author: string)       // `writtenBy`: the post's author is `author`
    | WithAllWords(words: seq<string>) // `containing`: the text holds every word

  /** Post `p` meets criterion `c`. */
  predicate Keeps(c: Criterion, p: PostValue)
  {
    match c
    case ByAuthorOf(u) => p.author == u
    case WithAllWords(ws) => MatchesAll(p.text, ws)
  }

  /** The posts of `ps` that meet `c`, in their order. */
  function Filter(ps: seq<PostValue>, c: Criterion): (r: seq<PostValue>)
    ensures forall x :: x in r <==> x in ps && Keeps(c, x)
    ensures |r| <= |ps|
  {
    if ps == [] then []
    else (if Keeps(c, ps[0]) then [ps[0]] else []) + Filter(ps[1..], c)
  }

  /** Filtering a list extended by one post extends the filtered list by
      that post exactly when it is kept: the loops that build a filtered
      list one post at a time compute `Filter`. */
  lemma {:induction false} FilterAppend(ps: seq<PostValue>, x: PostValue, c: Criterion)
    ensures Filter(ps + [x], c) == Filter(ps, c) + (if Keeps(c, x) then [x] else [])
  {
    if ps == [] {
      assert [x][1..] == [];
    } else {
      assert (ps + [x])[1..] == ps[1..] + [x];
      FilterAppend(ps[1..], x, c);
    }
  }

  /** The posts of `ps` written by `u`, in their order (`writtenBy`). */
  function ByAuthor(ps: seq<PostValue>, u: string): seq<PostValue>
  {
    Filter(ps, ByAuthorOf(u))
  }

  /** The posts of `ps` that contain every word, in their order (`containing`). */
  function ContainingAll(ps: seq<PostValue>, words: seq<string>): seq<PostValue>
  {
    Filter(ps, WithAllWords(words))
  }

  /** The authors of the posts of a list (`getMentionedUsers`). */
  function Mentioned(ps: seq<PostValue>): set<string>
  {
    set i | 0 <= i < |ps| :: ps[i].author
  }

  /** The authors mentioned by the full listing of a store whose ids are
      all below `n` are the store's authors. */
  lemma MentionedListing(posts: PostMap, n: int)
    requires KeyedById(posts)
    requires forall id :: id in posts ==> 0 <= id < n
    ensures Mentioned(PostsBelow(posts, n)) == AuthorsOf(posts)
  {
    var ps := PostsBelow(posts, n);
    PostsBelowListsPosts(posts, n);
    forall a | a in AuthorsOf(posts)
      ensures a in Mentioned(ps)
    {
      var id :| id in posts && posts[id].author == a;
      assert posts[id] in ps;
      var i :| 0 <= i < |ps| && ps[i] == posts[id];
    }
    forall a | a in Mentioned(ps)
      ensures a in AuthorsOf(posts)
    {
      var i :| 0 <= i < |ps| && ps[i].author == a;
      assert ps[i] in ps;
      assert ps[i].id in posts && posts[ps[i].id] == ps[i];
    }
  }

  // ---------------------------------------------------------------------
  // Relevance ranking
  // ---------------------------------------------------------------------

  /** How many entries of `words` occur in `text` as whole words; a word
      listed twice counts twice. */
  function Relevance(text: string, words: seq<string>): (r: nat)
    ensures r <= |words|
  {
    if words == [] then 0
    else (if ContainsWord(text, words[0]) then 1 else 0) + Relevance(text, words[1..])
  }

  /** A post has full relevance exactly when it contains every word, so
      `containing` selects the posts that `sortByRelevance` puts on top. */
  lemma {:induction false} FullRelevanceIffMatchesAll(text: string, words: seq<string>)
    ensures Relevance(text, words) == |words| <==> MatchesAll(text, words)
  {
    if words != [] {
      FullRelevanceIffMatchesAll(text, words[1..]);
      assert forall i :: 1 <= i < |words| ==> words[1..][i - 1] == words[i];
      if MatchesAll(text, words[1..]) && ContainsWord(text, words[0]) {
        forall i | 0 <= i < |words|
          ensures ContainsWord(text, words[i])
        {
          if i > 0 {
            assert words[1..][i - 1] == words[i];
          }
        }
      }
    }
  }

  /** The list is in non-increasing order of relevance. */
  predicate RankedByRelevance(ps: seq<PostValue>, words: seq<string>)
  {
    forall i, j :: 0 <= i < j < |ps| ==> Relevance(ps[i].text, words) >= Relevance(ps[j].text, words)
  }

  /** Inserts `x` after every post at least as relevant, keeping ties in
      arrival order. */
  function InsertByRelevance(x: PostValue, s: seq<PostValue>, words: seq<string>): (r: seq<PostValue>)
    ensures forall y :: y in r <==> y == x || y in s
  {
    if s == [] then [x]
    else if Relevance(s[0].text, words) >= Relevance(x.text, words) then
      [s[0]] + InsertByRelevance(x, s[1..], words)
    else
      [x] + s
  }

  /** Insertion adds `x` once and keeps every other post. */
  lemma {:induction false} InsertAddsOne(x: PostValue, s: seq<PostValue>, words: seq<string>)
    ensures multiset(InsertByRelevance(x, s, words)) == multiset(s) + multiset{x}
  {
    if s != [] && Relevance(s[0].text, words) >= Relevance(x.text, words) {
      assert s == [s[0]] + s[1..];
      InsertAddsOne(x, s[1..], words);
    }
  }

  /** Inserting into a ranked list keeps it ranked. */
  lemma {:induction false} InsertKeepsRanked(x: PostValue, s: seq<PostValue>, words: seq<string>)
    requires RankedByRelevance(s, words)
    ensures RankedByRelevance(InsertByRelevance(x, s, words), words)
  {
    var r := InsertByRelevance(x, s, words);
    if s == [] {
    } else if Relevance(s[0].text, words) >= Relevance(x.text, words) {
      var rest := InsertByRelevance(x, s[1..], words);
      InsertKeepsRanked(x, s[1..], words);
      assert r == [s[0]] + rest;
      forall j | 0 <= j < |rest|
        ensures Relevance(rest[j].text, words) <= Relevance(s[0].text, words)
      {
        assert rest[j] in rest;
        if rest[j] != x {
          var k :| 0 <= k < |s[1..]| && s[1..][k] == rest[j];
          assert s[k + 1] == rest[j];
        }
      }
      forall i, j | 0 <= i < j < |r|
        ensures Relevance(r[i].text, words) >= Relevance(r[j].text, words)
      {
        assert r[j] == rest[j - 1];
        if i > 0 {
          assert r[i] == rest[i - 1];
        }
      }
    } else {
      assert r == [x] + s;
    }
  }

  /** `sortByRelevance`: a stable sort by non-increasing relevance (the
      library sort is stable). */
  function RankByRelevance(ps: seq<PostValue>, words: seq<string>): (r: seq<PostValue>)
    ensures multiset(r) == multiset(ps)
    ensures RankedByRelevance(r, words)
  {
    if ps == [] then []
    else
      assert ps == ps[..|ps| - 1] + [ps[|ps| - 1]];
      var ranked := RankByRelevance(ps[..|ps| - 1], words);
      InsertKeepsRanked(ps[|ps| - 1], ranked, words);
      InsertAddsOne(ps[|ps| - 1], ranked, words);
      InsertByRelevance(ps[|ps| - 1], ranked, words)
  }

  // ---------------------------------------------------------------------
  // Followers and influencers
  // ---------------------------------------------------------------------

  /** The users of `f` whose follow set contains `u`. */
  function Followers(f: map<string, set<string>>, u: string): set<string>
  {
    set k | k in f && u in f[k]
  }

  /** The influencers of `f`: users followed by more users than they follow. */
  function InfluencerSet(f: map<string, set<string>>): set<string>
  {
    set u | u in f && |f[u]| < |Followers(f, u)|
  }

  /** A, followed by B and C and following nobody, is the only influencer. */
  lemma InfluencerScenario()
    ensures InfluencerSet(map["A" := {}, "B" := {"A"}, "C" := {"A"}]) == {"A"}
  {
    var f := map["A" := {}, "B" := {"A"}, "C" := {"A"}];
    assert Followers(f, "A") == {"B", "C"};
    assert Followers(f, "B") == {};
    assert Followers(f, "C") == {};
    assert |f["B"]| == 1 && |f["C"]| == 1;
  }

  // ---------------------------------------------------------------------
  // Inferring the follow graph from a list of posts
  // ---------------------------------------------------------------------

  /** The follow map inferred from a post list: every author is a user, and
      follows the authors of the posts they liked. */
  function GuessedGraph(ps: seq<PostValue>): map<string, set<string>>
  {
    map u | u in Mentioned(ps) :: set i | 0 <= i < |ps| && u in ps[i].likes :: ps[i].author
  }

  /** Alice's post liked by Bob and Bob's post liked by nobody: Bob follows
      Alice, Alice follows nobody. */
  lemma GuessScenario(t1: Timestamp, t2: Timestamp)
    ensures GuessedGraph([PostValue(0, "alice", "hello", t1, ["bob"]),
                          PostValue(1, "bob", "hi", t2, [])]) ==
            map["alice" := {}, "bob" := {"alice"}]
  {
    var ps := [PostValue(0, "alice", "hello", t1, ["bob"]), PostValue(1, "bob", "hi", t2, [])];
    assert Mentioned(ps) == {"alice", "bob"} by {
      assert ps[0].author == "alice" && ps[1].author == "bob";
    }
    assert "alice" != "bob";
    var g := GuessedGraph(ps);
    assert g["alice"] == {};
    assert g["bob"] == {"alice"} by {
      assert "bob" in ps[0].likes;
    }
  }

  /** A network holding the posts of `ps` under ids 0, 1, ... with their
      authors and likes, and an entry for every author, derives exactly the
      inferred follow map. */
  lemma ReplayGraph(ps: seq<PostValue>, posts: PostMap)
    requires forall i :: i in posts <==> 0 <= i < |ps|
    requires forall i :: 0 <= i < |ps| ==> posts[i].author == ps[i].author && posts[i].likes == ps[i].likes
    ensures FollowGraph(posts, Mentioned(ps)) == GuessedGraph(ps)
  {
    forall u | u in Mentioned(ps)
      ensures LikedAuthors(posts, u) == GuessedGraph(ps)[u]
    {
      var inferred := set i | 0 <= i < |ps| && u in ps[i].likes :: ps[i].author;
      forall v | v in LikedAuthors(posts, u)
        ensures v in inferred
      {
        var id :| id in posts && u in posts[id].likes && posts[id].author == v;
        assert 0 <= id < |ps| && u in ps[id].likes;
      }
      forall v | v in inferred
        ensures v in LikedAuthors(posts, u)
      {
        var i :| 0 <= i < |ps| && u in ps[i].likes && ps[i].author == v;
        assert i in posts && u in posts[i].likes;
      }
    }
  }
}
