/** The post entity: an immutable id, author and timestamp, an editable
    text of at most 140 UTF-16 code units, and a duplicate-free list of the
    users who liked it, which never holds the author. */
module Posts {
  import opened Outcomes
  import opened Text

  /** Longest text a post may hold, in UTF-16 code units (Java
      `String.length()`, see `Utf16Length`). */
  const MaxLength: int := 140

  /** Java's `Integer.MAX_VALUE` and `Integer.MIN_VALUE`. */
  const MaxInt: int := 0x7fff_ffff
  const MinInt: int := -0x8000_0000

  /** The creation time of a post; the clock is a parameter of the model. */
  type Timestamp = int

  /** A snapshot of a post's fields: what `clone` copies out of a post. */
  datatype PostValue = PostValue(
    id: int,
    author: string,
    text: string,
    timestamp: Timestamp,
    likes: seq<string>)

  predicate NoDuplicates(xs: seq<string>)
  {
    forall i, j :: 0 <= i < j < |xs| ==> xs[i] != xs[j]
  }

  /** A text a post may hold: not blank and at most 140 UTF-16 units. */
  predicate ValidText(t: string)
  {
    !Blank(t) && Utf16Length(t) <= MaxLength
  }

  /** The representation invariant of a post. */
  predicate ValidPost(p: PostValue)
  {
    p.id >= 0 && !Blank(p.author) && ValidText(p.text) &&
    (forall i :: 0 <= i < |p.likes| ==> !Blank(p.likes[i]) && p.likes[i] != p.author) &&
    NoDuplicates(p.likes)
  }

  /** The checks of the constructor, in its order: a negative id, a blank
      author or a blank text is an illegal argument; only a text that passes
      those and is longer than 140 UTF-16 units exceeds the limit. */
  function CheckPost(id: int, author: string, text: string): (r: Option<Error>)
    ensures r == Some(IllegalArgument) <==> id < 0 || Blank(author) || Blank(text)
    ensures r == Some(LimitExceeded) <==>
      id >= 0 && !Blank(author) && !Blank(text) && Utf16Length(text) > MaxLength
    ensures r == None <==> id >= 0 && !Blank(author) && ValidText(text)
  {
    if id < 0 || Blank(author) || Blank(text) then Some(IllegalArgument)
    else if Utf16Length(text) > MaxLength then Some(LimitExceeded)
    else None
  }

  /** Seventy-one emoji make 71 characters but 142 UTF-16 units, which
      exceeds the limit. */
  lemma EmojiTextExceedsLimit()
    ensures CheckPost(0, "ann", seq(71, _ => '\U{1F600}')) == Some(LimitExceeded)
  {
    var t := seq(71, _ => '\U{1F600}');
    SupplementaryCountsTwice(t);
    assert !Blank(t) by {
      BlankIffAllSpace(t);
      assert t[0] > ' ';
    }
    assert !Blank("ann") by {
      assert "ann"[0] > ' ';
    }
  }

  /** The like list after `addLike(u)` succeeds: `u` is appended when absent. */
  function AddLikeTo(likes: seq<string>, u: string): (r: seq<string>)
    ensures u in r
    ensures forall x :: x in r <==> x in likes || x == u
    ensures likes <= r
    ensures NoDuplicates(likes) ==> NoDuplicates(r)
  {
    if u in likes then likes else likes + [u]
  }

  /** A like by a non-blank user other than the author keeps a post valid. */
  lemma AddLikeKeepsValid(p: PostValue, u: string)
    requires ValidPost(p) && !Blank(u) && u != p.author
    ensures ValidPost(p.(likes := AddLikeTo(p.likes, u)))
  {
    var r := AddLikeTo(p.likes, u);
    forall i | 0 <= i < |r|
      ensures !Blank(r[i]) && r[i] != p.author
    {
      if i >= |p.likes| {
        assert r[i] == u;
      }
    }
  }

  /** Liking twice leaves the same list as liking once. */
  lemma AddLikeIdempotent(likes: seq<string>, u: string)
    ensures AddLikeTo(AddLikeTo(likes, u), u) == AddLikeTo(likes, u)
  {
  }

  /** The like list after `removeLike(u)`: the first occurrence of `u` is
      dropped. */
  function RemoveFrom(likes: seq<string>, u: string): (r: seq<string>)
    ensures u !in likes ==> r == likes
    ensures forall x :: x != u ==> (x in r <==> x in likes)
  {
    if likes == [] then []
    else if likes[0] == u then
      assert likes == [likes[0]] + likes[1..];
      likes[1..]
    else
      assert likes == [likes[0]] + likes[1..];
      [likes[0]] + RemoveFrom(likes[1..], u)
  }

  /** Removal takes exactly one occurrence of `u` out of the list, when
      there is one, and nothing else. */
  lemma {:induction false} RemoveFromMultiset(likes: seq<string>, u: string)
    ensures multiset(RemoveFrom(likes, u)) == multiset(likes) - multiset{u}
  {
    if likes != [] {
      assert likes == [likes[0]] + likes[1..];
      if likes[0] != u {
        RemoveFromMultiset(likes[1..], u);
      }
    }
  }

  /** Removing from a duplicate-free list leaves it duplicate-free and
      without `u`. */
  lemma {:induction false} RemoveFromNoDuplicates(likes: seq<string>, u: string)
    requires NoDuplicates(likes)
    ensures NoDuplicates(RemoveFrom(likes, u)) && u !in RemoveFrom(likes, u)
  {
    if likes != [] && likes[0] != u {
      RemoveFromNoDuplicates(likes[1..], u);
      var rest := RemoveFrom(likes[1..], u);
      assert likes[0] !in likes[1..];
      assert likes[0] !in rest;
    } else if likes != [] {
      assert u !in likes[1..];
    }
  }

  /** Removing a like keeps a post valid. */
  lemma RemoveKeepsValid(p: PostValue, u: string)
    requires ValidPost(p)
    ensures ValidPost(p.(likes := RemoveFrom(p.likes, u)))
  {
    RemoveFromNoDuplicates(p.likes, u);
    var r := RemoveFrom(p.likes, u);
    forall i | 0 <= i < |r|
      ensures !Blank(r[i]) && r[i] != p.author
    {
      assert r[i] in p.likes;
    }
  }

  /** Removing a like that is already gone changes nothing, so unliking
      twice equals unliking once. */
  lemma RemoveIdempotent(likes: seq<string>, u: string)
    requires NoDuplicates(likes)
    ensures RemoveFrom(RemoveFrom(likes, u), u) == RemoveFrom(likes, u)
  {
    RemoveFromNoDuplicates(likes, u);
  }

  /** `RemoveFrom` cuts the list at the first occurrence of `u`: the likes
      before and after it keep their order. */
  lemma {:induction false} RemoveFromAt(likes: seq<string>, u: string, i: int)
    requires 0 <= i < |likes| && likes[i] == u && u !in likes[..i]
    ensures RemoveFrom(likes, u) == likes[..i] + likes[i + 1..]
  {
    if i > 0 {
      var tail := likes[1..];
      assert likes[0] in likes[..i];
      assert tail[..i - 1] == likes[1..i];
      assert u !in tail[..i - 1];
      RemoveFromAt(tail, u, i - 1);
      calc {
        RemoveFrom(likes, u);
        [likes[0]] + RemoveFrom(tail, u);
        [likes[0]] + (tail[..i - 1] + tail[i..]);
        { assert likes[..i] == [likes[0]] + tail[..i - 1]; }
        likes[..i] + tail[i..];
        { assert tail[i..] == likes[i + 1..]; }
        likes[..i] + likes[i + 1..];
      }
    }
  }

  /** `LinkedList.indexOf`: the first position of `x`, or -1. */
  method IndexOf(xs: seq<string>, x: string) returns (i: int)
    ensures i == -1 <==> x !in xs
    ensures i != -1 ==> 0 <= i < |xs| && xs[i] == x && x !in xs[..i]
  {
    i := 0;
    while i < |xs|
      invariant 0 <= i <= |xs|
      invariant x !in xs[..i]
    {
      if xs[i] == x {
        return;
      }
      assert xs[..i + 1] == xs[..i] + [xs[i]];
      i := i + 1;
    }
    assert xs[..i] == xs;
    i := -1;
  }

  /** Java's 32-bit wrap-around of an integer result. */
  function Wrap32(x: int): int
  {
    (x - MinInt) % 0x1_0000_0000 + MinInt
  }

  class Post {
    const id: int
    const author: string
    var text: string
    const timestamp: Timestamp
    var likes: seq<string>

    /** The fields of this post as a value. */
    function Value(): PostValue
      reads this
    {
      PostValue(id, author, text, timestamp, likes)
    }

    ghost predicate Valid()
      reads this
    {
      ValidPost(Value())
    }

    /** The constructor once its checks have passed; `NewPost` below is the
        constructor with its exceptions. */
    constructor (id: int, author: string, text: string, now: Timestamp)
      requires CheckPost(id, author, text) == None
      ensures Valid()
      ensures Value() == PostValue(id, author, text, now, [])
    {
      this.id := id;
      this.author := author;
      this.text := text;
      this.timestamp := now;
      this.likes := [];
    }

    /** `editPost`: a blank text is an illegal argument, a text over 140
        UTF-16 units exceeds the limit; in both cases the text is kept. */
    method EditPost(newText: string) returns (r: Result<()>)
      requires Valid()
      modifies this
      ensures Valid()
      ensures likes == old(likes)
      ensures Blank(newText) ==> r == Err(IllegalArgument) && text == old(text)
      ensures !Blank(newText) && Utf16Length(newText) > MaxLength ==>
        r == Err(LimitExceeded) && text == old(text)
      ensures ValidText(newText) ==> r == Ok(()) && text == newText
    {
      if Blank(newText) {
        return Err(IllegalArgument);
      }
      if Utf16Length(newText) > MaxLength {
        return Err(LimitExceeded);
      }
      text := newText;
      r := Ok(());
    }

    /** `addLike`: a blank user is an illegal argument, the author liking
        their own post is an illegal state; otherwise the user is appended
        unless already present. */
    method AddLike(user: string) returns (r: Result<()>)
      requires Valid()
      modifies this
      ensures Valid()
      ensures text == old(text)
      ensures Blank(user) ==> r == Err(IllegalArgument) && likes == old(likes)
      ensures !Blank(user) && user == author ==> r == Err(IllegalState) && likes == old(likes)
      ensures !Blank(user) && user != author ==>
        r == Ok(()) && likes == AddLikeTo(old(likes), user)
    {
      if Blank(user) {
        return Err(IllegalArgument);
      }
      if user == author {
        return Err(IllegalState);
      }
      var index := IndexOf(likes, user);
      if index == -1 {
        likes := likes + [user];
      }
      r := Ok(());
    }

    /** `removeLike`: a blank user is an illegal argument; otherwise the
        user's like is removed if present. */
    method RemoveLike(user: string) returns (r: Result<()>)
      requires Valid()
      modifies this
      ensures Valid()
      ensures text == old(text)
      ensures Blank(user) ==> r == Err(IllegalArgument) && likes == old(likes)
      ensures !Blank(user) ==> r == Ok(()) && likes == RemoveFrom(old(likes), user)
    {
      if Blank(user) {
        return Err(IllegalArgument);
      }
      var index := IndexOf(likes, user);
      ghost var before := Value();
      if index != -1 {
        RemoveFromAt(likes, user, index);
        likes := likes[..index] + likes[index + 1..];
      }
      RemoveKeepsValid(before, user);
      r := Ok(());
    }

    /** `getLikes`: a copy of the like list, built element by element. */
    method GetLikes() returns (copy: seq<string>)
      ensures copy == likes
    {
      copy := [];
      var i := 0;
      while i < |likes|
        invariant 0 <= i <= |likes|
        invariant copy == likes[..i]
      {
        copy := copy + [likes[i]];
        i := i + 1;
      }
    }

    /** `clone`: a new post with the same id, author, text, timestamp and
        likes; later changes to either post do not reach the other. */
    method Clone() returns (c: Post)
      requires Valid()
      ensures fresh(c)
      ensures c.Valid() && c.Value() == Value()
    {
      c := new Post(id, author, text, timestamp);
      var i := 0;
      while i < |likes|
        invariant 0 <= i <= |likes|
        invariant c.Valid()
        invariant c.Value() == PostValue(id, author, text, timestamp, likes[..i])
      {
        assert likes[i] !in likes[..i];
        var _ := c.AddLike(likes[i]);
        i := i + 1;
      }
      assert likes[..i] == likes;
    }

    /** `equals`: two posts are equal exactly when their ids are. */
    function Equals(other: Post): (r: bool)
      ensures r <==> id == other.id
    {
      id == other.id
    }

    /** `compareTo`: the 32-bit difference of the ids. For ids between 0 and
        Integer.MAX_VALUE the subtraction cannot overflow, so its sign is
        the order of the ids. */
    function CompareTo(other: Post): (r: int)
      ensures MinInt <= r <= MaxInt
      ensures 0 <= id <= MaxInt && 0 <= other.id <= MaxInt ==>
        (r < 0 <==> id < other.id) && (r == 0 <==> id == other.id) &&
        (r > 0 <==> id > other.id)
    {
      Wrap32(id - other.id)
    }
  }

  /** The `Post` constructor with its exceptions. */
  method NewPost(id: int, author: string, text: string, now: Timestamp)
    returns (r: Result<Post>)
    ensures r.Err? <==> CheckPost(id, author, text) != None
    ensures r.Err? ==> CheckPost(id, author, text) == Some(r.error)
    ensures r.Ok? ==>
      fresh(r.value) && r.value.Valid() &&
      r.value.Value() == PostValue(id, author, text, now, [])
  {
    var check := CheckPost(id, author, text);
    if check.Some? {
      return Err(check.value);
    }
    var p := new Post(id, author, text, now);
    r := Ok(p);
  }
}
