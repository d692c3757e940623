/** The network with bad-word filtering: every banned string in the text of
    a new post is replaced by "***" after the post is created. */
module Badwords {
  import opened Outcomes
  import opened Text
  import opened Posts
  import opened NetworkSpec
  import opened Network

  /** Every word is non-empty, so each can be censored. */
  predicate Censorable(ws: seq<string>)
  {
    forall k :: 0 <= k < |ws| ==> |ws[k]| > 0
  }

  /** The text after censoring each word of `ws` in turn, first to last. */
  function CensorAll(s: string, ws: seq<string>): string
    requires Censorable(ws)
    decreases |ws|
  {
    if ws == [] then s
    else Censor(CensorAll(s, ws[..|ws| - 1]), ws[|ws| - 1])
  }

  /** Censoring one more word censors the text censored so far. */
  lemma CensorAllSnoc(s: string, ws: seq<string>, w: string)
    requires Censorable(ws) && |w| > 0
    ensures Censorable(ws + [w])
    ensures CensorAll(s, ws + [w]) == Censor(CensorAll(s, ws), w)
  {
    assert (ws + [w])[..|ws|] == ws;
  }

  /** Censoring never makes a non-blank text blank. */
  lemma {:induction false} CensorAllKeepsNonBlank(s: string, ws: seq<string>)
    requires Censorable(ws) && !Blank(s)
    ensures !Blank(CensorAll(s, ws))
    decreases |ws|
  {
    if ws != [] {
      CensorAllKeepsNonBlank(s, ws[..|ws| - 1]);
      CensorKeepsNonBlank(CensorAll(s, ws[..|ws| - 1]), ws[|ws| - 1]);
    }
  }

  /** Censoring creates no occurrence of a star-free string that was
      absent. */
  lemma {:induction false} CensorAllKeepsAbsent(s: string, ws: seq<string>, v: string)
    requires Censorable(ws) && |v| > 0 && StarFree(v) && !Occurs(s, v)
    ensures !Occurs(CensorAll(s, ws), v)
    decreases |ws|
  {
    if ws != [] {
      CensorAllKeepsAbsent(s, ws[..|ws| - 1], v);
      CensorKeepsAbsent(CensorAll(s, ws[..|ws| - 1]), ws[|ws| - 1], v);
    }
  }

  /** After censoring every word of `ws`, none of the star-free ones occurs
      in the text, whatever the order of `ws`. */
  lemma {:induction false} CensorAllRemoves(s: string, ws: seq<string>)
    requires Censorable(ws)
    ensures forall k :: 0 <= k < |ws| && StarFree(ws[k]) ==> !Occurs(CensorAll(s, ws), ws[k])
    decreases |ws|
  {
    if ws != [] {
      var front := ws[..|ws| - 1];
      var last := ws[|ws| - 1];
      CensorAllRemoves(s, front);
      forall k | 0 <= k < |ws| && StarFree(ws[k])
        ensures !Occurs(CensorAll(s, ws), ws[k])
      {
        if k == |ws| - 1 {
          CensorRemoves(CensorAll(s, front), last);
        } else {
          assert ws[k] == front[k];
          CensorKeepsAbsent(CensorAll(s, front), last, ws[k]);
        }
      }
    }
  }

  /** The invariant the filtering network documents for itself: no stored
      post contains a banned string. */
  ghost predicate NoBannedStored(posts: PostMap, badwords: set<string>)
  {
    forall id, w | id in posts && w in badwords :: !Occurs(posts[id].text, w)
  }

  /** Censoring "a" in a run of n 'a's gives 3n stars. */
  lemma {:induction false} CensorRunOfA(n: nat)
    ensures Censor(seq(n, _ => 'a'), "a") == seq(3 * n, _ => '*')
  {
    if n > 0 {
      var s := seq(n, _ => 'a');
      assert s[..1] == "a";
      assert s[1..] == seq(n - 1, _ => 'a');
      CensorRunOfA(n - 1);
      assert Stars + seq(3 * (n - 1), _ => '*') == seq(3 * n, _ => '*');
    }
  }

  /** The only listing of a one-word set is that word. */
  lemma SingletonEnumeration(order: seq<string>, w: string)
    requires Enumerates(order, {w})
    ensures order == [w]
  {
    assert w in order;
    forall k | 0 <= k < |order|
      ensures order[k] == w
    {
      assert order[k] in order;
    }
    FirstTwoDiffer(order);
  }

  /** The first two entries of a duplicate-free list differ. */
  lemma FirstTwoDiffer(xs: seq<string>)
    requires NoDuplicates(xs)
    ensures |xs| > 1 ==> xs[0] != xs[1]
  {
  }

  /** The documented invariant does not survive `createPost`: with only "a"
      banned, a first post of 47 'a's is a valid text that contains "a", and
      its censored text of 141 stars is over the limit, so the post is kept
      with its original text (`FilteringBlog.CreatePost`, the -1 case). */
  lemma OverlongCensorKeepsBanned(order: seq<string>, author: string, now: Timestamp)
    requires Enumerates(order, {"a"}) && !Blank(author)
    ensures Censorable(order)
    ensures var t := seq(47, _ => 'a');
      ValidText(t) && Utf16Length(CensorAll(t, order)) > MaxLength &&
      !NoBannedStored(map[0 := PostValue(0, author, t, now, [])], {"a"})
  {
    SingletonEnumeration(order, "a");
    var t := seq(47, _ => 'a');
    assert !Blank(t) by {
      assert t[0] > ' ';
    }
    assert CensorAll(t, order) == Censor(t, "a") by {
      assert order[..0] == [];
    }
    CensorRunOfA(47);
    assert OccursAt(t, "a", 0) by {
      assert t[0..1] == "a";
    }
    var stored := map[0 := PostValue(0, author, t, now, [])];
    assert Occurs(stored[0].text, "a");
  }

  /** `order` lists each word of `words` exactly once. */
  ghost predicate Enumerates(order: seq<string>, words: set<string>)
  {
    NoDuplicates(order) && forall w :: w in order <==> w in words
  }

  /** The loop of the constructor: a blank word is an illegal argument;
      otherwise the set of the given words. */
  method CollectBadwords(words: seq<string>) returns (r: Result<set<string>>)
    ensures r.Err? <==> exists k :: 0 <= k < |words| && Blank(words[k])
    ensures r.Err? ==> r.error == IllegalArgument
    ensures r.Ok? ==> forall w :: w in r.value <==> w in words
  {
    var collected: set<string> := {};
    for k := 0 to |words|
      invariant forall j :: 0 <= j < k ==> !Blank(words[j])
      invariant forall w :: w in collected <==> w in words[..k]
    {
      if Blank(words[k]) {
        return Err(IllegalArgument);
      }
      assert words[..k + 1] == words[..k] + [words[k]];
      collected := collected + {words[k]};
    }
    assert words[..|words|] == words;
    r := Ok(collected);
  }

  class FilteringBlog {
    /** The underlying network, whose operations this one inherits. */
    const blog: MicroBlog
    /** the banned strings */
    const badwords: set<string>

    /** The representation invariant: the network is valid and no banned
        string is blank. */
    ghost predicate Valid()
      reads this, blog
    {
      blog.Valid() && forall w | w in badwords :: !Blank(w)
    }

    /** An empty network banning the (already checked) `words`. */
    constructor (words: set<string>)
      requires forall w | w in words :: !Blank(w)
      ensures Valid() && blog.FollowsDerived() && fresh(blog)
      ensures blog.postLookup == map[] && blog.nextId == 0
      ensures badwords == words
    {
      blog := new MicroBlog();
      badwords := words;
    }

    /** `MicroBlogWithBadwordFiltering(badwords)`: a blank word is an
        illegal argument; otherwise an empty network banning exactly the
        given words. */
    static method FromWords(words: seq<string>) returns (r: Result<FilteringBlog>)
      ensures r.Err? <==> exists k :: 0 <= k < |words| && Blank(words[k])
      ensures r.Err? ==> r.error == IllegalArgument
      ensures r.Ok? ==> fresh(r.value) && fresh(r.value.blog) && r.value.Valid()
      ensures r.Ok? ==> r.value.blog.FollowsDerived()
      ensures r.Ok? ==> r.value.blog.postLookup == map[] && r.value.blog.nextId == 0
      ensures r.Ok? ==> forall w :: w in r.value.badwords <==> w in words
    {
      var collected := CollectBadwords(words);
      if collected.Err? {
        return Err(collected.error);
      }
      var created := new FilteringBlog(collected.value);
      r := Ok(created);
    }

    /** The scan of `createPost` over the banned strings: each is censored
        in turn, in the set's iteration order, which `order` records. */
    method FilterAll(text: string) returns (filtered: string, ghost order: seq<string>)
      requires Valid()
      ensures Enumerates(order, badwords) && Censorable(order)
      ensures filtered == CensorAll(text, order)
    {
      filtered := text;
      order := [];
      var remaining := badwords;
      while remaining != {}
        invariant remaining <= badwords
        invariant NoDuplicates(order) && Censorable(order)
        invariant forall w :: w in order <==> w in badwords && w !in remaining
        invariant filtered == CensorAll(text, order)
        decreases |remaining|
      {
        var w := PickFrom(remaining);
        assert |w| > 0 by {
          assert !Blank(w);
        }
        CensorAllSnoc(text, order, w);
        filtered := Censor(filtered, w);
        order := order + [w];
        remaining := remaining - {w};
      }
    }

    /** `createPost` with filtering: a blank author or text is an illegal
        argument, and a text over 140 UTF-16 units gives -1 after using up an
        id. Otherwise the post is created as by the network, then its text
        is replaced by the censored text; when that is longer than 140
        UTF-16 units the post keeps its original text and the result is -1,
        else the result is the new post's id. */
    method CreatePost(author: string, text: string, now: Timestamp)
        returns (r: Result<int>, ghost order: seq<string>)
      requires Valid()
      modifies blog
      ensures Valid()
      ensures Blank(author) || Blank(text) ==>
        r == Err(IllegalArgument) && blog.postLookup == old(blog.postLookup) &&
        blog.nextId == old(blog.nextId) &&
        blog.postRelations == old(blog.postRelations) &&
        blog.followRelations == old(blog.followRelations)
      ensures !Blank(author) && !Blank(text) && Utf16Length(text) > MaxLength ==>
        r == Ok(-1) && blog.postLookup == old(blog.postLookup) &&
        blog.nextId == old(blog.nextId) + 1 &&
        blog.postRelations == old(blog.postRelations) &&
        blog.followRelations == old(blog.followRelations)
      ensures !Blank(author) && ValidText(text) ==>
        Enumerates(order, badwords) && Censorable(order) &&
        var id := old(blog.nextId);
        var stored := old(blog.postLookup)[id := PostValue(id, author, text, now, [])];
        var filtered := CensorAll(text, order);
        r == (if Utf16Length(filtered) <= MaxLength then Ok(id) else Ok(-1)) &&
        blog.nextId == id + 1 &&
        blog.postLookup == (if Utf16Length(filtered) <= MaxLength then WithText(stored, id, filtered) else stored) &&
        blog.postRelations == FileUnder(old(blog.postRelations), author, id) &&
        blog.followRelations == EnsureUser(old(blog.followRelations), author)
      ensures r.Ok? && r.value >= 0 ==>
        r.value in blog.postLookup &&
        forall w | w in badwords && StarFree(w) :: !Occurs(blog.postLookup[r.value].text, w)
      ensures old(blog.FollowsDerived()) ==>
        (author in old(blog.followRelations) || LikedAuthors(old(blog.postLookup), author) == {}) ==>
        blog.FollowsDerived()
    {
      var created := blog.CreatePost(author, text, now);
      if created.Err? {
        if created.error == LimitExceeded {
          return Ok(-1), [];
        }
        return Err(created.error), [];
      }
      var id := created.value;
      r, order := CensorStored(id, text);
    }

    /** The second half of `createPost` with filtering: the text of the
        post just stored under `id` is replaced by its censored text, unless
        that is longer than 140 UTF-16 units, in which case the post keeps its
        text and the result is -1. */
    method CensorStored(id: int, text: string) returns (r: Result<int>, ghost order: seq<string>)
      requires Valid() && id in blog.postLookup && blog.postLookup[id].text == text
      modifies blog
      ensures Valid()
      ensures Enumerates(order, badwords) && Censorable(order)
      ensures blog.nextId == old(blog.nextId)
      ensures blog.postRelations == old(blog.postRelations)
      ensures blog.followRelations == old(blog.followRelations)
      ensures var filtered := CensorAll(text, order);
        r == (if Utf16Length(filtered) <= MaxLength then Ok(id) else Ok(-1)) &&
        blog.postLookup == (if Utf16Length(filtered) <= MaxLength
                            then WithText(old(blog.postLookup), id, filtered)
                            else old(blog.postLookup))
      ensures r.Ok? && r.value >= 0 ==>
        forall w | w in badwords && StarFree(w) :: !Occurs(blog.postLookup[id].text, w)
      ensures old(blog.FollowsDerived()) ==> blog.FollowsDerived()
    {
      var filtered;
      filtered, order := FilterAll(text);
      assert ValidText(text) by {
        assert ValidPost(blog.postLookup[id]);
      }
      CensorAllKeepsNonBlank(text, order);
      CensorAllRemoves(text, order);
      var edited := blog.EditStored(id, filtered);
      if edited.Err? {
        return Ok(-1), order;
      }
      r := Ok(id);
    }
  }
}
