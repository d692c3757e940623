/** The network with report moderation: users report posts, each post
    remembers who reported it, and a post reported by enough distinct
    users has its text replaced by "(deleted)". */
module Reports {
  import opened Outcomes
  import opened Text
  import opened Posts
  import opened NetworkSpec
  import opened Network

  /** The text a redacted post holds. */
  const Deleted: string := "(deleted)"

  /** The threshold of the constructor without arguments. */
  const DefaultMaxReportCount: int := 5

  /** Java's `byte` range, the type of the threshold. */
  const MinByte: int := -128
  const MaxByte: int := 127

  /** The users who have reported post `id` so far. */
  function ReportersOf(reports: map<int, set<string>>, id: int): set<string>
  {
    if id in reports then reports[id] else {}
  }

  /** The redaction invariant: a post with at least `threshold` reports is
      stored with the text "(deleted)". */
  ghost predicate Redacted(reports: map<int, set<string>>, threshold: int, posts: PostMap)
  {
    forall id | id in reports && |reports[id]| >= threshold :: id in posts && posts[id].text == Deleted
  }

  /** "(deleted)" is a text a post may hold, so redaction never fails. */
  lemma DeletedIsValidText()
    ensures ValidText(Deleted)
  {
    assert Deleted[0] == '(';
  }

  /** Recording the reporters of a stored post keeps the invariant once the
      post is redacted when the count reaches the threshold: the other
      posts keep their texts and counts. */
  lemma ReportKeepsRedacted(reports: map<int, set<string>>, threshold: int, posts: PostMap,
                            id: int, reporters: set<string>)
    requires Redacted(reports, threshold, posts) && id in posts
    ensures Redacted(reports[id := reporters], threshold,
                     if |reporters| >= threshold then WithText(posts, id, Deleted) else posts)
  {
  }

  /** The scan of `reportContent` over a post's reports: whether `user` is
      among the reporters. */
  method HasReported(reporters: set<string>, user: string) returns (b: bool)
    ensures b <==> user in reporters
  {
    var remaining := reporters;
    while remaining != {}
      invariant remaining <= reporters
      invariant user !in reporters - remaining
      decreases |remaining|
    {
      var reporter := PickFrom(remaining);
      if reporter == user {
        return true;
      }
      remaining := remaining - {reporter};
    }
    b := false;
  }

  class ReportingBlog {
    /** The underlying network, whose operations this one inherits. */
    const blog: MicroBlog
    /** post id -> the users who have reported that post */
    var reports: map<int, set<string>>
    /** the number of reports that redacts a post */
    const maxReportCount: int

    /** The representation invariant: the network is valid, reports are
        kept only for stored posts, by non-blank users other than the
        author, and every post reported often enough is redacted. */
    ghost predicate Valid()
      reads this, blog
    {
      blog.Valid() &&
      (forall id | id in reports ::
         id in blog.postLookup && blog.postLookup[id].author !in reports[id] &&
         forall u | u in reports[id] :: !Blank(u)) &&
      Redacted(reports, maxReportCount, blog.postLookup)
    }

    /** `MicroBlogWithReports()`: an empty network with the default
        threshold of 5 reports. */
    constructor ()
      ensures Valid() && blog.FollowsDerived() && fresh(blog)
      ensures blog.postLookup == map[] && blog.nextId == 0
      ensures reports == map[] && maxReportCount == DefaultMaxReportCount
    {
      blog := new MicroBlog();
      reports := map[];
      maxReportCount := DefaultMaxReportCount;
    }

    /** `MicroBlogWithReports(maxReportCount)`: an empty network with the
        given threshold. */
    constructor WithThreshold(threshold: int)
      requires MinByte <= threshold <= MaxByte
      ensures Valid() && blog.FollowsDerived() && fresh(blog)
      ensures blog.postLookup == map[] && blog.nextId == 0
      ensures reports == map[] && maxReportCount == threshold
    {
      blog := new MicroBlog();
      reports := map[];
      maxReportCount := threshold;
    }

    /** `reportContent(user, postId)`: a blank user or a negative id is an
        illegal argument, an unknown id has no such element, and the author
        or a user who already reported the post is in an illegal state; all
        of these leave everything as it was. Otherwise the user joins the
        post's reporters, and when the post then has at least
        `maxReportCount` reporters its text becomes "(deleted)". */
    method ReportContent(user: string, postId: int) returns (r: Result<()>)
      requires Valid()
      modifies this, blog
      ensures Valid()
      ensures blog.postRelations == old(blog.postRelations)
      ensures blog.followRelations == old(blog.followRelations)
      ensures blog.nextId == old(blog.nextId)
      ensures Blank(user) || postId < 0 ==>
        r == Err(IllegalArgument) && reports == old(reports) && blog.postLookup == old(blog.postLookup)
      ensures !Blank(user) && postId >= 0 && postId !in old(blog.postLookup) ==>
        r == Err(NoSuchElement) && reports == old(reports) && blog.postLookup == old(blog.postLookup)
      ensures !Blank(user) && postId >= 0 && postId in old(blog.postLookup) &&
              (user == old(blog.postLookup)[postId].author || user in ReportersOf(old(reports), postId)) ==>
        r == Err(IllegalState) && reports == old(reports) && blog.postLookup == old(blog.postLookup)
      ensures !Blank(user) && postId >= 0 && postId in old(blog.postLookup) &&
              user != old(blog.postLookup)[postId].author && user !in ReportersOf(old(reports), postId) ==>
        r == Ok(()) &&
        reports == old(reports)[postId := ReportersOf(old(reports), postId) + {user}] &&
        |reports[postId]| == |ReportersOf(old(reports), postId)| + 1 &&
        blog.postLookup == (if |reports[postId]| >= maxReportCount
                            then WithText(old(blog.postLookup), postId, Deleted)
                            else old(blog.postLookup))
      ensures old(blog.FollowsDerived()) ==> blog.FollowsDerived()
    {
      if Blank(user) || postId < 0 {
        return Err(IllegalArgument);
      }
      var found := blog.GetPostById(postId);
      if found.value.None? {
        return Err(NoSuchElement);
      }
      var post := found.value.value;
      if post.author == user {
        return Err(IllegalState);
      }
      var reporters := ReportersOf(reports, postId);
      var reported := HasReported(reporters, user);
      if reported {
        return Err(IllegalState);
      }
      ReportKeepsRedacted(reports, maxReportCount, blog.postLookup, postId, reporters + {user});
      reports := reports[postId := reporters + {user}];
      if |reports[postId]| >= maxReportCount {
        DeletedIsValidText();
        var edited := blog.EditStored(postId, Deleted);
      }
      r := Ok(());
    }
  }
}
