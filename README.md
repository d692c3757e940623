# MicroBlog in Dafny

This project models the core of MicroBlog, a small in-memory social network written in Java, and proves properties of that model.

- **Posts** are `Post` objects. Each has an immutable id, author and timestamp, an editable text of at most 140 UTF-16 code units (Java's `length()`), and a duplicate-free list of likers that never holds the author.
- **The network** (`MicroBlog`) keeps four pieces of state:
  - the posts by id;
  - the post ids by author;
  - a follow map in which a user follows the authors whose posts they liked;
  - the counter for the next id.
- **Operations:** creating, liking and unliking posts keeps all four in step. The queries are:
  - posts by author;
  - posts containing whole words;
  - posts ranked by relevance;
  - mentioned users, follower counts, influencers;
  - the follow map guessed from a post history.
- **Two extensions** add moderation:
  - `MicroBlogWithReports` redacts a post to "(deleted)" once enough distinct users report it.
  - `MicroBlogWithBadwordFiltering` replaces banned strings in new posts by "***".

Files:

- `outcomes.dfy`: the Java exceptions as an `Error` value, and `Result`/`Option`.
- `text.dfy`: the text layer.
  - Java's blank test (`trim().isEmpty()`) and its `length()` in UTF-16 code units.
  - The case-insensitive whole-word match behind `containsExactly`.
  - Literal replacement of a banned string by "***", with its properties.
- `post.dfy`: the `Post` class, its value snapshot `PostValue`, the post invariant, and the like-list operations.
- `network_spec.dfy`: the value-level meaning of the network.
  - The follow graph derived from likes, and how likes, unlikes, new posts and edits change it.
  - The listing of posts and the query filters.
  - The relevance ranking, influencers, and the graph guessed from a post list.
- `network.dfy`: the `MicroBlog` class.
  - Its representation invariant (`Indexed`), and a separate derived-follow invariant (`FollowsDerived`).
  - Every operation, each proved against the functions of `network_spec.dfy`.
- `reports.dfy`: `ReportingBlog`, the network with report moderation. The redaction invariant is part of its `Valid()`.
- `badwords.dfy`: `FilteringBlog`, the network with bad-word filtering.

The subclasses are modelled by composition. Each holds its `MicroBlog` in a `blog` field, and the inherited operations are reached through it.

## Model

| member | source | states |
|---|---|---|
| Text.Blank | Post.java:38 | Java's `trim().isEmpty()`: the empty string, or a string whose first character is at most U+0020 and whose rest is blank |
| Text.BlankIffAllSpace | Post.java:38 | a string is blank (`trim().isEmpty()`) exactly when every character is at most U+0020 |
| Text.Utf16Length | Post.java:42 | Java's `length()`: between the number of characters and twice it, two units for each character above U+FFFF |
| Text.SupplementaryCountsTwice | Post.java:42 | a text made only of characters above U+FFFF has twice as many UTF-16 units as characters |
| Text.BasicPlaneCountsOnce | Post.java:42 | a text made only of characters up to U+FFFF has as many UTF-16 units as characters |
| Text.ContainsWord | MicroBlog.java:421-427 | `containsExactly`: some position holds the word, equal up to ASCII case, with a `\b` boundary before and after it |
| Text.ContainsWordCaseBlind | MicroBlog.java:421-427 | two search words equal up to ASCII case match exactly the same texts (the `CASE_INSENSITIVE` flag) |
| Text.CatFoundInSentence | MicroBlog.java:421-427 | a word standing alone in a sentence matches |
| Text.CatNotFoundInsideWord | MicroBlog.java:421-427 | a word occurring only inside a longer word does not match (the `\b` boundaries) |
| Text.MatchIgnoresCase | MicroBlog.java:421-427 | matching is case-insensitive |
| Text.Censor | MicroBlogWithBadwordFiltering.java:50 | `replaceAll(w, "***")` read literally: scanning left to right, each non-overlapping occurrence of `w` becomes "***" and every other character is kept |
| Text.CensorAbsentUnchanged | MicroBlogWithBadwordFiltering.java:50 | a text in which the banned string does not occur is left exactly as it is |
| Text.CensorKeepsNonBlank | MicroBlogWithBadwordFiltering.java:50 | replacing a banned string by "***" never turns a non-blank text blank |
| Text.CensorRemoves | MicroBlogWithBadwordFiltering.java:50 | after replacing a banned string free of '*', the string no longer occurs in the text |
| Text.CensorKeepsAbsent | MicroBlogWithBadwordFiltering.java:50 | replacing one banned string creates no occurrence of another '*'-free string that was absent |
| Posts.CheckPost | Post.java:35-44 | the constructor's checks in order: a negative id, blank author or blank text is an illegal argument; only a text that passes these and is longer than 140 UTF-16 units (Java's `length()`) exceeds the limit; otherwise no error |
| Posts.EmojiTextExceedsLimit | Post.java:42-44 | 71 emoji are 71 characters but 142 UTF-16 units, so the constructor rejects them as over the limit |
| Posts.NewPost | Post.java:34-51 | construction fails exactly when a check fails (the length counted in UTF-16 units), with that check's exception; otherwise a fresh valid post with the given fields, the given timestamp and no likes |
| Posts.Post.constructor | Post.java:46-50 | the new post holds the given id, author, text and timestamp, has no likes, and is valid |
| Posts.Post.EditPost | Post.java:79-91 | a blank text is an illegal argument and one over 140 UTF-16 units exceeds the limit, both keeping the old text; a valid text replaces it; the likes never change |
| Posts.AddLikeTo | Post.java:147-150 | the new list holds exactly the old likes and `u`, keeps the old list as a prefix, and stays duplicate-free when the old list was |
| Posts.AddLikeKeepsValid | Post.java:147-150 | adding a like by a non-blank user other than the author keeps the post invariant (no duplicates, no author) |
| Posts.AddLikeIdempotent | Post.java:147-150 | liking twice equals liking once |
| Posts.Post.AddLike | Post.java:136-151 | a blank user is an illegal argument and the author is an illegal state, both leaving the likes unchanged; otherwise the likes become `AddLikeTo(likes, user)` and the post stays valid |
| Posts.IndexOf | Post.java:147 | `indexOf`: -1 exactly when absent; otherwise the first position holding the element |
| Posts.RemoveFrom | Post.java:167-170 | removing an absent user changes nothing; every other user keeps their membership |
| Posts.RemoveFromMultiset | Post.java:167-170 | removal takes out exactly one occurrence of the user, if any, and nothing else |
| Posts.RemoveFromAt | Post.java:167-170 | removal cuts the list at the first occurrence: the likes before and after it keep their order |
| Posts.RemoveFromNoDuplicates | Post.java:167-170 | on a duplicate-free list, the result is duplicate-free and no longer holds the user |
| Posts.RemoveKeepsValid | Post.java:159-171 | removing a like keeps the post invariant |
| Posts.RemoveIdempotent | Post.java:167-170 | unliking twice equals unliking once |
| Posts.Post.RemoveLike | Post.java:159-171 | a blank user is an illegal argument with the likes unchanged; otherwise the likes become `RemoveFrom(likes, user)` and the post stays valid |
| Posts.Post.GetLikes | Post.java:174-182 | the copy built element by element equals the like list |
| Posts.Post.Clone | Post.java:186-200 | the clone is a fresh, valid post with the same id, author, text, timestamp and likes |
| Posts.Post.Equals | Post.java:107-112 | posts are equal exactly when their ids are equal |
| Posts.Post.CompareTo | Post.java:121-127 | the result is a 32-bit integer; for non-negative ids its sign is the order of the ids |
| NetworkSpec.FollowsIffLikedPost | MicroBlog.java:39 | `u` follows `a` in the derived graph exactly when `u` likes at least one post by `a` |
| NetworkSpec.AddPostKeepsFollows | MicroBlog.java:232 | storing a new post without likes changes nobody's liked authors |
| NetworkSpec.AddPostKeepsGraph | MicroBlog.java:232-241 | a derived follow map stays derived after a new post when its author already has an entry or has liked nothing |
| NetworkSpec.FirstPostAfterLikeLosesFollow | MicroBlog.java:238-240 | counterexample: a user who liked a post before writing any gets an empty follow entry at their first post, and the follow map is then no longer derived |
| NetworkSpec.LikeExtendsFollows | MicroBlog.java:268-272 | a like adds the post's author to the liker's liked authors and changes no one else's |
| NetworkSpec.NewFollowIffFirstLike | MicroBlog.java:271 | under a derived follow map, the author is missing from the liker's entry exactly when the liker had liked none of the author's posts |
| NetworkSpec.Follow | MicroBlog.java:271-272 | the liker's entry, if present, gains the author; the keys and every other entry stay |
| NetworkSpec.LikeKeepsGraph | MicroBlog.java:268-272 | the follow map updated as `likePost` does equals the graph derived from the posts after the like |
| NetworkSpec.UnlikeShrinksFollows | MicroBlog.java:299-305 | an unlike removes the author from the unliker's liked authors exactly when no other like of theirs on that author's posts remains |
| NetworkSpec.UnlikeKeepsGraph | MicroBlog.java:299-305 | the follow map updated as `unlikePost` does equals the graph derived from the posts after the unlike |
| NetworkSpec.Unfollow | MicroBlog.java:303 | removing a followed author keeps the map's keys |
| NetworkSpec.EditKeepsGraph | Post.java:79-91 | editing a text changes neither the authors nor the derived follow graph |
| NetworkSpec.PostsBelowListsPosts | MicroBlog.java:430-438 | the listing holds exactly the stored posts with ids below the bound, in ascending id order |
| NetworkSpec.Filter | MicroBlog.java:164-168 | the filtered list holds exactly the posts of the input that satisfy the criterion, and is no longer than the input |
| NetworkSpec.FilterAppend | MicroBlog.java:164-168 | filtering a list extended by one post extends the filtered list by that post exactly when it satisfies the criterion |
| NetworkSpec.MentionedListing | MicroBlog.java:127-129 | the authors of the listing are the authors of the stored posts |
| NetworkSpec.Relevance | MicroBlog.java:402-409 | the relevance of a text is at most the number of search words |
| NetworkSpec.FullRelevanceIffMatchesAll | MicroBlog.java:402-409 | a text has full relevance exactly when it contains every word, linking the ranking to `containing` |
| NetworkSpec.InsertByRelevance | MicroBlog.java:399-411 | insertion holds exactly the inserted post and the posts of the list |
| NetworkSpec.InsertAddsOne | MicroBlog.java:399-411 | insertion adds exactly one occurrence of the post and keeps all others |
| NetworkSpec.InsertKeepsRanked | MicroBlog.java:399-411 | inserting into a list ranked by non-increasing relevance keeps it ranked |
| NetworkSpec.RankByRelevance | MicroBlog.java:399-411 | the ranking is a permutation of its input in non-increasing order of relevance |
| NetworkSpec.InfluencerScenario | MicroBlog.java:117-121 | in a map where A follows nobody and B and C follow A, A is the only influencer |
| NetworkSpec.GuessScenario | MicroBlog.java:91-103 | from Alice's post liked by Bob and Bob's unliked post, Bob follows Alice and Alice follows nobody |
| NetworkSpec.ReplayGraph | MicroBlog.java:53-83 | a network holding the posts of a list with their authors and likes derives exactly the graph guessed from the list |
| Network.StoreExtendsAuthors | MicroBlog.java:232-241 | storing a post under a new id adds its author to the authors and its id to that author's ids |
| Network.FileUnderKeepsIndex | MicroBlog.java:234-240 | filing the new post under its author keeps the author index equal to the ids of each author's posts |
| Network.StoreKeepsIndexed | MicroBlog.java:228-241 | storing a valid post under the next id, filing it and adding an entry for a first-time author keeps the representation invariant |
| Network.UpdateKeepsIndexed | Post.java:79-91 | replacing a stored post by a valid post with the same id and author keeps the representation invariant |
| Network.LikeKeepsIndexed | MicroBlog.java:268-272 | an accepted like keeps the representation invariant, and keeps a derived follow map derived |
| Network.UnlikeKeepsIndexed | MicroBlog.java:299-305 | an accepted unlike keeps the representation invariant, and keeps a derived follow map derived |
| Network.IndexedUsers | MicroBlog.java:39-43 | under the invariant, posts are stored under their ids, and every user with a follow entry is a non-blank author |
| Network.CountLikedBy | MicroBlog.java:322-328 | the loop counts exactly the posts among the given ids that the user likes |
| Network.MicroBlog.constructor | MicroBlog.java:46-51 | the empty network satisfies both invariants and has counter 0 |
| Network.MicroBlog.FromPosts | MicroBlog.java:53-83 | replaying a list stores each post under its position with its author, text and likes; the counter is the length; the follow map is exactly the graph guessed from the list |
| Network.MicroBlog.CreateAll | MicroBlog.java:66-71 | the first pass hands out ids 0, 1, ... in list order and stores every post without likes |
| Network.MicroBlog.ReplayLikesOf | MicroBlog.java:75-82 | the second pass gives the post exactly the likes of its original, in order, and keeps both invariants |
| Network.MicroBlog.GetUniqueId | MicroBlog.java:443-445 | returns the counter and increments it |
| Network.MicroBlog.GetPostById | MicroBlog.java:450-455 | a negative id is an illegal argument; otherwise the stored post, or none |
| Network.MicroBlog.EditStored | Post.java:79-91 | `editPost` on a stored post: a blank text or one over 140 UTF-16 units fails and leaves the network unchanged; a valid text replaces only that post's text and keeps both invariants |
| Network.MicroBlog.CreatePost | MicroBlog.java:220-244 | blank input is rejected before any change; a text over 140 UTF-16 units exceeds the limit after the counter has advanced; otherwise it returns the old counter and stores and files the post; a first-time author gets an empty follow entry |
| Network.MicroBlog.LikePost | MicroBlog.java:254-276 | a blank user or negative id, an unknown id and a self-like fail with the network unchanged; otherwise the like is added and the author joins the liker's existing entry; the result is true exactly when that entry lacked the author; the derived-follow invariant is preserved |
| Network.MicroBlog.GetNumberOfLikedPosts | MicroBlog.java:313-331 | a blank name is an illegal argument and an author without posts a null pointer; otherwise the number of that author's posts the user likes |
| Network.MicroBlog.UnlikePost | MicroBlog.java:285-307 | the error cases leave the network unchanged; otherwise the like is removed; true with the author unfollowed when no like on that author's posts remains; a user without an entry then fails with a null pointer; otherwise false; the derived-follow invariant is preserved |
| Network.MicroBlog.GetAllPosts | MicroBlog.java:430-438 | exactly the stored posts, each once, in ascending id order |
| Network.MicroBlog.WrittenByIn | MicroBlog.java:154-171 | a blank name is an illegal argument; otherwise exactly the posts by that author, in list order |
| Network.MicroBlog.WrittenBy | MicroBlog.java:150-152 | a blank name is an illegal argument; otherwise exactly the stored posts by that author |
| Network.MicroBlog.ContainsAllWords | MicroBlog.java:190-200 | the inner loop accepts a text exactly when every word matches in it |
| Network.MicroBlog.Containing | MicroBlog.java:173-206 | a blank word is an illegal argument; otherwise exactly the stored posts containing every word |
| Network.MicroBlog.SortByRelevance | MicroBlog.java:396-414 | a permutation of all stored posts in non-increasing order of matched-word count |
| Network.MicroBlog.MentionedUsers | MicroBlog.java:131-148 | exactly the authors of the posts of the list |
| Network.MicroBlog.GetMentionedUsers | MicroBlog.java:127-129 | exactly the authors of the stored posts, which are exactly the users with a follow entry |
| Network.MicroBlog.GetFollowRelations | MicroBlog.java:378-388 | the copied map has an entry for exactly the authors; under the derived-follow invariant each entry is the set of authors the user has liked |
| Network.MicroBlog.GuessFollowers | MicroBlog.java:91-103 | the follow map of the network rebuilt from a list of valid posts is exactly the graph guessed from the list |
| Network.MicroBlog.NumberOfFollowers | MicroBlog.java:354-374 | a blank user is an illegal argument; otherwise the number of entries whose set holds the user |
| Network.MicroBlog.GetNumberOfFollowers | MicroBlog.java:338-347 | a blank user is an illegal argument; otherwise the number of users following them |
| Network.MicroBlog.InfluencersOf | MicroBlog.java:109-125 | fails exactly when some key is blank (an illegal argument); otherwise exactly the keys followed by more users than they follow |
| Network.MicroBlog.Influencers | MicroBlog.java:105-107 | the influencers of the network's own follow map; this never fails |
| Reports.DeletedIsValidText | MicroBlogWithReports.java:91 | "(deleted)" is a text a post may hold, so redaction never fails |
| Reports.ReportKeepsRedacted | MicroBlogWithReports.java:88-92 | recording a post's reporters and redacting it once the count reaches the threshold keeps every post over the threshold redacted |
| Reports.HasReported | MicroBlogWithReports.java:82-86 | the scan over a post's reports finds the user exactly when they have already reported it |
| Reports.ReportingBlog.constructor | MicroBlogWithReports.java:37-42 | an empty network with no reports and threshold 5 |
| Reports.ReportingBlog.WithThreshold | MicroBlogWithReports.java:44-49 | an empty network with no reports and the given threshold |
| Reports.ReportingBlog.ReportContent | MicroBlogWithReports.java:59-94 | a blank user or negative id, an unknown id, the author, or a repeated reporter fail with nothing changed; otherwise the post's reporters grow by exactly that user, and the post becomes "(deleted)" when they reach the threshold; other posts, likes and follows stay; the redaction invariant is kept |
| Badwords.CensorAllSnoc | MicroBlogWithBadwordFiltering.java:49-51 | censoring one more word censors the text censored so far |
| Badwords.CensorAllKeepsNonBlank | MicroBlogWithBadwordFiltering.java:49-53 | censoring every banned string never makes a non-blank text blank, so the edit can fail only on length |
| Badwords.CensorAllKeepsAbsent | MicroBlogWithBadwordFiltering.java:49-51 | censoring creates no occurrence of a '*'-free string that was absent |
| Badwords.CensorAllRemoves | MicroBlogWithBadwordFiltering.java:49-51 | after all banned strings are censored, in any order, none of the '*'-free ones occurs |
| Badwords.OverlongCensorKeepsBanned | MicroBlogWithBadwordFiltering.java:12-15 | counterexample to the documented invariant that no stored post contains a banned string: with only "a" banned, 47 'a's are a valid text whose censored form is 141 stars, over the limit, so `createPost` keeps the post with "a" in it and returns -1 |
| Badwords.CollectBadwords | MicroBlogWithBadwordFiltering.java:25-34 | fails with an illegal argument exactly when some word is blank; otherwise the set of the given words |
| Badwords.FilteringBlog.constructor | MicroBlogWithBadwordFiltering.java:18-35 | an empty network with counter 0 and a derived follow map, banning the given non-blank words |
| Badwords.FilteringBlog.FromWords | MicroBlogWithBadwordFiltering.java:18-35 | the constructor with its check: an illegal argument exactly when some word is blank; otherwise an empty network, with counter 0 and a derived follow map, banning exactly the given words |
| Badwords.FilteringBlog.FilterAll | MicroBlogWithBadwordFiltering.java:48-51 | the loop censors each banned string exactly once, in some order of the set |
| Badwords.FilteringBlog.CensorStored | MicroBlogWithBadwordFiltering.java:46-54 | the stored post's text becomes the censored text and the id is returned; if the censored text is over 140 UTF-16 units, the post keeps its text and the result is -1; no '*'-free banned string is left in a rewritten text |
| Badwords.FilteringBlog.CreatePost | MicroBlogWithBadwordFiltering.java:43-56 | blank input is an illegal argument and leaves the network unchanged; a text over 140 UTF-16 units gives -1 with no post stored and only the counter advanced; otherwise the post is created as by the network, then its text is rewritten as in `CensorStored`; author, likes and follows are as the network left them |

## Left out

- Java `null`s. Dafny references and values are never null, so the `NullPointerException` checks on null arguments are not modelled. The null pointers the code raises on non-null input are modelled: an unliker without a follow entry, and a count for an author without posts.
- Live posts. The network stores post values (`PostValue`) rather than shared `Post` objects.
  - Its queries return values, so returned clones and live references look the same.
  - `containing` returning live posts rather than clones is not observable in the model.
- Network.MicroBlog.GetUniqueId: the counter is an unbounded integer. The 32-bit wrap-around of `nextId++` after 2^31 posts is not modelled.
- Iteration order.
  - Iteration over the post index (`getAllPosts`, `containing`, `writtenBy` through `getAllPosts`, `sortByRelevance` before sorting) is fixed to ascending id. Java's HashMap order is unspecified.
  - `influencers` returns a set rather than a list in hash order.
  - The banned strings are visited in an arbitrary order of the set, which `FilterAll` records.
- Regular expressions.
  - `containsExactly` is modelled as an ASCII, case-insensitive, whole-word match of a literal word.
  - `replaceAll` is modelled as literal left-to-right replacement.
  - Regex metacharacters in words, Unicode word boundaries and `.` not matching line breaks are not modelled.
  - Badwords.CensorAllRemoves: proved only for banned strings without '*'. A banned string containing '*' can reappear through the "***" replacements of other strings.
- Timestamps. The clock (`System.currentTimeMillis`) is a parameter `now`. The list constructor gives every replayed post the same timestamp.
- Sort internals. `sortByRelevance` is specified by its result, computed by a stable insertion sort. TimSort itself is not modelled.
- Network.MicroBlog.SortByRelevance: the search words are not validated, as in the code. Its comment promises a check that the code does not perform.
- Network.MicroBlog.LikePost: the result means "a follow edge was added", as in the code, not "a like was added" as its comment says.
- Network.MicroBlog.CreatePost: it keeps the derived-follow invariant only when the author already has a follow entry or has liked nothing yet. The code gives a first-time author an empty follow entry even when they already like posts; `FirstPostAfterLikeLosesFollow` exhibits such an input.
- Network.MicroBlog.LikePost and Network.MicroBlog.UnlikePost: each keeps the derived-follow invariant only when it held before. A like by a user who is not yet an author records no follow edge.
- Network.MicroBlog.GuessFollowers: requires valid posts, so its `LimitExceededException`-to-`null` branch is unreachable and not modelled. A `Post` object can never hold a text over 140 UTF-16 units.
- Network.MicroBlog.FromPosts: requires valid posts, for the same reason. A `LimitExceededException` from the list constructor cannot occur for posts built by the `Post` constructor.
- String identity. `reportContent` compares the author and the reporters with `==`, which is reference identity. It is modelled as value equality of strings.
- The `LimitExceededException` that `reportContent` catches around the redaction cannot occur, because "(deleted)" is 9 UTF-16 units. That catch is not modelled.
- Reports.ReportingBlog.WithThreshold: the threshold is Java's `byte`, so the model requires a value in -128..127.
- The inherited operations of both subclasses act on their `blog` field, and nothing stops a caller from using every `MicroBlog` operation there.
  - Reports.ReportingBlog.Valid: the redaction invariant holds only while stored texts change through `ReportContent`. `blog.EditStored` can restore the text of a redacted post, just as the code lets a caller edit a live post returned by `containing`.
  - Badwords.FilteringBlog.CreatePost: the filter applies only to this method. `blog.CreatePost` is the parent's unfiltered `createPost`, which the Java override hides.
- Badwords.FilteringBlog.Valid: it does not include the documented invariant that no stored post contains a banned string, because the code breaks it. When the censored text is over the limit, the post keeps its original text and the result is -1; `OverlongCensorKeepsBanned` exhibits such an input.
- Network.MicroBlog.InfluencersOf: the interface comment promises an illegal argument for a blank user inside a follow set, but the code checks only the keys. The model follows the code.
- Text.Utf16Length: Dafny strings are sequences of Unicode scalar values, so a Java string holding an unpaired surrogate cannot be represented.
- MicroBlogGUI.java is not part of this model. It is a Swing front-end that only calls the operations above.
- Post.java's private `setTimestamp`: the model passes the timestamp to the `Post` constructor instead.
- Post.java's `toString` is not modelled.
- Concurrency: the code has none, and the model has none.
