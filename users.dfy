/** The user controller (Controllers/UserController.cs): account deletion, which hands the user's
    authored rows to the default account and drops their stars and votes; the restriction toggle;
    the self-or-Admin gate of profile and password updates; and the role change. Results of the
    identity store that the model cannot compute (UpdateAsync, DeleteAsync, ResetPasswordAsync)
    are boolean inputs. */
module UserController {
  import opened Entities
  import opened Tables
  import opened Data
  import ForumQueryController

  /** FindByIdAsync finds an account under the key. */
  predicate Registered(users: seq<User>, id: string) {
    exists i :: 0 <= i < |users| && users[i].id == id
  }

  // ---------------------------------------------------------------- delete

  /** The tables account deletion reads and writes. */
  datatype UserStore = UserStore(blogPosts: seq<BlogPost>, comments: seq<Comment>, subComments: seq<SubComment>,
                                 stars: seq<Star>, forumQueries: seq<ForumQuery>, forumAnswers: seq<ForumAnswer>,
                                 forumSubAnswers: seq<ForumSubAnswer>, votes: seq<Vote>, users: seq<User>)

  function Snapshot(db: Database): UserStore
    reads db
  {
    UserStore(db.blogPosts, db.comments, db.subComments, db.stars, db.forumQueries, db.forumAnswers,
              db.forumSubAnswers, db.votes, db.users)
  }

  /** FindByEmailAsync(DefaultUserEmail): the key of the account that inherits authored rows, if
      there is one. */
  function Heir(users: seq<User>): (r: Option<string>)
    ensures r.None? <==> forall i :: 0 <= i < |users| ==> users[i].email != DefaultUserEmail
    ensures r.Some? ==> exists i :: 0 <= i < |users| && users[i].email == DefaultUserEmail && users[i].id == r.value
  {
    var k := IndexOf(users, UserEmail, DefaultUserEmail);
    if k < 0 then None else Some(users[k].id)
  }

  /** One hand-over step: when the user owns no row of the table nothing happens; otherwise every
      row they own passes to the heir, and with no heir the first assignment dereferences null
      and the action stops before this table is saved (None). */
  function HandOver<T>(rows: seq<T>, owner: T -> string, withOwner: (T, string) -> T, id: string, heir: Option<string>)
    : (r: Option<seq<T>>)
    ensures r.None? <==> heir.None? && exists i :: 0 <= i < |rows| && owner(rows[i]) == id
    ensures r.Some? ==> |r.value| == |rows|
  {
    if IndexOf(rows, owner, id) < 0 then Some(rows)
    else if heir.None? then None
    else Some(Reassign(rows, owner, withOwner, id, heir.value))
  }

  /** The foreach loop of one hand-over step. */
  method HandOverEach<T>(rows: seq<T>, owner: T -> string, withOwner: (T, string) -> T, id: string, heir: Option<string>)
    returns (r: Option<seq<T>>)
    ensures r == HandOver(rows, owner, withOwner, id, heir)
  {
    if IndexOf(rows, owner, id) < 0 {
      return Some(rows);
    }
    if heir.None? {
      return None;
    }
    var handed := ReassignEach(rows, owner, withOwner, id, heir.value);
    r := Some(handed);
  }

  /** Row by row, the rows owned by `id` now belong to `heir` and every other row is as it was. */
  ghost predicate PassedOn<T>(before: seq<T>, after: seq<T>, owner: T -> string, withOwner: (T, string) -> T,
                              id: string, heir: string) {
    && |after| == |before|
    && forall i :: 0 <= i < |before| ==> after[i] == if owner(before[i]) == id then withOwner(before[i], heir) else before[i]
  }

  /** A hand-over changes owners only, so a table's keys stay below the generator. */
  lemma HandOverKeepsKeys<T>(rows: seq<T>, owner: T -> string, withOwner: (T, string) -> T, id: string,
                             heir: Option<string>, key: T -> int, bound: int)
    requires KeysBelow(rows, key, bound)
    requires forall x, a :: key(withOwner(x, a)) == key(x)
    requires HandOver(rows, owner, withOwner, id, heir).Some?
    ensures KeysBelow(HandOver(rows, owner, withOwner, id, heir).value, key, bound)
  {
    var r := HandOver(rows, owner, withOwner, id, heir).value;
    forall i | 0 <= i < |rows| ensures key(r[i]) == key(rows[i]) {
      if IndexOf(rows, owner, id) >= 0 {
        ReassignAt(rows, owner, withOwner, id, heir.value, i);
      }
    }
    KeysBelowSameKeys(rows, r, key, bound);
  }

  /** With an heir, a hand-over step always goes through and moves exactly the user's rows. */
  lemma HandOverPassesOn<T>(rows: seq<T>, owner: T -> string, withOwner: (T, string) -> T, id: string, heir: string)
    ensures HandOver(rows, owner, withOwner, id, Some(heir)).Some?
    ensures PassedOn(rows, HandOver(rows, owner, withOwner, id, Some(heir)).value, owner, withOwner, id, heir)
  {
    if IndexOf(rows, owner, id) >= 0 {
      forall i | 0 <= i < |rows|
        ensures Reassign(rows, owner, withOwner, id, heir)[i] == if owner(rows[i]) == id then withOwner(rows[i], heir) else rows[i]
      {
        ReassignAt(rows, owner, withOwner, id, heir, i);
      }
    }
  }

  /** After a hand-over to another account no row is owned by the user any more. */
  lemma PassedOnLeavesNone<T>(before: seq<T>, after: seq<T>, owner: T -> string, withOwner: (T, string) -> T,
                              id: string, heir: string)
    requires PassedOn(before, after, owner, withOwner, id, heir) && heir != id
    requires forall x, o :: owner(withOwner(x, o)) == o
    ensures forall i :: 0 <= i < |after| ==> owner(after[i]) != id
  {
  }

  function NotStarredBy(id: string): Star -> bool {
    (s: Star) => s.userId != id
  }

  function NotVotedBy(id: string): Vote -> bool {
    (v: Vote) => v.userId != id
  }

  /** The first half of DeleteUser, on the blog side: blog posts, comments and sub-comments pass
      to the heir, then the user's stars are removed. False, with the tables saved so far, when a
      hand-over fails. */
  function HandOverWritings(s: UserStore, id: string, heir: Option<string>): (r: (bool, UserStore))
    ensures r.1.users == s.users && r.1.forumQueries == s.forumQueries && r.1.forumAnswers == s.forumAnswers
    ensures r.1.forumSubAnswers == s.forumSubAnswers && r.1.votes == s.votes
  {
    match HandOver(s.blogPosts, BlogPostAuthor, WithBlogPostAuthor, id, heir)
    case None => (false, s)
    case Some(blogPosts) =>
      var s1 := s.(blogPosts := blogPosts);
      match HandOver(s.comments, CommentAuthor, WithCommentAuthor, id, heir)
      case None => (false, s1)
      case Some(comments) =>
        var s2 := s1.(comments := comments);
        match HandOver(s.subComments, SubCommentAuthor, WithSubCommentAuthor, id, heir)
        case None => (false, s2)
        case Some(subComments) =>
          (true, s2.(subComments := subComments, stars := Where(s.stars, NotStarredBy(id))))
  }

  /** The second half, on the forum side: forum queries, answers and sub-answers pass to the
      heir, then the user's votes are removed. */
  function HandOverForum(s: UserStore, id: string, heir: Option<string>): (r: (bool, UserStore))
    ensures r.1.users == s.users && r.1.blogPosts == s.blogPosts && r.1.comments == s.comments
    ensures r.1.subComments == s.subComments && r.1.stars == s.stars
  {
    match HandOver(s.forumQueries, ForumQueryAuthor, WithForumQueryAuthor, id, heir)
    case None => (false, s)
    case Some(forumQueries) =>
      var s1 := s.(forumQueries := forumQueries);
      match HandOver(s.forumAnswers, ForumAnswerAuthor, WithForumAnswerAuthor, id, heir)
      case None => (false, s1)
      case Some(forumAnswers) =>
        var s2 := s1.(forumAnswers := forumAnswers);
        match HandOver(s.forumSubAnswers, ForumSubAnswerAuthor, WithForumSubAnswerAuthor, id, heir)
        case None => (false, s2)
        case Some(forumSubAnswers) =>
          (true, s2.(forumSubAnswers := forumSubAnswers, votes := Where(s.votes, NotVotedBy(id))))
  }

  /** DeleteUser. NotFound when no account has the key. Otherwise, in order and each table saved
      on its own: blog posts, comments and sub-comments pass to the heir; the user's stars are
      removed; forum queries, answers and sub-answers pass to the heir; the user's votes are
      removed; finally the account itself is deleted if the identity store agrees. A hand-over
      that fails for want of an heir ends the action with BadRequest, keeping what earlier steps
      saved; so does a refused DeleteAsync. */
  function RemoveUser(s: UserStore, id: string, deleted: bool): (r: (Status, UserStore))
    ensures r.0 == Ok || r.0 == NotFound || r.0 == BadRequest
    ensures r.0 == NotFound <==> !Registered(s.users, id)
    ensures r.0 == NotFound ==> r.1 == s
    ensures r.0 == Ok ==> deleted && |r.1.users| == |s.users| - 1
    ensures r.0 != Ok ==> r.1.users == s.users
  {
    var k := IndexOf(s.users, UserId, id);
    if k < 0 then (NotFound, s)
    else
      var heir := Heir(s.users);
      var (writingsDone, s1) := HandOverWritings(s, id, heir);
      if !writingsDone then (BadRequest, s1)
      else
        var (forumDone, s2) := HandOverForum(s1, id, heir);
        if !forumDone || !deleted then (BadRequest, s2)
        else (Ok, s2.(users := RemoveAt(s.users, k)))
  }

  /** One hand-over step of DeleteUser: the user's blog posts pass to the heir and are saved; the
      step stops, changing nothing, when there is no heir to take them. */
  method HandOverBlogPosts(db: Database, id: string, heir: Option<string>) returns (done: bool)
    requires db.Valid()
    modifies db`blogPosts
    ensures var r := HandOver(old(db.blogPosts), BlogPostAuthor, WithBlogPostAuthor, id, heir);
            done == r.Some? && db.blogPosts == if done then r.value else old(db.blogPosts)
    ensures Snapshot(db) == old(Snapshot(db)).(blogPosts := db.blogPosts)
    ensures db.Valid()
  {
    var blogPosts := HandOverEach(db.blogPosts, BlogPostAuthor, WithBlogPostAuthor, id, heir);
    if blogPosts.None? {
      return false;
    }
    HandOverKeepsKeys(db.blogPosts, BlogPostAuthor, WithBlogPostAuthor, id, heir, BlogPostId, db.nextId);
    db.SaveBlogPosts(blogPosts.value);
    done := true;
  }

  /** One hand-over step of DeleteUser: the user's comments pass to the heir and are saved; the
      step stops, changing nothing, when there is no heir to take them. */
  method HandOverComments(db: Database, id: string, heir: Option<string>) returns (done: bool)
    requires db.Valid()
    modifies db`comments
    ensures var r := HandOver(old(db.comments), CommentAuthor, WithCommentAuthor, id, heir);
            done == r.Some? && db.comments == if done then r.value else old(db.comments)
    ensures Snapshot(db) == old(Snapshot(db)).(comments := db.comments)
    ensures db.Valid()
  {
    var comments := HandOverEach(db.comments, CommentAuthor, WithCommentAuthor, id, heir);
    if comments.None? {
      return false;
    }
    HandOverKeepsKeys(db.comments, CommentAuthor, WithCommentAuthor, id, heir, CommentId, db.nextId);
    db.SaveComments(comments.value);
    done := true;
  }

  /** One hand-over step of DeleteUser: the user's sub-comments pass to the heir and are saved; the
      step stops, changing nothing, when there is no heir to take them. */
  method HandOverSubComments(db: Database, id: string, heir: Option<string>) returns (done: bool)
    requires db.Valid()
    modifies db`subComments
    ensures var r := HandOver(old(db.subComments), SubCommentAuthor, WithSubCommentAuthor, id, heir);
            done == r.Some? && db.subComments == if done then r.value else old(db.subComments)
    ensures Snapshot(db) == old(Snapshot(db)).(subComments := db.subComments)
    ensures db.Valid()
  {
    var subComments := HandOverEach(db.subComments, SubCommentAuthor, WithSubCommentAuthor, id, heir);
    if subComments.None? {
      return false;
    }
    HandOverKeepsKeys(db.subComments, SubCommentAuthor, WithSubCommentAuthor, id, heir, SubCommentId, db.nextId);
    db.SaveSubComments(subComments.value);
    done := true;
  }

  /** One hand-over step of DeleteUser: the user's forum queries pass to the heir and are saved; the
      step stops, changing nothing, when there is no heir to take them. */
  method HandOverForumQueries(db: Database, id: string, heir: Option<string>) returns (done: bool)
    requires db.Valid()
    modifies db`forumQueries
    ensures var r := HandOver(old(db.forumQueries), ForumQueryAuthor, WithForumQueryAuthor, id, heir);
            done == r.Some? && db.forumQueries == if done then r.value else old(db.forumQueries)
    ensures Snapshot(db) == old(Snapshot(db)).(forumQueries := db.forumQueries)
    ensures db.Valid()
  {
    var forumQueries := HandOverEach(db.forumQueries, ForumQueryAuthor, WithForumQueryAuthor, id, heir);
    if forumQueries.None? {
      return false;
    }
    HandOverKeepsKeys(db.forumQueries, ForumQueryAuthor, WithForumQueryAuthor, id, heir, ForumQueryId, db.nextId);
    db.SaveForumQueries(forumQueries.value);
    done := true;
  }

  /** One hand-over step of DeleteUser: the user's forum answers pass to the heir and are saved; the
      step stops, changing nothing, when there is no heir to take them. */
  method HandOverForumAnswers(db: Database, id: string, heir: Option<string>) returns (done: bool)
    requires db.Valid()
    modifies db`forumAnswers
    ensures var r := HandOver(old(db.forumAnswers), ForumAnswerAuthor, WithForumAnswerAuthor, id, heir);
            done == r.Some? && db.forumAnswers == if done then r.value else old(db.forumAnswers)
    ensures Snapshot(db) == old(Snapshot(db)).(forumAnswers := db.forumAnswers)
    ensures db.Valid()
  {
    var forumAnswers := HandOverEach(db.forumAnswers, ForumAnswerAuthor, WithForumAnswerAuthor, id, heir);
    if forumAnswers.None? {
      return false;
    }
    HandOverKeepsKeys(db.forumAnswers, ForumAnswerAuthor, WithForumAnswerAuthor, id, heir, ForumAnswerId, db.nextId);
    db.SaveForumAnswers(forumAnswers.value);
    done := true;
  }

  /** One hand-over step of DeleteUser: the user's forum sub-answers pass to the heir and are saved; the
      step stops, changing nothing, when there is no heir to take them. */
  method HandOverForumSubAnswers(db: Database, id: string, heir: Option<string>) returns (done: bool)
    requires db.Valid()
    modifies db`forumSubAnswers
    ensures var r := HandOver(old(db.forumSubAnswers), ForumSubAnswerAuthor, WithForumSubAnswerAuthor, id, heir);
            done == r.Some? && db.forumSubAnswers == if done then r.value else old(db.forumSubAnswers)
    ensures Snapshot(db) == old(Snapshot(db)).(forumSubAnswers := db.forumSubAnswers)
    ensures db.Valid()
  {
    var forumSubAnswers := HandOverEach(db.forumSubAnswers, ForumSubAnswerAuthor, WithForumSubAnswerAuthor, id, heir);
    if forumSubAnswers.None? {
      return false;
    }
    HandOverKeepsKeys(db.forumSubAnswers, ForumSubAnswerAuthor, WithForumSubAnswerAuthor, id, heir, ForumSubAnswerId, db.nextId);
    db.SaveForumSubAnswers(forumSubAnswers.value);
    done := true;
  }

  /** The star step of DeleteUser: the user's stars are removed and saved. */
  method RemoveStarsOf(db: Database, id: string)
    requires db.Valid()
    modifies db`stars
    ensures db.stars == Where(old(db.stars), NotStarredBy(id))
    ensures Snapshot(db) == old(Snapshot(db)).(stars := db.stars)
    ensures db.Valid()
  {
    var stars := KeepWhere(db.stars, NotStarredBy(id));
    KeysBelowWhere(db.stars, StarId, db.nextId, NotStarredBy(id));
    db.SaveStars(stars);
  }

  /** The vote step of DeleteUser: the user's votes are removed and saved. */
  method RemoveVotesOf(db: Database, id: string)
    requires db.Valid()
    modifies db`votes
    ensures db.votes == Where(old(db.votes), NotVotedBy(id))
    ensures Snapshot(db) == old(Snapshot(db)).(votes := db.votes)
    ensures db.Valid()
  {
    var votes := KeepWhere(db.votes, NotVotedBy(id));
    KeysBelowWhere(db.votes, VoteId, db.nextId, NotVotedBy(id));
    db.SaveVotes(votes);
  }

  method DeleteWritings(db: Database, id: string, heir: Option<string>) returns (done: bool)
    requires db.Valid()
    modifies db`blogPosts, db`comments, db`subComments, db`stars
    ensures (done, Snapshot(db)) == HandOverWritings(old(Snapshot(db)), id, heir)
    ensures db.Valid()
  {
    ghost var before := Snapshot(db);
    done := HandOverBlogPosts(db, id, heir);
    if !done {
      return;
    }
    ghost var s1 := before.(blogPosts := db.blogPosts);
    assert Snapshot(db) == s1;
    done := HandOverComments(db, id, heir);
    if !done {
      return;
    }
    ghost var s2 := s1.(comments := db.comments);
    assert Snapshot(db) == s2;
    done := HandOverSubComments(db, id, heir);
    if !done {
      return;
    }
    ghost var s3 := s2.(subComments := db.subComments);
    assert Snapshot(db) == s3;
    RemoveStarsOf(db, id);
    assert Snapshot(db) == s3.(stars := db.stars);
  }

  method DeleteForumWork(db: Database, id: string, heir: Option<string>) returns (done: bool)
    requires db.Valid()
    modifies db`forumQueries, db`forumAnswers, db`forumSubAnswers, db`votes
    ensures (done, Snapshot(db)) == HandOverForum(old(Snapshot(db)), id, heir)
    ensures db.Valid()
  {
    ghost var before := Snapshot(db);
    done := HandOverForumQueries(db, id, heir);
    if !done {
      return;
    }
    ghost var s1 := before.(forumQueries := db.forumQueries);
    assert Snapshot(db) == s1;
    done := HandOverForumAnswers(db, id, heir);
    if !done {
      return;
    }
    ghost var s2 := s1.(forumAnswers := db.forumAnswers);
    assert Snapshot(db) == s2;
    done := HandOverForumSubAnswers(db, id, heir);
    if !done {
      return;
    }
    ghost var s3 := s2.(forumSubAnswers := db.forumSubAnswers);
    assert Snapshot(db) == s3;
    RemoveVotesOf(db, id);
    assert Snapshot(db) == s3.(votes := db.votes);
  }

  method DeleteUser(db: Database, id: string, deleted: bool) returns (status: Status)
    requires db.Valid()
    modifies db`blogPosts, db`comments, db`subComments, db`stars, db`forumQueries, db`forumAnswers
    modifies db`forumSubAnswers, db`votes, db`users
    ensures (status, Snapshot(db)) == RemoveUser(old(Snapshot(db)), id, deleted)
    ensures db.Valid()
  {
    var k := IndexOf(db.users, UserId, id);
    if k < 0 {
      return NotFound;
    }
    var heir := Heir(db.users);
    var writingsDone := DeleteWritings(db, id, heir);
    if !writingsDone {
      return BadRequest;
    }
    var forumDone := DeleteForumWork(db, id, heir);
    if !forumDone || !deleted {
      return BadRequest;
    }
    assert db.Valid();
    ghost var keyed := db.Keyed();
    db.users := RemoveAt(db.users, k);
    assert db.Keyed() == keyed;
    status := Ok;
  }

  /** With the default account present, every hand-over goes through: the action answers Ok when
      the identity store deletes the account and BadRequest otherwise, and in both cases each of
      the six authored tables has had exactly the user's rows passed to the heir. */
  lemma RemoveUserPassesRowsOn(s: UserStore, id: string, deleted: bool)
    requires Registered(s.users, id) && Heir(s.users).Some?
    ensures var r := RemoveUser(s, id, deleted);
            var heir := Heir(s.users).value;
            && r.0 == (if deleted then Ok else BadRequest)
            && PassedOn(s.blogPosts, r.1.blogPosts, BlogPostAuthor, WithBlogPostAuthor, id, heir)
            && PassedOn(s.comments, r.1.comments, CommentAuthor, WithCommentAuthor, id, heir)
            && PassedOn(s.subComments, r.1.subComments, SubCommentAuthor, WithSubCommentAuthor, id, heir)
            && PassedOn(s.forumQueries, r.1.forumQueries, ForumQueryAuthor, WithForumQueryAuthor, id, heir)
            && PassedOn(s.forumAnswers, r.1.forumAnswers, ForumAnswerAuthor, WithForumAnswerAuthor, id, heir)
            && PassedOn(s.forumSubAnswers, r.1.forumSubAnswers, ForumSubAnswerAuthor, WithForumSubAnswerAuthor, id, heir)
  {
    var heir := Heir(s.users).value;
    HandOverPassesOn(s.blogPosts, BlogPostAuthor, WithBlogPostAuthor, id, heir);
    HandOverPassesOn(s.comments, CommentAuthor, WithCommentAuthor, id, heir);
    HandOverPassesOn(s.subComments, SubCommentAuthor, WithSubCommentAuthor, id, heir);
    HandOverPassesOn(s.forumQueries, ForumQueryAuthor, WithForumQueryAuthor, id, heir);
    HandOverPassesOn(s.forumAnswers, ForumAnswerAuthor, WithForumAnswerAuthor, id, heir);
    HandOverPassesOn(s.forumSubAnswers, ForumSubAnswerAuthor, WithForumSubAnswerAuthor, id, heir);
  }

  /** With the default account present, the deletion also removes exactly the user's stars and
      votes, and on Ok exactly the user's account. */
  lemma RemoveUserDropsStarsVotesAccount(s: UserStore, id: string, deleted: bool)
    requires Registered(s.users, id) && Heir(s.users).Some?
    ensures var r := RemoveUser(s, id, deleted);
            && (forall x :: x in r.1.stars <==> x in s.stars && x.userId != id)
            && (forall v :: v in r.1.votes <==> v in s.votes && v.userId != id)
            && (forall u :: u in s.users && u.id != id ==> u in r.1.users)
            && (r.0 == Ok && UniqueKeys(s.users, UserId) ==> forall u :: u in r.1.users ==> u.id != id)
  {
    var r := RemoveUser(s, id, deleted);
    RemoveUserPassesRowsOn(s, id, deleted);
    assert r.1.stars == Where(s.stars, NotStarredBy(id)) && r.1.votes == Where(s.votes, NotVotedBy(id));
    forall x ensures x in r.1.stars <==> x in s.stars && x.userId != id {
      WhereMembers(s.stars, NotStarredBy(id), x);
    }
    forall v ensures v in r.1.votes <==> v in s.votes && v.userId != id {
      WhereMembers(s.votes, NotVotedBy(id), v);
    }
    if r.0 == Ok {
      assert r.1.users == RemoveAt(s.users, IndexOf(s.users, UserId, id));
      RemoveFoundKeepsOthers(s.users, UserId, id);
    }
  }

  /** The point of the hand-over: once the account is deleted, no row of the six authored tables
      names it any more (the default account is a different account). */
  lemma RemoveUserLeavesNoAuthorship(s: UserStore, id: string)
    requires Registered(s.users, id) && Heir(s.users).Some? && Heir(s.users).value != id
    ensures var r := RemoveUser(s, id, true).1;
            && (forall i :: 0 <= i < |r.blogPosts| ==> r.blogPosts[i].authorId != id)
            && (forall i :: 0 <= i < |r.comments| ==> r.comments[i].userId != id)
            && (forall i :: 0 <= i < |r.subComments| ==> r.subComments[i].userId != id)
            && (forall i :: 0 <= i < |r.forumQueries| ==> r.forumQueries[i].authorId != id)
            && (forall i :: 0 <= i < |r.forumAnswers| ==> r.forumAnswers[i].userId != id)
            && (forall i :: 0 <= i < |r.forumSubAnswers| ==> r.forumSubAnswers[i].userId != id)
  {
    var r := RemoveUser(s, id, true).1;
    var heir := Heir(s.users).value;
    RemoveUserPassesRowsOn(s, id, true);
    PassedOnLeavesNone(s.blogPosts, r.blogPosts, BlogPostAuthor, WithBlogPostAuthor, id, heir);
    PassedOnLeavesNone(s.comments, r.comments, CommentAuthor, WithCommentAuthor, id, heir);
    PassedOnLeavesNone(s.subComments, r.subComments, SubCommentAuthor, WithSubCommentAuthor, id, heir);
    PassedOnLeavesNone(s.forumQueries, r.forumQueries, ForumQueryAuthor, WithForumQueryAuthor, id, heir);
    PassedOnLeavesNone(s.forumAnswers, r.forumAnswers, ForumAnswerAuthor, WithForumAnswerAuthor, id, heir);
    PassedOnLeavesNone(s.forumSubAnswers, r.forumSubAnswers, ForumSubAnswerAuthor, WithForumSubAnswerAuthor, id, heir);
  }

  /** Without the default account, a user who wrote a blog post cannot be deleted and nothing is
      changed: the very first hand-over fails. */
  lemma RemoveUserWithoutHeirChangesNothing(s: UserStore, id: string, deleted: bool, i: int)
    requires Registered(s.users, id) && Heir(s.users).None?
    requires 0 <= i < |s.blogPosts| && s.blogPosts[i].authorId == id
    ensures RemoveUser(s, id, deleted) == (BadRequest, s)
  {
  }

  /** Without the default account the saves already made stay made: a user with no posts,
      comments or sub-comments but with a forum query loses their stars, keeps their account and
      their query, and the action answers BadRequest. */
  lemma RemoveUserWithoutHeirIsPartial(s: UserStore, id: string, deleted: bool, i: int)
    requires Registered(s.users, id) && Heir(s.users).None?
    requires forall j :: 0 <= j < |s.blogPosts| ==> s.blogPosts[j].authorId != id
    requires forall j :: 0 <= j < |s.comments| ==> s.comments[j].userId != id
    requires forall j :: 0 <= j < |s.subComments| ==> s.subComments[j].userId != id
    requires 0 <= i < |s.forumQueries| && s.forumQueries[i].authorId == id
    ensures var r := RemoveUser(s, id, deleted);
            && r.0 == BadRequest
            && r.1 == s.(stars := r.1.stars)
            && (forall x :: x in r.1.stars <==> x in s.stars && x.userId != id)
  {
    var r := RemoveUser(s, id, deleted);
    assert r.1 == s.(stars := Where(s.stars, NotStarredBy(id)));
    forall x ensures x in r.1.stars <==> x in s.stars && x.userId != id {
      WhereMembers(s.stars, NotStarredBy(id), x);
    }
  }

  /** Removing a user's votes leaves the per-query vote counters as they were, so a store in
      which every counter equals its number of vote rows need not stay that way: one query with
      one vote, cast by the user being deleted, keeps counter 1 with no vote row left. */
  lemma RemoveUserBreaksVoteCounters()
    ensures var user := User("u", "u", "u@mail.com", "", "", Male, "", false, "", "", "", [UserRole]);
            var heir := User("d", DefaultUserEmail, DefaultUserEmail, "", "", Male, "", false, "", "", "", [UserRole]);
            var s := UserStore([], [], [], [], [ForumQuery(1, "", "", "", 0, 1, 0, "d")], [], [], [Vote(2, 1, "u")],
                               [user, heir]);
            && ForumQueryController.CountersMatch(s.forumQueries, s.votes)
            && RemoveUser(s, "u", true).0 == Ok
            && !ForumQueryController.CountersMatch(RemoveUser(s, "u", true).1.forumQueries, RemoveUser(s, "u", true).1.votes)
  {
    var user := User("u", "u", "u@mail.com", "", "", Male, "", false, "", "", "", [UserRole]);
    var heir := User("d", DefaultUserEmail, DefaultUserEmail, "", "", Male, "", false, "", "", "", [UserRole]);
    var q := ForumQuery(1, "", "", "", 0, 1, 0, "d");
    var v := Vote(2, 1, "u");
    var s := UserStore([], [], [], [], [q], [], [], [v], [user, heir]);
    assert ForumQueryController.VotesOn([v], 1) == [v];
    assert user.email[0] != DefaultUserEmail[0];
    assert IndexOf(s.users, UserEmail, DefaultUserEmail) == 1;
    var r := RemoveUser(s, "u", true).1;
    assert r.votes == Where([v], NotVotedBy("u")) == [];
    assert r.forumQueries == [q];
    assert ForumQueryController.VotesOn([], 1) == [];
  }

  // ---------------------------------------------------------------- restriction

  /** RestrictUser: NotFound when no account has the key; otherwise the restricted flag flips,
      which is kept only if UpdateAsync succeeds (BadRequest otherwise). */
  function Restrict(users: seq<User>, id: string, saved: bool): (r: (Status, seq<User>))
    ensures r.0 == Ok || r.0 == NotFound || r.0 == BadRequest
    ensures r.0 == NotFound <==> !Registered(users, id)
    ensures r.0 != Ok ==> r.1 == users
    ensures r.0 == Ok ==> saved && |r.1| == |users|
    ensures r.0 == Ok ==> exists k :: 0 <= k < |users| && users[k].id == id
                                      && r.1[k] == users[k].(isRestricted := !users[k].isRestricted)
                                      && forall j :: 0 <= j < |users| && j != k ==> r.1[j] == users[j]
  {
    var k := IndexOf(users, UserId, id);
    if k < 0 then (NotFound, users)
    else if !saved then (BadRequest, users)
    else (Ok, users[k := users[k].(isRestricted := !users[k].isRestricted)])
  }

  /** Restricting twice, both times saved, restores the account exactly. */
  lemma RestrictTwiceRestores(users: seq<User>, id: string)
    ensures Restrict(Restrict(users, id, true).1, id, true).1 == users
  {
    var k := IndexOf(users, UserId, id);
    if k >= 0 {
      var once := users[k := users[k].(isRestricted := !users[k].isRestricted)];
      IndexOfAfterReplace(users, UserId, k, once[k], id);
      assert once[k := once[k].(isRestricted := !once[k].isRestricted)] == users;
    }
  }

  method RestrictUser(db: Database, id: string, saved: bool) returns (status: Status)
    modifies db`users
    ensures (status, db.users) == Restrict(old(db.users), id, saved)
  {
    var k := IndexOf(db.users, UserId, id);
    if k < 0 {
      return NotFound;
    }
    if !saved {
      return BadRequest;
    }
    var user := db.users[k];
    db.users := db.users[k := user.(isRestricted := !user.isRestricted)];
    status := Ok;
  }

  // ---------------------------------------------------------------- self-or-Admin

  /** The outcome of the check shared by UpdateUser and ChangePassword. */
  datatype Access = Fault | Denied | Granted(target: int)

  /** The condition itself: the requester is the target by user name, or holds the Admin role. */
  predicate MayModify(requester: User, target: User) {
    requester.userName == target.userName || AdminRole in requester.roles
  }

  /** The requester is found by the name in their token and the target by key. A missing requester
      makes GetRolesAsync throw and a missing target makes the name comparison throw; both end in
      BadRequest (Fault) before any change. */
  function CheckAccess(users: seq<User>, id: string, requesterName: string): (a: Access)
    ensures a.Fault? <==> !Registered(users, id) || forall i :: 0 <= i < |users| ==> users[i].userName != requesterName
    ensures a.Granted? ==> 0 <= a.target < |users| && users[a.target].id == id
  {
    var t := IndexOf(users, UserId, id);
    var q := IndexOf(users, UserName, requesterName);
    if q < 0 || t < 0 then Fault
    else if MayModify(users[q], users[t]) then Granted(t)
    else Denied
  }

  /** A user may always change their own account. */
  lemma SelfMayModify(users: seq<User>, id: string, requesterName: string, t: int)
    requires UniqueKeys(users, UserId)
    requires 0 <= t < |users| && users[t].id == id && users[t].userName == requesterName
    ensures CheckAccess(users, id, requesterName).Granted?
  {
  }

  /** An Admin may change any existing account (user names are unique in the identity store). */
  lemma AdminMayModify(users: seq<User>, id: string, q: int)
    requires UniqueKeys(users, UserName) && Registered(users, id)
    requires 0 <= q < |users| && AdminRole in users[q].roles
    ensures CheckAccess(users, id, users[q].userName).Granted?
  {
  }

  /** Anyone else is refused: a requester without the Admin role asking about an account with
      another user name gets Denied. */
  lemma OthersMayNotModify(users: seq<User>, id: string, q: int, t: int)
    requires UniqueKeys(users, UserName) && UniqueKeys(users, UserId)
    requires 0 <= q < |users| && AdminRole !in users[q].roles
    requires 0 <= t < |users| && users[t].id == id && users[t].userName != users[q].userName
    ensures CheckAccess(users, id, users[q].userName) == Denied
  {
  }

  /** The profile fields UpdateUser takes from the request body. */
  datatype ProfileUpdate = ProfileUpdate(firstName: string, lastName: string, gender: Gender, email: string,
                                         profileImage: string, address: string, dob: string)

  /** The assignments of UpdateUser: the submitted email becomes both the email and the user name;
      key, password, roles and restriction are kept. */
  function EditProfile(u: User, m: ProfileUpdate): (r: User)
    ensures r.email == m.email && r.userName == m.email
    ensures r.firstName == m.firstName && r.lastName == m.lastName && r.gender == m.gender
    ensures r.profileImage == m.profileImage && r.address == m.address && r.dob == m.dob
    ensures r.id == u.id && r.password == u.password && r.roles == u.roles && r.isRestricted == u.isRestricted
  {
    u.(firstName := m.firstName, lastName := m.lastName, gender := m.gender, email := m.email,
       profileImage := m.profileImage, userName := m.email, address := m.address, dob := m.dob)
  }

  /** UpdateUser: BadRequest on a fault, Forbidden when refused, BadRequest with nothing stored
      when UpdateAsync fails, otherwise Ok with the edited account stored. */
  function UpdateProfile(users: seq<User>, id: string, requesterName: string, m: ProfileUpdate, saved: bool)
    : (r: (Status, seq<User>))
    ensures r.0 == Ok || r.0 == BadRequest || r.0 == Forbidden
    ensures r.0 == Forbidden <==> CheckAccess(users, id, requesterName).Denied?
    ensures r.0 == Ok <==> CheckAccess(users, id, requesterName).Granted? && saved
    ensures r.0 != Ok ==> r.1 == users
    ensures r.0 == Ok ==> var k := CheckAccess(users, id, requesterName).target;
                          |r.1| == |users| && r.1[k] == EditProfile(users[k], m)
                          && forall j :: 0 <= j < |users| && j != k ==> r.1[j] == users[j]
  {
    match CheckAccess(users, id, requesterName)
    case Fault => (BadRequest, users)
    case Denied => (Forbidden, users)
    case Granted(k) => if saved then (Ok, users[k := EditProfile(users[k], m)]) else (BadRequest, users)
  }

  method UpdateUser(db: Database, id: string, requesterName: string, m: ProfileUpdate, saved: bool)
    returns (status: Status)
    modifies db`users
    ensures (status, db.users) == UpdateProfile(old(db.users), id, requesterName, m, saved)
  {
    var access := CheckAccess(db.users, id, requesterName);
    if access.Fault? {
      return BadRequest;
    }
    if access.Denied? {
      return Forbidden;
    }
    if !saved {
      return BadRequest;
    }
    var k := access.target;
    db.users := db.users[k := EditProfile(db.users[k], m)];
    status := Ok;
  }

  /** ChangePassword: the same gate; BadRequest with nothing stored when the reset fails,
      otherwise Ok with the new password stored and nothing else about the account changed. */
  function ResetPassword(users: seq<User>, id: string, requesterName: string, password: string, saved: bool)
    : (r: (Status, seq<User>))
    ensures r.0 == Ok || r.0 == BadRequest || r.0 == Forbidden
    ensures r.0 == Forbidden <==> CheckAccess(users, id, requesterName).Denied?
    ensures r.0 == Ok <==> CheckAccess(users, id, requesterName).Granted? && saved
    ensures r.0 != Ok ==> r.1 == users
    ensures r.0 == Ok ==> var k := CheckAccess(users, id, requesterName).target;
                          |r.1| == |users| && r.1[k] == users[k].(password := password)
                          && forall j :: 0 <= j < |users| && j != k ==> r.1[j] == users[j]
  {
    match CheckAccess(users, id, requesterName)
    case Fault => (BadRequest, users)
    case Denied => (Forbidden, users)
    case Granted(k) => if saved then (Ok, users[k := users[k].(password := password)]) else (BadRequest, users)
  }

  method ChangePassword(db: Database, id: string, requesterName: string, password: string, saved: bool)
    returns (status: Status)
    modifies db`users
    ensures (status, db.users) == ResetPassword(old(db.users), id, requesterName, password, saved)
  {
    var access := CheckAccess(db.users, id, requesterName);
    if access.Fault? {
      return BadRequest;
    }
    if access.Denied? {
      return Forbidden;
    }
    if !saved {
      return BadRequest;
    }
    var k := access.target;
    db.users := db.users[k := db.users[k].(password := password)];
    status := Ok;
  }

  // ---------------------------------------------------------------- role change

  /** UpdateUserRole. The user's roles are read before the null checks, so an unknown user makes
      GetRolesAsync throw (BadRequest); an unknown role gives NotFound; a user with no role makes
      RemoveFromRoleAsync(null) throw (BadRequest). Otherwise the first role is removed and that
      removal is stored; adding the new role then fails if the user still holds it (BadRequest,
      removal kept) and succeeds otherwise (Ok). */
  function ChangeRole(users: seq<User>, roles: seq<Role>, userId: string, roleId: string): (r: (Status, seq<User>))
    ensures r.0 == Ok || r.0 == BadRequest || r.0 == NotFound
    ensures !Registered(users, userId) ==> r == (BadRequest, users)
    ensures r.0 == NotFound <==> Registered(users, userId) && forall j :: 0 <= j < |roles| ==> roles[j].id != roleId
    ensures r.0 == NotFound ==> r.1 == users
    ensures |r.1| == |users|
    ensures forall j :: 0 <= j < |users| && users[j].id != userId ==> r.1[j] == users[j]
  {
    var k := IndexOf(users, UserId, userId);
    var j := IndexOf(roles, RoleId, roleId);
    if k < 0 then (BadRequest, users)
    else if j < 0 then (NotFound, users)
    else if users[k].roles == [] then (BadRequest, users)
    else
      var rest := users[k].roles[1..];
      var name := roles[j].name;
      if name in rest then (BadRequest, users[k := users[k].(roles := rest)])
      else (Ok, users[k := users[k].(roles := rest + [name])])
  }

  /** On success the user holds the new role, has lost the role listed first, and keeps the
      others: as multisets, new roles = old roles - {first} + {new}. */
  lemma ChangeRoleSwapsFirstRole(users: seq<User>, roles: seq<Role>, userId: string, roleId: string)
    requires ChangeRole(users, roles, userId, roleId).0 == Ok
    ensures var k := IndexOf(users, UserId, userId);
            var j := IndexOf(roles, RoleId, roleId);
            var after := ChangeRole(users, roles, userId, roleId).1[k];
            && 0 <= k < |users| && 0 <= j < |roles| && |users[k].roles| > 0
            && roles[j].name in after.roles
            && multiset(after.roles) == multiset(users[k].roles) - multiset{users[k].roles[0]} + multiset{roles[j].name}
            && after == users[k].(roles := after.roles)
  {
    var k := IndexOf(users, UserId, userId);
    var old_ := users[k].roles;
    assert old_ == [old_[0]] + old_[1..];
  }

  /** For the usual account with a single role, a role change replaces that role with the new one. */
  lemma ChangeRoleOfSingleRoleUser(users: seq<User>, roles: seq<Role>, userId: string, roleId: string, k: int, j: int)
    requires 0 <= k < |users| && users[k].id == userId && UniqueKeys(users, UserId) && |users[k].roles| == 1
    requires 0 <= j < |roles| && roles[j].id == roleId && UniqueKeys(roles, RoleId)
    ensures ChangeRole(users, roles, userId, roleId).0 == Ok
    ensures ChangeRole(users, roles, userId, roleId).1[k].roles == [roles[j].name]
  {
  }

  /** A refused addition still costs the user their first role: when the new role is one the user
      holds further down the list, the action answers BadRequest with the first role gone. */
  lemma ChangeRoleToHeldRoleDropsFirst(users: seq<User>, roles: seq<Role>, userId: string, roleId: string, k: int, j: int)
    requires 0 <= k < |users| && users[k].id == userId && UniqueKeys(users, UserId)
    requires 0 <= j < |roles| && roles[j].id == roleId && UniqueKeys(roles, RoleId)
    requires |users[k].roles| >= 2 && roles[j].name in users[k].roles[1..]
    ensures ChangeRole(users, roles, userId, roleId).0 == BadRequest
    ensures ChangeRole(users, roles, userId, roleId).1[k].roles == users[k].roles[1..]
  {
  }

  method UpdateUserRole(db: Database, userId: string, roleId: string) returns (status: Status)
    modifies db`users
    ensures (status, db.users) == ChangeRole(old(db.users), db.roles, userId, roleId)
  {
    var k := IndexOf(db.users, UserId, userId);
    var j := IndexOf(db.roles, RoleId, roleId);
    if k < 0 {
      return BadRequest;
    }
    if j < 0 {
      return NotFound;
    }
    var user := db.users[k];
    if user.roles == [] {
      return BadRequest;
    }
    var rest := user.roles[1..];
    var users := db.users;
    db.users := users[k := user.(roles := rest)];
    var name := db.roles[j].name;
    if name in rest {
      assert (BadRequest, db.users) == ChangeRole(users, db.roles, userId, roleId);
      return BadRequest;
    }
    db.users := users[k := user.(roles := rest + [name])];
    assert (Ok, db.users) == ChangeRole(users, db.roles, userId, roleId);
    status := Ok;
  }
}
