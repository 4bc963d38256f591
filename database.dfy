/** The database context and the identity store the controllers share, as one object whose
    fields are the tables. A controller action is a method that takes the object and names, field
    by field, the tables it may change; every other table is left untouched by construction. */
module Data {
  import opened Entities
  import opened Tables

  /** The tables whose rows carry a long identity key. */
  datatype KeyedTables = KeyedTables(
    blogPosts: seq<BlogPost>, comments: seq<Comment>, subComments: seq<SubComment>,
    forumQueries: seq<ForumQuery>, forumAnswers: seq<ForumAnswer>, forumSubAnswers: seq<ForumSubAnswer>,
    votes: seq<Vote>, stars: seq<Star>, categories: seq<Category>, homes: seq<Home>, firstRuns: seq<FirstRun>)

  /** Every key in every keyed table lies in [1, next): the generator, which starts at 1, has
      handed it out before reaching `next`. */
  ghost predicate KeysIssued(t: KeyedTables, next: int) {
    && next >= 1
    && KeysBelow(t.blogPosts, BlogPostId, next) && KeysBelow(t.comments, CommentId, next)
    && KeysBelow(t.subComments, SubCommentId, next) && KeysBelow(t.forumQueries, ForumQueryId, next)
    && KeysBelow(t.forumAnswers, ForumAnswerId, next) && KeysBelow(t.forumSubAnswers, ForumSubAnswerId, next)
    && KeysBelow(t.votes, VoteId, next) && KeysBelow(t.stars, StarId, next)
    && KeysBelow(t.categories, CategoryId, next) && KeysBelow(t.homes, HomeId, next)
    && KeysBelow(t.firstRuns, FirstRunId, next)
  }

  /** Moving the generator on keeps every stored key below it. */
  lemma KeysIssuedRaise(t: KeyedTables, next: int, next': int)
    requires KeysIssued(t, next) && next <= next'
    ensures KeysIssued(t, next')
  {
  }

  class Database {
    var blogPosts: seq<BlogPost>
    var comments: seq<Comment>
    var subComments: seq<SubComment>
    var forumQueries: seq<ForumQuery>
    var forumAnswers: seq<ForumAnswer>
    var forumSubAnswers: seq<ForumSubAnswer>
    var votes: seq<Vote>
    var stars: seq<Star>
    var categories: seq<Category>
    var homes: seq<Home>
    var firstRuns: seq<FirstRun>
    var users: seq<User>
    var roles: seq<Role>
    /** The identity generator behind every long key: the next key an insert receives. */
    var nextId: int

    /** The long-keyed tables as one value, for stating the identity invariant over them. */
    ghost function Keyed(): KeyedTables
      reads this`blogPosts, this`comments, this`subComments, this`forumQueries, this`forumAnswers
      reads this`forumSubAnswers, this`votes, this`stars, this`categories, this`homes, this`firstRuns
    {
      KeyedTables(blogPosts, comments, subComments, forumQueries, forumAnswers, forumSubAnswers,
                  votes, stars, categories, homes, firstRuns)
    }

    /** The identity columns' invariant: every long key stored in a table is at least 1 and was
        handed out before, so it lies below the next key the generator hands out. */
    ghost predicate Valid()
      reads this`blogPosts, this`comments, this`subComments, this`forumQueries, this`forumAnswers
      reads this`forumSubAnswers, this`votes, this`stars, this`categories, this`homes, this`firstRuns
      reads this`nextId
    {
      KeysIssued(Keyed(), nextId)
    }

    /** A store that has never been written to. */
    constructor ()
      ensures blogPosts == [] && comments == [] && subComments == []
      ensures forumQueries == [] && forumAnswers == [] && forumSubAnswers == []
      ensures votes == [] && stars == [] && categories == [] && homes == [] && firstRuns == []
      ensures users == [] && roles == []
      ensures nextId == 1
      ensures Valid()
    {
      blogPosts, comments, subComments := [], [], [];
      forumQueries, forumAnswers, forumSubAnswers := [], [], [];
      votes, stars, categories, homes, firstRuns := [], [], [], [], [];
      users, roles := [], [];
      nextId := 1;
    }

    /** Draws the key SaveChanges gives a newly inserted row. */
    method NewKey() returns (id: int)
      requires Valid()
      modifies this`nextId
      ensures id == old(nextId) && nextId == old(nextId) + 1
      ensures id >= 1 && Valid()
    {
      KeysIssuedRaise(Keyed(), nextId, nextId + 1);
      id := nextId;
      nextId := nextId + 1;
    }

    /** Writes the post table; every key in it must have been handed out already. */
    method SaveBlogPosts(rows: seq<BlogPost>)
      requires Valid() && KeysBelow(rows, BlogPostId, nextId)
      modifies this`blogPosts
      ensures blogPosts == rows && Valid()
    {
      blogPosts := rows;
    }

    /** Writes the comment table; every key in it must have been handed out already. */
    method SaveComments(rows: seq<Comment>)
      requires Valid() && KeysBelow(rows, CommentId, nextId)
      modifies this`comments
      ensures comments == rows && Valid()
    {
      comments := rows;
    }

    /** Writes the sub-comment table; every key in it must have been handed out already. */
    method SaveSubComments(rows: seq<SubComment>)
      requires Valid() && KeysBelow(rows, SubCommentId, nextId)
      modifies this`subComments
      ensures subComments == rows && Valid()
    {
      subComments := rows;
    }

    /** Writes the forum query table; every key in it must have been handed out already. */
    method SaveForumQueries(rows: seq<ForumQuery>)
      requires Valid() && KeysBelow(rows, ForumQueryId, nextId)
      modifies this`forumQueries
      ensures forumQueries == rows && Valid()
    {
      forumQueries := rows;
    }

    /** Writes the forum answer table; every key in it must have been handed out already. */
    method SaveForumAnswers(rows: seq<ForumAnswer>)
      requires Valid() && KeysBelow(rows, ForumAnswerId, nextId)
      modifies this`forumAnswers
      ensures forumAnswers == rows && Valid()
    {
      forumAnswers := rows;
    }

    /** Writes the forum sub-answer table; every key in it must have been handed out already. */
    method SaveForumSubAnswers(rows: seq<ForumSubAnswer>)
      requires Valid() && KeysBelow(rows, ForumSubAnswerId, nextId)
      modifies this`forumSubAnswers
      ensures forumSubAnswers == rows && Valid()
    {
      forumSubAnswers := rows;
    }

    /** Writes the vote table; every key in it must have been handed out already. */
    method SaveVotes(rows: seq<Vote>)
      requires Valid() && KeysBelow(rows, VoteId, nextId)
      modifies this`votes
      ensures votes == rows && Valid()
    {
      votes := rows;
    }

    /** Writes the star table; every key in it must have been handed out already. */
    method SaveStars(rows: seq<Star>)
      requires Valid() && KeysBelow(rows, StarId, nextId)
      modifies this`stars
      ensures stars == rows && Valid()
    {
      stars := rows;
    }

    /** Writes the category table; every key in it must have been handed out already. */
    method SaveCategories(rows: seq<Category>)
      requires Valid() && KeysBelow(rows, CategoryId, nextId)
      modifies this`categories
      ensures categories == rows && Valid()
    {
      categories := rows;
    }

    /** Writes the home table; every key in it must have been handed out already. */
    method SaveHomes(rows: seq<Home>)
      requires Valid() && KeysBelow(rows, HomeId, nextId)
      modifies this`homes
      ensures homes == rows && Valid()
    {
      homes := rows;
    }

    /** Writes the first-run table; every key in it must have been handed out already. */
    method SaveFirstRuns(rows: seq<FirstRun>)
      requires Valid() && KeysBelow(rows, FirstRunId, nextId)
      modifies this`firstRuns
      ensures firstRuns == rows && Valid()
    {
      firstRuns := rows;
    }

    /** Writes the vote table and the query table in one save, as a vote toggle does. */
    method SaveVoteTables(queries: seq<ForumQuery>, votes: seq<Vote>)
      requires Valid() && KeysBelow(queries, ForumQueryId, nextId) && KeysBelow(votes, VoteId, nextId)
      modifies this`forumQueries, this`votes
      ensures forumQueries == queries && this.votes == votes && Valid()
    {
      forumQueries, this.votes := queries, votes;
    }
  }
}
