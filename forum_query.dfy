/** The forum query controller (Controllers/ForumQueryController.cs): the filtered listing, update
    and creation with derived slugs, the cascading delete, and the vote toggle with its per-query
    counter. */
module ForumQueryController {
  import opened Entities
  import opened Tables
  import opened Slugs
  import opened SlugTables
  import opened Pagination
  import opened Listing
  import opened Data

  // ---------------------------------------------------------------- listing

  /** The one filter a listing request applies. */
  datatype QueryFilter = InCategory(slug: string) | ByAuthor(authorId: string) | TitleContains(text: string)
                       | MostVoted | Newest

  /** The filter chain of GetForumQuery: the first non-empty parameter wins, in the order
      category slug, author, search text, vote sort; with none of them the newest come first.
      An absent string parameter arrives as the empty string. */
  function ChooseFilter(categorySlug: string, authorId: string, search: string, voteSort: bool): (f: QueryFilter)
    ensures f.InCategory? <==> categorySlug != ""
    ensures f.ByAuthor? <==> categorySlug == "" && authorId != ""
    ensures f.TitleContains? <==> categorySlug == "" && authorId == "" && search != ""
    ensures f.MostVoted? <==> categorySlug == "" && authorId == "" && search == "" && voteSort
    ensures f.InCategory? ==> f.slug == categorySlug
    ensures f.ByAuthor? ==> f.authorId == authorId
    ensures f.TitleContains? ==> f.text == search
  {
    if categorySlug != "" then InCategory(categorySlug)
    else if authorId != "" then ByAuthor(authorId)
    else if search != "" then TitleContains(search)
    else if voteSort then MostVoted
    else Newest
  }

  /** String.Contains: `part` occurs somewhere in `text`. */
  predicate Contains(text: string, part: string)
    decreases |text|
  {
    part == [] || (|part| <= |text| && (text[..|part|] == part || Contains(text[1..], part)))
  }

  /** `part` sits in `text` at position i. */
  predicate At(text: string, part: string, i: int) {
    0 <= i <= |text| - |part| && text[i..i + |part|] == part
  }

  /** Contains holds exactly when some window of the text spells the part. */
  lemma {:induction false} ContainsAt(text: string, part: string)
    ensures Contains(text, part) <==> exists i :: At(text, part, i)
  {
    if part == [] {
      assert At(text, part, 0);
    } else if |part| <= |text| {
      ContainsAt(text[1..], part);
      if text[..|part|] == part {
        assert At(text, part, 0);
      } else {
        forall i | At(text, part, i) ensures At(text[1..], part, i - 1) {
          assert i != 0;
          assert text[1..][i - 1..i - 1 + |part|] == text[i..i + |part|];
        }
        forall i | At(text[1..], part, i) ensures At(text, part, i + 1) {
          assert text[1..][i..i + |part|] == text[i + 1..i + 1 + |part|];
        }
      }
    }
  }

  /** The category join: the query's category has the given slug. */
  predicate InCategoryWithSlug(categories: seq<Category>, q: ForumQuery, slug: string) {
    var k := IndexOf(categories, CategoryId, q.categoryId);
    k >= 0 && categories[k].slug == slug
  }

  predicate Matches(categories: seq<Category>, f: QueryFilter, q: ForumQuery) {
    match f
    case InCategory(slug) => InCategoryWithSlug(categories, q, slug)
    case ByAuthor(authorId) => q.authorId == authorId
    case TitleContains(text) => Contains(q.title, text)
    case MostVoted => true
    case Newest => true
  }

  /** What each filter admits. The category join follows the query's category key to a stored
      category and compares its slug (with unique category keys the first row found is the only
      one); the author filter compares ids; the search filter asks for the text somewhere in the
      title; the two sorts admit everything. */
  lemma MatchesMeaning(categories: seq<Category>, f: QueryFilter, q: ForumQuery)
    requires UniqueKeys(categories, CategoryId)
    ensures f.InCategory? ==>
              (Matches(categories, f, q) <==> exists c :: c in categories && c.id == q.categoryId && c.slug == f.slug)
    ensures f.ByAuthor? ==> (Matches(categories, f, q) <==> q.authorId == f.authorId)
    ensures f.TitleContains? ==> (Matches(categories, f, q) <==> exists i :: At(q.title, f.text, i))
    ensures f.MostVoted? || f.Newest? ==> Matches(categories, f, q)
  {
    match f {
      case InCategory(slug) =>
        var k := IndexOf(categories, CategoryId, q.categoryId);
        if k >= 0 {
          assert categories[k] in categories;
        }
        forall c | c in categories && c.id == q.categoryId && c.slug == slug
          ensures Matches(categories, f, q)
        {
          var j :| 0 <= j < |categories| && categories[j] == c;
          assert CategoryId(categories[j]) == q.categoryId;
          assert k == j;
        }
      case TitleContains(text) =>
        ContainsAt(q.title, text);
      case ByAuthor(_) =>
      case MostVoted =>
      case Newest =>
    }
  }

  function VoteCount(q: ForumQuery): int { q.vote }
  function Posted(q: ForumQuery): int { q.datePosted }

  /** The vote sort orders by the counter; every other branch by posting date. */
  function OrderKey(f: QueryFilter): (key: ForumQuery -> int)
    ensures f.MostVoted? ==> key == VoteCount
    ensures !f.MostVoted? ==> key == Posted
  {
    if f.MostVoted? then VoteCount else Posted
  }

  /** GetForumQuery: one page of the queries that pass the chosen filter, in the chosen order,
      with the pagination header counting every query that passed. */
  function GetForumQuery(queries: seq<ForumQuery>, categories: seq<Category>, pageNumber: int, pageSize: int,
                         categorySlug: string, authorId: string, search: string, voteSort: bool): (r: Listed<ForumQuery>)
    requires pageNumber >= 1 && pageSize >= 1
    ensures var f := ChooseFilter(categorySlug, authorId, search, voteSort);
            && r.pagination.totalCount == |Where(queries, (q: ForumQuery) => Matches(categories, f, q))|
            && (forall i :: 0 <= i < |r.rows| ==> r.rows[i] in queries && Matches(categories, f, r.rows[i]))
            && SortedDesc(r.rows, OrderKey(f))
    ensures var matching := Where(queries, (q: ForumQuery) => Matches(categories, ChooseFilter(categorySlug, authorId, search, voteSort), q));
            && r.rows == Page(SortDesc(matching, OrderKey(ChooseFilter(categorySlug, authorId, search, voteSort))), pageNumber, pageSize)
            && r.pagination == Create(|matching|, pageNumber, pageSize)
    ensures |r.rows| <= pageSize && r.pagination.currentPage == pageNumber
  {
    var f := ChooseFilter(categorySlug, authorId, search, voteSort);
    Select(queries, (q: ForumQuery) => Matches(categories, f, q), OrderKey(f), pageNumber, pageSize)
  }

  // ---------------------------------------------------------------- update and create

  function Title(q: ForumQuery): string { q.title }
  function StoredSlug(q: ForumQuery): string { q.slug }

  /** PutForumQuery on the query table: the id check, then the body with its slug recomputed
      from its title and the id replaces the stored query. */
  function UpdateQuery(queries: seq<ForumQuery>, id: int, q: ForumQuery): (r: (Status, seq<ForumQuery>))
    ensures r.0 == Ok || r.0 == BadRequest || r.0 == NotFound
    ensures r.0 == BadRequest <==> id != q.id
    ensures r.0 == NotFound <==> id == q.id && forall i :: 0 <= i < |queries| ==> queries[i].id != id
    ensures r.0 != Ok ==> r.1 == queries
    ensures |r.1| == |queries|
    ensures r.0 == Ok ==> exists k :: 0 <= k < |queries| && queries[k].id == id
                                      && r.1 == queries[k := q.(slug := Slug(q.title, id))]
  {
    Update(queries, ForumQueryId, id, q.(slug := Slug(q.title, id)))
  }

  /** An update keeps every stored slug derived from its row and all slugs distinct. */
  lemma UpdateQueryKeepsSlugs(queries: seq<ForumQuery>, id: int, q: ForumQuery)
    requires SlugsDerived(queries, Title, ForumQueryId, StoredSlug) && UniqueKeys(queries, ForumQueryId)
    requires KeysNatural(queries, ForumQueryId)
    ensures SlugsDerived(UpdateQuery(queries, id, q).1, Title, ForumQueryId, StoredSlug)
    ensures UniqueKeys(UpdateQuery(queries, id, q).1, StoredSlug)
  {
    var k := IndexOf(queries, ForumQueryId, id);
    if id == q.id && k >= 0 {
      ReplaceKeepsSlugs(queries, k, q.(slug := Slug(q.title, id)), Title, ForumQueryId, StoredSlug);
    } else {
      DerivedSlugsUnique(queries, Title, ForumQueryId, StoredSlug);
    }
  }

  /** PostForumQuery on the query table: the query is stored under the key the store draws, and a
      second save sets its slug from the title and that key. */
  function AddQuery(queries: seq<ForumQuery>, q: ForumQuery, newId: int): (r: seq<ForumQuery>)
    ensures |r| == |queries| + 1 && r[..|queries|] == queries
    ensures r[|queries|].id == newId && r[|queries|].slug == Slug(q.title, newId)
    ensures r[|queries|] == q.(id := newId, slug := r[|queries|].slug)
  {
    var stored := queries + [q.(id := newId)];
    stored[|queries| := q.(id := newId, slug := Slug(q.title, newId))]
  }

  /** A create under a fresh key keeps every stored slug derived and all slugs distinct; in
      particular the new slug differs from every slug already stored. */
  lemma AddQueryKeepsSlugs(queries: seq<ForumQuery>, q: ForumQuery, newId: int)
    requires SlugsDerived(queries, Title, ForumQueryId, StoredSlug) && UniqueKeys(queries, ForumQueryId)
    requires KeysNatural(queries, ForumQueryId)
    requires newId >= 0 && forall i :: 0 <= i < |queries| ==> queries[i].id != newId
    ensures SlugsDerived(AddQuery(queries, q, newId), Title, ForumQueryId, StoredSlug)
    ensures UniqueKeys(AddQuery(queries, q, newId), ForumQueryId)
    ensures UniqueKeys(AddQuery(queries, q, newId), StoredSlug)
  {
    var x := q.(id := newId, slug := Slug(q.title, newId));
    assert AddQuery(queries, q, newId) == queries + [x];
    InsertKeepsSlugs(queries, x, Title, ForumQueryId, StoredSlug);
  }

  method PutForumQuery(db: Database, id: int, q: ForumQuery) returns (status: Status)
    requires db.Valid()
    modifies db`forumQueries
    ensures (status, db.forumQueries) == UpdateQuery(old(db.forumQueries), id, q)
    ensures db.Valid()
  {
    if id != q.id {
      return BadRequest;
    }
    var stored := q.(slug := Slug(q.title, id));
    var k := IndexOf(db.forumQueries, ForumQueryId, id);
    if k < 0 {
      return NotFound;
    }
    KeysBelowSameKeys(db.forumQueries, db.forumQueries[k := stored], ForumQueryId, db.nextId);
    db.SaveForumQueries(db.forumQueries[k := stored]);
    status := Ok;
  }

  /** The rows after PostForumQuery's two saves: their keys stay below the moved generator, and a
      store whose slugs are derived and distinct stays so. */
  lemma QueryAddedUnderFreshKey(queries: seq<ForumQuery>, q: ForumQuery, id: int, saved: seq<ForumQuery>)
    requires id >= 1 && KeysBelow(queries, ForumQueryId, id)
    requires saved == (queries + [q.(id := id)])[|queries| := q.(id := id, slug := Slug(q.title, id))]
    ensures saved == AddQuery(queries, q, id)
    ensures KeysBelow(saved, ForumQueryId, id + 1)
    ensures SlugsDerived(queries, Title, ForumQueryId, StoredSlug) && UniqueKeys(queries, ForumQueryId) ==>
              && SlugsDerived(saved, Title, ForumQueryId, StoredSlug)
              && UniqueKeys(saved, ForumQueryId) && UniqueKeys(saved, StoredSlug)
  {
    var x := q.(id := id, slug := Slug(q.title, id));
    assert saved == queries + [x];
    BoundIsFresh(queries, ForumQueryId, id);
    KeysBelowAppend(queries, ForumQueryId, id, x);
    if SlugsDerived(queries, Title, ForumQueryId, StoredSlug) && UniqueKeys(queries, ForumQueryId) {
      AddQueryKeepsSlugs(queries, q, id);
    }
  }

  /** The identity column hands out a key no stored query has, so a store whose slugs are
      derived and distinct stays so. */
  method PostForumQuery(db: Database, q: ForumQuery) returns (status: Status)
    requires db.Valid()
    modifies db`forumQueries, db`nextId
    ensures db.nextId == old(db.nextId) + 1
    ensures db.forumQueries == AddQuery(old(db.forumQueries), q, old(db.nextId))
    ensures status == Created
    ensures db.Valid()
    ensures SlugsDerived(old(db.forumQueries), Title, ForumQueryId, StoredSlug) && UniqueKeys(old(db.forumQueries), ForumQueryId) ==>
              && SlugsDerived(db.forumQueries, Title, ForumQueryId, StoredSlug)
              && UniqueKeys(db.forumQueries, ForumQueryId) && UniqueKeys(db.forumQueries, StoredSlug)
  {
    var queries := db.forumQueries;
    var id := db.NewKey();
    var added := queries + [q.(id := id)];
    var slug := Slug(q.title, id);
    var saved := added[|added| - 1 := q.(id := id, slug := slug)];
    QueryAddedUnderFreshKey(queries, q, id, saved);
    db.SaveForumQueries(saved);
    status := Created;
  }

  // ---------------------------------------------------------------- votes

  /** A vote row's identity as far as the toggle is concerned: which query, which user. */
  function VoteKey(v: Vote): (int, string) { (v.forumId, v.userId) }

  /** The votes cast on one query. */
  function VotesOn(votes: seq<Vote>, forumId: int): (r: seq<Vote>)
    ensures |r| <= |votes|
  {
    Where(votes, (v: Vote) => v.forumId == forumId)
  }

  /** _context.Vote.Any(v => v.ForumId == forumId && v.UserId == userId) */
  predicate Voted(votes: seq<Vote>, forumId: int, userId: string) {
    IndexOf(votes, VoteKey, (forumId, userId)) >= 0
  }

  /** Every query's counter equals the number of vote rows cast on it. */
  ghost predicate CountersMatch(queries: seq<ForumQuery>, votes: seq<Vote>) {
    forall i :: 0 <= i < |queries| ==> queries[i].vote == |VotesOn(votes, queries[i].id)|
  }

  datatype VoteTables = VoteTables(queries: seq<ForumQuery>, votes: seq<Vote>)

  /** forumQuery.Vote++ / forumQuery.Vote-- on the query at position k. */
  function Bump(queries: seq<ForumQuery>, k: int, delta: int): (r: seq<ForumQuery>)
    requires 0 <= k < |queries|
    ensures |r| == |queries| && r[k].vote == queries[k].vote + delta
    ensures r[k] == queries[k].(vote := r[k].vote)
    ensures forall i :: 0 <= i < |queries| && i != k ==> r[i] == queries[i]
  {
    queries[k := queries[k].(vote := queries[k].vote + delta)]
  }

  /** VoteForumQuery on the two tables: NotFound for an unknown query; otherwise the user's vote
      on that query is withdrawn (the first matching row is removed and the counter drops) or cast
      (`row` is added and the counter rises). */
  function Toggle(t: VoteTables, row: Vote): (r: (Status, VoteTables))
    ensures r.0 == NotFound <==> IndexOf(t.queries, ForumQueryId, row.forumId) < 0
    ensures r.0 != NotFound ==> r.0 == Ok
    ensures r.0 == NotFound ==> r.1 == t
    ensures |r.1.queries| == |t.queries|
    ensures forall i :: 0 <= i < |t.queries| ==> r.1.queries[i] == t.queries[i].(vote := r.1.queries[i].vote)
  {
    var k := IndexOf(t.queries, ForumQueryId, row.forumId);
    if k < 0 then (NotFound, t)
    else
      var j := IndexOf(t.votes, VoteKey, VoteKey(row));
      var queries := Bump(t.queries, k, if j >= 0 then -1 else 1);
      assert forall i :: 0 <= i < |t.queries| ==> queries[i] == t.queries[i].(vote := queries[i].vote);
      (Ok, VoteTables(queries, if j >= 0 then RemoveAt(t.votes, j) else t.votes + [row]))
  }

  /** The toggle changes the vote table by exactly one row and keeps every other: casting adds
      `row`, withdrawing removes one row that has the same (query, user) pair. */
  lemma ToggleVoteRows(t: VoteTables, row: Vote)
    requires IndexOf(t.queries, ForumQueryId, row.forumId) >= 0
    ensures !Voted(t.votes, row.forumId, row.userId) ==>
              multiset(Toggle(t, row).1.votes) == multiset(t.votes) + multiset{row}
    ensures Voted(t.votes, row.forumId, row.userId) ==>
              exists j :: 0 <= j < |t.votes| && VoteKey(t.votes[j]) == VoteKey(row)
                          && multiset(Toggle(t, row).1.votes) == multiset(t.votes) - multiset{t.votes[j]}
  {
    var j := IndexOf(t.votes, VoteKey, VoteKey(row));
    if j >= 0 {
      assert t.votes == t.votes[..j] + [t.votes[j]] + t.votes[j + 1..];
      assert Toggle(t, row).1.votes == t.votes[..j] + t.votes[j + 1..];
    }
  }

  /** The toggle moves the user's vote and the counter together: on the query voted on, both the
      number of vote rows and the counter change by the same one step (down when a vote existed,
      up otherwise); on every other query neither changes. */
  lemma ToggleMovesCounts(t: VoteTables, row: Vote, forumId: int)
    requires IndexOf(t.queries, ForumQueryId, row.forumId) >= 0
    ensures var r := Toggle(t, row).1;
            var step := if Voted(t.votes, row.forumId, row.userId) then -1 else 1;
            |VotesOn(r.votes, forumId)| == |VotesOn(t.votes, forumId)| + (if forumId == row.forumId then step else 0)
    ensures var r := Toggle(t, row).1;
            var k := IndexOf(t.queries, ForumQueryId, row.forumId);
            var step := if Voted(t.votes, row.forumId, row.userId) then -1 else 1;
            r.queries == Bump(t.queries, k, step)
  {
    var j := IndexOf(t.votes, VoteKey, VoteKey(row));
    if j >= 0 {
      WhereRemoveAtCount(t.votes, (v: Vote) => v.forumId == forumId, j);
    } else {
      WhereAddCount(t.votes, (v: Vote) => v.forumId == forumId, row);
    }
  }

  /** With one row per query key, a toggle that keeps counters equal to vote counts before keeps
      them equal after. */
  lemma ToggleKeepsCounters(t: VoteTables, row: Vote)
    requires UniqueKeys(t.queries, ForumQueryId) && CountersMatch(t.queries, t.votes)
    ensures CountersMatch(Toggle(t, row).1.queries, Toggle(t, row).1.votes)
  {
    var k := IndexOf(t.queries, ForumQueryId, row.forumId);
    if k >= 0 {
      var r := Toggle(t, row).1;
      forall i | 0 <= i < |r.queries| ensures r.queries[i].vote == |VotesOn(r.votes, r.queries[i].id)| {
        ToggleMovesCounts(t, row, t.queries[i].id);
        assert i != k ==> t.queries[i].id != row.forumId;
      }
    }
  }

  /** With at most one row per (query, user) pair, a toggle keeps it so. */
  lemma ToggleKeepsPairsUnique(t: VoteTables, row: Vote)
    requires UniqueKeys(t.votes, VoteKey)
    ensures UniqueKeys(Toggle(t, row).1.votes, VoteKey)
  {
    if IndexOf(t.queries, ForumQueryId, row.forumId) >= 0 {
      var j := IndexOf(t.votes, VoteKey, VoteKey(row));
      if j >= 0 {
        UniqueAfterRemoveAt(t.votes, VoteKey, j);
      } else {
        UniqueAfterAppend(t.votes, VoteKey, row);
      }
    }
  }

  /** With at most one row per pair, a toggle on an existing query flips whether the user has
      voted on it, which is what the vote-status endpoint reports next. */
  lemma ToggleFlipsStatus(t: VoteTables, row: Vote)
    requires UniqueKeys(t.votes, VoteKey)
    requires IndexOf(t.queries, ForumQueryId, row.forumId) >= 0
    ensures Voted(Toggle(t, row).1.votes, row.forumId, row.userId) <==> !Voted(t.votes, row.forumId, row.userId)
  {
    var j := IndexOf(t.votes, VoteKey, VoteKey(row));
    if j >= 0 {
      var r := RemoveAt(t.votes, j);
      forall a | 0 <= a < |r| ensures VoteKey(r[a]) != VoteKey(row) {
        var a' := if a < j then a else a + 1;
        assert r[a] == t.votes[a'];
      }
    } else {
      IndexOfAppended(t.votes, VoteKey, row);
    }
  }

  /** Keys are all the query lookup sees, so changing a counter does not move a lookup. */
  lemma {:induction false} BumpKeepsIndex(queries: seq<ForumQuery>, k: int, delta: int, id: int)
    requires 0 <= k < |queries|
    ensures IndexOf(Bump(queries, k, delta), ForumQueryId, id) == IndexOf(queries, ForumQueryId, id)
  {
    if k > 0 {
      assert Bump(queries, k, delta)[1..] == Bump(queries[1..], k - 1, delta);
      BumpKeepsIndex(queries[1..], k - 1, delta, id);
    }
  }

  /** Toggling twice from a state where the user has not voted restores both tables exactly:
      the row added by the first toggle is the first match the second one removes. */
  lemma ToggleTwiceRestores(t: VoteTables, row: Vote)
    requires !Voted(t.votes, row.forumId, row.userId)
    ensures Toggle(Toggle(t, row).1, row) == Toggle(t, row).(1 := t)
  {
    var k := IndexOf(t.queries, ForumQueryId, row.forumId);
    if k >= 0 {
      var once := VoteTables(Bump(t.queries, k, 1), t.votes + [row]);
      assert Toggle(t, row).1 == once;
      BumpKeepsIndex(t.queries, k, 1, row.forumId);
      IndexOfAppended(t.votes, VoteKey, row);
      RemoveLast(t.votes, row);
      assert Bump(once.queries, k, -1) == t.queries;
    }
  }

  /** The withdrawal branch of VoteForumQuery: the vote row found is removed and the counter of
      the query at position k drops, in one save. */
  method WithdrawVote(db: Database, k: int, j: int)
    requires db.Valid() && 0 <= k < |db.forumQueries| && 0 <= j < |db.votes|
    modifies db`forumQueries, db`votes
    ensures db.votes == RemoveAt(old(db.votes), j) && db.forumQueries == Bump(old(db.forumQueries), k, -1)
    ensures db.Valid()
  {
    var votes, queries := RemoveAt(db.votes, j), Bump(db.forumQueries, k, -1);
    KeysBelowRemoveAt(db.votes, VoteId, db.nextId, j);
    KeysBelowSameKeys(db.forumQueries, queries, ForumQueryId, db.nextId);
    db.SaveVoteTables(queries, votes);
  }

  /** The casting branch of VoteForumQuery: the ballot is added under the next key and the counter
      of the query at position k rises, in one save. */
  method CastVote(db: Database, k: int, ballot: Vote)
    requires db.Valid() && 0 <= k < |db.forumQueries|
    modifies db`forumQueries, db`votes, db`nextId
    ensures db.nextId == old(db.nextId) + 1
    ensures db.votes == old(db.votes) + [ballot.(id := old(db.nextId))]
    ensures db.forumQueries == Bump(old(db.forumQueries), k, 1)
    ensures db.Valid()
  {
    KeysBelowAppend(db.votes, VoteId, db.nextId, ballot.(id := db.nextId));
    var id := db.NewKey();
    var votes, queries := db.votes + [ballot.(id := id)], Bump(db.forumQueries, k, 1);
    KeysBelowSameKeys(db.forumQueries, queries, ForumQueryId, db.nextId);
    db.SaveVoteTables(queries, votes);
  }

  /** VoteForumQuery. The new vote row receives the store's next key. */
  method VoteForumQuery(db: Database, ballot: Vote) returns (status: Status)
    requires db.Valid()
    modifies db`forumQueries, db`votes, db`nextId
    ensures var r := Toggle(VoteTables(old(db.forumQueries), old(db.votes)), ballot.(id := old(db.nextId)));
            status == r.0 && db.forumQueries == r.1.queries && db.votes == r.1.votes
    ensures db.nextId == old(db.nextId) + (if status == Ok && !Voted(old(db.votes), ballot.forumId, ballot.userId) then 1 else 0)
    ensures db.Valid()
  {
    ghost var before := VoteTables(db.forumQueries, db.votes);
    ghost var row := ballot.(id := db.nextId);
    var k := IndexOf(db.forumQueries, ForumQueryId, ballot.forumId);
    if k < 0 {
      return NotFound;
    }
    var voteExist := Voted(db.votes, ballot.forumId, ballot.userId);
    assert VoteKey(row) == VoteKey(ballot);
    if voteExist {
      var j := IndexOf(db.votes, VoteKey, VoteKey(ballot));
      WithdrawVote(db, k, j);
      assert Toggle(before, row) == (Ok, VoteTables(db.forumQueries, db.votes));
    } else {
      CastVote(db, k, ballot);
      assert Toggle(before, row) == (Ok, VoteTables(db.forumQueries, db.votes));
    }
    status := Ok;
  }

  /** VoteStatusForumQuery: NotFound for an unknown query, otherwise whether the user has a vote
      row on it. Reads only. */
  method VoteStatusForumQuery(db: Database, ballot: Vote) returns (status: Status, voteExist: bool)
    ensures status == NotFound <==> forall i :: 0 <= i < |db.forumQueries| ==> db.forumQueries[i].id != ballot.forumId
    ensures status != NotFound ==> status == Ok
    ensures status == Ok ==>
            (voteExist <==> exists i :: 0 <= i < |db.votes| && db.votes[i].forumId == ballot.forumId
                                                              && db.votes[i].userId == ballot.userId)
  {
    var k := IndexOf(db.forumQueries, ForumQueryId, ballot.forumId);
    if k < 0 {
      return NotFound, false;
    }
    status := Ok;
    voteExist := Voted(db.votes, ballot.forumId, ballot.userId);
    assert voteExist ==> VoteKey(db.votes[IndexOf(db.votes, VoteKey, (ballot.forumId, ballot.userId))]) == (ballot.forumId, ballot.userId);
  }

  // ---------------------------------------------------------------- delete

  datatype ForumTables = ForumTables(queries: seq<ForumQuery>, answers: seq<ForumAnswer>,
                                     subAnswers: seq<ForumSubAnswer>, votes: seq<Vote>)

  /** The answer with key answerId answers the query with key queryId. */
  predicate AnswerOfQuery(answers: seq<ForumAnswer>, queryId: int, answerId: int) {
    exists i | 0 <= i < |answers| :: answers[i].id == answerId && answers[i].queryId == queryId
  }

  /** DeleteForumQuery on the four tables: NotFound for an unknown query; otherwise the query goes,
      and with it its answers, the sub-answers of those answers and the votes cast on it. */
  function DeleteQuery(t: ForumTables, id: int): (r: (Status, ForumTables))
    ensures r.0 == NotFound <==> IndexOf(t.queries, ForumQueryId, id) < 0
    ensures r.0 != NotFound ==> r.0 == Ok
    ensures r.0 == NotFound ==> r.1 == t
  {
    var k := IndexOf(t.queries, ForumQueryId, id);
    if k < 0 then (NotFound, t)
    else
      (Ok, ForumTables(RemoveAt(t.queries, k),
                       Where(t.answers, (a: ForumAnswer) => a.queryId != id),
                       Where(t.subAnswers, (s: ForumSubAnswer) => !AnswerOfQuery(t.answers, id, s.queryAnswerId)),
                       Where(t.votes, (v: Vote) => v.forumId != id)))
  }

  /** Exactly the dependent answers go: an answer survives iff it belongs to another query. */
  lemma DeleteQueryAnswers(t: ForumTables, id: int)
    requires IndexOf(t.queries, ForumQueryId, id) >= 0
    ensures forall a :: a in DeleteQuery(t, id).1.answers <==> a in t.answers && a.queryId != id
  {
    forall a ensures a in DeleteQuery(t, id).1.answers <==> a in t.answers && a.queryId != id {
      WhereMembers(t.answers, (a: ForumAnswer) => a.queryId != id, a);
    }
  }

  /** A sub-answer survives iff its answer does not belong to the deleted query. */
  lemma DeleteQuerySubAnswers(t: ForumTables, id: int)
    requires IndexOf(t.queries, ForumQueryId, id) >= 0
    ensures forall s :: s in DeleteQuery(t, id).1.subAnswers <==>
                        s in t.subAnswers && !AnswerOfQuery(t.answers, id, s.queryAnswerId)
  {
    forall s ensures s in DeleteQuery(t, id).1.subAnswers <==>
                     s in t.subAnswers && !AnswerOfQuery(t.answers, id, s.queryAnswerId) {
      WhereMembers(t.subAnswers, (s: ForumSubAnswer) => !AnswerOfQuery(t.answers, id, s.queryAnswerId), s);
    }
  }

  /** A vote survives iff it is on another query. */
  lemma DeleteQueryVotes(t: ForumTables, id: int)
    requires IndexOf(t.queries, ForumQueryId, id) >= 0
    ensures forall v :: v in DeleteQuery(t, id).1.votes <==> v in t.votes && v.forumId != id
  {
    forall v ensures v in DeleteQuery(t, id).1.votes <==> v in t.votes && v.forumId != id {
      WhereMembers(t.votes, (v: Vote) => v.forumId != id, v);
    }
  }

  /** Of the queries exactly one row goes, every query under another key stays, and with one row
      per key none under the deleted key is left. */
  lemma DeleteQueryQueries(t: ForumTables, id: int)
    requires IndexOf(t.queries, ForumQueryId, id) >= 0
    ensures |DeleteQuery(t, id).1.queries| == |t.queries| - 1
    ensures forall q :: q in t.queries && q.id != id ==> q in DeleteQuery(t, id).1.queries
    ensures UniqueKeys(t.queries, ForumQueryId) ==> forall q :: q in DeleteQuery(t, id).1.queries ==> q.id != id
  {
    RemoveFoundKeepsOthers(t.queries, ForumQueryId, id);
  }

  /** Every answer, sub-answer and vote points at a row that exists. */
  ghost predicate ForumReferencesHold(t: ForumTables) {
    && (forall a :: a in t.answers ==> exists q :: q in t.queries && q.id == a.queryId)
    && (forall s :: s in t.subAnswers ==> exists a :: a in t.answers && a.id == s.queryAnswerId)
    && (forall v :: v in t.votes ==> exists q :: q in t.queries && q.id == v.forumId)
  }

  /** Answers left behind still answer an existing query. */
  lemma DeleteQueryKeepsAnswerReferences(t: ForumTables, id: int)
    requires IndexOf(t.queries, ForumQueryId, id) >= 0
    requires forall a :: a in t.answers ==> exists q :: q in t.queries && q.id == a.queryId
    ensures var r := DeleteQuery(t, id).1;
            forall a :: a in r.answers ==> exists q :: q in r.queries && q.id == a.queryId
  {
    var r := DeleteQuery(t, id).1;
    DeleteQueryAnswers(t, id);
    DeleteQueryQueries(t, id);
    forall a | a in r.answers ensures exists q :: q in r.queries && q.id == a.queryId {
      var q :| q in t.queries && q.id == a.queryId;
      assert q in r.queries;
    }
  }

  /** Sub-answers left behind still hang under an existing answer. */
  lemma DeleteQueryKeepsSubAnswerReferences(t: ForumTables, id: int)
    requires IndexOf(t.queries, ForumQueryId, id) >= 0
    requires forall s :: s in t.subAnswers ==> exists a :: a in t.answers && a.id == s.queryAnswerId
    ensures var r := DeleteQuery(t, id).1;
            forall s :: s in r.subAnswers ==> exists a :: a in r.answers && a.id == s.queryAnswerId
  {
    var r := DeleteQuery(t, id).1;
    DeleteQueryAnswers(t, id);
    DeleteQuerySubAnswers(t, id);
    forall s | s in r.subAnswers ensures exists a :: a in r.answers && a.id == s.queryAnswerId {
      var a :| a in t.answers && a.id == s.queryAnswerId;
      var i :| 0 <= i < |t.answers| && t.answers[i] == a;
      assert AnswerOfQuery(t.answers, a.queryId, s.queryAnswerId);
      assert a in r.answers;
    }
  }

  /** Votes left behind are still on an existing query. */
  lemma DeleteQueryKeepsVoteReferences(t: ForumTables, id: int)
    requires IndexOf(t.queries, ForumQueryId, id) >= 0
    requires forall v :: v in t.votes ==> exists q :: q in t.queries && q.id == v.forumId
    ensures var r := DeleteQuery(t, id).1;
            forall v :: v in r.votes ==> exists q :: q in r.queries && q.id == v.forumId
  {
    var r := DeleteQuery(t, id).1;
    DeleteQueryVotes(t, id);
    DeleteQueryQueries(t, id);
    forall v | v in r.votes ensures exists q :: q in r.queries && q.id == v.forumId {
      var q :| q in t.queries && q.id == v.forumId;
      assert q in r.queries;
    }
  }

  /** The cascade leaves no dangling reference behind: what held before the delete holds after. */
  lemma DeleteQueryKeepsReferences(t: ForumTables, id: int)
    requires ForumReferencesHold(t)
    ensures ForumReferencesHold(DeleteQuery(t, id).1)
  {
    if IndexOf(t.queries, ForumQueryId, id) >= 0 {
      DeleteQueryKeepsAnswerReferences(t, id);
      DeleteQueryKeepsSubAnswerReferences(t, id);
      DeleteQueryKeepsVoteReferences(t, id);
    }
  }

  method DeleteForumQuery(db: Database, id: int) returns (status: Status)
    requires db.Valid()
    modifies db`forumQueries, db`forumAnswers, db`forumSubAnswers, db`votes
    ensures (status, ForumTables(db.forumQueries, db.forumAnswers, db.forumSubAnswers, db.votes))
            == DeleteQuery(ForumTables(old(db.forumQueries), old(db.forumAnswers), old(db.forumSubAnswers), old(db.votes)), id)
    ensures db.Valid()
  {
    var k := IndexOf(db.forumQueries, ForumQueryId, id);
    if k < 0 {
      return NotFound;
    }
    var answers := db.forumAnswers;
    var subAnswersKept := (s: ForumSubAnswer) => !AnswerOfQuery(answers, id, s.queryAnswerId);
    KeysBelowWhere(db.forumSubAnswers, ForumSubAnswerId, db.nextId, subAnswersKept);
    db.SaveForumSubAnswers(Where(db.forumSubAnswers, subAnswersKept));
    var answersKept := (a: ForumAnswer) => a.queryId != id;
    KeysBelowWhere(db.forumAnswers, ForumAnswerId, db.nextId, answersKept);
    db.SaveForumAnswers(Where(db.forumAnswers, answersKept));
    var votesKept := (v: Vote) => v.forumId != id;
    KeysBelowWhere(db.votes, VoteId, db.nextId, votesKept);
    db.SaveVotes(Where(db.votes, votesKept));
    KeysBelowRemoveAt(db.forumQueries, ForumQueryId, db.nextId, k);
    db.SaveForumQueries(RemoveAt(db.forumQueries, k));
    status := Ok;
  }
}
