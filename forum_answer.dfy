/** The forum answer controller (Controllers/ForumAnswerController.cs): the listing filtered by
    query, update, creation, and the delete that takes the answer's sub-answers with it. */
module ForumAnswerController {
  import opened Entities
  import opened Tables
  import opened Pagination
  import opened Listing
  import opened Cascade
  import opened Data
  import ForumQueryController

  function Posted(a: ForumAnswer): int { a.datePosted }

  /** The filter of the queryId branch. */
  function OnQuery(queryId: int): ForumAnswer -> bool {
    (a: ForumAnswer) => a.queryId == queryId
  }

  function Everything(a: ForumAnswer): bool { true }

  /** GetForumAnswer (the list): with a queryId other than 0, one page of that query's answers;
      with 0, one page of all answers; newest first either way, and the header counts every answer
      listed. */
  function GetForumAnswer(answers: seq<ForumAnswer>, queryId: int, pageNumber: int, pageSize: int): (r: Listed<ForumAnswer>)
    requires pageNumber >= 1 && pageSize >= 1
    ensures queryId != 0 ==> r.pagination.totalCount == |Where(answers, OnQuery(queryId))|
    ensures queryId != 0 ==> forall i :: 0 <= i < |r.rows| ==> r.rows[i].queryId == queryId
    ensures queryId == 0 ==> r.pagination.totalCount == |answers|
    ensures forall i :: 0 <= i < |r.rows| ==> r.rows[i] in answers
    ensures |r.rows| <= pageSize && r.pagination.currentPage == pageNumber
    ensures SortedDesc(r.rows, Posted)
    ensures queryId != 0 ==> r.rows == Page(SortDesc(Where(answers, OnQuery(queryId)), Posted), pageNumber, pageSize)
    ensures queryId == 0 ==> r.rows == Page(SortDesc(answers, Posted), pageNumber, pageSize)
    ensures r.pagination == Create(r.pagination.totalCount, pageNumber, pageSize)
  {
    if queryId != 0 then
      Select(answers, OnQuery(queryId), Posted, pageNumber, pageSize)
    else
      WhereEverything(answers, Everything);
      Select(answers, Everything, Posted, pageNumber, pageSize)
  }

  /** The header of a query's listing counts exactly the answers to that query. */
  lemma CountedIffOnQuery(answers: seq<ForumAnswer>, queryId: int, a: ForumAnswer)
    ensures a in Where(answers, OnQuery(queryId)) <==> a in answers && a.queryId == queryId
  {
    WhereMembers(answers, OnQuery(queryId), a);
  }

  method PutForumAnswer(db: Database, id: int, a: ForumAnswer) returns (status: Status)
    requires db.Valid()
    modifies db`forumAnswers
    ensures (status, db.forumAnswers) == Update(old(db.forumAnswers), ForumAnswerId, id, a)
    ensures db.Valid()
  {
    if id != a.id {
      return BadRequest;
    }
    var k := IndexOf(db.forumAnswers, ForumAnswerId, id);
    if k < 0 {
      return NotFound;
    }
    KeysBelowSameKeys(db.forumAnswers, db.forumAnswers[k := a], ForumAnswerId, db.nextId);
    db.SaveForumAnswers(db.forumAnswers[k := a]);
    status := Ok;
  }

  method PostForumAnswer(db: Database, a: ForumAnswer) returns (status: Status)
    requires db.Valid()
    modifies db`forumAnswers, db`nextId
    ensures db.nextId == old(db.nextId) + 1
    ensures db.forumAnswers == old(db.forumAnswers) + [a.(id := old(db.nextId))]
    ensures status == Created
    ensures db.Valid()
  {
    KeysBelowAppend(db.forumAnswers, ForumAnswerId, db.nextId, a.(id := db.nextId));
    var id := db.NewKey();
    db.SaveForumAnswers(db.forumAnswers + [a.(id := id)]);
    status := Created;
  }

  /** DeleteForumAnswer: NotFound when no answer has the id; otherwise the sub-answers of the
      answer are removed and saved, then the answer is removed and saved. */
  method DeleteForumAnswer(db: Database, id: int) returns (status: Status)
    requires db.Valid()
    modifies db`forumAnswers, db`forumSubAnswers
    ensures (status, db.forumAnswers, db.forumSubAnswers)
            == DeleteWithChildren(old(db.forumAnswers), old(db.forumSubAnswers), ForumAnswerId, ForumSubAnswerParent, id)
    ensures db.Valid()
  {
    var k := IndexOf(db.forumAnswers, ForumAnswerId, id);
    if k < 0 {
      return NotFound;
    }
    var kept := DropChildrenEach(db.forumSubAnswers, ForumSubAnswerParent, id);
    KeysBelowMembers(db.forumSubAnswers, kept, ForumSubAnswerId, db.nextId);
    db.SaveForumSubAnswers(kept);
    KeysBelowRemoveAt(db.forumAnswers, ForumAnswerId, db.nextId, k);
    db.SaveForumAnswers(RemoveAt(db.forumAnswers, k));
    status := Ok;
  }

  /** Deleting an answer leaves no sub-answer under a removed answer. */
  lemma DeleteAnswerKeepsSubAnswerReferences(answers: seq<ForumAnswer>, subAnswers: seq<ForumSubAnswer>, id: int)
    requires forall s :: s in subAnswers ==> exists a :: a in answers && a.id == s.queryAnswerId
    requires UniqueKeys(answers, ForumAnswerId)
    ensures var r := DeleteWithChildren(answers, subAnswers, ForumAnswerId, ForumSubAnswerParent, id);
            forall s :: s in r.2 ==> exists a :: a in r.1 && a.id == s.queryAnswerId
  {
    var k := IndexOf(answers, ForumAnswerId, id);
    if k >= 0 {
      var rest := RemoveAt(answers, k);
      var kept := DropChildren(subAnswers, ForumSubAnswerParent, id);
      assert DeleteWithChildren(answers, subAnswers, ForumAnswerId, ForumSubAnswerParent, id) == (Ok, rest, kept);
      RemoveFoundKeepsOthers(answers, ForumAnswerId, id);
      forall s | s in kept ensures exists a :: a in rest && a.id == s.queryAnswerId {
        assert s in subAnswers && ForumSubAnswerParent(s) != id;
        var a :| a in answers && a.id == s.queryAnswerId;
        assert ForumAnswerId(a) != id;
        assert a in rest;
      }
    }
  }

  /** Deleting an answer keeps the whole forum consistent: the answers left still belong to
      existing queries, no sub-answer is left under a removed answer, and votes are untouched. */
  lemma DeleteAnswerKeepsForumReferences(t: ForumQueryController.ForumTables, id: int)
    requires ForumQueryController.ForumReferencesHold(t) && UniqueKeys(t.answers, ForumAnswerId)
    ensures var r := DeleteWithChildren(t.answers, t.subAnswers, ForumAnswerId, ForumSubAnswerParent, id);
            ForumQueryController.ForumReferencesHold(t.(answers := r.1, subAnswers := r.2))
  {
    var r := DeleteWithChildren(t.answers, t.subAnswers, ForumAnswerId, ForumSubAnswerParent, id);
    DeleteAnswerKeepsSubAnswerReferences(t.answers, t.subAnswers, id);
    if r.0 == Ok {
      RemoveAtSubset(t.answers, IndexOf(t.answers, ForumAnswerId, id));
    }
  }
}
