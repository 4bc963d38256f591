/** The comment controller (Controllers/CommentsController.cs): the listing filtered by post,
    update, creation, and the delete that takes the comment's sub-comments with it. */
module CommentsController {
  import opened Entities
  import opened Tables
  import opened Pagination
  import opened Listing
  import opened Cascade
  import opened Data

  function Posted(c: Comment): int { c.datePosted }

  /** The filter of the postId branch. */
  function OnPost(postId: int): Comment -> bool {
    (c: Comment) => c.postId == postId
  }

  function Everything(c: Comment): bool { true }

  /** GetComments: with a postId other than 0, one page of that post's comments; with 0, one page
      of all comments; newest first either way, and the header counts every comment listed. */
  function GetComments(comments: seq<Comment>, postId: int, pageNumber: int, pageSize: int): (r: Listed<Comment>)
    requires pageNumber >= 1 && pageSize >= 1
    ensures postId != 0 ==> r.pagination.totalCount == |Where(comments, OnPost(postId))|
    ensures postId != 0 ==> forall i :: 0 <= i < |r.rows| ==> r.rows[i].postId == postId
    ensures postId == 0 ==> r.pagination.totalCount == |comments|
    ensures forall i :: 0 <= i < |r.rows| ==> r.rows[i] in comments
    ensures |r.rows| <= pageSize && r.pagination.currentPage == pageNumber
    ensures SortedDesc(r.rows, Posted)
    ensures postId != 0 ==> r.rows == Page(SortDesc(Where(comments, OnPost(postId)), Posted), pageNumber, pageSize)
    ensures postId == 0 ==> r.rows == Page(SortDesc(comments, Posted), pageNumber, pageSize)
    ensures r.pagination == Create(r.pagination.totalCount, pageNumber, pageSize)
  {
    if postId != 0 then
      Select(comments, OnPost(postId), Posted, pageNumber, pageSize)
    else
      WhereEverything(comments, Everything);
      Select(comments, Everything, Posted, pageNumber, pageSize)
  }

  /** The header of a post's listing counts exactly the comments on that post. */
  lemma CountedIffOnPost(comments: seq<Comment>, postId: int, c: Comment)
    ensures c in Where(comments, OnPost(postId)) <==> c in comments && c.postId == postId
  {
    WhereMembers(comments, OnPost(postId), c);
  }

  method PutComment(db: Database, id: int, c: Comment) returns (status: Status)
    requires db.Valid()
    modifies db`comments
    ensures (status, db.comments) == Update(old(db.comments), CommentId, id, c)
    ensures db.Valid()
  {
    if id != c.id {
      return BadRequest;
    }
    var k := IndexOf(db.comments, CommentId, id);
    if k < 0 {
      return NotFound;
    }
    KeysBelowSameKeys(db.comments, db.comments[k := c], CommentId, db.nextId);
    db.SaveComments(db.comments[k := c]);
    status := Ok;
  }

  method PostComment(db: Database, c: Comment) returns (status: Status)
    requires db.Valid()
    modifies db`comments, db`nextId
    ensures db.nextId == old(db.nextId) + 1
    ensures db.comments == old(db.comments) + [c.(id := old(db.nextId))]
    ensures status == Created
    ensures db.Valid()
  {
    KeysBelowAppend(db.comments, CommentId, db.nextId, c.(id := db.nextId));
    var id := db.NewKey();
    db.SaveComments(db.comments + [c.(id := id)]);
    status := Created;
  }

  /** DeleteComment: NotFound when no comment has the id; otherwise the sub-comments of the
      comment are removed and saved, then the comment is removed and saved. */
  method DeleteComment(db: Database, id: int) returns (status: Status)
    requires db.Valid()
    modifies db`comments, db`subComments
    ensures (status, db.comments, db.subComments)
            == DeleteWithChildren(old(db.comments), old(db.subComments), CommentId, SubCommentParent, id)
    ensures db.Valid()
  {
    var k := IndexOf(db.comments, CommentId, id);
    if k < 0 {
      return NotFound;
    }
    var kept := DropChildrenEach(db.subComments, SubCommentParent, id);
    KeysBelowMembers(db.subComments, kept, SubCommentId, db.nextId);
    db.SaveSubComments(kept);
    KeysBelowRemoveAt(db.comments, CommentId, db.nextId, k);
    db.SaveComments(RemoveAt(db.comments, k));
    status := Ok;
  }
}
