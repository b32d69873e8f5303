/** The comment service (internal/services/comment.go) over a comments table keyed by id.
    Database failures are `fault` parameters and the id the repository draws at random
    (`uuid.New`) is a parameter. */
module CommentService {
  import opened Base
  import opened Uuid
  import opened Models
  import opened Table

  const CommentNotFound := Error("comment not found")
  const Unauthorized := Error("unauthorized")
  const SyntaxError := Error("near \"RETURNONG\": syntax error")

  /** A stored comment as the repository's `SELECT *` and `RETURNING *` scans return it: the
      table declares (id, content, post_id, user_id) but the scan fills
      (ID, Content, UserID, PostID), so the user and post ids trade places. */
  function ScanAsWritten(stored: Comment): (c: Comment)
    ensures c.userId == stored.postId && c.postId == stored.userId
  {
    Comment(stored.id, stored.content, stored.postId, stored.userId)
  }

  /** The ownership test of `UpdateComment` and `DeleteComment` applied to the scanned row:
      it compares the caller with the post the comment belongs to. */
  predicate OwnerCheckAsWritten(stored: Comment, userId: UUID): (b: bool)
    ensures b <==> stored.postId == userId
  {
    ScanAsWritten(stored).userId == userId
  }

  /** As written, the author of a comment on someone else's post... */
  lemma AuthorRefusedAsWritten(stored: Comment)
    requires stored.userId != stored.postId
    ensures !OwnerCheckAsWritten(stored, stored.userId)
    ensures OwnerCheckAsWritten(stored, stored.postId)
  {
  }

  /** ...for example, a comment by user 1 on post 2 can only be changed by "user" 2. */
  lemma AuthorRefusedExample()
    ensures var author: UUID := [0, 0, 0, 0, 0, 0, 0, 0, 0, 0, 0, 0, 0, 0, 0, 1];
      var post: UUID := [0, 0, 0, 0, 0, 0, 0, 0, 0, 0, 0, 0, 0, 0, 0, 2];
      var stored := Comment(Zero, "hello", author, post);
      !OwnerCheckAsWritten(stored, author) && OwnerCheckAsWritten(stored, post)
  {
  }

  /** The repository's `GetByID` as written: the stored row, read back through the swapped
      scan, or "comment not found" when no row has that id. */
  function GetByIdAsWritten(comments: map<UUID, Comment>, id: UUID, fault: Option<Error>): (r: Result<Comment>)
    ensures r.Ok? <==> fault.None? && id in comments
    ensures r.Ok? ==> r.value.id == comments[id].id && r.value.userId == comments[id].postId && r.value.postId == comments[id].userId
  {
    if fault.Some? then Err(fault.value)
    else if id !in comments then Err(CommentNotFound)
    else Ok(ScanAsWritten(comments[id]))
  }

  /** The repository's `Update` as written: its statement ends in "RETURNONG *", which the
      database refuses to prepare, so nothing is executed and the parse error comes back.
      The result pairs the answer with the table afterwards. */
  function RepositoryUpdateAsWritten(comments: map<UUID, Comment>, id: UUID, update: Comment)
    : (r: (Result<Comment>, map<UUID, Comment>))
    ensures r.0.Err? && r.1 == comments
  {
    (Err(SyntaxError), comments)
  }

  /** `UpdateComment` as written: the swapped lookup, the owner test on the scanned row, then
      the repository's update. The result pairs the answer with the table afterwards. */
  function UpdateCommentAsWritten(comments: map<UUID, Comment>, userId: UUID, commentId: UUID,
                                  comment: Comment, getFault: Option<Error>)
    : (r: (Result<Comment>, map<UUID, Comment>))
    ensures r.1 == comments
    ensures getFault.Some? || commentId !in comments ==> r.0 == Err(CommentNotFound)
    ensures getFault.None? && commentId in comments && comments[commentId].postId != userId
            ==> r.0 == Err(Unauthorized)
    ensures getFault.None? && commentId in comments && comments[commentId].postId == userId
            ==> r.0 == Err(SyntaxError)
  {
    match GetByIdAsWritten(comments, commentId, getFault)
    case Err(_) => (Err(CommentNotFound), comments)
    case Ok(check) =>
      if check.userId != userId then (Err(Unauthorized), comments)
      else RepositoryUpdateAsWritten(comments, commentId, comment)
  }

  /** As written, no call of `UpdateComment` succeeds or changes the table; in particular the
      author of a comment on another user's post is told "unauthorized", where the corrected
      `CommentService.UpdateComment` lets the author through. */
  lemma NoUpdateSucceedsAsWritten(comments: map<UUID, Comment>, userId: UUID, commentId: UUID,
                                  comment: Comment, getFault: Option<Error>)
    ensures UpdateCommentAsWritten(comments, userId, commentId, comment, getFault).0.Err?
    ensures UpdateCommentAsWritten(comments, userId, commentId, comment, getFault).1 == comments
    ensures getFault.None? && commentId in comments && comments[commentId].userId == userId
            && comments[commentId].userId != comments[commentId].postId
            ==> UpdateCommentAsWritten(comments, userId, commentId, comment, getFault).0 == Err(Unauthorized)
  {
  }

  class CommentService {
    var comments: map<UUID, Comment>

    ghost predicate Valid()
      reads this
    {
      forall k :: k in comments ==> comments[k].id == k
    }

    constructor ()
      ensures Valid() && comments == map[]
    {
      comments := map[];
    }

    /** Stores the comment under the caller's id, whatever id the input carried. */
    method CreateComment(userId: UUID, comment: Comment, newId: UUID, fault: Option<Error>) returns (r: Result<Comment>)
      requires Valid()
      modifies this
      ensures Valid()
      ensures r.Ok? <==> fault.None? && newId !in old(comments)
      ensures r.Ok? ==> r.value == Comment(newId, comment.content, userId, comment.postId)
                        && comments == old(comments)[newId := r.value]
      ensures r.Err? ==> comments == old(comments)
    {
      var owned := comment.(userId := userId);
      if fault.Some? {
        return Err(fault.value);
      }
      if newId in comments {
        return Err(Error("UNIQUE constraint failed: comments.id"));
      }
      var row := owned.(id := newId);
      comments := comments[newId := row];
      r := Ok(row);
    }

    method GetCommentById(id: UUID, fault: Option<Error>) returns (r: Result<Comment>)
      ensures fault.Some? ==> r == Err(fault.value)
      ensures fault.None? && id !in comments ==> r == Err(CommentNotFound)
      ensures fault.None? && id in comments ==> r == Ok(comments[id])
    {
      if fault.Some? {
        return Err(fault.value);
      }
      if id !in comments {
        return Err(CommentNotFound);
      }
      r := Ok(comments[id]);
    }

    /** Every stored comment exactly once, in no fixed order. */
    method GetAllComments(fault: Option<Error>) returns (r: Result<seq<Comment>>)
      requires Valid()
      ensures fault.Some? ==> r == Err(fault.value)
      ensures fault.None? ==> r.Ok? && |r.value| == |comments|
      ensures r.Ok? ==> forall c :: c in r.value <==> c in comments.Values
      ensures r.Ok? ==> forall i, j :: 0 <= i < j < |r.value| ==> r.value[i] != r.value[j]
    {
      if fault.Some? {
        return Err(fault.value);
      }
      var rows, order := Rows(comments);
      forall c ensures c in rows <==> c in comments.Values {
        if c in comments.Values {
          var k :| k in comments && comments[k] == c;
          var i :| 0 <= i < |order| && order[i] == k;
          assert rows[i] == c;
        }
      }
      DistinctRows(comments, rows, order, (c: Comment) => c.id);
      r := Ok(rows);
    }

    /** Only the owner may change a comment, and only its content changes. */
    method UpdateComment(userId: UUID, commentId: UUID, comment: Comment, getFault: Option<Error>,
                         updateFault: Option<Error>) returns (r: Result<Comment>)
      requires Valid()
      modifies this
      ensures Valid()
      ensures r.Err? ==> comments == old(comments)
      ensures getFault.Some? || commentId !in old(comments) ==> r == Err(CommentNotFound)
      ensures getFault.None? && commentId in old(comments) && old(comments)[commentId].userId != userId
              ==> r == Err(Unauthorized)
      ensures r.Ok? <==> getFault.None? && updateFault.None? && commentId in old(comments)
                         && old(comments)[commentId].userId == userId
      ensures r.Ok? ==> r.value == old(comments)[commentId].(content := comment.content)
                        && comments == old(comments)[commentId := r.value]
    {
      var check := GetCommentById(commentId, getFault);
      if check.Err? {
        return Err(CommentNotFound);
      }
      if check.value.userId != userId {
        return Err(Unauthorized);
      }
      if updateFault.Some? {
        return Err(updateFault.value);
      }
      var row := comments[commentId].(content := comment.content);
      comments := comments[commentId := row];
      r := Ok(row);
    }

    /** Only the owner may delete a comment; deleting removes exactly that comment. */
    method DeleteComment(userId: UUID, commentId: UUID, getFault: Option<Error>,
                         deleteFault: Option<Error>) returns (err: Option<Error>)
      requires Valid()
      modifies this
      ensures Valid()
      ensures err.Some? ==> comments == old(comments)
      ensures getFault.Some? ==> err == getFault
      ensures getFault.None? && commentId !in old(comments) ==> err == Some(CommentNotFound)
      ensures getFault.None? && commentId in old(comments) && old(comments)[commentId].userId != userId
              ==> err == Some(Unauthorized)
      ensures err.None? <==> getFault.None? && deleteFault.None? && commentId in old(comments)
                             && old(comments)[commentId].userId == userId
      ensures err.None? ==> comments == old(comments) - {commentId}
    {
      var check := GetCommentById(commentId, getFault);
      if check.Err? {
        return Some(check.error);
      }
      if check.value.userId != userId {
        return Some(Unauthorized);
      }
      if deleteFault.Some? {
        return deleteFault;
      }
      comments := comments - {commentId};
      err := None;
    }
  }
}
