/** Request and response shapes for comments (internal/dto/comment.go). */
module CommentDto {
  import opened Uuid
  import opened Models

  datatype CommentRequest = CommentRequest(content: string, postId: UUID)

  datatype CommentResponse = CommentResponse(id: UUID, content: string, userId: UUID, postId: UUID)

  /** `required` on both fields: a non-empty content and a post id other than the zero UUID. */
  predicate Valid(r: CommentRequest): (v: bool)
    ensures v ==> |r.content| >= 1 && r.postId != Zero
  {
    r.content != "" && r.postId != Zero
  }

  /** Only the content is carried over; the request's post id is dropped. */
  function ToModel(r: CommentRequest): (c: Comment)
    ensures c.content == r.content
    ensures c.id == Zero && c.userId == Zero && c.postId == Zero
  {
    Comment(Zero, r.content, Zero, Zero)
  }

  /** Even a valid request yields a model that names no post. */
  lemma ModelLosesPost(r: CommentRequest)
    requires Valid(r)
    ensures ToModel(r).postId != r.postId
  {
  }

  function CommentResponseFromModel(c: Comment): (resp: CommentResponse)
    ensures resp.id == c.id && resp.content == c.content && resp.userId == c.userId && resp.postId == c.postId
  {
    CommentResponse(c.id, c.content, c.userId, c.postId)
  }

  /** The response is a faithful copy: no two comments share one. */
  lemma ResponseInjective(c: Comment, d: Comment)
    requires CommentResponseFromModel(c) == CommentResponseFromModel(d)
    ensures c == d
  {
  }

  method CommentListResponse(comments: seq<Comment>) returns (responses: seq<CommentResponse>)
    ensures |responses| == |comments|
    ensures forall i :: 0 <= i < |comments| ==> responses[i] == CommentResponseFromModel(comments[i])
  {
    var a := new CommentResponse[|comments|];
    var i := 0;
    while i < |comments|
      invariant 0 <= i <= |comments|
      invariant forall k :: 0 <= k < i ==> a[k] == CommentResponseFromModel(comments[k])
    {
      a[i] := CommentResponseFromModel(comments[i]);
      i := i + 1;
    }
    responses := a[..];
  }
}
