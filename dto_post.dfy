/** Request and response shapes for posts (internal/dto/post.go). */
module PostDto {
  import opened Uuid
  import opened Models

  datatype PostReq = PostReq(title: string, content: string)

  datatype PostResp = PostResp(id: UUID, title: string, content: string, userId: UUID)

  datatype PostDetailResp = PostDetailResp(id: UUID, title: string, content: string, userId: UUID,
                                           comments: seq<Comment>)

  /** `required,min=5,max=...` on both fields, lengths counted in characters. */
  predicate Valid(r: PostReq): (v: bool)
    ensures v ==> r.title != "" && r.content != ""
  {
    5 <= |r.title| <= 50 && 5 <= |r.content| <= 1000
  }

  function ToModel(r: PostReq): (p: Post)
    ensures p.title == r.title && p.content == r.content
    ensures p.id == Zero && p.userId == Zero && p.comments == []
  {
    Post(Zero, r.title, r.content, Zero, [])
  }

  /** A request's title and content reach the short response unchanged; id and owner are
      still zero until the service assigns them. */
  lemma RequestToResponse(r: PostReq)
    ensures FromPost(ToModel(r)) == PostResp(Zero, r.title, r.content, Zero)
    ensures FromPostDetail(ToModel(r)).comments == []
  {
  }

  function FromPost(p: Post): (resp: PostResp)
    ensures resp.id == p.id && resp.title == p.title && resp.content == p.content && resp.userId == p.userId
  {
    PostResp(p.id, p.title, p.content, p.userId)
  }

  function FromPostDetail(p: Post): (resp: PostDetailResp)
    ensures resp.id == p.id && resp.title == p.title && resp.content == p.content && resp.userId == p.userId
    ensures resp.comments == p.comments
  {
    PostDetailResp(p.id, p.title, p.content, p.userId, p.comments)
  }

  /** The short response ignores comments; the detailed one loses nothing. */
  lemma ResponsesAgree(p: Post, q: Post)
    ensures FromPost(p) == FromPost(p.(comments := q.comments))
    ensures FromPostDetail(p) == FromPostDetail(q) ==> p == q
  {
  }

  method FromPostList(posts: seq<Post>) returns (resp: seq<PostDetailResp>)
    ensures |resp| == |posts|
    ensures forall i :: 0 <= i < |posts| ==> resp[i] == FromPostDetail(posts[i])
  {
    var a := new PostDetailResp[|posts|];
    var i := 0;
    while i < |posts|
      invariant 0 <= i <= |posts|
      invariant forall k :: 0 <= k < i ==> a[k] == FromPostDetail(posts[k])
    {
      a[i] := FromPostDetail(posts[i]);
      i := i + 1;
    }
    resp := a[..];
  }
}
