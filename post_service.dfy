/** The post service (internal/services/post.go) over a posts table keyed by id. The table
    has no comments column: stored posts carry no comments. */
module PostService {
  import opened Base
  import opened Uuid
  import opened Models
  import opened Table

  const PostNotFound := Error("post not found")
  const UnauthorizedUser := Error("unauthorized user")

  class PostService {
    var posts: map<UUID, Post>

    ghost predicate Valid()
      reads this
    {
      forall k :: k in posts ==> posts[k].id == k && posts[k].comments == []
    }

    constructor ()
      ensures Valid() && posts == map[]
    {
      posts := map[];
    }

    /** Stores the post under the caller's id; the returned post keeps the input's comments,
        which the table does not store. */
    method CreatePost(userId: UUID, post: Post, newId: UUID, fault: Option<Error>) returns (r: Result<Post>)
      requires Valid()
      modifies this
      ensures Valid()
      ensures r.Ok? <==> fault.None? && newId !in old(posts)
      ensures r.Ok? ==> r.value == Post(newId, post.title, post.content, userId, post.comments)
                        && posts == old(posts)[newId := r.value.(comments := [])]
      ensures r.Err? ==> posts == old(posts)
    {
      var owned := post.(userId := userId);
      if fault.Some? {
        return Err(fault.value);
      }
      if newId in posts {
        return Err(Error("UNIQUE constraint failed: posts.id"));
      }
      posts := posts[newId := owned.(id := newId, comments := [])];
      r := Ok(owned.(id := newId));
    }

    method GetPostById(id: UUID, fault: Option<Error>) returns (r: Result<Post>)
      ensures fault.Some? ==> r == Err(fault.value)
      ensures fault.None? && id !in posts ==> r == Err(PostNotFound)
      ensures fault.None? && id in posts ==> r == Ok(posts[id])
    {
      if fault.Some? {
        return Err(fault.value);
      }
      if id !in posts {
        return Err(PostNotFound);
      }
      r := Ok(posts[id]);
    }

    /** Every stored post exactly once, in no fixed order. */
    method GetAllPosts(fault: Option<Error>) returns (r: Result<seq<Post>>)
      requires Valid()
      ensures fault.Some? ==> r == Err(fault.value)
      ensures fault.None? ==> r.Ok? && |r.value| == |posts|
      ensures r.Ok? ==> forall p :: p in r.value <==> p in posts.Values
      ensures r.Ok? ==> forall i, j :: 0 <= i < j < |r.value| ==> r.value[i] != r.value[j]
    {
      if fault.Some? {
        return Err(fault.value);
      }
      var rows, order := Rows(posts);
      forall p ensures p in rows <==> p in posts.Values {
        if p in posts.Values {
          var k :| k in posts && posts[k] == p;
          var i :| 0 <= i < |order| && order[i] == k;
          assert rows[i] == p;
        }
      }
      DistinctRows(posts, rows, order, (p: Post) => p.id);
      r := Ok(rows);
    }

    /** Only the owner may change a post, and only its title and content change. */
    method UpdatePost(userId: UUID, postId: UUID, post: Post, getFault: Option<Error>,
                      updateFault: Option<Error>) returns (r: Result<Post>)
      requires Valid()
      modifies this
      ensures Valid()
      ensures r.Err? ==> posts == old(posts)
      ensures getFault.Some? || postId !in old(posts) ==> r == Err(PostNotFound)
      ensures getFault.None? && postId in old(posts) && old(posts)[postId].userId != userId
              ==> r == Err(UnauthorizedUser)
      ensures r.Ok? <==> getFault.None? && updateFault.None? && postId in old(posts)
                         && old(posts)[postId].userId == userId
      ensures r.Ok? ==> posts == old(posts)[postId := old(posts)[postId].(title := post.title, content := post.content)]
                        && r.value == posts[postId].(comments := post.comments)
    {
      var check := GetPostById(postId, getFault);
      if check.Err? {
        return Err(PostNotFound);
      }
      if check.value.userId != userId {
        return Err(UnauthorizedUser);
      }
      if updateFault.Some? {
        return Err(updateFault.value);
      }
      var row := posts[postId].(title := post.title, content := post.content);
      posts := posts[postId := row];
      r := Ok(row.(comments := post.comments));
    }

    /** Deletes any existing post, whoever asks: there is no owner check. */
    method DeletePost(id: UUID, fault: Option<Error>) returns (err: Option<Error>)
      requires Valid()
      modifies this
      ensures Valid()
      ensures fault.Some? ==> err == fault && posts == old(posts)
      ensures fault.None? && id !in old(posts) ==> err == Some(PostNotFound) && posts == old(posts)
      ensures fault.None? && id in old(posts) ==> err.None? && posts == old(posts) - {id}
    {
      if fault.Some? {
        return fault;
      }
      if id !in posts {
        return Some(PostNotFound);
      }
      posts := posts - {id};
      err := None;
    }
  }
}
