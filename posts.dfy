/**
  The post resource's state-changing handlers (create, delete, like) as
  methods over an in-memory post store. Authentication is reduced to the
  caller's user id, `validatePostInput` to a given function, and the
  document store to a map from post id to post record; each handler runs as
  one atomic step.
 */
module Posts {
  import opened JsValues

  type UserId = string
  type PostId = string

  /** An entry of a post's `likes` array: `{ user: <id> }`. */
  datatype Like = Like(user: UserId)

  /** A stored post document (comments and the date stamp are not modelled). */
  datatype Post = Post(
    user: UserId,
    text: Option<string>,
    name: Option<string>,
    avatar: Option<string>,
    likes: seq<Like>)

  /** The fields of a create request's body that the handler reads. */
  datatype RequestBody = RequestBody(text: Option<string>, name: Option<string>, avatar: Option<string>)

  /**
    What `validatePostInput` returns, together with the request body as it
    leaves it: the handler reads the body's fields after the call.
   */
  datatype PostValidation = PostValidation(errors: map<string, string>, isValid: bool, body: RequestBody)

  /** The JSON body of a response. */
  datatype Body =
    | PostJson(id: PostId, post: Post)
    | ErrorsJson(errors: map<string, string>)
    | ErrorJson(key: string, message: string)
    | SuccessJson

  datatype Response = Response(status: int, body: Body)

  const NotAuthorized := Response(401, ErrorJson("notauthorized", "User not authorized."))
  const NoPostFound := Response(404, ErrorJson("nopostfound", "No posts found with that ID."))
  const AlreadyLiked := Response(400, ErrorJson("alreadyLiked", "User already liked this post."))
  const DeleteSuccess := Response(200, SuccessJson)

  /** Whether `user` appears in `likes`. */
  predicate HasLiked(likes: seq<Like>, user: UserId)
  {
    exists i :: 0 <= i < |likes| && likes[i].user == user
  }

  /** No user appears twice in `likes`. */
  predicate UniqueLikes(likes: seq<Like>)
  {
    forall i, j :: 0 <= i < j < |likes| ==> likes[i].user != likes[j].user
  }

  /** `likes.filter(like => like.user === user)`. */
  function LikesBy(likes: seq<Like>, user: UserId): (r: seq<Like>)
    ensures |r| <= |likes|
    ensures forall k :: 0 <= k < |r| ==> r[k] == Like(user)
  {
    if likes == [] then []
    else if likes[0].user == user then [likes[0]] + LikesBy(likes[1..], user)
    else LikesBy(likes[1..], user)
  }

  /** The like guard: the filtered array is non-empty exactly when the user has liked. */
  lemma {:induction false} LikesByNonEmptyIff(likes: seq<Like>, user: UserId)
    ensures |LikesBy(likes, user)| > 0 <==> HasLiked(likes, user)
  {
    if likes != [] {
      LikesByNonEmptyIff(likes[1..], user);
      if HasLiked(likes[1..], user) {
        var i :| 0 <= i < |likes[1..]| && likes[1..][i].user == user;
        assert likes[i + 1].user == user;
      }
      if HasLiked(likes, user) && likes[0].user != user {
        var i :| 0 <= i < |likes| && likes[i].user == user;
        assert likes[1..][i - 1].user == user;
      }
    }
  }

  /** In an array without duplicates, a user who has liked is found exactly once. */
  lemma {:induction false} UniqueLikedOnce(likes: seq<Like>, user: UserId)
    requires UniqueLikes(likes)
    ensures |LikesBy(likes, user)| == if HasLiked(likes, user) then 1 else 0
  {
    LikesByNonEmptyIff(likes, user);
    if likes != [] {
      assert UniqueLikes(likes[1..]) by {
        forall i, j | 0 <= i < j < |likes[1..]| ensures likes[1..][i].user != likes[1..][j].user {
          assert likes[1..][i] == likes[i + 1] && likes[1..][j] == likes[j + 1];
        }
      }
      UniqueLikedOnce(likes[1..], user);
      if likes[0].user == user {
        assert !HasLiked(likes[1..], user) by {
          forall i | 0 <= i < |likes[1..]| ensures likes[1..][i].user != user {
            assert likes[1..][i] == likes[i + 1];
          }
        }
      } else {
        if HasLiked(likes, user) {
          var i :| 0 <= i < |likes| && likes[i].user == user;
          assert likes[1..][i - 1].user == user;
        }
      }
    }
  }

  /** Prepending a user who has not liked keeps `likes` free of duplicates. */
  lemma PrependKeepsUnique(likes: seq<Like>, user: UserId)
    requires UniqueLikes(likes)
    requires !HasLiked(likes, user)
    ensures UniqueLikes([Like(user)] + likes)
    ensures HasLiked([Like(user)] + likes, user)
  {
    var likes' := [Like(user)] + likes;
    assert likes'[0].user == user;
    forall i, j | 0 <= i < j < |likes'| ensures likes'[i].user != likes'[j].user {
      assert likes'[j] == likes[j - 1];
      if i > 0 {
        assert likes'[i] == likes[i - 1];
      }
    }
  }

  /** A post store: the collection of post documents, keyed by id. */
  class PostStore {
    var posts: map<PostId, Post>

    /** The invariant the like guard exists to keep. */
    ghost predicate LikesUnique()
      reads this
    {
      forall id :: id in posts ==> UniqueLikes(posts[id].likes)
    }

    constructor (initial: map<PostId, Post>)
      ensures posts == initial
    {
      posts := initial;
    }

    /**
      POST /: builds a post owned by the caller from the body and saves it.
      An invalid body is answered with 400 and its errors, but the handler
      does not return, so the post is saved all the same. The post's fields
      are read from the body after the validator has seen it. `id` is the
      unused id the store assigns to the new document.
     */
    method CreatePost(caller: UserId, body: RequestBody, validate: RequestBody -> PostValidation, id: PostId)
      returns (resp: Response)
      requires id !in posts
      modifies this
      ensures posts.Keys == old(posts).Keys + {id}
      ensures posts[id] == Post(caller, validate(body).body.text, validate(body).body.name, validate(body).body.avatar, [])
      ensures forall other :: other in old(posts) ==> posts[other] == old(posts)[other]
      ensures !validate(body).isValid ==> resp == Response(400, ErrorsJson(validate(body).errors))
      ensures validate(body).isValid ==> resp == Response(200, PostJson(id, posts[id]))
      ensures old(LikesUnique()) ==> LikesUnique()
    {
      var check := validate(body);
      var sent := false;
      if !check.isValid {
        resp := Response(400, ErrorsJson(check.errors));
        sent := true;
      }
      var newPost := Post(caller, check.body.text, check.body.name, check.body.avatar, []);
      posts := posts[id := newPost];
      if !sent {
        resp := Response(200, PostJson(id, newPost));
      }
    }

    /**
      DELETE /:id: only the post's owner may remove it; anyone else gets 401
      and the store is left as it was. A missing post is answered with 404.
     */
    method DeletePost(caller: UserId, id: PostId) returns (resp: Response)
      modifies this
      ensures id !in old(posts) ==> resp == NoPostFound && posts == old(posts)
      ensures id in old(posts) && old(posts)[id].user != caller ==> resp == NotAuthorized && posts == old(posts)
      ensures id in old(posts) && old(posts)[id].user == caller ==> resp == DeleteSuccess && posts == old(posts) - {id}
      ensures id !in posts ==> id !in old(posts) || old(posts)[id].user == caller
      ensures forall other :: other in old(posts) && other != id ==> other in posts && posts[other] == old(posts)[other]
      ensures posts.Keys <= old(posts).Keys
      ensures old(LikesUnique()) ==> LikesUnique()
    {
      if id !in posts {
        return NoPostFound;
      }
      var post := posts[id];
      if post.user != caller {
        return NotAuthorized;
      }
      posts := posts - {id};
      resp := DeleteSuccess;
    }

    /**
      POST /like/:id: a caller who already appears in the post's likes gets
      400 and nothing is saved; otherwise the caller is put at the front of
      the likes and the updated post is saved and returned.
     */
    method LikePost(caller: UserId, id: PostId) returns (resp: Response)
      modifies this
      ensures id !in old(posts) ==> resp == NoPostFound && posts == old(posts)
      ensures id in old(posts) && HasLiked(old(posts)[id].likes, caller) ==>
        resp == AlreadyLiked && posts == old(posts)
      ensures id in old(posts) && !HasLiked(old(posts)[id].likes, caller) ==>
        && posts == old(posts)[id := old(posts)[id].(likes := [Like(caller)] + old(posts)[id].likes)]
        && resp == Response(200, PostJson(id, posts[id]))
      ensures posts.Keys == old(posts).Keys
      ensures forall other :: other in old(posts) && other != id ==> posts[other] == old(posts)[other]
      ensures id in old(posts) && UniqueLikes(old(posts)[id].likes) ==> UniqueLikes(posts[id].likes)
      ensures id in old(posts) ==> HasLiked(posts[id].likes, caller)
      ensures old(LikesUnique()) ==> LikesUnique()
    {
      if id !in posts {
        return NoPostFound;
      }
      var post := posts[id];
      var mine := LikesBy(post.likes, caller);
      LikesByNonEmptyIff(post.likes, caller);
      if |mine| > 0 {
        return AlreadyLiked;
      }
      var likes := [Like(caller)] + post.likes;
      if UniqueLikes(post.likes) {
        PrependKeepsUnique(post.likes, caller);
      }
      assert likes[0].user == caller;
      post := post.(likes := likes);
      posts := posts[id := post];
      resp := Response(200, PostJson(id, post));
    }
  }

  /**
    The create-then-like-twice sequence: the second like by the same user is
    rejected and leaves that user in the likes exactly once.
   */
  method LikeTwiceScenario()
  {
    var store := new PostStore(map[]);
    var valid := (b: RequestBody) => PostValidation(map[], true, b);
    var r := store.CreatePost("A", RequestBody(Some("hello"), None, None), valid, "p1");
    assert r.status == 200 && store.posts["p1"].likes == [];
    r := store.LikePost("B", "p1");
    assert r.status == 200 && store.posts["p1"].likes == [Like("B")];
    r := store.LikePost("B", "p1");
    assert HasLiked([Like("B")], "B");
    assert r == AlreadyLiked && store.posts["p1"].likes == [Like("B")];
    UniqueLikedOnce(store.posts["p1"].likes, "B");
    assert |LikesBy(store.posts["p1"].likes, "B")| == 1;
    r := store.DeletePost("B", "p1");
    assert r == NotAuthorized && "p1" in store.posts;
    r := store.DeletePost("A", "p1");
    assert r == DeleteSuccess && "p1" !in store.posts;
  }
}
