/**
 * The hosted "posts" resource as the app sees it: a map from id to record.
 * `GET /posts/{id}` reads an entry, `PUT /posts/{id}` replaces one and
 * `POST /posts` adds one under an id the store chooses.
 */
module Store {
  import opened Posts

  class PostStore {
    var posts: map<PostId, Post>
    /** The store's id counter: every id it has handed out is below it. */
    var nextId: PostId

    ghost predicate Valid()
      reads this
    {
      forall id :: id in posts ==> id < nextId
    }

    constructor ()
      ensures Valid() && posts == map[]
    {
      posts := map[];
      nextId := 1;
    }

    /** `GET /posts/{id}`; an unknown id reads as a failed request. */
    method Get(id: PostId) returns (r: Option<Post>)
      ensures r == if id in posts then Some(posts[id]) else None
    {
      r := if id in posts then Some(posts[id]) else None;
    }

    /** `PUT /posts/{id}`: replaces the whole record of a known id. */
    method Put(id: PostId, p: Post) returns (ok: bool)
      requires Valid()
      modifies this`posts
      ensures Valid()
      ensures ok == (id in old(posts))
      ensures posts == if ok then old(posts)[id := p] else old(posts)
    {
      ok := id in posts;
      if ok {
        posts := posts[id := p];
      }
    }

    /** `POST /posts`: stores a new record under an id not used before. */
    method Create(p: Post) returns (id: PostId)
      requires Valid()
      modifies this
      ensures Valid()
      ensures id !in old(posts) && posts == old(posts)[id := p]
    {
      id := nextId;
      posts := posts[id := p];
      nextId := nextId + 1;
    }
  }
}
