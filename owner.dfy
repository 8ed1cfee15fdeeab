/**
 * The ownership guard component, as written: wrapped around a page for a
 * post, it fetches the post, decides whether the signed-in user wrote it,
 * and until then renders nothing; a non-owner is sent back to the post's
 * detail page. The app's routes do not mount it.
 */
module Owner {
  import opened Text
  import opened Posts
  import opened Store

  /** The ownership test: by e-mail when the record names its writer's
      e-mail, otherwise by name. Nobody owns a post while signed out. */
  predicate IsOwner(p: Post, user: Option<User>) {
    if p.writerEmail != "" then user.Some? && p.writerEmail == user.value.email
    else user.Some? && p.writer == user.value.name
  }

  /** A record's e-mail decides alone: a matching name does not help a user
      whose e-mail differs, and a different name does not hurt one whose
      e-mail matches. */
  lemma EmailTakesPrecedence(p: Post, u: User)
    requires p.writerEmail != ""
    ensures IsOwner(p, Some(u)) <==> u.email == p.writerEmail
  {
  }

  /** Without a recorded e-mail, the name decides. */
  lemma NameWhenNoEmail(p: Post, u: User)
    requires p.writerEmail == ""
    ensures IsOwner(p, Some(u)) <==> u.name == p.writer
  {
  }

  lemma LoggedOutNeverOwns(p: Post)
    ensures !IsOwner(p, None)
  {
  }

  /** The guard's verdict on a fetch: a failed fetch is a refusal. */
  function Verdict(fetched: Option<Post>, user: Option<User>): (ok: bool)
    ensures ok ==> fetched.Some? && user.Some?
    ensures fetched.Some? ==> (ok <==> IsOwner(fetched.value, user))
  {
    fetched.Some? && IsOwner(fetched.value, user)
  }

  /** `path` is a detail page address, and the page it names is `id`'s. */
  predicate NamesPost(path: string, id: PostId) {
    && |path| > 6 && path[..6] == "/post/"
    && (forall i :: 6 <= i < |path| ==> IsDigit(path[i]))
    && DigitsValue(path[6..]) == id
  }

  /** The detail page of a post. */
  function PostPath(id: PostId): (path: string)
    ensures NamesPost(path, id)
  {
    var digits := NatToDecimal(id);
    DecimalRoundTrip(id);
    assert ("/post/" + digits)[6..] == digits;
    "/post/" + digits
  }

  datatype Render = Nothing | Redirect(path: string) | Children

  /** `ok === null` renders nothing, `false` redirects to the detail page
      (replacing the history entry), `true` renders the guarded page. */
  function RenderFor(ok: Option<bool>, id: PostId): (r: Render)
    ensures r.Nothing? <==> ok.None?
    ensures r.Children? <==> ok == Some(true)
    ensures r.Redirect? <==> ok == Some(false)
    ensures r.Redirect? ==> NamesPost(r.path, id)
  {
    match ok
    case None => Nothing
    case Some(b) => if b then Children else Redirect(PostPath(id))
  }

  class OwnerGuard {
    /** The id from the route. */
    const id: PostId
    /** `null` while loading, then the verdict. */
    var ok: Option<bool>

    constructor (id: PostId)
      ensures this.id == id && ok.None?
    {
      this.id := id;
      ok := None;
    }

    /** The effect, run on mount and whenever the route id or the user
        changes; `delivered` is whether the request and the JSON parse
        succeed. */
    method Check(store: PostStore, user: Option<User>, delivered: bool)
      modifies this`ok
      ensures ok == Some(delivered && id in store.posts && IsOwner(store.posts[id], user))
    {
      var fetched := None;
      if delivered {
        fetched := store.Get(id);
      }
      ok := Some(Verdict(fetched, user));
    }
  }

  /** A signed-out visitor who reaches the guard is always sent back to the
      post's own page once the check has run. */
  method SignedOutVisit(store: PostStore, id: PostId, delivered: bool) returns (r: Render)
    ensures r.Redirect? && NamesPost(r.path, id)
  {
    var guard := new OwnerGuard(id);
    guard.Check(store, None, delivered);
    r := RenderFor(guard.ok, id);
  }
}
