/**
 * The post detail page: the join and cancel handlers with their busy flag
 * and re-fetch before write, and the review section's add and remove
 * handlers. Each handler's decision is a function of the record it read,
 * stated and proved here; the page itself is a class whose methods read and
 * replace entries of the store.
 */
module Detail {
  import opened Text
  import opened Posts
  import opened Store

  // ----- join -----

  /** What `handleJoin` decides once it holds the freshly read record. */
  datatype JoinStep = Duplicate | AtCapacity | Append(next: seq<string>)

  function JoinStepFor(latest: Post, ident: string): JoinStep {
    var att := AttendeeList(latest);
    if ident in att then Duplicate
    else if IsFull(latest) then AtCapacity
    else Append(att + [ident])
  }

  /** `{ ...p, attendees: list }` */
  function WithAttendees(p: Post, list: seq<string>): Post {
    p.(attendees := Some(list))
  }

  /** A join that goes ahead appends the identity once at the end: the list
      grows by one, earlier entries keep their places, the identity then
      occurs exactly once and every other identity as often as before. */
  lemma JoinAppendsOnce(latest: Post, ident: string)
    requires JoinStepFor(latest, ident).Append?
    ensures var att, next := AttendeeList(latest), JoinStepFor(latest, ident).next;
            && |next| == |att| + 1
            && next[..|att|] == att && next[|att|] == ident
            && multiset(next)[ident] == 1
            && forall x :: x != ident ==> multiset(next)[x] == multiset(att)[x]
  {
    var att := AttendeeList(latest);
    assert ident !in multiset(att);
  }

  /** The join guard keeps the soft capacity invariant: whatever the latest
      list held, a list that is appended to stays within a known capacity. */
  lemma JoinKeepsCapacity(latest: Post, ident: string)
    requires JoinStepFor(latest, ident).Append?
    ensures WithinCapacity(WithAttendees(latest, JoinStepFor(latest, ident).next))
  {
    assert Capacity(WithAttendees(latest, JoinStepFor(latest, ident).next)) == Capacity(latest);
  }

  /** No identity is recorded twice by joining. */
  lemma JoinKeepsDistinct(latest: Post, ident: string)
    requires Distinct(AttendeeList(latest)) && JoinStepFor(latest, ident).Append?
    ensures Distinct(JoinStepFor(latest, ident).next)
  {
  }

  /** Joining twice in a row: the second attempt sees the identity and is
      refused as a duplicate. */
  lemma JoinTwiceRefused(latest: Post, ident: string)
    requires JoinStepFor(latest, ident).Append?
    ensures JoinStepFor(WithAttendees(latest, JoinStepFor(latest, ident).next), ident) == Duplicate
  {
    var next := JoinStepFor(latest, ident).next;
    assert next[|next| - 1] == ident;
  }

  /** A user the page shows as joined is refused as a duplicate when the
      record has not changed since it was shown. */
  lemma JoinedMeansDuplicate(isAuthed: bool, user: Option<User>, p: Post)
    requires Joined(isAuthed, user, p)
    ensures JoinStepFor(p, Identifier(user).value) == Duplicate
  {
  }

  // ----- cancel -----

  /** `list.filter(em => em !== a && em !== b)` */
  function Without(s: seq<string>, a: string, b: string): (r: seq<string>)
    ensures |r| <= |s|
    ensures forall x :: x in r <==> x in s && x != a && x != b
  {
    if s == [] then []
    else (if s[0] != a && s[0] != b then [s[0]] else []) + Without(s[1..], a, b)
  }

  /** What `handleCancel` decides once it holds the freshly read record;
      `name` is `user.name`, which may differ from the identifier when the
      name is empty. */
  datatype CancelStep = Absent | Remove(next: seq<string>)

  function CancelStepFor(latest: Post, ident: string, name: string): CancelStep {
    var att := AttendeeList(latest);
    if ident !in att && name !in att then Absent else Remove(Without(att, ident, name))
  }

  /** `r` can be obtained from `s` by deleting entries. */
  predicate IsSubsequence(r: seq<string>, s: seq<string>)
    decreases |s|
  {
    r == [] || (s != [] && if r[0] == s[0] then IsSubsequence(r[1..], s[1..]) else IsSubsequence(r, s[1..]))
  }

  /** Filtering removes every occurrence of the two identities and no other
      entry. */
  lemma {:induction false} WithoutCounts(s: seq<string>, a: string, b: string, x: string)
    ensures multiset(Without(s, a, b))[x] == if x == a || x == b then 0 else multiset(s)[x]
  {
    if s != [] {
      WithoutCounts(s[1..], a, b, x);
      assert s == [s[0]] + s[1..];
    }
  }

  /** Filtering keeps the surviving entries in their original order. */
  lemma {:induction false} WithoutKeepsOrder(s: seq<string>, a: string, b: string)
    ensures IsSubsequence(Without(s, a, b), s)
  {
    if s != [] {
      WithoutKeepsOrder(s[1..], a, b);
      var r := Without(s, a, b);
      if s[0] != a && s[0] != b {
        assert r[1..] == Without(s[1..], a, b);
      } else {
        assert r == Without(s[1..], a, b);
        if r != [] {
          assert r[0] in r;
        }
      }
    }
  }

  /** A cancel that goes ahead removes at least one entry. */
  lemma CancelShrinks(latest: Post, ident: string, name: string)
    requires CancelStepFor(latest, ident, name).Remove?
    ensures |CancelStepFor(latest, ident, name).next| < |AttendeeList(latest)|
  {
    var att := AttendeeList(latest);
    var x := if ident in att then ident else name;
    WithoutCounts(att, ident, name, x);
    var next := Without(att, ident, name);
    assert multiset(next)[x] < multiset(att)[x];
    assert |multiset(next)| == |next| && |multiset(att)| == |att|;
    WithoutSubMultiset(att, ident, name);
    var extra := multiset(att) - multiset(next);
    assert multiset(att) == multiset(next) + extra;
    assert x in extra;
  }

  lemma WithoutSubMultiset(s: seq<string>, a: string, b: string)
    ensures multiset(Without(s, a, b)) <= multiset(s)
  {
    forall x ensures multiset(Without(s, a, b))[x] <= multiset(s)[x] {
      WithoutCounts(s, a, b, x);
    }
  }

  lemma {:induction false} WithoutKeepsDistinct(s: seq<string>, a: string, b: string)
    requires Distinct(s)
    ensures Distinct(Without(s, a, b))
  {
    if s != [] {
      WithoutKeepsDistinct(s[1..], a, b);
      var t := Without(s[1..], a, b);
      assert s[0] !in s[1..];
      assert s[0] !in t;
    }
  }

  /** Cancelling keeps both client-side invariants of the attendee list. */
  lemma CancelKeepsInvariants(latest: Post, ident: string, name: string)
    requires CancelStepFor(latest, ident, name).Remove?
    requires Distinct(AttendeeList(latest)) && WithinCapacity(latest)
    ensures var after := WithAttendees(latest, CancelStepFor(latest, ident, name).next);
            Distinct(AttendeeList(after)) && WithinCapacity(after)
  {
    WithoutKeepsDistinct(AttendeeList(latest), ident, name);
    assert Capacity(WithAttendees(latest, CancelStepFor(latest, ident, name).next)) == Capacity(latest);
  }

  lemma {:induction false} WithoutNothingToRemove(s: seq<string>, a: string, b: string)
    requires a !in s && b !in s
    ensures Without(s, a, b) == s
  {
    if s != [] {
      WithoutNothingToRemove(s[1..], a, b);
    }
  }

  lemma {:induction false} WithoutAppend(s: seq<string>, x: string, a: string, b: string)
    ensures Without(s + [x], a, b) == Without(s, a, b) + (if x != a && x != b then [x] else [])
  {
    if s == [] {
      assert s + [x] == [x];
    } else {
      assert (s + [x])[1..] == s[1..] + [x];
      WithoutAppend(s[1..], x, a, b);
    }
  }

  /** Cancelling right after joining restores the list the join started
      from, provided the user's name was not on it. */
  lemma JoinThenCancel(latest: Post, ident: string, name: string)
    requires JoinStepFor(latest, ident).Append? && name !in AttendeeList(latest)
    ensures var joined := WithAttendees(latest, JoinStepFor(latest, ident).next);
            CancelStepFor(joined, ident, name) == Remove(AttendeeList(latest))
  {
    var att := AttendeeList(latest);
    WithoutAppend(att, ident, ident, name);
    WithoutNothingToRemove(att, ident, name);
    assert ident in att + [ident];
  }

  // ----- reviews -----

  /** `post.reviews || []` */
  function ReviewList(p: Post): seq<Review> {
    if p.reviews.Some? then p.reviews.value else []
  }

  /** The delete button of a review is shown to its writer only, matched by
      name or by email. */
  predicate MayRemove(user: Option<User>, r: Review) {
    user.Some? && (user.value.name == r.writer || user.value.email == r.writer)
  }

  /** `user.name || user.email` */
  function Author(user: User): string {
    if user.name != "" then user.name else user.email
  }

  /** `s.filter((_, idx) => idx !== i)` where `from` is the index of `s[0]`. */
  function KeepOtherIndices(s: seq<Review>, i: nat, from: nat): seq<Review>
    decreases |s|
  {
    if s == [] then []
    else (if from != i then [s[0]] else []) + KeepOtherIndices(s[1..], i, from + 1)
  }

  function DropIndex(s: seq<Review>, i: nat): seq<Review> {
    KeepOtherIndices(s, i, 0)
  }

  lemma {:induction false} KeepOtherIndicesSlices(s: seq<Review>, i: nat, from: nat)
    ensures KeepOtherIndices(s, i, from) ==
            if from <= i < from + |s| then s[..i - from] + s[i - from + 1..] else s
  {
    if s != [] {
      KeepOtherIndicesSlices(s[1..], i, from + 1);
      if from == i {
        assert KeepOtherIndices(s, i, from) == KeepOtherIndices(s[1..], i, from + 1);
      } else if from < i < from + |s| {
        assert s[..i - from] == [s[0]] + s[1..][..i - from - 1];
        assert s[i - from + 1..] == s[1..][i - from..];
      } else {
        assert s == [s[0]] + s[1..];
      }
    }
  }

  /** Removing review `i` drops exactly that entry: the list is one shorter,
      the reviews before it stay where they were and the ones after it move
      up by one. */
  lemma DropIndexExactly(s: seq<Review>, i: nat)
    requires i < |s|
    ensures var r := DropIndex(s, i);
            && |r| == |s| - 1
            && (forall j :: 0 <= j < i ==> r[j] == s[j])
            && (forall j :: i <= j < |r| ==> r[j] == s[j + 1])
  {
    KeepOtherIndicesSlices(s, i, 0);
  }

  /** The review a user adds is one that user may remove, and removing it
      again gives back the earlier list. */
  lemma AddThenRemove(reviews: seq<Review>, user: User, text: string, now: int)
    ensures MayRemove(Some(user), Review(Author(user), text, now))
    ensures DropIndex(reviews + [Review(Author(user), text, now)], |reviews|) == reviews
  {
    KeepOtherIndicesSlices(reviews + [Review(Author(user), text, now)], |reviews|, 0);
  }

  // ----- the page -----

  /** Which remote call fails, if any, during one handler run. */
  datatype Net = Up | ReadFails | WriteFails

  /** The guards shared by the join and cancel handlers. */
  datatype Gate = ToLogin | NoIdentity | Blocked | Proceed(ident: string)

  /** What a join or cancel click ends in; each non-`Done` outcome is an
      alert or a redirect and changes no record. */
  datatype Outcome =
    | RedirectToLogin | MissingIdentity | Busy
    | AlreadyJoined | Full | NotJoined | Failed | Done

  class DetailPage {
    const id: PostId
    const store: PostStore
    /** The page's copy of the record; `None` while loading. */
    var post: Option<Post>
    /** Set while a join or cancel request is outstanding. */
    var busy: bool

    constructor (id: PostId, store: PostStore)
      ensures this.id == id && this.store == store
      ensures post == None && !busy
    {
      this.id := id;
      this.store := store;
      post := None;
      busy := false;
    }

    /** The page's fetch effect: adopts the stored record, or keeps what it
        had when the request fails. */
    method Load(net: Net)
      modifies this`post
      ensures post == if net.Up? && id in store.posts then Some(store.posts[id]) else old(post)
    {
      var r := store.Get(id);
      if net.Up? && r.Some? {
        post := r;
      }
    }

    /** The start of `handleJoin` and `handleCancel`: send a logged-out
        user to the login page, refuse a session without identifier, drop
        the click while a request is outstanding, otherwise mark busy. */
    method BeginRequest(isAuthed: bool, user: Option<User>) returns (g: Gate)
      modifies this`busy
      ensures g.ToLogin? <==> !isAuthed
      ensures g.NoIdentity? <==> isAuthed && Identifier(user).None?
      ensures g.Blocked? <==> isAuthed && Identifier(user).Some? && old(busy)
      ensures g.Proceed? ==> g.ident == Identifier(user).value
      ensures busy == (old(busy) || g.Proceed?)
    {
      if !isAuthed {
        return ToLogin;
      }
      var ident := Identifier(user);
      if ident.None? {
        return NoIdentity;
      }
      if busy {
        return Blocked;
      }
      busy := true;
      g := Proceed(ident.value);
    }

    /** The rest of `handleJoin`: re-read the record, refuse a duplicate or
        a full post, otherwise write the record back with the identity
        appended and adopt it; the busy flag is cleared on every path. */
    method FinishJoin(user: Option<User>, net: Net) returns (o: Outcome)
      requires busy && Identifier(user).Some? && store.Valid()
      modifies this, store`posts
      ensures !busy && store.Valid()
      ensures o in {Failed, AlreadyJoined, Full, Done}
      ensures o != Done ==> store.posts == old(store.posts) && post == old(post)
      ensures var ident, before := Identifier(user).value, old(store.posts);
              && (o == Failed <==> net.ReadFails? || id !in before ||
                                   (net.WriteFails? && JoinStepFor(before[id], ident).Append?))
              && (o == AlreadyJoined <==> !net.ReadFails? && id in before &&
                                          JoinStepFor(before[id], ident).Duplicate?)
              && (o == Full <==> !net.ReadFails? && id in before &&
                                 JoinStepFor(before[id], ident).AtCapacity?)
              && (o == Done ==> (id in before &&
                    var sent := WithAttendees(before[id], AttendeeList(before[id]) + [ident]);
                    store.posts == before[id := sent] && post == Some(sent)))
    {
      var ident := Identifier(user).value;
      var latest := store.Get(id);
      if net.ReadFails? || latest.None? {
        busy := false;
        return Failed;
      }
      var step := JoinStepFor(latest.value, ident);
      if step.Duplicate? {
        o := AlreadyJoined;
      } else if step.AtCapacity? {
        o := Full;
      } else if net.WriteFails? {
        o := Failed;
      } else {
        // the name when there is one, else the email: the identifier itself
        var displayName := if user.value.name != "" then user.value.name else user.value.email;
        assert displayName == ident;
        var sent := WithAttendees(latest.value, step.next);
        var _ := store.Put(id, sent);
        // the server echoes the record; the page overwrites its attendees
        // with the list it sent
        post := Some(WithAttendees(sent, step.next));
        o := Done;
      }
      busy := false;
    }

    /** The rest of `handleCancel`: re-read the record, refuse when neither
        the identifier nor the name is on the list, otherwise write the
        record back without every entry equal to either and adopt it. */
    method FinishCancel(user: Option<User>, net: Net) returns (o: Outcome)
      requires busy && Identifier(user).Some? && store.Valid()
      modifies this, store`posts
      ensures !busy && store.Valid()
      ensures o in {Failed, NotJoined, Done}
      ensures o != Done ==> store.posts == old(store.posts) && post == old(post)
      ensures var ident, name, before := Identifier(user).value, user.value.name, old(store.posts);
              && (o == Failed <==> net.ReadFails? || id !in before ||
                                   (net.WriteFails? && CancelStepFor(before[id], ident, name).Remove?))
              && (o == NotJoined <==> !net.ReadFails? && id in before &&
                                      CancelStepFor(before[id], ident, name).Absent?)
              && (o == Done ==> (id in before &&
                    var sent := WithAttendees(before[id], Without(AttendeeList(before[id]), ident, name));
                    store.posts == before[id := sent] && post == Some(sent)))
    {
      var ident := Identifier(user).value;
      var latest := store.Get(id);
      if net.ReadFails? || latest.None? {
        busy := false;
        return Failed;
      }
      var step := CancelStepFor(latest.value, ident, user.value.name);
      if step.Absent? {
        o := NotJoined;
      } else if net.WriteFails? {
        o := Failed;
      } else {
        var sent := WithAttendees(latest.value, step.next);
        var _ := store.Put(id, sent);
        post := Some(WithAttendees(sent, step.next));
        o := Done;
      }
      busy := false;
    }

    /** `handleJoin` run without interruption: the busy flag ends as it
        started, and only a `Done` outcome writes. */
    method Join(isAuthed: bool, user: Option<User>, net: Net) returns (o: Outcome)
      requires store.Valid()
      modifies this, store`posts
      ensures busy == old(busy) && store.Valid()
      ensures o == RedirectToLogin <==> !isAuthed
      ensures o == MissingIdentity <==> isAuthed && Identifier(user).None?
      ensures o == Busy <==> isAuthed && Identifier(user).Some? && old(busy)
      ensures o != Done ==> store.posts == old(store.posts) && post == old(post)
      ensures o == Done <==> isAuthed && Identifier(user).Some? && !old(busy) && net.Up? &&
                             id in old(store.posts) &&
                             JoinStepFor(old(store.posts)[id], Identifier(user).value).Append?
      ensures o == AlreadyJoined <==> isAuthed && Identifier(user).Some? && !old(busy) && !net.ReadFails? &&
                                      id in old(store.posts) &&
                                      JoinStepFor(old(store.posts)[id], Identifier(user).value).Duplicate?
      ensures o == Full <==> isAuthed && Identifier(user).Some? && !old(busy) && !net.ReadFails? &&
                             id in old(store.posts) &&
                             JoinStepFor(old(store.posts)[id], Identifier(user).value).AtCapacity?
      ensures o == Failed <==> isAuthed && Identifier(user).Some? && !old(busy) &&
                               (net.ReadFails? || id !in old(store.posts) ||
                                (net.WriteFails? && JoinStepFor(old(store.posts)[id], Identifier(user).value).Append?))
      ensures o in {RedirectToLogin, MissingIdentity, Busy, Failed, AlreadyJoined, Full, Done}
      ensures o == Done ==>
                var ident, latest := Identifier(user).value, old(store.posts)[id];
                var sent := WithAttendees(latest, AttendeeList(latest) + [ident]);
                store.posts == old(store.posts)[id := sent] && post == Some(sent)
    {
      var g := BeginRequest(isAuthed, user);
      match g
      case ToLogin => o := RedirectToLogin;
      case NoIdentity => o := MissingIdentity;
      case Blocked => o := Busy;
      case Proceed(_) => o := FinishJoin(user, net);
    }

    /** `handleCancel` run without interruption. */
    method Cancel(isAuthed: bool, user: Option<User>, net: Net) returns (o: Outcome)
      requires store.Valid()
      modifies this, store`posts
      ensures busy == old(busy) && store.Valid()
      ensures o == RedirectToLogin <==> !isAuthed
      ensures o == MissingIdentity <==> isAuthed && Identifier(user).None?
      ensures o == Busy <==> isAuthed && Identifier(user).Some? && old(busy)
      ensures o != Done ==> store.posts == old(store.posts) && post == old(post)
      ensures o == Done <==> isAuthed && Identifier(user).Some? && !old(busy) && net.Up? &&
                             id in old(store.posts) &&
                             CancelStepFor(old(store.posts)[id], Identifier(user).value, user.value.name).Remove?
      ensures o == NotJoined <==> isAuthed && Identifier(user).Some? && !old(busy) && !net.ReadFails? &&
                                  id in old(store.posts) &&
                                  CancelStepFor(old(store.posts)[id], Identifier(user).value, user.value.name).Absent?
      ensures o == Failed <==> isAuthed && Identifier(user).Some? && !old(busy) &&
                               (net.ReadFails? || id !in old(store.posts) ||
                                (net.WriteFails? &&
                                 CancelStepFor(old(store.posts)[id], Identifier(user).value, user.value.name).Remove?))
      ensures o in {RedirectToLogin, MissingIdentity, Busy, Failed, NotJoined, Done}
      ensures o == Done ==>
                var ident, latest := Identifier(user).value, old(store.posts)[id];
                var sent := WithAttendees(latest, Without(AttendeeList(latest), ident, user.value.name));
                store.posts == old(store.posts)[id := sent] && post == Some(sent)
    {
      var g := BeginRequest(isAuthed, user);
      match g
      case ToLogin => o := RedirectToLogin;
      case NoIdentity => o := MissingIdentity;
      case Blocked => o := Busy;
      case Proceed(_) => o := FinishCancel(user, net);
    }

    /** The review form: a blank text is ignored; otherwise the page's own
        copy of the record (not a latest read) is written back with one
        review appended, and the stored record is adopted. */
    method SubmitReview(user: User, raw: string, now: int, delivered: bool) returns (added: bool)
      requires post.Some? && store.Valid()
      modifies this`post, store`posts
      ensures store.Valid()
      ensures added <==> Trim(raw) != "" && delivered && id in old(store.posts)
      ensures !added ==> store.posts == old(store.posts) && post == old(post)
      ensures added ==>
                var p := old(post).value;
                var sent := p.(reviews := Some(ReviewList(p) + [Review(Author(user), Trim(raw), now)]));
                store.posts == old(store.posts)[id := sent] && post == Some(sent)
    {
      var text := Trim(raw);
      if text == "" {
        return false;
      }
      var review := Review(Author(user), text, now);
      var sent := post.value.(reviews := Some(ReviewList(post.value) + [review]));
      if !delivered {
        return false;
      }
      added := store.Put(id, sent);
      if added {
        post := store.Get(id);
      }
    }

    /** The delete button of review `i`: shown only to the review's writer,
        asks for confirmation, then writes back the page's copy without that
        review and adopts the stored record. */
    method RemoveReview(user: Option<User>, i: nat, confirmed: bool, delivered: bool)
      returns (removed: bool)
      requires post.Some? && i < |ReviewList(post.value)| && store.Valid()
      modifies this`post, store`posts
      ensures store.Valid()
      ensures removed <==> MayRemove(user, ReviewList(old(post).value)[i]) && confirmed && delivered &&
                           id in old(store.posts)
      ensures !removed ==> store.posts == old(store.posts) && post == old(post)
      ensures removed ==>
                var p := old(post).value;
                var sent := p.(reviews := Some(DropIndex(ReviewList(p), i)));
                store.posts == old(store.posts)[id := sent] && post == Some(sent)
    {
      if !MayRemove(user, ReviewList(post.value)[i]) || !confirmed || !delivered {
        return false;
      }
      var sent := post.value.(reviews := Some(DropIndex(ReviewList(post.value), i)));
      removed := store.Put(id, sent);
      if removed {
        post := store.Get(id);
      }
    }
  }
}
