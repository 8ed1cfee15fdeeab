/**
 * How the pieces fit together over several clicks: a post created by the
 * form fills up one join at a time until the detail page refuses newcomers,
 * a second join by the same user is refused, and the form's writer is the
 * one the ownership guard lets through.
 */
module Scenario {
  import opened Posts
  import opened Store
  import opened Create
  import opened Detail
  import opened Owner

  /** The record after each identity in turn has clicked join with no
      failure in between: refused clicks leave it as it was. */
  function JoinAll(p: Post, idents: seq<string>): (q: Post)
    ensures q.writer == p.writer && q.writerEmail == p.writerEmail
    decreases |idents|
  {
    if idents == [] then p
    else
      match JoinStepFor(p, idents[0])
      case Append(next) => JoinAll(WithAttendees(p, next), idents[1..])
      case _ => JoinAll(p, idents[1..])
  }

  /** Newcomers that fit are all admitted, in the order they clicked, and
      the capacity the page reads does not move. */
  lemma {:induction false} JoinAllAppends(p: Post, idents: seq<string>)
    requires Distinct(AttendeeList(p) + idents)
    requires Capacity(p).Some? ==> |AttendeeList(p)| + |idents| <= Capacity(p).value
    ensures AttendeeList(JoinAll(p, idents)) == AttendeeList(p) + idents
    ensures Capacity(JoinAll(p, idents)) == Capacity(p)
    decreases |idents|
  {
    if idents != [] {
      var att, x := AttendeeList(p), idents[0];
      assert (att + idents)[|att|] == x;
      forall i | 0 <= i < |att| ensures att[i] != x {
        assert (att + idents)[i] == att[i];
      }
      assert !IsFull(p);
      var q := WithAttendees(p, att + [x]);
      assert JoinStepFor(p, x) == Append(att + [x]);
      assert Capacity(q) == Capacity(p);
      assert AttendeeList(q) + idents[1..] == att + idents;
      JoinAllAppends(q, idents[1..]);
    }
  }

  /** An empty post with capacity m takes exactly m distinct attendees:
      after they have joined it is full, a newcomer is refused as over
      capacity and any of them is refused as a duplicate. */
  lemma FillUp(p: Post, idents: seq<string>)
    requires AttendeeList(p) == [] && Capacity(p) == Some(|idents|) && Distinct(idents)
    ensures var q := JoinAll(p, idents);
            && AttendeeList(q) == idents
            && IsFull(q)
            && forall x :: JoinStepFor(q, x) == if x in idents then Duplicate else AtCapacity
  {
    assert AttendeeList(p) + idents == idents;
    JoinAllAppends(p, idents);
  }

  /** A post created with `members` set to m fills up after m distinct
      joins. */
  lemma CreateThenFill(values: FormValues, likes: int, image: string, now: int, idents: seq<string>)
    requires Distinct(idents) && |idents| == SanitizedMembers(values.members)
    ensures var q := JoinAll(RecordOf(values, SanitizedMembers(values.members), likes, image, now), idents);
            && AttendeeList(q) == idents
            && IsFull(q)
            && forall x :: JoinStepFor(q, x) == if x in idents then Duplicate else AtCapacity
  {
    CreatedCapacity(values, likes, image, now);
    FillUp(RecordOf(values, SanitizedMembers(values.members), likes, image, now), idents);
  }

  /** The ownership guard, when mounted for a post the form created, lets
      exactly the users named as the form's writer through, whatever
      attendees have joined since. */
  lemma CreatorOwns(values: FormValues, likes: int, image: string, now: int, idents: seq<string>, u: User)
    ensures var q := JoinAll(RecordOf(values, SanitizedMembers(values.members), likes, image, now), idents);
            IsOwner(q, Some(u)) <==> u.name == values.writer
  {
  }

  /** Two clicks on join by the same user: when the first goes through, the
      second reads the record the first wrote and is refused. */
  method JoinTwice(page: DetailPage, user: Option<User>) returns (first: Outcome, second: Outcome)
    requires page.store.Valid()
    modifies page, page.store`posts
    ensures first == Done ==> second == AlreadyJoined
  {
    ghost var before := page.store.posts;
    first := page.Join(true, user, Up);
    if first == Done {
      var ident := Identifier(user).value;
      ghost var latest := before[page.id];
      JoinTwiceRefused(latest, ident);
      assert page.store.posts[page.id] == WithAttendees(latest, JoinStepFor(latest, ident).next);
    }
    second := page.Join(true, user, Up);
  }

  /** Two joins decided against the same read of the record, by different
      users, both pass the guards; since each writes back the whole record,
      the later write replaces the earlier one, so the list never exceeds
      what one join produces but the first user's join is lost. */
  lemma StaleJoinsLoseUpdate(latest: Post, a: string, b: string)
    requires a != b
    requires JoinStepFor(latest, a).Append? && JoinStepFor(latest, b).Append?
    ensures var first := WithAttendees(latest, JoinStepFor(latest, a).next);
            var second := WithAttendees(first, JoinStepFor(latest, b).next);
            && a !in AttendeeList(second) && b in AttendeeList(second)
            && |AttendeeList(second)| == |AttendeeList(latest)| + 1
  {
    var next := JoinStepFor(latest, b).next;
    assert next == AttendeeList(latest) + [b];
    assert next[|next| - 1] == b;
  }
}
