/**
 * The meetup post as the hosted store returns it, and the rules the detail
 * page derives from it: the tolerant positive-integer parser, the capacity
 * resolution order, the attendee list, fullness and "already joined".
 */
module Posts {
  import opened Text

  datatype Option<+T> = None | Some(value: T)

  /** The session identity the login form creates: both parts are strings,
      either of which may be empty (empty is falsy in the source). */
  datatype User = User(name: string, email: string)

  /** A record field whose type the store does not fix: absent, `null`, a
      string or an integer. */
  datatype Field = Missing | Null | Str(s: string) | Num(n: int)

  datatype Review = Review(writer: string, text: string, createdAt: int)

  type PostId = nat

  /** A post record. `attendees` is `None` when the stored value is absent
      or not an array; `reviews` is `None` when it is absent or falsy, and
      otherwise an array. `writerEmail` is empty when absent. Timestamps are
      integers; `None` stands for `null`. */
  datatype Post = Post(
    title: string,
    writer: string,
    writerEmail: string,
    paymentMethod: string,
    image: string,
    likes: int,
    createdAt: Option<int>,
    eventDate: Option<int>,
    endAt: Option<int>,
    capacity: Field,
    maxMembers: Field,
    members: Field,
    membersLimit: Field,
    attendees: Option<seq<string>>,
    reviews: Option<seq<Review>>)

  /** `String(raw)` for a field that is neither absent nor null. */
  function FieldString(raw: Field): string
    requires raw.Str? || raw.Num?
  {
    if raw.Str? then raw.s else IntToString(raw.n)
  }

  /** `parsePositiveInt`: trim, drop every non-digit, read the rest in
      decimal; absent, null, digit-free and zero values give `None`. */
  function ParsePositiveInt(raw: Field): (r: Option<nat>)
    ensures r.Some? ==> r.value > 0
    ensures raw.Missing? || raw.Null? ==> r == None
  {
    if raw.Missing? || raw.Null? then None
    else
      var digits := KeepDigits(Trim(FieldString(raw)));
      if digits == [] then None
      else
        var n := DigitsValue(digits);
        if n > 0 then Some(n) else None
  }

  /** `a ?? b` */
  function Coalesce<T>(a: Option<T>, b: Option<T>): Option<T> {
    if a.Some? then a else b
  }

  /** The parsed capacity candidates, in the order the detail page consults
      them. */
  function ParsedCandidates(p: Post): seq<Option<nat>> {
    [ParsePositiveInt(p.capacity), ParsePositiveInt(p.maxMembers),
     ParsePositiveInt(p.members), ParsePositiveInt(p.membersLimit)]
  }

  /** `capacity ?? maxMembers ?? members ?? membersLimit`, each parsed. */
  function Capacity(p: Post): Option<nat> {
    Coalesce(ParsePositiveInt(p.capacity),
      Coalesce(ParsePositiveInt(p.maxMembers),
        Coalesce(ParsePositiveInt(p.members), ParsePositiveInt(p.membersLimit))))
  }

  /** `Array.isArray(post.attendees) ? post.attendees : []` */
  function AttendeeList(p: Post): seq<string> {
    if p.attendees.Some? then p.attendees.value else []
  }

  /** `capacity ? attendees.length >= capacity : false` */
  predicate IsFull(p: Post) {
    Capacity(p).Some? && |AttendeeList(p)| >= Capacity(p).value
  }

  /** `user?.name || user?.email`, with the empty string read as absent. */
  function Identifier(user: Option<User>): Option<string> {
    if user.None? then None
    else if user.value.name != "" then Some(user.value.name)
    else if user.value.email != "" then Some(user.value.email)
    else None
  }

  /** `isAuthed && !!userIdentifier && attendees.includes(userIdentifier)` */
  predicate Joined(isAuthed: bool, user: Option<User>, p: Post) {
    isAuthed && Identifier(user).Some? && Identifier(user).value in AttendeeList(p)
  }

  /** The soft invariant the join guard keeps: never more attendees than a
      known capacity. */
  predicate WithinCapacity(p: Post) {
    Capacity(p).Some? ==> |AttendeeList(p)| <= Capacity(p).value
  }

  /** No identity appears twice in a list. */
  predicate Distinct(s: seq<string>) {
    forall i, j :: 0 <= i < j < |s| ==> s[i] != s[j]
  }

  // ----- the parser -----

  lemma {:induction false} KeepDigitsConcat(a: string, b: string)
    ensures KeepDigits(a + b) == KeepDigits(a) + KeepDigits(b)
  {
    if a != [] {
      assert (a + b)[1..] == a[1..] + b;
      KeepDigitsConcat(a[1..], b);
    } else {
      assert a + b == b;
    }
  }

  lemma {:induction false} KeepDigitsNone(s: string)
    requires forall i :: 0 <= i < |s| ==> !IsDigit(s[i])
    ensures KeepDigits(s) == []
  {
    if s != [] {
      KeepDigitsNone(s[1..]);
    }
  }

  lemma WhitespaceIsNotDigit(s: string)
    requires forall i :: 0 <= i < |s| ==> IsWhitespace(s[i])
    ensures KeepDigits(s) == []
  {
    forall i | 0 <= i < |s| ensures !IsDigit(s[i]) {
      assert IsWhitespace(s[i]);
    }
    KeepDigitsNone(s);
  }

  lemma KeepDigitsStripStart(s: string)
    ensures KeepDigits(StripStart(s, IsWhitespace)) == KeepDigits(s)
  {
    var t := StripStart(s, IsWhitespace);
    var lead := s[..|s| - |t|];
    assert s == lead + t;
    assert forall i :: 0 <= i < |lead| ==> IsWhitespace(lead[i]);
    KeepDigitsConcat(lead, t);
    WhitespaceIsNotDigit(lead);
  }

  lemma KeepDigitsStripEnd(t: string)
    ensures KeepDigits(StripEnd(t, IsWhitespace)) == KeepDigits(t)
  {
    var u := StripEnd(t, IsWhitespace);
    var trail := t[|u|..];
    assert t == u + trail;
    assert forall i :: 0 <= i < |trail| ==> IsWhitespace(trail[i]);
    KeepDigitsConcat(u, trail);
    WhitespaceIsNotDigit(trail);
  }

  /** Trimming first does not change which digits are kept: whitespace is
      never a digit. */
  lemma KeepDigitsTrim(s: string)
    ensures KeepDigits(Trim(s)) == KeepDigits(s)
  {
    KeepDigitsStripStart(s);
    KeepDigitsStripEnd(StripStart(s, IsWhitespace));
  }

  /** A present value parses to exactly the decimal value of its digits,
      when that value is positive. */
  lemma ParseValue(raw: Field)
    requires raw.Str? || raw.Num?
    ensures var d := KeepDigits(FieldString(raw));
            ParsePositiveInt(raw) == if DigitsValue(d) > 0 then Some(DigitsValue(d)) else None
  {
    KeepDigitsTrim(FieldString(raw));
  }

  /** A present value parses to something exactly when it holds a nonzero
      digit; in particular a value without digits, or with only zeros
      ("0", "00명"), gives `None`. */
  lemma ParseDefinedIff(raw: Field)
    requires raw.Str? || raw.Num?
    ensures ParsePositiveInt(raw).Some? <==> !NoNonzeroDigit(FieldString(raw))
  {
    var s := FieldString(raw);
    ParseValue(raw);
    DigitsValueZero(KeepDigits(s));
    KeepDigitsNonzero(s);
  }

  /** Writing a positive number in decimal and parsing it gives it back. */
  lemma ParseDecimal(n: nat)
    requires n > 0
    ensures ParsePositiveInt(Str(NatToDecimal(n))) == Some(n)
  {
    ParseValue(Str(NatToDecimal(n)));
    KeepDigitsOfDigits(NatToDecimal(n));
    DecimalRoundTrip(n);
  }

  /** A numeric field parses to its magnitude: the minus sign of `String(n)`
      is dropped with the other non-digits, so -3 reads as 3, and 0 is absent. */
  lemma ParseNumber(n: int)
    ensures ParsePositiveInt(Num(n)) == if n == 0 then None else Some(if n < 0 then -n else n)
  {
    var m := if n < 0 then -n else n;
    var d := NatToDecimal(m);
    KeepDigitsOfDigits(d);
    if n < 0 {
      KeepDigitsConcat("-", d);
      assert KeepDigits("-") == [];
    }
    assert KeepDigits(FieldString(Num(n))) == d;
    ParseValue(Num(n));
    DecimalRoundTrip(m);
  }

  /** A count with a unit suffix, as in "8명", reads as the count. */
  lemma ParseWithUnit()
    ensures ParsePositiveInt(Str("8명")) == Some(8)
  {
    var s := "8명";
    ParseValue(Str(s));
    assert s[1..][1..] == [];
    assert KeepDigits(s[1..]) == [];
    assert KeepDigits(s) == "8";
    assert DigitsValue("8") == 8;
  }

  // ----- capacity resolution -----

  lemma CoalesceChain<T>(a: Option<T>, b: Option<T>, c: Option<T>, d: Option<T>)
    ensures var r, s := Coalesce(a, Coalesce(b, Coalesce(c, d))), [a, b, c, d];
            && (r.None? <==> forall i :: 0 <= i < 4 ==> s[i].None?)
            && (r.Some? ==> exists k :: 0 <= k < 4 && r == s[k] && forall j :: 0 <= j < k ==> s[j].None?)
  {
    var s := [a, b, c, d];
    if a.Some? {
      assert s[0] == a;
    } else if b.Some? {
      assert s[1] == b;
    } else if c.Some? {
      assert s[2] == c;
    } else {
      assert s[3] == d;
    }
  }

  /** The resolved capacity is the parse of the first candidate that parses,
      in the order capacity, maxMembers, members, membersLimit, and is
      absent only when none of them parses. */
  lemma CapacityFirstDefined(p: Post)
    ensures var cs := ParsedCandidates(p);
            && (Capacity(p).None? <==> forall i :: 0 <= i < 4 ==> cs[i].None?)
            && (Capacity(p).Some? ==>
                  exists k :: 0 <= k < 4 && Capacity(p) == cs[k] && forall j :: 0 <= j < k ==> cs[j].None?)
  {
    var cs := ParsedCandidates(p);
    CoalesceChain(cs[0], cs[1], cs[2], cs[3]);
    assert cs == [cs[0], cs[1], cs[2], cs[3]];
  }

  /** A parsable `capacity` field wins over every other candidate: with
      capacity 5 and members 8 the capacity is 5. */
  lemma CapacityFieldWins(p: Post, c: nat)
    requires c > 0 && p.capacity == Num(c)
    ensures Capacity(p) == Some(c)
  {
    ParseNumber(c);
  }

  /** With no capacity or maxMembers field, a positive `members` is the
      capacity: members 8 alone gives 8. */
  lemma MembersIsCapacity(p: Post, m: nat)
    requires p.capacity.Missing? && p.maxMembers.Missing? && m > 0 && p.members == Num(m)
    ensures Capacity(p) == Some(m)
  {
    ParseNumber(m);
  }

  /** Fullness at the boundary: a post whose capacity is `c` is full with `c`
      attendees and not full with one fewer. */
  lemma FullBoundary(p: Post, c: nat)
    requires Capacity(p) == Some(c)
    ensures |AttendeeList(p)| == c ==> IsFull(p)
    ensures |AttendeeList(p)| + 1 == c ==> !IsFull(p)
  {
  }

  /** A post without a readable capacity is never full. */
  lemma NoCapacityNeverFull(p: Post)
    requires Capacity(p).None?
    ensures !IsFull(p)
  {
  }

  /** A list that is not an array counts as no attendees, so a post whose
      attendees are unreadable is full only if its capacity were zero, which
      the parser never yields. */
  lemma UnreadableAttendeesNotFull(p: Post)
    requires p.attendees.None?
    ensures AttendeeList(p) == [] && !IsFull(p)
  {
  }
}
