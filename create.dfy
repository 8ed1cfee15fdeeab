/**
 * The post creation form: its `members` field rules, the image field's
 * normaliser, and the submit handler that clamps the numbers, cleans the
 * image address, checks the two dates against each other and against
 * today, and only then posts the record.
 */
module Create {
  import opened Text
  import opened Posts
  import opened Store

  /** A number input of the form: the empty string or an integer. */
  datatype NumberInput = Blank | Value(n: int)

  /** The form's values. Dates are timestamps; `None` is an empty field. */
  datatype FormValues = FormValues(
    writer: string,
    title: string,
    members: NumberInput,
    likes: NumberInput,
    eventDate: Option<int>,
    endAt: Option<int>,
    paymentMethod: string,
    image: string)

  const DefaultImage: string := "https://picsum.photos/seed/default/600/400"

  lemma DefaultImageIsHttp()
    ensures StartsWith(DefaultImage, "http")
  {
    var d := DefaultImage;
    assert d[0] == 'h' && d[1] == 't' && d[2] == 't' && d[3] == 'p';
    assert d[..4] == "http";
  }

  // ----- field rules -----

  /** `required` on `members`: an empty field is refused. */
  predicate MembersPresent(v: NumberInput) {
    v.Value?
  }

  /** The `validate` rule on `members`: empty, or a number of at least 1. */
  predicate MembersRule(v: NumberInput) {
    v.Blank? || v.n >= 1
  }

  /** `values.members === "" ? 1 : Math.max(1, Number(values.members))` */
  function SanitizedMembers(v: NumberInput): (m: int)
    ensures m >= 1
    ensures v.Value? && v.n >= 1 ==> m == v.n
    ensures v.Blank? ==> m == 1
    ensures v.Value? && v.n < 1 ==> m == 1
  {
    if v.Blank? then 1 else if v.n > 1 then v.n else 1
  }

  /** `values.likes === "" ? 0 : Math.max(0, Number(values.likes))` */
  function SanitizedLikes(v: NumberInput): (k: int)
    ensures k >= 0
    ensures v.Value? && v.n >= 0 ==> k == v.n
    ensures v.Blank? ==> k == 0
    ensures v.Value? && v.n < 0 ==> k == 0
  {
    if v.Blank? then 0 else if v.n > 0 then v.n else 0
  }

  /** A `members` value the form lets through is at least 1 and reaches the
      record unchanged; one it refuses would have been raised to 1. */
  lemma MembersRulesAgree(v: NumberInput)
    ensures MembersPresent(v) && MembersRule(v) ==> v.n >= 1 && SanitizedMembers(v) == v.n
    ensures !MembersRule(v) ==> SanitizedMembers(v) == 1
  {
  }

  /** The image field's `onChange`: trim, strip quote runs at both ends,
      and put `https://` in front of a non-empty value that does not start
      with "http". */
  function NormalizeImageInput(s: string): (v: string)
    ensures v == "" || StartsWith(v, "http")
  {
    var t := StripQuotes(Trim(s));
    if t != "" && !StartsWith(t, "http") then PrefixedStartsWith(t); "https://" + t else t
  }

  /** The normaliser leaves a value that already starts with "http" as the
      strip left it, and otherwise prefixes exactly `https://`. */
  lemma NormalizeImagePrefix(s: string)
    ensures var t := StripQuotes(Trim(s));
            && (NormalizeImageInput(s) == "" <==> t == "")
            && (StartsWith(t, "http") ==> NormalizeImageInput(s) == t)
            && (t != "" && !StartsWith(t, "http") ==> NormalizeImageInput(s) == "https://" + t)
  {
  }

  lemma QuoteAfterSpacePass(t: string, u: string, s: string)
    requires StartsWith(t, "http") && !IsQuote(t[|t| - 1])
    requires u == t + [' '] && s == u + ['"']
    ensures StripQuotes(Trim(s)) == u
  {
    assert s[..|s| - 1] == u && u[..|u| - 1] == t;
    assert s[0] == t[0];
    StripStartStops(s, IsWhitespace);
    StripEndStops(s, IsWhitespace);
    StripStartStops(s, IsQuote);
    StripEndDrops(s, IsQuote);
    StripEndStops(u, IsQuote);
  }

  lemma TrailingSpacePass(t: string, u: string)
    requires StartsWith(t, "http") && !IsWhitespace(t[|t| - 1]) && !IsQuote(t[|t| - 1])
    requires u == t + [' ']
    ensures StripQuotes(Trim(u)) == t
  {
    assert u[..|u| - 1] == t;
    assert u[0] == t[0];
    StripStartStops(u, IsWhitespace);
    StripEndDrops(u, IsWhitespace);
    StripEndStops(t, IsWhitespace);
    StripStartStops(t, IsQuote);
    StripEndStops(t, IsQuote);
  }

  /** Normalising is not idempotent: for an address `t` followed by a space
      and a closing quote, the quote goes but the space stays (the trim ran
      before the strip), and a second pass trims the space. */
  lemma NormalizeImageNotIdempotent(t: string, u: string, s: string)
    requires StartsWith(t, "http") && !IsWhitespace(t[|t| - 1]) && !IsQuote(t[|t| - 1])
    requires u == t + [' '] && s == u + ['"']
    ensures NormalizeImageInput(s) == u && NormalizeImageInput(u) == t && u != t
  {
    QuoteAfterSpacePass(t, u, s);
    TrailingSpacePass(t, u);
    assert StartsWith(u, "http") by {
      assert u[..4] == t[..4];
    }
  }

  // ----- dates -----

  datatype FieldError = EventDateInPast | EndAfterEvent

  /** The two date checks, in the order the submit handler runs them. */
  function DateProblem(ev: Option<int>, end: Option<int>, today0: int): (r: Option<FieldError>)
    ensures r == Some(EventDateInPast) <==> ev.Some? && ev.value < today0
    ensures r == Some(EndAfterEvent) <==>
              (ev.Some? ==> ev.value >= today0) && ev.Some? && end.Some? && end.value > ev.value
    ensures r == None <==>
              (ev.Some? ==> ev.value >= today0) && (ev.Some? && end.Some? ==> end.value <= ev.value)
  {
    if ev.Some? && ev.value < today0 then Some(EventDateInPast)
    else if end.Some? && ev.Some? && end.value > ev.value then Some(EndAfterEvent)
    else None
  }

  /** The date checks only constrain the dates that are present: with no
      event date nothing is refused, and an end date alone is never checked. */
  lemma AbsentDatesPass(end: Option<int>, today0: int)
    ensures DateProblem(None, end, today0) == None
  {
  }

  // ----- submit -----

  /** `{ ...values, members, likes, image, createdAt, eventDate, endAt }`
      as the store keeps it; the form sets no other capacity field, no
      attendees and no reviews. */
  function RecordOf(values: FormValues, members: int, likes: int, image: string, now: int): Post {
    Post(
      title := values.title,
      writer := values.writer,
      writerEmail := "",
      paymentMethod := values.paymentMethod,
      image := image,
      likes := likes,
      createdAt := Some(now),
      eventDate := values.eventDate,
      endAt := values.endAt,
      capacity := Missing,
      maxMembers := Missing,
      members := Num(members),
      membersLimit := Missing,
      attendees := None,
      reviews := None)
  }

  /** The clean-up steps at the top of `onSubmit`. */
  method Sanitize(values: FormValues) returns (members: int, likes: int, image: string)
    ensures members == SanitizedMembers(values.members) && members >= 1
    ensures likes == SanitizedLikes(values.likes) && likes >= 0
    ensures StartsWith(image, "http")
    ensures image == if NormalizeImageInput(values.image) == "" then DefaultImage
                     else NormalizeImageInput(values.image)
  {
    members := SanitizedMembers(values.members);
    likes := SanitizedLikes(values.likes);
    image := StripQuotes(Trim(values.image));
    if image != "" && !StartsWith(image, "http") {
      PrefixedStartsWith(image);
      image := "https://" + image;
    }
    if image == "" {
      image := DefaultImage;
      DefaultImageIsHttp();
    }
  }

  datatype SubmitResult = Rejected(error: FieldError) | Posted(id: PostId) | PostFailed

  /** `onSubmit`: sanitise, refuse bad dates without writing, otherwise
      post the record (`delivered` is whether the request succeeds). */
  method Submit(store: PostStore, values: FormValues, today0: int, now: int, delivered: bool)
    returns (r: SubmitResult)
    requires store.Valid()
    modifies store
    ensures store.Valid()
    ensures r.Rejected? <==> DateProblem(values.eventDate, values.endAt, today0).Some?
    ensures r.Rejected? ==> r.error == DateProblem(values.eventDate, values.endAt, today0).value
    ensures r.PostFailed? <==> DateProblem(values.eventDate, values.endAt, today0).None? && !delivered
    ensures !r.Posted? ==> store.posts == old(store.posts)
    ensures r.Posted? ==>
              && r.id !in old(store.posts)
              && var image := if NormalizeImageInput(values.image) == "" then DefaultImage
                              else NormalizeImageInput(values.image);
                 store.posts == old(store.posts)[r.id := RecordOf(values, SanitizedMembers(values.members),
                                                                  SanitizedLikes(values.likes), image, now)]
  {
    var members, likes, image := Sanitize(values);
    var ev, end := values.eventDate, values.endAt;
    if ev.Some? && ev.value < today0 {
      return Rejected(EventDateInPast);
    }
    if end.Some? && ev.Some? && end.value > ev.value {
      return Rejected(EndAfterEvent);
    }
    if !delivered {
      return PostFailed;
    }
    var id := store.Create(RecordOf(values, members, likes, image, now));
    r := Posted(id);
  }

  /** A created post shows no attendees and the sanitised `members` as its
      capacity on the detail page. */
  lemma CreatedCapacity(values: FormValues, likes: int, image: string, now: int)
    ensures var p := RecordOf(values, SanitizedMembers(values.members), likes, image, now);
            Capacity(p) == Some(SanitizedMembers(values.members)) && AttendeeList(p) == [] && !IsFull(p)
  {
    var p := RecordOf(values, SanitizedMembers(values.members), likes, image, now);
    MembersIsCapacity(p, SanitizedMembers(values.members));
  }
}
