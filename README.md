# Taste Link meetup rules in Dafny

Taste Link is a single-page web app for organising shared meals. A signed-in
user can create a meetup post with a member limit. Other users join or
leave it from the post's detail page and leave reviews there. This project
models the rules the app applies in the browser and proves properties of
them:

- **Capacity and membership** (`posts.dfy`, `detail.dfy`):
  - the tolerant positive-integer parser;
  - the order in which the four capacity fields are consulted;
  - fullness and the "already joined" test;
  - the join and cancel handlers, which re-read the record before writing it back, and their busy flag;
  - adding and removing reviews.
- **Post creation** (`create.dfy`):
  - clamping of the member and like counts;
  - the image address normaliser;
  - the two date checks;
  - the record the form posts.
- **Home banner** (`banner.dfy`): the three-slide carousel index moved by the timer and the two buttons.
- **Session** (`auth.dfy`): the signed-in user mirrored into local storage under `tl_user`.
- **Ownership guard** (`owner.dfy`): the `RequireOwner` component's ownership test and three-way render decision. The app's routes never mount it: the edit route is wrapped only in the sign-in guard, so in the app as written any signed-in user can open any post's edit page. The model describes the component as it would behave when mounted.
- **Scenarios** (`scenario.dfy`): several clicks in a row, such as filling a new post or joining twice.

Shared pieces:

- `text.dfy` holds the string functions the source takes from JavaScript: `trim`, the anchored quote-stripping expression, `\d`, `parseInt` and `String(n)`.
- `store.dfy` stands for the hosted REST resource. It is a map from id to record, read with `GET`, replaced with `PUT` and extended with `POST`.

Objects whose fields the source updates become classes:

- the detail page (`post`, `busy`);
- the carousel (`current`);
- the session provider and local storage;
- the ownership guard (`ok`);
- the store.

Each handler is a method whose postcondition ties the new state to a pure decision function, such as `JoinStepFor`, `CancelStepFor` or `DropIndex`. The properties are proved about those functions.

The detail page's handlers await two requests: a read and then a write. Each handler is split where it first awaits:

- `BeginRequest` holds the guards and sets `busy`.
- `FinishJoin` and `FinishCancel` hold the read, the decision, the write and the clearing of `busy`.

A parameter says which request fails, if any. A record missing from the store reads as a failed request.

When a join is refused as a duplicate or as full, the handler returns without adopting the record it just read. Cancel does the same when the user is not on the list.

## Model

| member | source | states |
|---|---|---|
| `Text.StripStart` | src/components1/PostCreatePage.jsx:50 | removes exactly the longest leading run of characters with the property (the `^"+` half of the quote strip, the leading half of `trim`); what is left starts with a character without it |
| `Text.StripEnd` | src/components1/PostCreatePage.jsx:50 | removes exactly the longest trailing run of characters with the property; what is left is a prefix that ends with a character without it |
| `Text.KeepDigits` | src/components1/PostDetailPage.jsx:84 | the result holds only ASCII digits and is no longer than the input |
| `Text.NatToDecimal` | src/components1/PostDetailPage.jsx:83 | `String(n)` of a non-negative integer is a non-empty string of digits without a leading zero |
| `Text.DecimalRoundTrip` | src/components1/PostDetailPage.jsx:86 | reading the decimal rendering of `n` with `parseInt` gives `n` back |
| `Text.DigitsValueZero` | src/components1/PostDetailPage.jsx:86-87 | a digit string reads as zero exactly when it has no nonzero digit |
| `Text.KeepDigitsNonzero` | src/components1/PostDetailPage.jsx:84 | removing the non-digits neither adds nor removes a nonzero digit |
| `Posts.ParsePositiveInt` | src/components1/PostDetailPage.jsx:81-88 | a defined result is positive; an absent or null field gives none |
| `Posts.KeepDigitsTrim` | src/components1/PostDetailPage.jsx:83-84 | trimming before the digit filter does not change the digits kept |
| `Posts.ParseValue` | src/components1/PostDetailPage.jsx:81-88 | a present field parses to the decimal value of its digits when that value is positive, and to none otherwise |
| `Posts.ParseDefinedIff` | src/components1/PostDetailPage.jsx:85-87 | a present field parses exactly when it contains a nonzero digit ("0", "00명" and digit-free text give none) |
| `Posts.ParseDecimal` | src/components1/PostDetailPage.jsx:81-88 | a positive number written in decimal parses back to itself |
| `Posts.ParseNumber` | src/components1/PostDetailPage.jsx:81-88 | a numeric field parses to its magnitude (the sign is dropped with the other non-digits); zero gives none |
| `Posts.ParseWithUnit` | src/components1/PostDetailPage.jsx:84-86 | a count with a unit suffix, "8명", parses to 8 |
| `Posts.CoalesceChain` | src/components1/PostDetailPage.jsx:91-95 | a chain of `??` is the first defined operand, and is undefined only when all are |
| `Posts.CapacityFirstDefined` | src/components1/PostDetailPage.jsx:91-95 | the capacity is the first of capacity, maxMembers, members, membersLimit that parses, and is absent only when none does |
| `Posts.CapacityFieldWins` | src/components1/PostDetailPage.jsx:92 | a positive `capacity` field decides the capacity whatever the other fields hold |
| `Posts.MembersIsCapacity` | src/components1/PostDetailPage.jsx:94 | without capacity and maxMembers, a positive `members` is the capacity |
| `Posts.FullBoundary` | src/components1/PostDetailPage.jsx:97-98 | with capacity c a post is full at c attendees and not at c-1 |
| `Posts.NoCapacityNeverFull` | src/components1/PostDetailPage.jsx:98 | a post without a readable capacity is never full |
| `Posts.UnreadableAttendeesNotFull` | src/components1/PostDetailPage.jsx:90-98 | a non-array attendee field counts as no attendees and the post is not full |
| `Detail.JoinAppendsOnce` | src/components1/PostDetailPage.jsx:125-137 | an accepted join appends the identity at the end: one entry longer, earlier entries in place, the identity exactly once, every other count unchanged |
| `Detail.JoinKeepsCapacity` | src/components1/PostDetailPage.jsx:129-132 | the list a join writes never exceeds a known capacity |
| `Detail.JoinKeepsDistinct` | src/components1/PostDetailPage.jsx:125-128 | a join never records an identity twice |
| `Detail.JoinTwiceRefused` | src/components1/PostDetailPage.jsx:125-128 | joining again after an accepted join is refused as a duplicate |
| `Detail.JoinedMeansDuplicate` | src/components1/PostDetailPage.jsx:99-100 | a user the page shows as joined is refused as a duplicate when the record has not changed |
| `Detail.Without` | src/components1/PostDetailPage.jsx:181-183 | the filtered list is no longer than the input and holds exactly the entries other than the two identities |
| `Detail.WithoutCounts` | src/components1/PostDetailPage.jsx:181-183 | every occurrence of the two identities goes; every other entry keeps its count |
| `Detail.WithoutKeepsOrder` | src/components1/PostDetailPage.jsx:181-183 | the surviving entries keep their order |
| `Detail.WithoutKeepsDistinct` | src/components1/PostDetailPage.jsx:181-183 | filtering a duplicate-free list leaves it duplicate-free |
| `Detail.CancelShrinks` | src/components1/PostDetailPage.jsx:176-183 | an accepted cancel removes at least one entry |
| `Detail.CancelKeepsInvariants` | src/components1/PostDetailPage.jsx:176-194 | a cancel keeps the list duplicate-free and within capacity |
| `Detail.JoinThenCancel` | src/components1/PostDetailPage.jsx:176-183 | cancelling right after a join restores the list the join started from |
| `Detail.DropIndexExactly` | src/components1/PostDetailPage.jsx:409-411 | deleting review i keeps the reviews before it and moves the ones after it up by one |
| `Detail.AddThenRemove` | src/components1/PostDetailPage.jsx:404-442 | a user may delete the review they added, and deleting it restores the earlier list |
| `Detail.DetailPage.constructor` | src/components1/PostDetailPage.jsx:21-26 | the page starts with no record (loading) and not busy |
| `Detail.DetailPage.Load` | src/components1/PostDetailPage.jsx:38-54 | the page adopts the stored record, or keeps its copy when the read fails |
| `Detail.DetailPage.BeginRequest` | src/components1/PostDetailPage.jsx:103-114 | signed-out goes to login, a missing identifier is refused, a click while busy is dropped; otherwise busy is set |
| `Detail.DetailPage.FinishJoin` | src/components1/PostDetailPage.jsx:116-156 | each outcome happens exactly when its condition on the fresh read holds; only an accepted join writes (the identity appended) and is adopted; busy is cleared on every path |
| `Detail.DetailPage.FinishCancel` | src/components1/PostDetailPage.jsx:173-202 | not joined, failed and done each happen exactly when their condition holds; only done writes the filtered list and adopts it; busy is cleared |
| `Detail.DetailPage.Join` | src/components1/PostDetailPage.jsx:103-157 | the whole handler: the outcome is one of the seven the join handler returns, each exactly when its condition on the guards and the fresh read holds; no write unless done; busy as it was before |
| `Detail.DetailPage.Cancel` | src/components1/PostDetailPage.jsx:160-203 | the whole cancel handler: the outcome is one of its six, each exactly when its condition holds; no write unless done; busy as it was before |
| `Detail.DetailPage.SubmitReview` | src/components1/PostDetailPage.jsx:433-451 | a blank text changes nothing; otherwise the page's copy with one review appended is written and adopted |
| `Detail.DetailPage.RemoveReview` | src/components1/PostDetailPage.jsx:404-419 | only the review's writer, after confirming, removes it; the page's copy without that review is written and adopted |
| `Store.PostStore.Get` | src/components1/PostDetailPage.jsx:117 | reading an id returns its record, or a failure for an unknown id |
| `Store.PostStore.Put` | src/components1/PostDetailPage.jsx:138-143 | replacing a known id's record changes that entry only; an unknown id changes nothing |
| `Store.PostStore.Create` | src/components1/PostCreatePage.jsx:79-81 | posting a record stores it under an id not used before and leaves the others alone |
| `Create.DefaultImageIsHttp` | src/components1/PostCreatePage.jsx:52 | the fallback image address starts with "http" |
| `Create.SanitizedMembers` | src/components1/PostCreatePage.jsx:47 | the member count sent is the entered value when that is at least 1, and 1 for a blank or smaller entry |
| `Create.SanitizedLikes` | src/components1/PostCreatePage.jsx:48 | the like count sent is the entered value when that is not negative, and 0 for a blank or negative entry |
| `Create.MembersRulesAgree` | src/components1/PostCreatePage.jsx:140-143 | a member value the field rules accept reaches the record unchanged; one the rule refuses would be raised to 1 |
| `Create.NormalizeImageInput` | src/components1/PostCreatePage.jsx:240-244 | the field's value after a change is empty or starts with "http" |
| `Create.NormalizeImagePrefix` | src/components1/PostCreatePage.jsx:240-244 | the result is empty exactly when the stripped text is; text already starting with "http" is kept; other text gets exactly `https://` in front |
| `Create.NormalizeImageNotIdempotent` | src/components1/PostCreatePage.jsx:241 | for an address followed by a space and a quote, one pass keeps the space and a second pass removes it, so the normaliser is not idempotent |
| `Create.DateProblem` | src/components1/PostCreatePage.jsx:54-66 | an event date before today is refused first; otherwise an end date after the event date is refused; otherwise the dates pass |
| `Create.AbsentDatesPass` | src/components1/PostCreatePage.jsx:56-63 | without an event date the dates are never refused |
| `Create.Sanitize` | src/components1/PostCreatePage.jsx:46-52 | the clamped counts, and an image that starts with "http": the normalised field, or the default when it is empty |
| `Create.Submit` | src/components1/PostCreatePage.jsx:45-93 | a date problem is reported and nothing is written; otherwise a delivered request stores the sanitised record under a new id, and a failed one stores nothing |
| `Create.CreatedCapacity` | src/components1/PostCreatePage.jsx:68-76 | a created post has the sanitised member count as its capacity, no attendees, and is not full |
| `Banner.Next` | src/components1/AutoBanner.jsx:50-52 | the next index is a valid slide index |
| `Banner.Prev` | src/components1/AutoBanner.jsx:47-49 | the previous index is a valid slide index |
| `Banner.Wraps` | src/components1/AutoBanner.jsx:47-52 | next moves up by one and wraps the last slide to the first; prev moves down by one and wraps the first slide to the last |
| `Banner.PrevNextInverse` | src/components1/AutoBanner.jsx:47-52 | prev undoes next and next undoes prev |
| `Banner.AdvanceWithinRound` | src/components1/AutoBanner.jsx:38-43 | k ticks from i within one round land on i+k, wrapped once |
| `Banner.FullCycle` | src/components1/AutoBanner.jsx:38-43 | n ticks bring the carousel back to the slide it started on |
| `Banner.Carousel.constructor` | src/components1/AutoBanner.jsx:35 | the carousel starts on the first slide |
| `Banner.Carousel.HandleNext` | src/components1/AutoBanner.jsx:50-52 | the index advances modulo the slide count and stays valid |
| `Banner.Carousel.HandlePrev` | src/components1/AutoBanner.jsx:47-49 | the index steps back modulo the slide count and stays valid |
| `Banner.Carousel.Tick` | src/components1/AutoBanner.jsx:38-43 | the timer advances the index like the next button |
| `Banner.CycleAndBack` | src/components1/AutoBanner.jsx:38-52 | three ticks, then next and prev, leave the carousel where it started |
| `Auth.AuthProvider.constructor` | src/auth/AuthContext.jsx:6-7 | nobody is signed in at first |
| `Auth.AuthProvider.Init` | src/auth/AuthContext.jsx:9-15 | a stored session is adopted; without one the state is unchanged; from the initial state the provider ends in step with storage |
| `Auth.AuthProvider.Login` | src/auth/AuthContext.jsx:18-22 | any user is stored under the key and adopted; the provider is in step with storage |
| `Auth.AuthProvider.Logout` | src/auth/AuthContext.jsx:25-29 | the key is removed, the state cleared, and the provider is in step with storage |
| `Auth.ReloadAfterLogin` | src/auth/AuthContext.jsx:9-22 | a provider mounted after login on the same storage comes up signed in as that user |
| `Auth.ReloadAfterLogout` | src/auth/AuthContext.jsx:9-29 | a provider mounted after logout comes up signed out |
| `Owner.EmailTakesPrecedence` | src/auth/RequireOwner.jsx:18 | when the record names an e-mail, ownership holds exactly when the user's e-mail matches it |
| `Owner.NameWhenNoEmail` | src/auth/RequireOwner.jsx:18 | without a recorded e-mail, ownership holds exactly when the user's name is the writer |
| `Owner.LoggedOutNeverOwns` | src/auth/RequireOwner.jsx:18 | a signed-out visitor owns no post |
| `Owner.Verdict` | src/auth/RequireOwner.jsx:12-21 | a failed fetch is a refusal; a fetched record gives exactly the ownership test |
| `Owner.PostPath` | src/auth/RequireOwner.jsx:26 | the redirect address is `/post/` followed by digits that read back as the post's id |
| `Owner.RenderFor` | src/auth/RequireOwner.jsx:25-27 | nothing while loading, the guarded page exactly when allowed, and otherwise a redirect to the post's own page |
| `Owner.OwnerGuard.constructor` | src/auth/RequireOwner.jsx:10 | the guard starts in the loading state |
| `Owner.OwnerGuard.Check` | src/auth/RequireOwner.jsx:12-23 | the verdict is true exactly when the fetch succeeds, the record exists and the user owns it |
| `Owner.SignedOutVisit` | src/auth/RequireOwner.jsx:12-27 | a signed-out visitor is always redirected to the post's own page |
| `Scenario.JoinAll` | src/components1/PostDetailPage.jsx:125-148 | a run of joins does not change the post's writer |
| `Scenario.JoinAllAppends` | src/components1/PostDetailPage.jsx:125-137 | distinct newcomers that fit are all admitted in order, and the capacity does not move |
| `Scenario.FillUp` | src/components1/PostDetailPage.jsx:125-132 | an empty post with capacity m is full after m distinct joins; then any newcomer is refused as full and any member as a duplicate |
| `Scenario.CreateThenFill` | src/components1/PostCreatePage.jsx:47 | a post created with m members behaves the same: m distinct joins fill it, after which newcomers are refused as full and members as duplicates |
| `Scenario.CreatorOwns` | src/auth/RequireOwner.jsx:18 | the ownership guard, when mounted for a post the form created, lets through exactly the users named as the form's writer, whatever joins came after |
| `Scenario.JoinTwice` | src/components1/PostDetailPage.jsx:103-157 | when a first join click goes through, a second by the same user is refused as already joined |
| `Scenario.StaleJoinsLoseUpdate` | src/components1/PostDetailPage.jsx:116-142 | two joins decided on the same read both pass; the later full-record write drops the earlier user, so the list grows by one only |

## Left out

- Network and JSON:
  - HTTP status codes, response bodies and JSON parsing are not modelled.
  - A request either succeeds or fails, and a parameter says which.
  - The store echoes back what was written.
  - A missing record reads as a failed request. The app itself would receive and adopt an error body.
- The users list that the detail page loads beside the post, and the profile pop-up built from it, are not modelled. Both requests are awaited together, so a failed users request also stops the post from being adopted; `Detail.DetailPage.Load`'s `net` parameter stands for either request failing.
- Delete, edit navigation, date formatting, the "updated" toast timer and the like button are not part of this model. The same holds for the edit page, the login page, the map and place finder, the seed data and the login-redirect route guard.
- Browser dialogs: `alert` appears as the returned outcome, and `confirm` is the `confirmed` parameter.
- `encodeURIComponent` in the login redirect is not modelled. The redirect is the `RedirectToLogin` outcome.
- `Posts.ParsePositiveInt`: IEEE double behaviour is not modelled:
  - `Number.isFinite` is not modelled, because integers here are unbounded;
  - the precision loss of `parseInt` above 2^53 is not modelled;
  - exponent forms of `String(n)` for huge or fractional numbers are not modelled.
  - Numeric fields are integers.
- Form numbers: `Number()` on non-numeric text (NaN) is not modelled. The number inputs deliver the empty string or an integer.
- Dates are integer timestamps:
  - an unparsable date (Invalid Date) is not modelled;
  - the ISO conversion of the dates in the posted record is not modelled.
  - "Today" is a parameter, as is the current time.
- React scheduling:
  - The `busy` flag is modelled as a field read at the start of a click. The stale closure, by which two clicks in the same render could both see `busy` false, is not modelled.
  - Concurrent users appear only as the pure `Scenario.StaleJoinsLoseUpdate` lemma, not as interleaved method calls.
  - The five-second interval is modelled as the `Tick` method, without time.
- `Owner.IsOwner`: the writer is always a string in the model. The source compares an absent `writer` with an absent `user?.name` and would let a signed-out visitor through in that case.
- Detail.DetailPage.SubmitReview: a stored `reviews` value that is present and truthy but not an array (an object, a number or a string) is not modelled. The model reads it like an absent one and appends to an empty list. The source instead throws at the spread on src/components1/PostDetailPage.jsx:442 (an object or a number) and writes nothing, or fails to render the review list at line 393 (a non-empty string).
- The review handlers have no `try`/`catch`, so a failed request there leaves the page unchanged. This is modelled as a failed write that changes nothing.
- Local storage holds the user value itself rather than its JSON text. `JSON.parse(JSON.stringify(u))` is taken to give `u` back.
