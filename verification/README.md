# TripFind waitlist: signup route and landing-page carousel

A Dafny model of the two pieces of logic in the TripFind waitlist site.

1. **The signup route** (`POST` in `app/api/signup/route.js`). The handler:
   - reads the `email` field of a JSON body;
   - normalises it with `(body?.email || "").trim().toLowerCase()`;
   - checks it against `^[^\s@]+@[^\s@]+\.[^\s@]+$`;
   - checks that both Supabase environment variables are set;
   - inserts the address into the `pre_signups` table.

   A unique violation (SQLSTATE `23505`) counts as success ("already on the
   waitlist"). Every other error the store reports becomes a 500 status.
   Anything that throws inside the `try` becomes a 400 status with "Invalid
   request.". That includes parsing the body, `.trim()` on a non-string,
   `createClient` and the awaited insert.
2. **The landing page's state machine** (`app/page.tsx`):
   - the product-preview carousel, with `goTo`, `next` and `prev`;
   - the swipe gesture read by `onPointerDown` and `onPointerUp`;
   - the rotating testimonial quote.

The project has four modules:

- `Wrappers` (`wrappers.dfy`): `Option`.
- `Email` (`email.dfy`):
  - JavaScript's whitespace set, as used by both `\s` and `trim`;
  - `Trim`, `ToLower` and `Normalize`;
  - `isValidEmail`, written as a left-to-right scan (`Run`);
  - two independent readings of the pattern. `MatchesPattern` is the
    three-run split, read literally. `WellFormedAddress` is the plain-words
    reading: no whitespace, exactly one `@` with something before it, and a
    dot inside the domain.
  - Lemmas proving that the scan and both readings agree.
- `Signup` (`signup.dfy`):
  - `Admit` covers lines 11-27 and `ReportInsert` covers lines 33-41.
    `Post` is the whole decision table for a given insert outcome.
  - The store is the `pre_signups` rows as a sequence, with the unique
    constraint applied by `InsertRow`. An insert ends `Inserted`,
    `Failed(error)` or `Threw`.
  - `Submit` is one request against that table. `SubmitAll` is a run of
    requests, one interleaving of concurrent requests.
  - Lemmas for the invariant, for duplicates and for concrete scenarios.
- `Page` (`page.dfy`):
  - JavaScript's truncating `%`, and the successor and predecessor on a ring;
  - the carousel's `Next`, `Prev` and `GoTo`;
  - the swipe classifier and pointer handlers;
  - quote rotation;
  - an event-driven `Step` with a validity invariant over any sequence of
    events.

Two consequences of the code that are easy to miss:

- A truthy `email` field that is not a string (`{"email": 5}`,
  `{"email": {}}`) also gets 400 "Invalid request.", because `.trim()`
  throws inside the `try`. A falsy non-string field (`null`, `0`, `false`)
  becomes `""` and gets "Please enter a valid email." (`Signup.EmailOf`,
  `Signup.Post`).
- The pattern excludes `@` from all three runs, so an address has exactly
  one `@` (`Email.WellFormedAddress`).

## Model

| member | source | states |
|---|---|---|
| Email.Trim | app/api/signup/route.js:13 | The result has no whitespace at either end and is never longer than its input. |
| Email.TrimPads | app/api/signup/route.js:13 | `trim` removes only whitespace, and only from the two ends: the input is the result padded on both sides by whitespace. |
| Email.TrimUnique | app/api/signup/route.js:13 | The trimmed string is unique: any string without whitespace at its ends that the input pads with whitespace is the result of `trim`. |
| Email.TrimIdempotent | app/api/signup/route.js:13 | Trimming twice is the same as trimming once. |
| Email.LowerChar | app/api/signup/route.js:13 | Lower-casing one character turns each capital into its own small letter, the k-th capital into the k-th small letter. It leaves no upper-case letter, keeps whitespace, `@` and `.` exactly where they were, and changes nothing that was not upper case. |
| Email.LowerCharSame | app/api/signup/route.js:13 | Two characters fold to the same character exactly when they are the same letter up to ASCII case. Both directions are proved. |
| Email.ToLower | app/api/signup/route.js:13 | Lower-casing keeps the length and folds each position on its own by `LowerChar`; `Email.ToLowerSame` is its all-inputs partner, saying exactly which strings fold alike. |
| Email.ToLowerSame | app/api/signup/route.js:13 | Two strings lower-case to the same string exactly when they have the same length and agree position by position up to ASCII case. |
| Email.Normalize | app/api/signup/route.js:13 | The normalised address has no whitespace at its ends, no upper-case letter, and is never longer than the raw field. |
| Email.NormalizeStripsAndFolds | app/api/signup/route.js:13 | The normalised address is the lower-cased core of the field, once whitespace padding is removed from both ends. |
| Email.NormalizeSame | app/api/signup/route.js:13 | Two fields normalise to the same address exactly when their trimmed cores agree position by position up to ASCII case. |
| Email.PaddedCaseVariants | app/api/signup/route.js:13 | Two fields that pad case variants of one trimmed core with any whitespace normalise to the same address. |
| Email.NormalizedIsFixed | app/api/signup/route.js:13 | A string with no whitespace at its ends and no upper case is already normal. |
| Email.NormalizeIdempotent | app/api/signup/route.js:13 | Normalising twice is the same as normalising once. |
| Email.IsValidEmail | app/api/signup/route.js:6-8 | The check accepts exactly the well-formed addresses: no whitespace, a single `@` with at least one character before it, and, after the `@`, a dot with at least one domain character before it and one after it. |
| Email.PatternIsWellFormed | app/api/signup/route.js:7 | The literal reading of the anchored pattern (three runs of non-whitespace, non-`@` characters around an `@` and a dot) is equivalent to the plain-words reading. Both directions are proved. |
| Email.AssembledIsWellFormed | app/api/signup/route.js:7 | Any three non-empty runs of address characters joined as `local@host.suffix` form an accepted address. |
| Email.MissingAtOrDot | app/api/signup/route.js:7 | A string without an `@`, or without a dot, is never accepted. |
| Email.IsValidEmailMatchesPattern | app/api/signup/route.js:7 | The one-pass scan ends in its accepting phase exactly when the pattern, read literally, matches. |
| Email.SuffixAccepts | app/api/signup/route.js:7 | After the dot, the scan accepts exactly the strings of address characters: the final `[^\s@]+` plus the `$` anchor. |
| Email.DomainAccepts | app/api/signup/route.js:7 | In the domain, the scan accepts exactly the address characters that contain a dot with at least one character after it. |
| Email.LocalAccepts | app/api/signup/route.js:7 | In the local part, the scan accepts exactly the strings made of address characters, an `@`, and a domain of the above shape. |
| Signup.EmailOf | app/api/signup/route.js:13 | A falsy `email` field gives `""`. A string field gives its normal form. The evaluation throws exactly for a truthy field that is not a string, since it has no `trim`. |
| Signup.Admit | app/api/signup/route.js:11-27 | An unparseable body gets 400 "Invalid request.". The handler goes on to insert exactly when three things hold: the field normalises, the result is a well-formed address, and both variables are set and non-empty. It inserts the normalised address. Otherwise it answers with an error of status 400 or 500. |
| Signup.ReportInsert | app/api/signup/route.js:29-44 | Status 200 is given exactly for a successful insert or a `23505` violation, and the `ok` payload exactly with status 200. A success says "You're on the waitlist!". A duplicate says "already on the waitlist". Any other reported error is a 500 whose message is "Supabase error: " followed by the store's message. A throw from `createClient` or the insert gets 400 "Invalid request.". |
| Signup.Post | app/api/signup/route.js:10-45 | The decision table. An unparseable body, or a truthy non-string field, gets 400 "Invalid request.". A falsy field or a malformed address gets 400 "Please enter a valid email.". A missing variable gets 500. An admitted request gets exactly the response `ReportInsert` gives for the insert's outcome. The status is always 200, 400 or 500, and the payload is `ok` exactly at 200. |
| Signup.InsertRow | app/api/signup/route.js:29-31 | An unrelated failure or throw is the outcome and leaves the table alone. Otherwise the insert succeeds exactly when the address is absent, and a failure is always `23505`. A success appends the row, and the unique constraint is kept. |
| Signup.Submit | app/api/signup/route.js:10-41 | A request adds at most one row, only at the end. When it does, the answer is "You're on the waitlist!" and the row is the admitted normalised address. A non-200 answer never changes the table. |
| Signup.SubmitKeepsInvariant | app/api/signup/route.js:13-31 | Any request keeps the table free of duplicates, with every row trimmed, lower-case and well-formed. |
| Signup.SubmitStoresNormalForm | app/api/signup/route.js:13-31 | A row is added only for a string `email` field, and the row is that field normalised. |
| Signup.SubmitFollowsPost | app/api/signup/route.js:10-45 | Running a request against the table answers as the decision table does for the outcome the table reports. |
| Signup.MissingAtOrDotRejected | app/api/signup/route.js:13-17 | A string field whose normal form lacks an `@` or a dot gets 400 "Please enter a valid email.", whatever the configuration and store, and the table is unchanged. |
| Signup.UnconfiguredRejected | app/api/signup/route.js:19-27 | With either variable unset or empty, every well-formed address gets 500 "Server not configured: missing Supabase keys.", and the table is unchanged. |
| Signup.SubmitFaulted | app/api/signup/route.js:29-44 | Once admitted, a failure unrelated to the row is answered as that outcome, never with status 200, and the table is unchanged. |
| Signup.SubmitThrew | app/api/signup/route.js:29-44 | Once admitted, a request whose client or insert throws gets 400 "Invalid request." and leaves the table unchanged. |
| Signup.AlreadyJoinedOnlyWhenStored | app/api/signup/route.js:33-37 | The "already on the waitlist" answer is given only to an admitted request whose normalised address the table already holds. |
| Signup.ThrowingStoreRejected | app/api/signup/route.js:29-44 | A well-formed address with both variables set whose client or insert throws gets 400 "Invalid request.", and the table is unchanged. |
| Signup.SubmitAll | app/api/signup/route.js:10-45 | A run of requests gives one response per request. The table only grows, by at most one row per request. |
| Signup.SubmitAllKeepsInvariant | app/api/signup/route.js:31-39 | The table invariant holds after any sequence of requests. |
| Signup.SubmitAddress | app/api/signup/route.js:31-41 | With the store configured and reachable, an address that is new joins and is appended. An address that is present is told "already on the waitlist" and the table is unchanged. |
| Signup.AdmitAddress | app/api/signup/route.js:13-27 | A string field whose normal form is well-formed, with the store configured, goes on to be inserted in its normal form. |
| Signup.SubmitInsert | app/api/signup/route.js:31-41 | Once admitted and with no unrelated failure, only the unique constraint decides between "joined" and "already on the waitlist". |
| Signup.SubmitTwice | app/api/signup/route.js:13-41 | Two spellings of one address that normalise the same: the first joins and the second is told it is already on the list. The table then holds the address exactly once. |
| Signup.RepeatedSubmissions | app/api/signup/route.js:31-41 | Any number of requests for one new address: exactly the first is told it joined, and every later one that it is already on the list. The table gains the address exactly once. |
| Signup.PaddedMixedCaseScenario | app/api/signup/route.js:13-41 | `"  User@Example.com "` is stored as `user@example.com`, and submitting it again gets "already on the waitlist". |
| Signup.NotAnEmailScenario | app/api/signup/route.js:15-17 | `"not-an-email"` gets 400 "Please enter a valid email.", whatever the configuration and store. |
| Signup.MalformedRejected | app/api/signup/route.js:13-17 | A string field whose normal form is not an address gets 400 "Please enter a valid email.", whatever the configuration and the store. |
| Page.JsRem | app/page.tsx:147 | JavaScript's `%`: the remainder is smaller in size than the divisor and has the sign of the dividend. |
| Page.Succ | app/page.tsx:147 | `(i + 1) % n` stays in range and wraps from the last index to the first. |
| Page.Pred | app/page.tsx:152 | `(i - 1 + n) % n` stays in range and wraps from the first index to the last. |
| Page.Next | app/page.tsx:145-148 | `next` animates forwards and moves to the index whose predecessor is the current one, so `prev` would undo it. |
| Page.Prev | app/page.tsx:150-153 | `prev` animates backwards and moves to the index whose successor is the current one, so `next` would undo it. |
| Page.GoTo | app/page.tsx:139-143 | `goTo(i)` lands on `i`. It does nothing when `i` is the current slide, and otherwise animates forwards exactly when `i` is further on. |
| Page.GoToNeighbour | app/page.tsx:139-153 | Away from the wrap-around, clicking the neighbouring dot is the same transition as the arrow button. |
| Page.AdvanceWithinLap | app/page.tsx:147 | Within one lap, `k` steps from `i` reach `i + k`, wrapped at most once past the end. |
| Page.AdvancePeriodic | app/page.tsx:147 | `n` more steps round a ring of `n` change nothing. |
| Page.AdvanceCycles | app/page.tsx:147 | Stepping returns to the start after `n` steps and reaches every position in fewer. |
| Page.NextTimesCycles | app/page.tsx:145-160 | `k` calls of `next` (button presses or autoplay ticks) move the slide `k` steps round the ring, animating forwards. After `SlideCount` of them the carousel is back on its starting slide. |
| Page.Classify | app/page.tsx:233-237 | A release is a left swipe exactly when it moved at least 40 pixels left and at most 60 up or down. It is a right swipe exactly in the mirror-image case. |
| Page.ClassifyMirror | app/page.tsx:233-237 | Mirroring a gesture horizontally swaps its direction. Flipping it vertically changes nothing. |
| Page.OnPointerDown | app/page.tsx:224-226 | Pointer-down records the position and touches nothing else. |
| Page.OnPointerUp | app/page.tsx:227-238 | Without a recorded pointer-down, nothing happens. Otherwise the record is always cleared. Too short or too vertical a move leaves the slide alone. A left swipe is `next` and a right swipe is `prev`. |
| Page.SwipeThereAndBack | app/page.tsx:224-238 | A left swipe followed by a right swipe returns to the starting slide. |
| Page.RotateQuote | app/page.tsx:171 | The quote timer's step stays within the quotes and moves to the quote whose predecessor is the current one. |
| Page.QuoteRotationCycles | app/page.tsx:169-174 | Starting from the first quote, the rotation shows every quote in turn and then repeats with period `QuoteCount`. |
| Page.QuoteTicksRotate | app/page.tsx:169-174 | `k` firings of the quote timer, replayed through `Step`, move the quote `k` steps round the quotes and leave the carousel and pointer record alone. |
| Page.QuoteTimerCycles | app/page.tsx:169-174 | From the initial page, the `k`-th timer firing shows quote `k` for `k` below the number of quotes. The sequence of quotes repeats with period `QuoteCount`. |
| Page.Step | app/page.tsx:139-238 | Only the quote timer changes the quote index, and it leaves the carousel alone. |
| Page.StepKeepsValid | app/page.tsx:139-171 | From a state naming an existing slide and quote, any possible event leads to another such state. |
| Page.ReplayKeepsValid | app/page.tsx:128-171 | Every state reached by any sequence of possible events, from a valid state, names an existing slide and quote. |
| Page.InitialIsValid | app/page.tsx:70-128 | The page starts on an existing slide and quote. |

## Left out

- The Supabase client and the network. `createClient` and the `insert` call
  are replaced by a table of rows with a unique constraint. Whatever the
  client does independently of the row is an explicit `fault` parameter:
  - a reported error (unreachable service, bad key, ...) answered with 500
    "Supabase error: ...". Its code is never `23505`: the model raises that
    code only from the table's own unique constraint. Line 35 tests the code
    alone, so a `23505` from some other constraint would also be answered
    as a duplicate; the model has no other constraint;
  - a throw (an unusable URL, say) answered with 400 "Invalid request.".

  When a fault is present, it takes precedence over the constraint. Which
  URLs or keys make the client throw is not modelled.
- Concurrency. Parallel requests are modelled as the interleavings
  `SubmitAll` runs. This assumes the database checks its constraint
  atomically.
- Reading `process.env`. The two variables are an `Env` parameter, and an
  unset variable is `None`.
- `NextResponse.json`, serialisation and headers. A response is a status
  plus a payload datatype.
- `req.json()` and the JSON parser. A body is either unparseable or just
  the value of its `email` field. A body that is not an object has no
  `email` and is modelled as `Undefined`.
- Numbers and booleans in the `email` field are kept only by truthiness.
  That is all the handler looks at before it throws on `.trim()`.
- Email.ToLower: lower-cases ASCII letters only. `toLowerCase` also maps
  non-ASCII capitals, and a few of them (such as U+0130) change the length.
- Strings are sequences of Unicode scalar values, not UTF-16 code units.
  Lone surrogates in the request are not modelled.
- Page.Succ, Page.Pred, Page.Next, Page.Prev, Page.RotateQuote: the range
  and wrap-around facts are stated for indices already in range. The page
  only ever holds such indices, as `ReplayKeepsValid` shows. A non-empty
  ring (`n > 0`) is required, and the source's lists have 3 slides and
  5 quotes.
- Timers, as `setInterval` with 4200 ms and 5200 ms, hover pausing
  (`isPaused`), clearing the interval on unmount, and `window`. A timer
  firing is an `AutoAdvance` or `QuoteTick` event, so time itself is absent.
- Pointer coordinates are whole numbers. Fractional CSS pixels, which
  browsers may report, are not modelled.
- Rendering: the JSX, `onSubmit` (the client side of the form),
  `focusSignup`, the active slide's `fit`/`scale` values, the FAQ list and
  the fixed quotes.
- Page.Step: `DotClicked` takes any integer, and only dots of existing
  slides are `Possible`. The page renders one dot per slide.
