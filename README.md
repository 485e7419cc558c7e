# Waitlist signup, modelled in Dafny

This project models the signup path of the DataAtmos landing page.

- **Server action `joinWaitlist`** (`lib/actions.ts`). It runs a defensive email check, then an insert-if-absent into the `waitlist` table, whose `email` column is unique. It then counts the rows, builds a Slack notification and responds. Module `Registrar`:
  - the table is a class `WaitlistTable` whose field `entries` is a sequence of `(email, type)` rows;
  - the action is the method `JoinWaitlist`;
  - the pure function `Register` gives its outcome (response, table afterwards, webhook request) from the table before the call.
- **The signup form** (`components/waitlist-form.tsx`). Module `SignupForm` holds a class `WaitlistForm` with the fields `email`, `kind` (the source's `type`) and `emailError`, plus a recorded sequence of effects (confetti, toasts). Its methods are the validator, the change handler, the type menu and the submit handler. The submit handler calls `Registrar.JoinWaitlist`.
- **The email pattern** `^[^\s@]+@[^\s@]+\.[^\s@]+$` (module `EmailPattern`). It is written as a predicate, together with its characterisation in plain terms.
- **The emphasis formatter `formatText`** (`components/marketing-content.tsx`, module `Emphasis`). It splits on `**` and marks odd segments as emphasised.
- **Decimal rendering** (module `Decimal`). This is how the running total is written into the notification text.

Nondeterminism and foreign calls are explicit parameters. `Registrar.Env` carries three things:
- the webhook URL (`""` stands for unset, since `!webhookUrl` treats both alike);
- which SQL statement, if any, throws (`CreateTable`, `SelectByEmail`, `InsertEntry`, `CountEntries`);
- whether the webhook request fails.

The form's `Submit` takes `reachable`: when it is false, the call to the server action rejects.

The model follows the code in these places:
- the server stores any `type` string; only the form restricts it to `indie`/`org`;
- a unique-constraint violation on `INSERT` gives the generic storage error, not "already registered";
- a failing `COUNT` after a successful `INSERT` returns that error although the row was written (`Registrar.CountFailureAfterInsertKeepsRow`).

## Model

| member | source | states |
|---|---|---|
| `Registrar.Select` | lib/actions.ts:28-29 | the lookup is empty exactly when no row has the email; every row it returns has that email and comes from the table |
| `Registrar.SelectAtMostOne` | lib/actions.ts:22 | under the unique constraint a lookup by email finds at most one row |
| `Registrar.Emails` | lib/actions.ts:35-36 | an email is in the set exactly when some row has it |
| `Registrar.CountIsDistinctEmails` | lib/actions.ts:35-36 | with unique emails, `COUNT(*)` equals the number of distinct registered emails |
| `Registrar.AppendFreshKeepsUnique` | lib/actions.ts:31-32 | appending a row whose email is absent keeps emails unique |
| `Registrar.WaitlistTable.constructor` | lib/actions.ts:19-26 | a freshly created table is empty and satisfies the unique constraint |
| `Registrar.WaitlistTable.Insert` | lib/actions.ts:32 | the insert succeeds exactly when the email is absent; it then appends exactly that row, otherwise nothing changes; uniqueness is kept |
| `Registrar.FourParts` | lib/actions.ts:62 | proof helper for `NotificationText`: each of the four pieces the message template concatenates appears at its offset |
| `Registrar.NotificationText` | lib/actions.ts:61-63 | the text starts with "New waitlist entry:" iff the signup is new and with "Repeat signup attempt:" iff not; it contains the email, the type and the decimal count lines; it ends with "." |
| `Registrar.Notify` | lib/actions.ts:58-63 | no request iff the webhook URL is unset or empty; otherwise it posts exactly `NotificationText` for the email, type, new/repeat flag and count to that URL |
| `Registrar.Register` | lib/actions.ts:13-45 | an email that is empty or lacks "@" gives the invalid-email error and no change; when no statement that runs fails (a failing INSERT matters only for an absent email, since a repeat issues none) the response is success with `isNew` iff the email was absent and the notification is posted; a new signup appends exactly `(email, type)`; a repeat changes nothing; for an accepted email, a failing CREATE, SELECT or COUNT, or a failing INSERT of an absent email, gives `Failure("Failed to join waitlist. Please try again later.")` and posts nothing, and every failure for an accepted email carries that message; only a failing COUNT can leave a write behind |
| `Registrar.RegisterKeepsUnique` | lib/actions.ts:28-33 | every call, failing or not, keeps emails unique |
| `Registrar.RegisteredOnce` | lib/actions.ts:28-33 | when no statement that runs fails, the table afterwards holds exactly one row for the email |
| `Registrar.RepeatSignupIsIdempotent` | lib/actions.ts:28-40 | two calls with the same email (any types) give `isNew` = "was absent", then `isNew` false; the second call leaves the table as it was, with one row for the email |
| `Registrar.ReportedCountIsDistinctEmails` | lib/actions.ts:35-38 | the count in the notification is the number of distinct emails before the call, plus one exactly when the email is new |
| `Registrar.CountFailureAfterInsertKeepsRow` | lib/actions.ts:31-44 | a COUNT failure after inserting a new email gives the generic error, yet the row stays; a retry sees a repeat |
| `Registrar.WebhookFailureIgnored` | lib/actions.ts:65-73 | whether the webhook request rejects does not change the outcome (by construction: the source swallows the rejection) |
| `Registrar.JoinWaitlist` | lib/actions.ts:13-45 | the method's response, posted request and new table are those of `Register` on the old table; the unique constraint holds after every call |
| `Decimal.Show` | lib/actions.ts:62 | the count is rendered as non-empty digits, with a leading zero only for 0 |
| `Decimal.ValueOfShow` | lib/actions.ts:62 | reading the rendered digits back gives the count |
| `Decimal.ShowInjective` | lib/actions.ts:62 | different counts give different texts |
| `EmailPattern.MatchesIffWellShaped` | components/waitlist-form.tsx:27 | the pattern accepts exactly the strings with one "@", no whitespace, a non-empty local part and a "." in the domain that is neither its first nor its last character |
| `EmailPattern.MatchImpliesWellShaped` | components/waitlist-form.tsx:27 | a match at "@" position a and "." position d has the characterised shape |
| `EmailPattern.WellShapedImpliesMatch` | components/waitlist-form.tsx:27 | every string of the characterised shape matches |
| `EmailPattern.AcceptsLocalDomainTld` | components/waitlist-form.tsx:27 | local@domain.tld is accepted whenever each part is a non-empty run of non-whitespace, non-"@" characters |
| `EmailPattern.MatchNeedsAtAndDot` | components/waitlist-form.tsx:27 | a matching string contains "@", no whitespace and a "." after its "@" |
| `SignupForm.ValidationError` | components/waitlist-form.tsx:22-33 | the error is "" exactly when the pattern matches; "Email is required" for the empty string; otherwise "Please enter a valid email address" |
| `SignupForm.ClientAcceptedPassesServerCheck` | components/waitlist-form.tsx:27 | every email the form accepts is non-empty and contains "@", so it passes the server check |
| `SignupForm.Feedback` | components/waitlist-form.tsx:42-56 | a new signup gives exactly confetti then the success toast; a repeat gives exactly the info toast; a failure gives exactly one error toast with the server's message, or "Something went wrong." when it is empty; a rejected call gives exactly the error toast "Something went wrong. Please try again." |
| `SignupForm.KindLabel` | components/waitlist-form.tsx:85 | the caption is "Indie Developer" iff the type is "indie", else "Organization" |
| `SignupForm.WaitlistForm.constructor` | components/waitlist-form.tsx:17-20 | the form starts with an empty email, type "indie", no error and no effects |
| `SignupForm.WaitlistForm.ValidateEmail` | components/waitlist-form.tsx:22-33 | returns whether the pattern matches; the error field is "" iff it returns true and holds the matching reason otherwise |
| `SignupForm.WaitlistForm.EditEmail` | components/waitlist-form.tsx:68-72 | the field takes the new value; an empty value clears the error without validating; a non-empty one is validated |
| `SignupForm.WaitlistForm.ChooseIndie` | components/waitlist-form.tsx:90 | the type becomes "indie" |
| `SignupForm.WaitlistForm.ChooseOrg` | components/waitlist-form.tsx:93 | the type becomes "org" |
| `SignupForm.WaitlistForm.Settle` | components/waitlist-form.tsx:42-56 | the effects grow by exactly the feedback for the reply; the email is cleared only after a new signup |
| `SignupForm.WaitlistForm.Submit` | components/waitlist-form.tsx:35-58 | the server is called iff the current email matches the pattern, and then only with an email the server accepts; otherwise the table, email and effects are unchanged; a call changes the table as `Register` says and shows its feedback; the type stays "indie" or "org" |
| `Emphasis.Split` | components/marketing-content.tsx:29 | the parts form a left-to-right non-overlapping split: no part contains "**", no part before a delimiter ends in "*", and the first part is a prefix followed by the delimiter when there are more |
| `Emphasis.JoinSplit` | components/marketing-content.tsx:29 | joining the parts with "**" gives back the text |
| `Emphasis.SplitWithoutDelimiter` | components/marketing-content.tsx:29 | a text without "**" is a single part |
| `Emphasis.SplitAfterPart` | components/marketing-content.tsx:29 | a part that can precede a delimiter is split off first |
| `Emphasis.SplitUnique` | components/marketing-content.tsx:29 | the split is the only left-to-right non-overlapping decomposition whose join is the text |
| `Emphasis.PartCount` | components/marketing-content.tsx:29 | there is one more part than there are left-to-right non-overlapping "**" occurrences |
| `Emphasis.ConcatSplit` | components/marketing-content.tsx:29-36 | the parts side by side are the text with those delimiters removed |
| `Emphasis.FormatText` | components/marketing-content.tsx:28-38 | one fragment per part, in order, with the part's text; fragment i is emphasised iff i is odd, and an emphasised fragment's key is i |
| `Emphasis.FormatRoundTrip` | components/marketing-content.tsx:28-38 | joining the fragments' texts with "**" gives the input; no fragment contains "**"; read in order they show the text without delimiters |

## Left out

- The SQL engine and the `neon` client. The table is a sequence of rows, and statement failures come from `Env.failingQuery`. The `id SERIAL` and `created_at` columns are not modelled: nothing in the action reads them.
- Concurrent submissions of the same email, i.e. the check-then-insert race at lib/actions.ts:28-32. Calls are sequential. So the unique-constraint refusal in `WaitlistTable.Insert` is never hit from `JoinWaitlist`; a racing writer's violation appears only as `failingQuery == Some(InsertEntry)`.
- `Registrar.WebhookFailureIgnored`: covers only a webhook request that rejects, which the source swallows. The source awaits the request before it returns, so the response waits until the request settles. A request that hangs, delaying or losing the response after the row is written, is not modelled.
- HTTP and JSON. `Post` carries the URL and the message that would become the `text` field of `JSON.stringify({ text })`. The fetch result is discarded by the source, and `Env.webhookFails` is read by nothing.
- Logging with `console.error`.
- React mechanics: `useTransition`/`isPending` (the disabled button), the asynchronous gap between submit and settle, and toast/confetti rendering. Toasts and confetti are recorded values in `WaitlistForm.effects`.
- The browser's own `type="email"` / `required` validation on the input element. It runs before `handleSubmit` and is not part of this code.
- `SignupForm.WaitlistForm.Submit`: a rejected call is modelled as one that never reached the server. A rejection after the server wrote is not modelled.
- The rest of the repository: the particle animation (random sampling, floating point, canvas), page layout, metadata, confetti and toaster wrappers, the meeting and social links, and the mobile hook. None of this is part of the signup logic.
