# Seminar website: a verified model of its server and admin logic

This project models, in Dafny, the logic of a seminar website. The site has a
public registration form, a contact form and an admin area. The model covers:

- **The Express API** (`src/server/index.js`) over two MongoDB collections.
  - Registrations have unique emails; messages are keyed by id.
  - Each handler is a step function from the old store to an outcome and the
    new store: `RegisterStep`, `PostMessageStep`, `MarkReadStep`, `ReplyStep`
    and `DeleteStep`.
  - `class Server.Api` holds the `isConnected` flag, the collections and an id
    counter. It has one method per endpoint, and each method is proved equal
    to its step function.
  - The methods keep an invariant (`Api.Valid`). Stored registrations are
    valid under the schema, their emails are unique and their ids increase.
    Stored messages are valid and sit under their own id.
- **The two Mongoose schemas** (`src/models/Registration.js`, `src/models/Message.js`).
  - The `trim` and `lowercase` setters (`RegistrationModel.Cast`, `MessageModel.Create`).
  - The validators and their messages, in path order (`ValidationErrors`).
  - The `match` patterns, written out as predicates over characters
    (`Validators.MatchesEmail`, `MatchesPhone`, `MatchesZipCode`).
  - The unique email index and the defaults.
- **The registration form** (`src/components/RegistrationForm.tsx`).
  - Its required-field filter, then its looser email pattern.
  - The `handleChange` and `handleSubmit` updates, as `class FormState`.
- **The admin pages.**
  - Messages: the search, the unread count, marking read on view, and the
    confirmed delete (`class MessagesPage`).
  - Registrations: the search, the short id and the CSV export.
  - Dashboard: the totals, the newest nine registrations and the widget colours.
  - Posters: the search, delete, the image-type gate and the append on submit
    (`class PostersPage`).
  - Contestants: the search, delete, the edit notice and the detail view
    (`class ContestantsPage`).
- **The countdown decomposition** (`src/components/CountdownTimer.tsx`).
- **The mock authentication context** (`src/context/AuthContext.tsx`), as `class AuthProvider`.
- **The avatar initials** (`src/components/NavbarUserMenu.tsx`).
- **The route table and `ProtectedAdminRoute`** (`src/App.tsx`).

Requests, the clock and the server's answers, as the client sees them, are
parameters of the methods. The request body and `now` come in; so does
`accepted`, `answer` or `fetched`, which says how the server answered.

Several behaviours of the source are modelled as written and proved as such.

- **Poster ids can repeat.** A new poster gets id `posters.length + 1`
  (`AdminPosters.NewPoster`). While nothing has been deleted, that id is fresh
  (`AdminPosters.AppendKeepsNumbered`). After deleting any poster but the last
  one, the next poster gets the id of the poster now last in the list
  (`AdminPosters.IdRepeatsAfterDelete`).
- **The CSV is not quoted.** The date cell `MMM d, yyyy` always holds a comma,
  so every line splits into seven fields under six headers
  (`AdminRegistrations.DateSplitsLine`). Lines still split correctly at `'\n'`
  as long as no cell holds a line break (`AdminRegistrations.ExportLines`).
- **The form's email pattern is looser than the schema's.** Every address the
  schema accepts also passes the form (`RegistrationForm.ServerEmailPassesForm`).
  `a@b.c` passes the form, and the server then refuses it
  (`RegistrationForm.FormLooserThanServer`).
- **The dashboard keeps nine registrations**, although a comment in the code
  says five (`AdminDashboard.LatestCount`).
- **The message endpoints are not all gated.** `GET`, `PATCH` and `DELETE` on
  messages, and the reply, skip the `isConnected` check. The model does the
  same: only `Register`, `ListRegistrations` and `PostMessage` answer 503.

The modules follow the source files, one module per file. Three shared modules
hold the common pieces:

- `Text`: ASCII case mapping, `trim`, `includes`, `split`, `join` and decimal
  numerals.
- `Seqs`: the order-keeping `filter` and the newest-first sort.
- `Wrappers`: `Option`.

## Model

| member | source | states |
|---|---|---|
| Server.ErrorsHaveErrorStatus | src/server/index.js:64-190 | every outcome with an `error` text has a status of 400 or more, and every other outcome a 2xx status |
| Server.ApplicantOf | src/server/index.js:89-98 | the record built from a body has an institution exactly when the body has one |
| Server.RegisterDecision | src/server/index.js:64-116 | the registrations either stay as they were, or grow by exactly the created record at the end |
| Server.RegisterStep | src/server/index.js:64-116 | `POST /api/register` either leaves the collection unchanged or appends exactly the created registration |
| Server.RegisterRefusals | src/server/index.js:65-86 | 503 while disconnected, before any check; then 400 with the missing field names; then 400 for an already-stored email; none of them changes the collection |
| Server.DecisionAcceptance | src/server/index.js:83-116 | a record is created iff connected, nothing is missing, the email is new and validation reported nothing; the created record is the one appended; a validation refusal carries the non-empty messages |
| Server.RegisterAcceptance | src/server/index.js:89-116 | 201 iff connected, no required field is blank, the cast email is not stored and the cast record satisfies the schema; the store then grows by exactly that record with `createdAt = now` |
| Server.DecisionKeepsEmailsUnique | src/server/index.js:83-110 | whatever the request, the decision keeps stored emails pairwise distinct |
| Server.RegisterKeepsEmailsUnique | src/server/index.js:83-110 | every registration request keeps the unique index on email |
| Server.DuplicateNeverStored | src/server/index.js:83-86 | a body whose cast email is already stored never changes the collection |
| Server.MessageOf | src/server/index.js:172-176 | a created message has the given id, `read = false`, no reply, no `repliedAt`, and both timestamps equal to now |
| Server.PostMessageDecision | src/server/index.js:156-179 | the messages either stay as they were or gain exactly the created message under its id |
| Server.PostMessageStep | src/server/index.js:156-190 | `POST /api/messages` either leaves the messages unchanged or stores exactly the created message |
| Server.PostMessageRefusals | src/server/index.js:157-169 | 503 while disconnected; then 400 when name, email or message is absent or empty; neither stores anything |
| Server.PostMessageAcceptance | src/server/index.js:166-179 | 201 iff connected, all three fields are present and the schema accepts the created message; a validation refusal carries the non-empty messages |
| Server.MessageOutcomeIgnoresStore | src/models/Message.js:38 | message emails are not unique: the outcome of a post does not depend on the messages already stored |
| Server.MarkReadStep | src/server/index.js:207-218 | unknown id: 404 and no change; otherwise exactly the addressed message gets the new `updatedAt` and the body's flag, or keeps its old flag when the body has no `read`; its submission and reply are kept, and every other message is untouched |
| Server.MarkReadIdempotent | src/server/index.js:207-218 | marking twice with the same body equals marking once |
| Server.ReplyStep | src/server/index.js:240-255 | unknown id: 404 and no change; otherwise `repliedAt = now` and `read = true` are set on exactly that message, and its reply becomes the body's, or stays as it was when the body has no `reply` |
| Server.ReplyIgnoresReadFlag | src/server/index.js:243-251 | the reply's result is the same whatever the message's read flag was before |
| Server.DeleteStep | src/server/index.js:226-232 | unknown id: 404 and no change; otherwise exactly that message is removed and every other one is kept |
| Server.InIdOrder | src/server/index.js:197 | the collection in insertion (id) order: every stored message below the bound appears, in increasing id order, and nothing else does |
| Server.ListingComplete | src/server/index.js:194-199 | the sorted listing holds every stored message and only stored messages |
| Seqs.SortNewestFirst | src/server/index.js:146 | `sort({ createdAt: -1 })`: the result is ordered newest first and is a permutation of the input |
| Seqs.SortStable | src/pages/admin/AdminDashboard.tsx:80-82 | the sort is stable, as `Array.prototype.sort` is: for every key, the elements with that key keep their input order |
| Server.AppendKeepsConsistent | src/server/index.js:89-110 | appending a valid record with a new email under the counter's id keeps the registration invariant |
| Server.DecisionKeepsConsistent | src/server/index.js:83-110 | the decision keeps the registration invariant when only validated records can be created |
| Server.RegisterKeepsConsistent | src/server/index.js:64-116 | every registration request keeps the registration invariant |
| Server.InsertKeepsConsistent | src/server/index.js:172-176 | storing a valid message under the counter's id keeps the message invariant |
| Server.PostDecisionKeepsConsistent | src/server/index.js:166-179 | the decision keeps the message invariant when only validated messages can be created |
| Server.PostMessageKeepsConsistent | src/server/index.js:156-179 | every message post keeps the message invariant |
| Server.ReplaceKeepsConsistent | src/server/index.js:207-255 | changing only the flags, reply and timestamps of one message keeps the message invariant |
| Server.Api.constructor | src/server/index.js:23 | the server starts disconnected, with empty collections |
| Server.Api.ConnectDatabase | src/server/index.js:26-31 | a successful `connectDB` raises `isConnected` and changes nothing else |
| Server.Api.Register | src/server/index.js:64-136 | the answer and the new registrations are `RegisterStep` of the old state; the counter moves only on 201; messages are untouched; the invariant is kept |
| Server.Api.CheckAndSave | src/server/index.js:65-116 | the handler's checks in order, proved equal to `RegisterDecision` |
| Server.Api.ListRegistrations | src/server/index.js:139-153 | 503 while disconnected; otherwise the whole collection, newest first, as a permutation |
| Server.Api.PostMessage | src/server/index.js:156-190 | the answer and the new messages are `PostMessageStep` of the old state; registrations are untouched; the invariant is kept |
| Server.Api.CheckAndCreate | src/server/index.js:157-179 | the handler's checks in order, proved equal to `PostMessageDecision` |
| Server.Api.ListMessages | src/server/index.js:194-204 | with no connection gate: every stored message and only those, newest first |
| Server.Api.MarkRead | src/server/index.js:207-223 | the answer and the new messages are `MarkReadStep` of the old ones; nothing else changes |
| Server.Api.Delete | src/server/index.js:226-237 | the answer and the new messages are `DeleteStep` of the old ones; nothing else changes |
| Server.Api.Reply | src/server/index.js:240-260 | the answer and the new messages are `ReplyStep` of the old ones; nothing else changes |
| RegistrationModel.FieldNames | src/server/index.js:74-79 | the `details` list: one path name per missing field, in the same order |
| RegistrationModel.FieldValue | src/server/index.js:75 | a field contributes "" exactly when it is falsy (absent or empty) |
| RegistrationModel.MissingFields | src/server/index.js:74-75 | exactly the blank required fields, as a subsequence of the declared order |
| RegistrationModel.NoneMissingIff | src/server/index.js:75-80 | nothing is reported missing iff every required field is non-empty |
| RegistrationModel.InstitutionNeverMissing | src/server/index.js:74 | institution is never listed as missing |
| RegistrationModel.Cast | src/models/Registration.js:4-49 | the setters keep an institution exactly when one was given |
| RegistrationModel.CastEmailNormal | src/models/Registration.js:11-17 | the stored email is the same whichever of trim and lowercase runs first, and casting again changes nothing |
| RegistrationModel.MessagesEmptyIff | src/server/index.js:101-106 | validation reports no message iff no path fails |
| RegistrationModel.MessagesContain | src/server/index.js:101-106 | every failing path's message is among those reported |
| RegistrationModel.ValidIffNoErrors | src/models/Registration.js:3-54 | `validateSync` reports nothing iff the name has 2 to 50 characters, the email, phone and zip code match their patterns, and address, city and state are non-empty |
| RegistrationModel.ValidNameLength | src/models/Registration.js:4-10 | a valid record's trimmed name has between 2 and 50 characters |
| RegistrationModel.RequiredMessages | src/models/Registration.js:4-49 | each required path that is empty after trimming reports its own `required` message; the institution never affects validation |
| RegistrationModel.ValidEmailTrimmed | src/models/Registration.js:11-18 | a valid email is already trimmed |
| RegistrationModel.AppendKeepsUnique | src/models/Registration.js:14 | appending a record whose email is not taken keeps emails unique |
| MessageModel.Create | src/models/Message.js:3-35 | a new message is unread, has no reply and no `repliedAt`, both timestamps are the creation time, and name and body are trimmed |
| MessageModel.ValidIffNoErrors | src/models/Message.js:4-20 | validation passes iff name and message are non-empty after trimming and the email matches the pattern |
| Validators.EmailShape | src/models/Registration.js:17 | a matching email has exactly one '@', a non-empty local part, no white space, and a '.' followed by at least two characters after the '@' |
| Validators.EmailTrimStable | src/models/Registration.js:15-17 | a matching email is unchanged by trimming |
| Validators.EmailAt | src/models/Registration.js:17 | a word run, '@', a word run and top-level groups, laid end to end, match the pattern |
| Validators.AcceptsDottedAddress | src/models/Registration.js:17 | `jo.doe@mail-box.co.uk` matches |
| Validators.RefusesOneLetterDomain | src/models/Registration.js:17 | `a@b.c` does not match: a top-level group needs two or three word characters |
| Text.Lower | src/models/Registration.js:16 | `lowercase`: same length; each ASCII capital becomes its small letter and everything else stays; no capital is left |
| Text.Upper | src/components/NavbarUserMenu.tsx:48 | `toUpperCase`: same length; each ASCII small letter becomes its capital and everything else stays |
| Text.LowerIdempotent | src/models/Registration.js:16 | lower-casing twice equals lower-casing once |
| Text.EmptyQueryIncluded | src/pages/admin/AdminMessages.tsx:154-158 | every string includes the empty query |
| Text.TrimIsSlice | src/models/Registration.js:7 | `trim` returns a contiguous slice; everything cut off is white space, and the result neither starts nor ends with white space |
| Text.TrimEmptyIff | src/models/Registration.js:6-7 | a value trims to "" iff it is all white space |
| Text.TrimIdempotent | src/models/Registration.js:7 | trimming twice equals trimming once |
| Text.LowerTrimCommute | src/models/Registration.js:15-16 | trimming and lower-casing commute |
| Text.Split | src/components/NavbarUserMenu.tsx:45 | `split` gives at least one part, and no part holds the separator |
| Text.SplitJoin | src/pages/admin/AdminRegistrations.tsx:72-75 | joining separator-free parts and splitting again gives the parts back |
| Text.JoinSplit | src/pages/admin/AdminRegistrations.tsx:72-75 | splitting and joining with the same separator gives the string back |
| Text.DecimalString | src/context/AuthContext.tsx:90 | `${n}` for a natural number: at least one character, all digits |
| Text.ParseDecimalString | src/context/AuthContext.tsx:90 | the decimal numeral reads back as the number |
| Text.DecimalStringInjective | src/context/AuthContext.tsx:90 | two numbers have the same numeral iff they are equal |
| Seqs.FilterMember | src/pages/admin/AdminMessages.tsx:154-158 | `filter` keeps an element iff it occurs in the input and satisfies the predicate |
| Seqs.FilterIsSubsequence | src/pages/admin/AdminMessages.tsx:154-158 | `filter` keeps the input order |
| RegistrationForm.ValidateForm | src/components/RegistrationForm.tsx:27-51 | the missing check comes first and reports exactly the blank required fields, never institution; when none is blank, the form passes iff the email has the form's shape |
| RegistrationForm.InstitutionNeverBlocks | src/components/RegistrationForm.tsx:28 | whatever institution holds, the check decides the same |
| RegistrationForm.MissingIgnoresInstitution | src/components/RegistrationForm.tsx:28-29 | the missing list does not depend on institution |
| RegistrationForm.ServerEmailPassesForm | src/components/RegistrationForm.tsx:40 | every email the schema accepts passes the form's pattern |
| RegistrationForm.FormLooserThanServer | src/components/RegistrationForm.tsx:40-41 | `a@b.c` passes the form's pattern but not the schema's |
| RegistrationForm.EmptyFormComplete | src/components/RegistrationForm.tsx:10-19 | the initial and reset value covers all eight fields |
| RegistrationForm.FormState.constructor | src/components/RegistrationForm.tsx:10-20 | every field starts empty and the form is not submitting |
| RegistrationForm.FormState.HandleChange | src/components/RegistrationForm.tsx:22-25 | only the named field takes the new value |
| RegistrationForm.FormState.HandleSubmit | src/components/RegistrationForm.tsx:53-111 | a form that fails the check is not sent and nothing changes; otherwise the data is sent as it stands, reset to empty on success, kept on failure, and `isSubmitting` ends false |
| AdminMessages.FilterMessages | src/pages/admin/AdminMessages.tsx:154-158 | exactly the messages whose name, email or body contains the query (ignoring case), in order |
| AdminMessages.EmptyQueryKeepsAll | src/pages/admin/AdminMessages.tsx:154-158 | an empty query keeps every message |
| AdminMessages.UnreadCount | src/pages/admin/AdminMessages.tsx:160 | the unread count never exceeds the total |
| AdminMessages.NoUnreadIff | src/pages/admin/AdminMessages.tsx:160 | the count is zero iff every message is read |
| AdminMessages.SetRead | src/pages/admin/AdminMessages.tsx:83-87 | every message with the id gets the flag; the others and the order stay as they were |
| AdminMessages.SetReadIdempotent | src/pages/admin/AdminMessages.tsx:83-87 | setting the same flag twice equals setting it once |
| AdminMessages.MarkReadLowersUnread | src/pages/admin/AdminMessages.tsx:83-88 | marking read never raises the unread count, and lowers it when that message was unread |
| AdminMessages.RemoveId | src/pages/admin/AdminMessages.tsx:128 | exactly the messages with another id remain, in order |
| AdminMessages.MessagesPage.constructor | src/pages/admin/AdminMessages.tsx:36-42 | the page starts empty and loading, with nothing selected or pending |
| AdminMessages.MessagesPage.FetchMessages | src/pages/admin/AdminMessages.tsx:48-66 | the fetched list replaces the old one, if there is one; loading ends either way |
| AdminMessages.MessagesPage.SetSearchQuery | src/pages/admin/AdminMessages.tsx:182 | the query becomes the input's value |
| AdminMessages.MessagesPage.ViewMessage | src/pages/admin/AdminMessages.tsx:68-112 | the overlay opens on the message; an update is sent iff it was unread; on success the list and the selection mark it read; on a refusal they set it unread; a read message leaves the list unchanged |
| AdminMessages.MessagesPage.DeleteClick | src/pages/admin/AdminMessages.tsx:114-117 | the message becomes pending and the dialog opens |
| AdminMessages.MessagesPage.DeleteConfirm | src/pages/admin/AdminMessages.tsx:119-147 | with nothing pending, nothing changes; otherwise an OK answer removes the pending id and any other answer keeps the list; the dialog closes and nothing remains pending |
| AdminMessages.MessagesPage.CloseOverlay | src/pages/admin/AdminMessages.tsx:149-152 | the overlay closes and the selection clears |
| AdminRegistrations.YearText | src/pages/admin/AdminRegistrations.tsx:69 | `yyyy`: at least four characters, all digits |
| AdminRegistrations.Cells | src/pages/admin/AdminRegistrations.tsx:63-70 | one cell per header |
| AdminRegistrations.Lines | src/pages/admin/AdminRegistrations.tsx:74 | one line per registration, in list order |
| AdminRegistrations.ExportLines | src/pages/admin/AdminRegistrations.tsx:72-75 | with no line break in any cell, the export splits at '\n' into the header line and then each registration's line, in order |
| AdminRegistrations.LineSingle | src/pages/admin/AdminRegistrations.tsx:74 | a registration with no line break in its cells makes a line with no line break |
| AdminRegistrations.DateSingleLine | src/pages/admin/AdminRegistrations.tsx:69 | the date cell never holds a line break |
| AdminRegistrations.HeaderColumns | src/pages/admin/AdminRegistrations.tsx:62-73 | the header line splits into its six names |
| AdminRegistrations.DateSplitsLine | src/pages/admin/AdminRegistrations.tsx:69-74 | unquoted, even a line with comma-free text cells splits at ',' into seven fields, the date falling apart into two |
| AdminRegistrations.FilterRegistrations | src/pages/admin/AdminRegistrations.tsx:88-92 | exactly the registrations whose name or email, or institution when present, contains the query (ignoring case), in order |
| AdminRegistrations.EmptyQueryKeepsAll | src/pages/admin/AdminRegistrations.tsx:88-92 | an empty query keeps every registration |
| AdminRegistrations.ShortId | src/pages/admin/AdminRegistrations.tsx:156 | `slice(-6)`: the last six characters, or the whole id when it is shorter |
| AdminDashboard.Latest | src/pages/admin/AdminDashboard.tsx:79-83 | at most nine registrations (all of them when there are fewer), newest first, taken from the fetched ones |
| AdminDashboard.LatestAreNewest | src/pages/admin/AdminDashboard.tsx:79-83 | the shown and the left-out registrations together are the fetched ones, and no left-out one is newer than a shown one |
| AdminDashboard.Summarize | src/pages/admin/AdminDashboard.tsx:85-89 | the totals are the lengths of the fetched arrays, and the latest list is `Latest` |
| AdminDashboard.NamedColorsOwnClasses | src/pages/admin/AdminDashboard.tsx:27-36 | blue, purple, emerald and amber each get their own `bg-<colour>-100 text-<colour>-600` pair, none of them the gray one |
| AdminDashboard.OtherColorsAreGray | src/pages/admin/AdminDashboard.tsx:37-38 | every other colour gets the gray classes |
| AdminPosters.FilterPosters | src/pages/admin/AdminPosters.tsx:83-86 | exactly the posters whose title or author contains the query (ignoring case), in order |
| AdminPosters.EmptyQueryKeepsAll | src/pages/admin/AdminPosters.tsx:83-86 | an empty query keeps every poster |
| AdminPosters.RemoveId | src/pages/admin/AdminPosters.tsx:88-90 | exactly the posters with another id remain, in order |
| AdminPosters.NewPoster | src/pages/admin/AdminPosters.tsx:135-144 | the new poster's id is the old length plus one, with the submitted title and author |
| AdminPosters.AppendKeepsNumbered | src/pages/admin/AdminPosters.tsx:135-146 | while ids are 1..n, an append keeps them so and the new id is fresh |
| AdminPosters.ImageUrlFollowsId | src/pages/admin/AdminPosters.tsx:135 | two new posters get the same image URL iff they got the same id |
| AdminPosters.InitialNumbered | src/pages/admin/AdminPosters.tsx:34-63 | the four initial posters have ids 1 to 4 |
| AdminPosters.RemoveNumbered | src/pages/admin/AdminPosters.tsx:88-90 | in a numbered list, deleting an id removes exactly that one poster |
| AdminPosters.IdRepeatsAfterDelete | src/pages/admin/AdminPosters.tsx:135-146 | after deleting any poster but the last, the next poster's id equals the id of the poster now last in the list |
| AdminPosters.PostersPage.constructor | src/pages/admin/AdminPosters.tsx:66-72 | the page starts with the four posters and nothing selected |
| AdminPosters.PostersPage.Delete | src/pages/admin/AdminPosters.tsx:88-95 | the posters become `RemoveId` of the old ones |
| AdminPosters.PostersPage.View | src/pages/admin/AdminPosters.tsx:97-99 | the poster becomes the selected one |
| AdminPosters.PostersPage.FileChange | src/pages/admin/AdminPosters.tsx:101-120 | a file is taken iff there is one and its type includes "image"; the file and preview are then set, otherwise they stay as they were |
| AdminPosters.PostersPage.Submit | src/pages/admin/AdminPosters.tsx:122-154 | a poster is added iff title and author are non-empty and a file is selected; exactly `NewPoster` is appended, then the panel, file and preview are cleared; otherwise nothing changes |
| AdminContestants.FilterContestants | src/pages/admin/AdminContestants.tsx:67-71 | exactly the contestants whose name, institution or research contains the query (ignoring case), in order |
| AdminContestants.EmptyQueryKeepsAll | src/pages/admin/AdminContestants.tsx:67-71 | an empty query keeps every contestant |
| AdminContestants.RemoveId | src/pages/admin/AdminContestants.tsx:73-75 | exactly the contestants with another id remain, in order |
| AdminContestants.RemoveAbsentId | src/pages/admin/AdminContestants.tsx:73-75 | deleting an id nobody has changes nothing |
| AdminContestants.EditNotice | src/pages/admin/AdminContestants.tsx:82-88 | the template's prefix followed by the id in decimal, with a '-' before a negative id |
| AdminContestants.EditNoticeNamesId | src/pages/admin/AdminContestants.tsx:86 | the id reads back from the notice: a non-negative id's digits parse to it, and a negative id shows '-' and then the digits of its magnitude |
| AdminContestants.ContestantsPage.constructor | src/pages/admin/AdminContestants.tsx:63-65 | the page starts with the six contestants and no selection |
| AdminContestants.ContestantsPage.SetSearchQuery | src/pages/admin/AdminContestants.tsx:103 | the query becomes the input's value |
| AdminContestants.ContestantsPage.Delete | src/pages/admin/AdminContestants.tsx:73-80 | the contestants become `RemoveId` of the old ones |
| AdminContestants.ContestantsPage.Edit | src/pages/admin/AdminContestants.tsx:82-88 | only a notice is produced; no state changes |
| AdminContestants.ContestantsPage.View | src/pages/admin/AdminContestants.tsx:90-92 | the contestant becomes the selected one |
| AdminContestants.ContestantsPage.CloseDialog | src/pages/admin/AdminContestants.tsx:163 | closing the dialog clears the selection |
| CountdownTimer.CalculateTimeLeft | src/components/CountdownTimer.tsx:25-46 | the completion flag is set iff the difference is at most 0, and all fields are then 0; otherwise days = difference div 86 400 000, with 0 ≤ hours < 24 and 0 ≤ minutes, seconds < 60 |
| CountdownTimer.TimeLeftSandwich | src/components/CountdownTimer.tsx:40-45 | for a positive difference, the four fields stand for at most the difference and for less than a second short of it |
| AuthContext.WithoutPassword | src/context/AuthContext.tsx:68 | the exposed user keeps id, name, email and role |
| AuthContext.FindCredentials | src/context/AuthContext.tsx:62-64 | `find`: none iff no account has both the email and the password; otherwise the first such account |
| AuthContext.LoginStep | src/context/AuthContext.tsx:58-77 | resolves iff some account has both the email and the password, and the current user becomes such an account without its password; otherwise rejects with "Invalid credentials" and keeps the current user |
| AuthContext.SignupStep | src/context/AuthContext.tsx:79-110 | rejects with "Email already in use", changing nothing, iff the email is present; otherwise appends exactly one account with id `${length+1}`, the given fields and role user, and logs it in |
| AuthContext.MockUsersValid | src/context/AuthContext.tsx:34-37 | the two seeded accounts have distinct emails and ids "1" and "2" |
| AuthContext.SignupKeepsInvariant | src/context/AuthContext.tsx:83-99 | any signup keeps emails pairwise distinct and ids numbered |
| AuthContext.NumberedIdsDistinct | src/context/AuthContext.tsx:90 | numbered ids are pairwise distinct |
| AuthContext.LoginAfterSignup | src/context/AuthContext.tsx:58-110 | after a successful signup, logging in with the same email and password resolves to the same user |
| AuthContext.RejectionsChangeNothing | src/context/AuthContext.tsx:72-86 | a rejected login keeps the current user; a signup with a present email changes nothing |
| AuthContext.AdminIsAuthenticated | src/context/AuthContext.tsx:117-118 | an admin is authenticated, and an authenticated user with the admin role is an admin |
| AuthContext.LoginAdminIffSeeded | src/context/AuthContext.tsx:88-95 | when only the seeded first account is an admin, a login yields an admin iff it used that account's credentials |
| AuthContext.AuthProvider.constructor | src/context/AuthContext.tsx:34-41 | the provider starts with the seeded accounts and no current user |
| AuthContext.AuthProvider.Login | src/context/AuthContext.tsx:58-77 | the outcome and the new current user are `LoginStep` of the old state |
| AuthContext.AuthProvider.Signup | src/context/AuthContext.tsx:79-110 | the outcome, the accounts and the current user are `SignupStep` of the old state, and the invariant is kept |
| AuthContext.AuthProvider.Logout | src/context/AuthContext.tsx:112-115 | the current user becomes null |
| AuthContext.AuthProvider.IsAuthenticated | src/context/AuthContext.tsx:117 | true iff there is a current user |
| AuthContext.AuthProvider.IsAdmin | src/context/AuthContext.tsx:118 | true iff there is a current user whose role is admin |
| NavbarUserMenu.FirstLetters | src/components/NavbarUserMenu.tsx:46-47 | at most one letter per part |
| NavbarUserMenu.Initials | src/components/NavbarUserMenu.tsx:43-50 | "U" when there is no user or the name is empty; never more than two characters |
| NavbarUserMenu.FirstLettersOfWords | src/components/NavbarUserMenu.tsx:45-47 | without empty parts, the letters are the parts' first characters, in order |
| NavbarUserMenu.FirstLettersOfEmptyParts | src/components/NavbarUserMenu.tsx:46-47 | empty parts contribute no letter |
| NavbarUserMenu.SplitLeadingSpaces | src/components/NavbarUserMenu.tsx:45 | each leading space splits off one empty part |
| NavbarUserMenu.TwoWords | src/components/NavbarUserMenu.tsx:43-50 | a two-word name gives the upper-cased first letters of both words |
| NavbarUserMenu.ThirdWordDropped | src/components/NavbarUserMenu.tsx:49 | a third word does not change the initials |
| NavbarUserMenu.LettersSpaced | src/components/NavbarUserMenu.tsx:45-47 | a run of spaces gives the same letters as one space |
| NavbarUserMenu.ConsecutiveSpacesIgnored | src/components/NavbarUserMenu.tsx:45-49 | consecutive spaces between two parts of a name do not change the initials |
| NavbarUserMenu.FirstTwoWords | src/components/NavbarUserMenu.tsx:43-50 | whatever spaces lead, separate (at least one) or follow, and whatever comes after the second word, a name's initials are its first two words' first letters, upper-cased |
| NavbarUserMenu.OneWord | src/components/NavbarUserMenu.tsx:43-50 | a single word among spaces gives its first letter, upper-cased |
| NavbarUserMenu.OnlySpaces | src/components/NavbarUserMenu.tsx:44-49 | a name of spaces only is not empty, so it gets no "U": every part is empty and the initials are "" |
| AppRoutes.GuardDecision | src/App.tsx:28-40 | children are rendered iff authenticated and admin; unauthenticated goes to /login first; authenticated non-admin goes to / |
| AppRoutes.Resolve | src/App.tsx:51-92 | the element of a route with that exact path, or the catch-all when no route has it |
| AppRoutes.AdminRoutesGuarded | src/App.tsx:59-88 | a route is under /admin iff it is wrapped in the guard iff it shows an admin page |
| AppRoutes.AdminPagesNeedAdmin | src/App.tsx:28-88 | whatever the path, an admin page is shown only to an authenticated admin |
| AppRoutes.RoutePathsDistinct | src/App.tsx:52-88 | no two routes share a path |
| AppRoutes.ResolveFinds | src/App.tsx:51-92 | with distinct paths, a route's own path resolves to that route's element |
| AppRoutes.VisitRoute | src/App.tsx:52-88 | every route of the table is reached by its own path |
| AppRoutes.AdminPathsRedirect | src/App.tsx:28-88 | on every /admin path: anonymous visitors go to /login, non-admins to /, and an admin sees the page |
| AppRoutes.AdminPathsForContextUser | src/App.tsx:28-40 | with the context's flags: after logout an admin path redirects to /login, and a plain user is sent to / |

## Left out

- Express startup, the port fallback, CORS and `/api/test` (`src/server/index.js:12-61`) are network and process I/O. `connectDB` becomes `Api.ConnectDatabase`, which only raises the flag.
- `src/lib/db.js` and `src/lib/db.ts` are not part of this model.
- The database layer is abstract: a sequence of registrations and a map of messages.
  - An ObjectId becomes a counter (`nat`) on the server and a string on the client.
  - Dates become integer milliseconds on the server.
- The catch paths of the server handlers are not modelled.
  - The E11000 duplicate-key path (`src/server/index.js:127-129`) cannot be reached in this sequential model: the `findOne` check before the insert already refuses a duplicate.
  - The 500 answers (a `MongoError`, a failed `find` or update) and a malformed id (a `CastError`) are not modelled. An unknown message id is a 404.
  - A `ValidationError` from `save` cannot arise after `validateSync` passed. The one `Message.create` throws is the `MessageInvalid` outcome.
- Server.Api.ListRegistrations and Server.Api.ListMessages: registrations or messages with the same `createdAt` are listed in insertion order (the model's sort is stable); MongoDB does not promise any order among them.
- Server.MarkReadStep and Server.Api.MarkRead: the body's `read` is a boolean or absent. A JSON `null` (stored as null) and other JSON values (cast by Mongoose, or refused with a 500) are not modelled.
- Server.ReplyStep and Server.Api.Reply: the body's `reply` is a string or absent. A JSON `null` or a number (cast to a string by Mongoose) is not modelled.
- Server.ApplicantOf and Server.MessageBody: request fields are strings or absent. A JSON number or boolean passes the `!x` check and is cast to a string by Mongoose; the model does not take such values.
- Server.PostMessageAcceptance: the details of a message `ValidationError` are modelled as the list of validator messages, whereas the source sends `error.message`, one string that joins them.
- `fetch`, HTTP transport and response parsing are left out: every client method takes the server's answer as a parameter. Toasts, rendering and dialogs are left out as well.
  - The `Blob` download of the CSV, its `registrations_yyyy-MM-dd.csv` file name and the `isSubmitting` spinner are left out.
  - The registrations page's `fetchRegistrations`, row click and overlay are not modelled. They only store what was fetched and open an overlay, as `AdminMessages.MessagesPage.FetchMessages` does for messages.
- Dates are not computed.
  - `format(new Date(createdAt), 'MMM d, yyyy')` takes a calendar date (`AdminRegistrations.CalendarDate`) that the browser's time zone has already produced.
  - A poster's upload date is the ISO date, passed in as `today`.
  - `new Date()` in the countdown is the caller's `difference`.
  - The countdown's one-second `setInterval` is left out. So is the fact that `isComplete` is never cleared once set.
- Case mapping, `trim` and `\s` are ASCII only: space, tab, line feed, vertical tab, form feed and carriage return. Unicode white space and non-ASCII letters are not modelled.
- Validators.MatchesEmail: the pattern is described as the language it accepts. No regular-expression engine or backtracking is modelled.
- Form handling around the client logic is left out:
  - the `react-hook-form`/`zod` plumbing of the poster form, and `form.reset()`;
  - the poster page's view-mode toggle;
  - the object URL of a preview, which is a parameter.
- `localStorage` in the authentication context (`src/context/AuthContext.tsx:44-56`), the `isLoading` flag and the 1-second `setTimeout` before a promise settles are left out.
- AuthContext.AuthProvider: `mockUsers` is a module-level array shared by every provider; here it is a field of the provider.
- AuthContext.LoginStep: states that the current user becomes *a* matching account. `FindCredentials` returns the first one. With the distinct emails that `SignupKeepsInvariant` keeps, only one account can match.
- AppRoutes.Resolve: React Router's matching is exact here. Case-insensitive matching, trailing slashes and nested routes are not modelled.
- NavbarUserMenu.Initials: its own contract states only "U" and the length; the letters are stated by `FirstTwoWords`, `OneWord` and `OnlySpaces`, which together cover every name made of space-separated words.
