# Contact-form validator and relay, modelled in Dafny

The server has one endpoint, `POST /api/contact`. A contact-form submission
(name, e-mail address, subject, message) first goes through the
`validateContactForm` middleware. That middleware applies five checks in a
fixed order, and the first check that fails answers 400 with its message.
A submission that passes is turned into an e-mail: the subject line is
`Contact Form: <subject>`, and the HTML body shows the message with each
newline replaced by `<br>`. The e-mail goes to the transactional e-mail
provider (Resend). The provider's reply becomes a 200 response carrying the
provider's message id, or a 500 response with a generic message.

The model is pure, like the code it follows. The validator is a chain of
guard `if`s. The rewrite is one global `replace`. The response mapping is a
case split. Each of them becomes a Dafny function. The provider is a
function-typed parameter, and the model sees only its reply.

Modules (one file each):

- `Wrappers` (`wrappers.dfy`): `Option`.
- `Text` (`text.dfy`): the JavaScript white-space set shared by `\s` and
  `trim`; `trim` (as `TrimStart` then `TrimEnd`); and `length` counted in
  UTF-16 code units.
- `Email` (`email.dfy`): the address check `/^[^\s@]+@[^\s@]+\.[^\s@]+$/`.
  The structural language is `WellFormed`: `a + "@" + b + "." + c` with
  `a`, `b` and `c` non-empty and free of white space and `@`. What the
  matcher computes is `Matches`, a left-to-right run of the pattern's finite
  automaton. `MatchesIff` proves that the two agree on every string.
- `Render` (`render.dfy`): the subject line and the newline rewrite. The
  rewrite is also proved equal to `s.split("\n").join("<br>")`.
- `Validation` (`validation.dfy`): `Submission`, `Verdict` and `Validate`,
  with one lemma per rule and the overall acceptance condition.
- `Relay` (`relay.dfy`): the composed e-mail, the provider reply, the mapping
  to a response, and the whole handler `Handle`.

Three details of the code shape the model:

- The presence check is `!field`, so a field of only blanks is present. It
  is refused later, by the length rule for that field (`BlankNameIsTooShort`
  and the two lemmas after it).
- The length rules use JavaScript's `length`, which counts UTF-16 code units.
  A character above U+FFFF counts 2. Dafny's `char` is a Unicode scalar
  value, so `Utf16Length` counts code units explicitly (`Utf16LengthChar`,
  `Utf16LengthAppend`). For text in the Basic Multilingual Plane it is the
  character count (`Utf16LengthBmp`, `TrimmedLengthBmp`).
- If the provider returns neither an error nor data, reading `data.id`
  throws. The handler's `catch` then answers 500 "Server error. Please try
  again later.". `Respond` models that path next to the provider-error and
  success paths.

The pattern has no `u` flag, so JavaScript matches it on UTF-16 code units.
A character above U+FFFF is two surrogate units. Both units are in `[^\s@]`,
so matching per character, as the model does, gives the same answer.
A JSON string can also carry a lone surrogate (`"\ud800"`), which has no
Dafny `char`; see "## Left out".

## Model

| member | source | states |
|---|---|---|
| `Text.TrimStart` | server.js:47 | the result is a suffix of the input, everything removed is white space, and it does not start with white space |
| `Text.TrimEnd` | server.js:47 | the result is a prefix of the input, everything removed is white space, and it does not end with white space |
| `Text.Trim` | server.js:47 | `trim()` gives the piece of the input left after removing white space on both sides: it is a contiguous piece with only white space before and after it, empty exactly when the input is all white space, and otherwise begins and ends with non-white-space |
| `Text.TrimKeepsTrimmed` | server.js:47 | a string without surrounding white space is unchanged by `trim()` |
| `Text.TrimIdempotent` | server.js:47 | trimming twice is trimming once |
| `Text.Utf16Length` | server.js:47 | `length` lies between the character count and twice that |
| `Text.Utf16LengthChar` | server.js:47 | one character is one UTF-16 code unit, or two above U+FFFF |
| `Text.Utf16LengthAppend` | server.js:47 | `length` of a concatenation is the sum of the lengths, so with `Utf16LengthChar` it counts code units over every string |
| `Text.Utf16LengthBmp` | server.js:47 | for text in the Basic Multilingual Plane, `length` is the character count |
| `Email.ScanMeaning` | server.js:38 | after reading any text, the automaton's state describes that text (nothing, local part, just after '@', domain without a usable dot, ending in a usable dot, matched, or broken) |
| `Email.WellFormedIffTld` | server.js:38 | the matched state's description is exactly the structural shape a@b.c |
| `Email.MatchesIff` | server.js:38-39 | `emailRegex.test(s)` holds exactly when s is a@b.c with a, b, c non-empty and free of white space and '@' (b and c may contain dots) |
| `Email.RejectsMalformed` | server.js:38-44 | an address with no '@', with two '@'s, or with any white space is refused |
| `Email.RejectsNoDotAfterAt` | server.js:38-44 | an address with no '.' after its '@' that has a character on each side is refused |
| `Render.SubjectLine` | server.js:80 | the subject line is "Contact Form: " followed by the subject exactly as submitted |
| `Render.SubjectLineInjective` | server.js:80 | distinct subjects give distinct subject lines |
| `Render.BreakLines` | server.js:108-111 | the rewritten message contains no newline |
| `Render.BreakLinesAppend` | server.js:108-111 | the rewrite distributes over concatenation |
| `Render.BreakLinesNoNewline` | server.js:108-111 | a message without newlines is left unchanged |
| `Render.BreakLinesIdempotent` | server.js:108-111 | rewriting twice is rewriting once |
| `Render.BreakLinesLength` | server.js:108-111 | the result is 3 characters longer per newline and otherwise the same length |
| `Render.Lines` | server.js:108-111 | splitting on '\n' gives one piece more than there are newlines, each piece newline-free |
| `Render.BreakLinesIsSplitJoin` | server.js:108-111 | the global replace equals splitting on '\n' and joining with "<br>" |
| `Render.SplitJoinRoundTrip` | server.js:108-111 | splitting on '\n' and joining with '\n' gives the message back, so every non-newline character is kept in order |
| `Validation.Validate` | server.js:26-69 | an accepted submission has all four fields present; every rejection carries one of the five messages |
| `Validation.MissingFieldRejected` | server.js:29-35 | a missing or empty field gives "All fields are required", whatever the other fields hold |
| `Validation.EmailRule` | server.js:37-44 | with all fields present, the e-mail message is given exactly when the address is not of the form a@b.c |
| `Validation.NameRule` | server.js:46-52 | past the e-mail check, the name message is given exactly when the trimmed name's length is below 2 (length 1 refused, 2 passes) |
| `Validation.SubjectRule` | server.js:54-59 | past the name check, the subject message is given exactly when the trimmed subject's length is below 5 (4 refused, 5 passes) |
| `Validation.MessageRule` | server.js:61-68 | past the subject check, a trimmed message below 10 long is refused (9 refused) and one of 10 or more is accepted |
| `Validation.AcceptIff` | server.js:26-68 | a submission reaches `next()` exactly when all fields are present, the address is a@b.c, and the trimmed lengths reach 2, 5 and 10 |
| `Validation.EmailCheckedBeforeLengths` | server.js:37-66 | first failure wins: a bad address gives the e-mail message even when the name, subject or message is also too short |
| `Validation.BlankNameIsTooShort` | server.js:30-52 | a non-empty, all-blank name passes the presence check and is refused by the name-length rule |
| `Validation.BlankSubjectIsTooShort` | server.js:30-59 | the same for an all-blank subject, once the name passes |
| `Validation.BlankMessageIsTooShort` | server.js:30-66 | the same for an all-blank message, once the name and subject pass |
| `Validation.TrimmedLengthBmp` | server.js:47-61 | for text in the Basic Multilingual Plane, the checked length is the number of characters `trim()` leaves |
| `Relay.Compose` | server.js:77-133 | the e-mail is sent from the fixed sender to the configured recipient with subject "Contact Form: " + subject; both bodies embed name, address and subject verbatim; the HTML message is `message.replace(/\n/g, "<br>")` (`BreakLines`, so it has no newline) and the text message is the message as submitted |
| `Relay.Respond` | server.js:135-156 | success (status 200) exactly when the provider returned no error and data, with `emailId` equal to the provider's id; a provider error gives 500 "Failed to send email…"; a thrown call, or a reply with neither error nor data (reading `data.id` throws), gives 500 "Server error…" |
| `Relay.Handle` | server.js:26-157 | the status is 200, 400 or 500; it is 400 exactly when the validator rejects, and then carries `success: false` and the failing rule's message; success exactly when it is 200 |
| `Relay.RejectedNeverSent` | server.js:26-72 | a rejected submission is answered with its rejection whatever the provider would do; the provider is never consulted |
| `Relay.AcceptedIsSent` | server.js:72-80 | an accepted submission is sent with subject "Contact Form: " + subject, and the answer is the mapping of the provider's reply to that e-mail |
| `Relay.AcceptedAndDelivered` | server.js:143-149 | an accepted submission with a provider returning id x is answered 200, "Message sent successfully!", `emailId` x |
| `Relay.SomeSubmissionAccepted` | server.js:26-68 | a submission with a 2-character name, an address c@c.c, a 5-character subject and a 10-character message is accepted, so acceptance is reachable |
| `Relay.AcceptedButProviderFails` | server.js:135-141 | an accepted submission with a provider reporting an error is answered 500 "Failed to send email. Please try again later." |

## Left out

- Express set-up, CORS, JSON and form body parsing, and `app.listen` (server.js:1-23, 185-188) are framework configuration and process I/O.
- The network call `resend.emails.send` (server.js:77-133) is a foreign asynchronous API. The provider is a parameter of `Handle`, and only its reply (`Returned` or `Threw`) is modelled.
- `RECIPIENT_EMAIL`, `RESEND_API_KEY` and `PORT` come from the environment. The recipient is a parameter; the key and the port play no part in the logic.
- The timestamps (`toLocaleString`, `toISOString`) depend on the clock and the locale.
- The HTML and text template wording and CSS are presentation. `Body` records only which fields each rendering embeds and how the message appears in it.
- Logging, the health endpoint, the 404 handler and the catch-all error middleware (server.js:159-183) answer with constant responses and contain no logic.
- Request body fields that are JSON values other than strings (numbers, booleans, arrays, objects) are not modelled; fields are strings or absent. In the code, `emailRegex.test(email)` converts a non-string address to a string (an array `["a@b.c"]` passes), and `trim` on a truthy non-string name, subject or message throws only when control reaches that field's check; Express then answers 500 from the catch-all handler.
- Strings holding a lone UTF-16 surrogate (possible in JSON, such as `"\ud800"`) have no Dafny `char` and cannot be represented. Such a code unit is neither white space nor '@', so it would change no verdict of the validator.
- A provider reply whose `data` lacks an `id` is not distinguished from one that carries an id. `dataId` stands for `data.id` when `data` is non-null.
- Requests are independent and share no state, so concurrency is not modelled.
