# SmileCare dental assistant: the booking dialogue, in Dafny

This project models the core of the SmileCare clinic chat assistant (`app.py`). The model covers:

- **The input checks.** These are the email pattern and the two `strptime` formats for the date and the time.
- **The keyword classifiers.** They decide whether an utterance is a greeting, thanks, a booking request or a confirmation.
- **The booking conversation.** It is a state machine with the phases idle, name, email, date, time and confirm.
- **The booking store.** This is the `bookings` table with its AUTOINCREMENT key, and the `admin_logs` audit table.

Everything is pure. The Streamlit session becomes an explicit `Session` value, and the `booking_data` dictionary becomes a draft carried by the phase. For example, the confirm phase holds the name, the email, the date and the time. One call of `Dialogue.Step` consumes one utterance. It returns the next session, the store, the reply and the outside effects of the turn. The outside world enters as parameters:

- the knowledge base's answer to the utterance;
- whether the confirmation mail was sent;
- whether the clinic alert was sent.

Modules, one file each:

| module | file | what it holds |
|---|---|---|
| `Wrappers` | wrappers.dfy | `Option` |
| `Text` | text.dfy | Python's `str.lower`, `str.strip` and substring `in` |
| `Validators` | validators.dfy | `is_valid_email`, `is_valid_date`, `is_valid_time`, each as a reference grammar plus a computed check proved equal to it |
| `Intent` | intent.dfy | `is_greeting`, `is_thanks`, `detect_booking_intent` and the confirmation test |
| `BookingStore` | store.dfy | `add_booking`, `update_booking_status`, `delete_booking` |
| `Replies` | replies.dfy | the exact text of every assistant reply |
| `Dialogue` | dialogue.dfy | the step function and its per-phase properties |
| `Runs` | runs.dfy | whole conversations: counting, invariants and worked examples |

How Python's behaviour is read:

- **`str.lower`** maps ASCII capitals to lower case. It also applies the two special cases that produce ASCII letters: KELVIN SIGN becomes `k`, and capital I with dot above becomes `i` plus a combining dot. Every other character is kept. So the keyword and affirmative decisions, which only compare against ASCII words, come out exactly as in Python.
- **`str.strip`** removes the characters for which `str.isspace` holds.
- **`strptime`** is read as the `_strptime` regular expressions of CPython 3.12.13:
  - `%m` is `1[0-2]|0[1-9]|[1-9]`;
  - `%d` is `3[01]|[12]\d|0[1-9]|[1-9]| [1-9]`, so it also accepts a space followed by one digit;
  - `%I` is `1[0-2]|0[1-9]|[1-9]| [1-9]`, so it also accepts a space followed by one digit. This space-padded alternative depends on the patch release: it is in 3.12.13 but not in 3.12.3, where `%I` is `1[0-2]|0[1-9]|[1-9]` and `" 9:05 PM"` is rejected;
  - `%M` is `[0-5]\d|\d`;
  - the blank in `"%I:%M %p"` matches any run of white space;
  - `%p` ignores case;
  - the whole string must be consumed;
  - `datetime` refuses year 0.
- **Email `$`** also matches just before one final newline, so `"jane@mail.com\n"` is accepted.

## Model

| member | source | states |
|---|---|---|
| Text.Contains | app.py:150 | the substring test `w in t` holds exactly when `w` occurs in `t` at some position |
| Text.Strip | app.py:149 | the stripped text has no white space at either end and is a contiguous piece of the input, with only white space cut away |
| Text.OccursStrip | app.py:149 | stripping a text does not change whether a word with non-blank ends occurs in it |
| Text.LowerAppend | app.py:149 | lower-casing works character by character: the lower case of a concatenation is the concatenation of the lower cases |
| Text.Lower | app.py:149 | `str.lower()`: ASCII capitals become small letters, KELVIN SIGN (U+212A) becomes `k`, capital I with dot above (U+0130) becomes `i` and U+0307; every other character is kept |
| Text.LowerMatchesWord | app.py:558 | a text lower-cases to a word of small ASCII letters exactly when it spells the word letter for letter in any case, KELVIN SIGN standing for `k`; a dotted capital I never fits |
| Text.LowerIdempotent | app.py:149 | lower-casing twice gives the same as lower-casing once |
| Text.LowerLeavesNoCapitals | app.py:149 | after lower-casing no ASCII capital remains and the text is no shorter |
| Validators.IsValidEmail | app.py:126-128 | the check accepts a string exactly when the anchored pattern `[\w.-]+@[\w.-]+\.\w+` matches it, allowing one final newline |
| Validators.HasEmailShape | app.py:127 | trying only the first `@` and the last `.` after it decides whether any split of the string fits the pattern |
| Validators.AcceptsPlainAddress | app.py:126-128 | `jane@mail.com` is accepted |
| Validators.AcceptsAddressWithTrailingNewline | app.py:126-128 | `jane@mail.com` followed by a newline is accepted |
| Validators.RejectsDoubleAt | app.py:126-128 | `jane@@mail` is rejected |
| Validators.RejectsMissingDomainDot | app.py:126-128 | `a@b` is rejected |
| Validators.MonthDirective | app.py:132 | the month field is read exactly when it matches `%m`'s pattern `1[0-2]\|0[1-9]\|[1-9]` |
| Validators.DayDirective | app.py:132 | the day field is read exactly when it matches `%d`'s pattern `3[01]\|[12]\d\|0[1-9]\|[1-9]\| [1-9]` |
| Validators.HourDirective | app.py:139 | the hour field is read exactly when it matches `%I`'s pattern `1[0-2]\|0[1-9]\|[1-9]\| [1-9]` |
| Validators.MinuteDirective | app.py:139 | the minute field is read exactly when it matches `%M`'s pattern `[0-5]\d\|\d` |
| Validators.ReadDate | app.py:132 | the date reader returns `d` exactly when the string lays out the year, month and day of `d` as `%Y-%m-%d` reads them |
| Validators.IsValidDate | app.py:130-135 | a date is accepted exactly when it is spelled as `%Y-%m-%d` reads it and is a real Gregorian date in years 1 to 9999 |
| Validators.DateRoundTrip | app.py:132 | every zero-padded `YYYY-MM-DD` is read back as the same date, and it is accepted exactly when it is a real date |
| Validators.SpellingsUnique | app.py:132 | a string spells at most one date and at most one time |
| Validators.AcceptsMarchTenth | app.py:130-135 | `2025-03-10` is accepted |
| Validators.AcceptsLeapDay | app.py:130-135 | `2024-02-29` is accepted |
| Validators.RejectsLeapDayOfCommonYear | app.py:130-135 | `2025-02-29` is rejected |
| Validators.RejectsThirtyFirstOfApril | app.py:130-135 | a 31st of April is rejected |
| Validators.RejectsMonthThirteen | app.py:130-135 | month 13 is rejected |
| Validators.RejectsYearZero | app.py:130-135 | year `0000` is rejected |
| Validators.RejectsSlashes | app.py:130-135 | a date written with slashes is rejected |
| Validators.AcceptsSingleDigitFields | app.py:130-135 | `2025-3-1` is accepted: the format is not zero-padded exactly |
| Validators.AcceptsSpacePaddedDay | app.py:130-135 | a day written as a space and one digit is accepted |
| Validators.ReadTime | app.py:139 | the time reader returns `c` exactly when the string lays out the hour, minute and meridiem of `c` as `%I:%M %p` reads them, a space-padded hour included |
| Validators.IsValidTime | app.py:137-142 | a time is accepted exactly when it is spelled as `%I:%M %p` reads it |
| Validators.TimeRoundTrip | app.py:139 | every `HH:MM AM/PM` with an hour from 1 to 12 and minutes from 0 to 59 is read back as the same time |
| Validators.AcceptsSpacePaddedHour | app.py:137-142 | an hour written as a space and one digit is accepted: ` 9:05 PM` |
| Validators.AcceptsHalfPastTen | app.py:137-142 | `10:30 AM` is accepted |
| Validators.AcceptsShortHourLowerCase | app.py:137-142 | `9:05 pm` is accepted: one-digit hour, lower-case meridiem |
| Validators.AcceptsWideGap | app.py:137-142 | two blanks before a mixed-case meridiem are accepted |
| Validators.RejectsMissingMeridiem | app.py:137-142 | `14:30` and `10:30` are rejected |
| Validators.RejectsHourThirteenAndAbove | app.py:137-142 | whatever follows, a time that starts with two digits spelling 13 to 99 is rejected, because `%I` stops at 12 |
| Validators.RejectsFourteenThirty | app.py:137-142 | `14:30 PM` is rejected |
| Validators.RejectsHourZero | app.py:137-142 | `0:30 AM` is rejected |
| Intent.AnyIn | app.py:150 | `any(word in text ...)` holds exactly when one of the words occurs in the text |
| Intent.IsGreeting | app.py:144-150 | an utterance is a greeting exactly when one of the seven greetings occurs in its lower case; stripping first makes no difference |
| Intent.MentionsStrip | app.py:149 | stripping does not change which greetings a text mentions |
| Intent.IsThanks | app.py:161-163 | an utterance is thanks exactly when one of the four thanks words occurs in its lower case |
| Intent.DetectBookingIntent | app.py:271-274 | an utterance is a booking request exactly when one of the five keywords occurs in its lower case |
| Intent.IsAffirmative | app.py:558 | a confirmation is accepted exactly when it spells one of `yes`, `y`, `confirm`, `ok` letter for letter, each letter small, capital or, for `k`, KELVIN SIGN, with nothing before or after it |
| Intent.ClassifiersMonotone | app.py:144-163 | adding text before or after an utterance never loses a greeting, thanks or booking match |
| Intent.HiInsideWordIsGreeting | app.py:144-150 | `this` counts as a greeting, because `hi` occurs inside it |
| Intent.TyInsideWordIsThanks | app.py:161-163 | `party` counts as thanks, because `ty` occurs inside it |
| Intent.GreetingAndBookingOverlap | app.py:144-150 | `can i book this slot` is both a greeting and a booking request |
| Intent.BookRequestIsOnlyBooking | app.py:271-274 | `I want to book` is a booking request and neither a greeting nor thanks |
| Intent.YesConfirmsInAnyCase | app.py:558 | `yes`, `YES` and `Yes` confirm |
| Intent.PaddedYesDoesNotConfirm | app.py:558 | `yes` with a trailing blank does not confirm |
| Intent.YesPleaseDoesNotConfirm | app.py:558 | `yes please` does not confirm |
| Intent.NopeDoesNotConfirm | app.py:558 | `nope` does not confirm |
| Intent.KelvinSignConfirms | app.py:558 | `o` followed by KELVIN SIGN confirms, since it lower-cases to `ok` |
| BookingStore.AddBooking | app.py:98-112 | the new id is one more than any id issued before; the row stored under it has the given fields and status Confirmed; no other row changes; the audit log is untouched |
| BookingStore.AddIsFresh | app.py:44 | the new id is larger than every id in the table, and the table grows by exactly one row |
| BookingStore.UpdateStatus | app.py:66-81 | only the target row changes, and only its status; exactly one audit entry is appended, carrying the status text, the target id and the admin, whether or not the row exists |
| BookingStore.DeleteBooking | app.py:84-95 | only the target row disappears; exactly one audit entry is appended, carrying the target id and the admin, whether or not the row existed; the id counter is not wound back |
| BookingStore.Audit | app.py:56 | an audit entry is appended at the end, and the log stays numbered 1, 2, 3 and so on |
| BookingStore.AuditTrailComplete | app.py:66-95 | over any series of admin actions the log only grows, by one entry per action, in order, each naming the id the action targeted |
| BookingStore.AdminActionsOnlyTouchTargets | app.py:66-95 | a row that no admin action targets survives every series of actions unchanged |
| Replies.Render | app.py:152-608 | the exact text of each reply, emoji code points included: the welcome menu, thanks, the four prompts, the three format errors, the confirmation summary, both booked wordings, the cancellation, the knowledge-base answer verbatim and the upload hint |
| Replies.Decimal | app.py:595 | the id is printed as decimal digits with no leading zero |
| Replies.DecimalRoundTrip | app.py:595 | reading the printed digits back gives the id |
| Replies.BookedReplyShowsId | app.py:592-605 | both wordings of the booked reply contain `Booking ID: ` followed by the id |
| Replies.BookedReplyDeterminesBooking | app.py:592-605 | two booked replies read the same only when they report the same id and the same mail outcome |
| Replies.SummaryShowsFields | app.py:547-553 | the confirmation summary repeats the name, the date and the time verbatim, each on its own line |
| Dialogue.Fallback | app.py:502-511 | an unrecognised idle utterance keeps the dialogue idle and the store unchanged; the knowledge base is consulted, with the user's own words, exactly when a brochure is loaded, and otherwise there is no outside effect |
| Dialogue.Dispatch | app.py:485-511 | no idle utterance stores anything, and the only phase an idle utterance can lead to besides idle is the name prompt |
| Dialogue.CollectEmail | app.py:521-527 | the store is unchanged; the email phase either repeats, or moves to the date phase with the utterance as the email, and only if the email check accepts it |
| Dialogue.CollectDate | app.py:531-537 | the store is unchanged; the date phase either repeats, or moves to the time phase with the utterance as the date, and only if the date check accepts it |
| Dialogue.CollectTime | app.py:541-554 | the store is unchanged; the time phase either repeats, or moves to confirmation with the utterance as the time, and only if the time check accepts it |
| Dialogue.Confirm | app.py:557-613 | every confirmation answer returns to idle, and the store can change only when the answer is affirmative |
| Dialogue.Advance | app.py:485-613 | the store changes only when an affirmative answer arrives in the confirm phase; a draft whose fields passed their checks stays so |
| Dialogue.Step | app.py:474-618 | the user's utterance and then the assistant's reply are appended to the history, and nothing earlier in it changes; the brochure flag is left alone; the store changes only on an accepted confirmation; the draft stays valid |
| Dialogue.IdleDispatch | app.py:485-511 | in the idle phase the first match wins: greeting, then thanks, then booking request, then the knowledge base or the upload hint; the phase moves to name exactly when there is a booking keyword and neither a greeting nor thanks |
| Dialogue.RequestStartsBooking | app.py:495-498 | a booking request that is neither a greeting nor thanks asks for the name |
| Dialogue.ThisIsAGreeting | app.py:485-490 | `this` gets the greeting reply and the dialogue stays idle |
| Dialogue.NameTakenVerbatim | app.py:516-519 | any utterance is stored unchanged as the name, and the dialogue asks for the email |
| Dialogue.EmailGate | app.py:521-527 | in the email phase, an address the check rejects changes nothing but the reply; an accepted one is stored as the email and the dialogue asks for the date |
| Dialogue.DateGate | app.py:531-537 | in the date phase, a rejected date changes nothing but the reply; an accepted one is stored as the date and the dialogue asks for the time |
| Dialogue.TimeGate | app.py:541-554 | in the time phase, a rejected time changes nothing but the reply; an accepted one is stored and the summary of name, date and time is shown for confirmation |
| Dialogue.ConfirmationResets | app.py:557-613 | every confirmation answer returns to idle with the draft gone; a booking with the collected fields is stored exactly when the answer is affirmative |
| Dialogue.CommitOrder | app.py:563-588 | on a commit the effects are: the booking is stored, then the patient is mailed at the collected address, then the clinic is alerted, all under the new id |
| Dialogue.AlertOutcomeIgnored | app.py:582-587 | whether the clinic alert went out changes nothing |
| Dialogue.MailOutcomeOnlyChangesWording | app.py:592-605 | the patient-mail outcome changes neither the phase, nor the store, nor the id in the reply |
| Dialogue.HistoryIrrelevant | app.py:477 | the chat history never influences a step |
| Dialogue.SecondConfirmationBooksNothing | app.py:610-613 | after a confirmation the dialogue is idle, so a second `yes` stores nothing |
| Dialogue.StepKeepsBookingsChecked | app.py:557-569 | every stored booking keeps an email, a date and a time that passed their checks |
| Dialogue.AddKeepsBookingsChecked | app.py:563-569 | storing a booking whose email, date and time passed their checks keeps every stored booking checked |
| Runs.CollectingProgress | app.py:485-554 | before the confirm phase a turn stores nothing and moves on by at most one phase |
| Runs.StepProgress | app.py:485-613 | a turn advances the dialogue by at most one phase; a turn that stores a booking comes from the confirm phase, issues one id and returns to idle |
| Runs.RunCounts | app.py:485-613 | over any conversation the id counter grows by exactly the number of bookings stored, and each booking costs at least six turns |
| Runs.SixTurnsPerBooking | app.py:485-613 | a fresh chat stores at most one booking per six turns |
| Runs.RunKeepsBookingsChecked | app.py:521-569 | every booking a conversation stores has an email, a date and a time that passed their checks |
| Runs.RunKeepsStoreValid | app.py:563-569 | a conversation keeps every row under its own id and the audit log numbered |
| Runs.RunHistory | app.py:477 | the history grows by two messages per turn and never loses one |
| Runs.BookingConversation | app.py:485-613 | a request, a name, then a valid email, date and time, then an affirmative answer store exactly one Confirmed booking with those fields, and the dialogue is idle again, whatever knowledge-base answer and mail outcomes each of the six turns brings |
| Runs.JaneBooks | app.py:485-613 | on a fresh chat, `I want to book`, `Jane Doe`, `jane@mail.com`, `2025-03-10`, `10:30 AM`, `yes` store booking 1 for Jane Doe, and nothing else, whatever the knowledge base and the mail server do on each turn |
| Runs.DoubleAtIsRefused | app.py:521-523 | `jane@@mail` in the email phase is refused, and the phase and name are kept |
| Runs.NopeCancels | app.py:607-613 | `nope` at the confirmation cancels and stores nothing |

## Left out

- Dialogue.Step: the empty-prompt guard at app.py:474 is not modelled. The program takes no turn for an empty prompt, while `Step` treats `""` as an utterance like any other. So in the model a name may be empty (`Dialogue.NameTakenVerbatim`), and `Runs.RunHistory` and `Runs.RunCounts` also count turns on `""` that the program never takes. For runs without empty utterances every stated property is the program's.
- Streamlit rendering, the sidebar, PDF upload, login, the admin dashboard's tables, filters, metrics and CSV export. The brochure flag is an input of the session; uploading sets it outside the chat.
- The retrieval-augmented answer (LangChain, OpenAI, FAISS). It is a foreign call. Its answer enters a step as a parameter and is shown verbatim.
- The SMTP transport and the mail bodies. Only the confirmation mail's boolean result reaches the dialogue. Both notifiers catch every `Exception`, so neither can abort a step. The alert's outcome is a parameter that the model proves irrelevant.
- SQLite itself. Connection failures, exceptions, SQL text and `CURRENT_TIMESTAMP` are left out. So is the timestamp ordering of `get_all_bookings` and of the audit-log query, because those read a wall clock.
- `update_booking_status` and `delete_booking` on an unknown id: the code runs an UPDATE or DELETE that matches nothing and still writes the audit row. The model follows the code. There is no NotFound error, and an audit entry can name an id that never existed.
- Dates: the code accepts one-digit months and days and a space-padded day, not only `YYYY-MM-DD`. The model follows the code.
- Validators.IsValidEmail: `\w` is read as ASCII letters, digits and `_`. Python's `\w` on `str` also matches other Unicode letters and digits, so addresses with non-ASCII letters are accepted by the code but not by the model.
- Validators.IsValidDate: digits are ASCII only. Python's `\d` also matches other Unicode decimal digits, which `int()` then reads.
- Validators.IsValidTime: digits are ASCII only, as for the date. The meridiem is matched against `AM` and `PM` as in the C and English locales.
- Text.Lower: non-ASCII characters other than KELVIN SIGN and capital I with dot above are kept rather than lower-cased. This cannot change any decision here, because every word compared against is ASCII.
- The clinic's mail texts, phone number and address (app.py:167-249) are not modelled. They never reach the chat.
