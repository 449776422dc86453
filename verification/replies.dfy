/**
 * The assistant's replies (app.py:151-165, 485-608), as a datatype of reply
 * kinds plus the exact text each one is shown as.
 */
module Replies {

  import opened Text
  import opened Validators

  datatype Reply =
    | Greeting
    | Thanks
    | AskName
    | AskEmail
    | BadEmail
    | AskDate
    | BadDate
    | AskTime
    | BadTime
    | Summary(name: string, date: string, time: string)
    | Booked(id: nat, emailSent: bool)
    | Cancelled
    | Knowledge(answer: string)
    | UploadHint

  /** `str(n)` for a natural number: its decimal digits, without leading zeros. */
  function Decimal(n: nat): (t: string)
    ensures 1 <= |t| && All(t, IsDigit)
    ensures n > 0 ==> t[0] != '0'
    decreases n
  {
    if n < 10 then [Digit(n)] else Decimal(n / 10) + [Digit(n % 10)]
  }

  /** Reading the digits back gives the number. */
  lemma {:induction false} DecimalRoundTrip(n: nat)
    ensures NumberValue(Decimal(n)) == n
    decreases n
  {
    if n >= 10 {
      DecimalRoundTrip(n / 10);
      var t := Decimal(n);
      assert t[..|t| - 1] == Decimal(n / 10);
    }
  }

  lemma DecimalInjective(a: nat, b: nat)
    requires Decimal(a) == Decimal(b)
    ensures a == b
  {
    DecimalRoundTrip(a);
    DecimalRoundTrip(b);
  }

  const GreetingText :=
    "Hello! \U{1F60A} Welcome to SmileCare Dental Clinic.\n\n"
    + "How can I help you today?\n"
    + "\U{2022} Book an appointment\n"
    + "\U{2022} Clinic timings\n"
    + "\U{2022} Treatments offered\n"
    + "\U{2022} Doctors information"

  const ThanksText :=
    "\U{1F60A} You're welcome! If you need anything else or want to book an appointment, just let me know."

  /** The mark that opens the booked reply: a check mark, or a warning sign when the mail failed. */
  function BookedMark(emailSent: bool): string {
    if emailSent then "\U{2705}" else "\U{26A0}\U{FE0F}"
  }

  const BookedTitle := " Booking Confirmed!\n\U{1F194} "

  const IdLabel := "Booking ID: "

  function BookedTail(emailSent: bool): string {
    if emailSent then "\n\U{1F4E7} Confirmation email sent successfully."
    else "\n\U{1F4E7} Email could not be sent."
  }

  const SummaryHead := "Please confirm details:\n"

  const SummaryTail := "\nType **'Yes'** to confirm or **'No'** to cancel."

  /** One line of the confirmation summary. */
  function SummaryLine(field: string, value: string): string {
    "- **" + field + ":** " + value + "\n"
  }

  /** The text shown in the chat for each reply. */
  function Render(r: Reply): string {
    match r
    case Greeting => GreetingText
    case Thanks => ThanksText
    case AskName => "I can help you book an appointment. First, strictly what is your **Full Name**?"
    case AskEmail => "Please enter your **Email Address**"
    case BadEmail => "\U{274C} Invalid email format.\nPlease enter a valid **Email Address** (example: name@gmail.com)"
    case AskDate => "What **Date** would you like? (YYYY-MM-DD)"
    case BadDate => "\U{274C} Invalid date format.\nPlease enter the date in **YYYY-MM-DD** format."
    case AskTime => "Got it. What **Time** works for you? (e.g., 10:30 AM)"
    case BadTime => "\U{274C} Invalid time format.\nPlease enter time like **10:30 AM**"
    case Summary(name, date, time) =>
      SummaryHead + SummaryLine("Name", name) + SummaryLine("Date", date) + SummaryLine("Time", time) + SummaryTail
    case Booked(id, emailSent) => BookedMark(emailSent) + BookedTitle + (IdLabel + Decimal(id)) + BookedTail(emailSent)
    case Cancelled => "\U{274C} Booking cancelled. You can ask me other questions."
    case Knowledge(answer) => answer
    case UploadHint =>
      "Please upload a PDF brochure in the sidebar so I can answer your questions, "
      + "or just say **'Book'** to schedule an appointment."
  }

  /**
   * Both wordings of the booked reply carry the booking id, right after
   * "Booking ID: ".
   */
  lemma BookedReplyShowsId(id: nat, emailSent: bool)
    ensures Occurs(IdLabel + Decimal(id), Render(Booked(id, emailSent)))
  {
    OccursBetween(BookedMark(emailSent) + BookedTitle, IdLabel + Decimal(id), BookedTail(emailSent));
  }

  /**
   * The booked reply determines both the id and the mail outcome: two booked
   * replies read the same only when they report the same booking and outcome.
   */
  lemma BookedReplyDeterminesBooking(a: nat, sentA: bool, b: nat, sentB: bool)
    requires Render(Booked(a, sentA)) == Render(Booked(b, sentB))
    ensures a == b && sentA == sentB
  {
    var ta := Render(Booked(a, sentA));
    assert ta[0] == BookedMark(sentA)[0];
    assert ta[0] == BookedMark(sentB)[0];
    var h, z := BookedMark(sentA) + BookedTitle, BookedTail(sentA);
    var wa, wb := IdLabel + Decimal(a), IdLabel + Decimal(b);
    assert ta == h + wa + z;
    assert ta == h + wb + z;
    assert |wa| == |wb|;
    assert wa == ta[|h|..|h| + |wa|] == wb;
    assert Decimal(a) == wa[|IdLabel|..] == wb[|IdLabel|..] == Decimal(b);
    DecimalInjective(a, b);
  }

  /** The confirmation summary repeats the collected name, date and time verbatim, each on its own line. */
  lemma SummaryShowsFields(name: string, date: string, time: string)
    ensures Occurs(SummaryLine("Name", name), Render(Summary(name, date, time)))
    ensures Occurs(SummaryLine("Date", date), Render(Summary(name, date, time)))
    ensures Occurs(SummaryLine("Time", time), Render(Summary(name, date, time)))
  {
    var wn, wd, wt := SummaryLine("Name", name), SummaryLine("Date", date), SummaryLine("Time", time);
    SummaryParts(SummaryHead, wn, wd, wt, SummaryTail);
  }

  /** Each of the three middle pieces of a five-piece text occurs in it. */
  lemma SummaryParts(p: string, wn: string, wd: string, wt: string, rest: string)
    ensures Occurs(wn, p + wn + wd + wt + rest)
    ensures Occurs(wd, p + wn + wd + wt + rest)
    ensures Occurs(wt, p + wn + wd + wt + rest)
  {
    OccursBetween(p, wn, wd + wt + rest);
    assert p + wn + wd + wt + rest == p + wn + (wd + wt + rest);
    OccursBetween(p + wn, wd, wt + rest);
    assert p + wn + wd + wt + rest == (p + wn) + wd + (wt + rest);
    OccursBetween(p + wn + wd, wt, rest);
  }
}
