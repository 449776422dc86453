/**
 * The booking conversation (app.py:475-613) as a pure step function.
 *
 * The Streamlit session becomes an explicit `Session` value, and the
 * `booking_data` dictionary becomes a draft carried by the phase itself, so
 * every phase holds exactly the fields collected so far. One step consumes
 * one utterance and yields the next session, the store, the reply and the
 * outside effects it caused, in order.
 *
 * The outside world enters as parameters of the step: the knowledge base's
 * answer to the utterance (used only when a brochure has been loaded), and
 * whether each of the two mails went out.
 */
module Dialogue {

  import opened Intent
  import opened Validators
  import opened BookingStore
  import opened Replies

  /** `booking_state` together with the part of `booking_data` it has filled. */
  datatype Phase =
    | Idle
    | AskingName
    | AskingEmail(name: string)
    | AskingDate(name: string, email: string)
    | AskingTime(name: string, email: string, date: string)
    | Confirming(name: string, email: string, date: string, time: string)

  /**
   * One entry of `messages`. An assistant entry keeps the reply itself; the
   * text stored and shown for it is `Content`.
   */
  datatype Message = UserSaid(text: string) | AssistantSaid(reply: Reply)

  function Content(m: Message): string {
    match m
    case UserSaid(text) => text
    case AssistantSaid(reply) => Render(reply)
  }

  /**
   * `knowledgeLoaded` says whether a brochure has been indexed (a vector
   * store exists); the chat only reads it.
   */
  datatype Session = Session(phase: Phase, history: seq<Message>, knowledgeLoaded: bool)

  const NewSession := Session(Idle, [], false)

  /** What a step does outside the session, in the order it happens. */
  datatype Effect =
    | Consulted(query: string)
    | Inserted(id: nat)
    | ConfirmationMailed(id: nat, to: string, sent: bool)
    | AdminAlerted(id: nat)

  datatype Turn = Turn(session: Session, store: Store, reply: Reply, effects: seq<Effect>)

  /** The phase-level part of a step: next phase, store, reply and effects. */
  datatype Outcome = Outcome(phase: Phase, store: Store, reply: Reply, effects: seq<Effect>)

  /** Every field a phase holds has passed the validator that guarded it. */
  predicate DraftValid(p: Phase) {
    match p
    case Idle => true
    case AskingName => true
    case AskingEmail(_) => true
    case AskingDate(_, email) => IsValidEmail(email)
    case AskingTime(_, email, date) => IsValidEmail(email) && IsValidDate(date)
    case Confirming(_, email, date, time) => IsValidEmail(email) && IsValidDate(date) && IsValidTime(time)
  }

  /** The reply in the idle phase when nothing in the utterance is recognised. */
  function Fallback(store: Store, utterance: string, knowledgeLoaded: bool, answer: string): (o: Outcome)
    ensures o.phase == Idle && o.store == store
    ensures o.effects == [Consulted(utterance)] <==> knowledgeLoaded
    ensures !knowledgeLoaded ==> o.effects == []
  {
    if knowledgeLoaded then Outcome(Idle, store, Knowledge(answer), [Consulted(utterance)])
    else Outcome(Idle, store, UploadHint, [])
  }

  /**
   * The idle phase: the first test that matches decides, in the order
   * greeting, thanks, booking request; otherwise the fallback. Only a booking
   * request leaves the idle phase, and nothing is stored.
   */
  function Dispatch(store: Store, utterance: string, knowledgeLoaded: bool, answer: string): (o: Outcome)
    ensures o.store == store
    ensures o.phase == Idle || o.phase == AskingName
  {
    if IsGreeting(utterance) then Outcome(Idle, store, Greeting, [])
    else if IsThanks(utterance) then Outcome(Idle, store, Thanks, [])
    else if DetectBookingIntent(utterance) then Outcome(AskingName, store, AskName, [])
    else Fallback(store, utterance, knowledgeLoaded, answer)
  }

  /** The email phase: a rejected address is asked for again; an accepted one joins the draft. */
  function CollectEmail(name: string, store: Store, utterance: string): (o: Outcome)
    ensures o.store == store
    ensures o.phase == AskingEmail(name) || (IsValidEmail(utterance) && o.phase == AskingDate(name, utterance))
  {
    if !IsValidEmail(utterance) then Outcome(AskingEmail(name), store, BadEmail, [])
    else Outcome(AskingDate(name, utterance), store, AskDate, [])
  }

  /** The date phase: a rejected date is asked for again; an accepted one joins the draft. */
  function CollectDate(name: string, email: string, store: Store, utterance: string): (o: Outcome)
    ensures o.store == store
    ensures o.phase == AskingDate(name, email) || (IsValidDate(utterance) && o.phase == AskingTime(name, email, utterance))
  {
    if !IsValidDate(utterance) then Outcome(AskingDate(name, email), store, BadDate, [])
    else Outcome(AskingTime(name, email, utterance), store, AskTime, [])
  }

  /** The time phase: a rejected time is asked for again; an accepted one completes the draft. */
  function CollectTime(name: string, email: string, date: string, store: Store, utterance: string): (o: Outcome)
    ensures o.store == store
    ensures || o.phase == AskingTime(name, email, date)
            || (IsValidTime(utterance) && o.phase == Confirming(name, email, date, utterance))
  {
    if !IsValidTime(utterance) then Outcome(AskingTime(name, email, date), store, BadTime, [])
    else Outcome(Confirming(name, email, date, utterance), store, Summary(name, date, utterance), [])
  }

  /**
   * The confirmation phase: an affirmative reply stores the booking, then
   * mails the patient, then alerts the clinic, whose outcome is dropped.
   */
  function Confirm(store: Store, name: string, email: string, date: string, time: string,
                   utterance: string, emailSent: bool, alertSent: bool): (o: Outcome)
    ensures o.phase == Idle
    ensures o.store != store ==> IsAffirmative(utterance)
  {
    if IsAffirmative(utterance) then
      var (store', id) := AddBooking(store, name, email, date, time, DefaultBookingType);
      Outcome(Idle, store', Booked(id, emailSent),
              [Inserted(id), ConfirmationMailed(id, email, emailSent), AdminAlerted(id)])
    else
      Outcome(Idle, store, Cancelled, [])
  }

  function Advance(phase: Phase, store: Store, utterance: string, knowledgeLoaded: bool,
                   answer: string, emailSent: bool, alertSent: bool): (o: Outcome)
    ensures o.store != store ==> phase.Confirming? && IsAffirmative(utterance)
    ensures DraftValid(phase) ==> DraftValid(o.phase)
  {
    match phase
    case Idle => Dispatch(store, utterance, knowledgeLoaded, answer)
    case AskingName =>
      Outcome(AskingEmail(utterance), store, AskEmail, [])
    case AskingEmail(name) => CollectEmail(name, store, utterance)
    case AskingDate(name, email) => CollectDate(name, email, store, utterance)
    case AskingTime(name, email, date) => CollectTime(name, email, date, store, utterance)
    case Confirming(name, email, date, time) =>
      Confirm(store, name, email, date, time, utterance, emailSent, alertSent)
  }

  /**
   * One chat turn: the utterance and the reply are appended to the history,
   * the brochure flag is left alone, and the store changes only when a
   * confirmation is accepted.
   */
  function Step(s: Session, store: Store, utterance: string, answer: string,
                emailSent: bool, alertSent: bool): (t: Turn)
    ensures t.session.history == s.history + [UserSaid(utterance), AssistantSaid(t.reply)]
    ensures t.session.knowledgeLoaded == s.knowledgeLoaded
    ensures t.store != store ==> s.phase.Confirming? && IsAffirmative(utterance)
    ensures DraftValid(s.phase) ==> DraftValid(t.session.phase)
  {
    var o := Advance(s.phase, store, utterance, s.knowledgeLoaded, answer, emailSent, alertSent);
    Turn(Session(o.phase, s.history + [UserSaid(utterance), AssistantSaid(o.reply)], s.knowledgeLoaded),
         o.store, o.reply, o.effects)
  }

  // ---------------------------------------------------------------------------
  // One phase at a time
  // ---------------------------------------------------------------------------

  /**
   * In the idle phase the first match wins: greeting, then thanks, then a
   * booking keyword, then the knowledge base or the upload hint. Only a
   * booking keyword with neither of the first two moves the dialogue on.
   */
  lemma IdleDispatch(s: Session, store: Store, u: string, answer: string, emailSent: bool, alertSent: bool)
    requires s.phase == Idle
    ensures var t := Step(s, store, u, answer, emailSent, alertSent);
      && t.store == store
      && (t.session.phase == AskingName <==> !IsGreeting(u) && !IsThanks(u) && DetectBookingIntent(u))
      && (t.session.phase != AskingName ==> t.session.phase == Idle)
      && (t.reply == Greeting <==> IsGreeting(u))
      && (t.reply == Thanks <==> !IsGreeting(u) && IsThanks(u))
      && (t.reply == AskName <==> t.session.phase == AskingName)
      && (!IsGreeting(u) && !IsThanks(u) && !DetectBookingIntent(u) ==>
            t.reply == (if s.knowledgeLoaded then Knowledge(answer) else UploadHint)
            && t.effects == (if s.knowledgeLoaded then [Consulted(u)] else []))
      && (t.effects != [] ==> t.effects == [Consulted(u)])
  {
  }

  /** A booking request that is neither a greeting nor thanks starts the booking. */
  lemma RequestStartsBooking(s: Session, store: Store, u: string, answer: string, emailSent: bool, alertSent: bool)
    requires s.phase == Idle && !IsGreeting(u) && !IsThanks(u) && DetectBookingIntent(u)
    ensures var t := Step(s, store, u, answer, emailSent, alertSent);
      t.session.phase == AskingName && t.store == store && t.reply == AskName && t.effects == []
  {
  }

  /** Any text containing "hi", such as "this", is answered with the greeting and stays idle. */
  lemma ThisIsAGreeting(s: Session, store: Store, answer: string, emailSent: bool, alertSent: bool)
    requires s.phase == Idle
    ensures Step(s, store, "this", answer, emailSent, alertSent).reply == Greeting
    ensures Step(s, store, "this", answer, emailSent, alertSent).session.phase == Idle
  {
    HiInsideWordIsGreeting();
  }

  /** The name is taken verbatim, with no check at all. */
  lemma NameTakenVerbatim(s: Session, store: Store, u: string, answer: string, emailSent: bool, alertSent: bool)
    requires s.phase == AskingName
    ensures var t := Step(s, store, u, answer, emailSent, alertSent);
      t.session.phase == AskingEmail(u) && t.reply == AskEmail && t.store == store && t.effects == []
  {
  }

  /*
   * The three field phases. A field that passes its check is stored and the
   * dialogue advances exactly one phase; a rejected one changes nothing but
   * the reply.
   */

  lemma EmailGate(s: Session, store: Store, u: string, answer: string, emailSent: bool, alertSent: bool)
    requires s.phase.AskingEmail?
    ensures var t := Step(s, store, u, answer, emailSent, alertSent);
      && t.store == store && t.effects == []
      && (if IsValidEmail(u) then t.session.phase == AskingDate(s.phase.name, u) && t.reply == AskDate
          else t.session.phase == s.phase && t.reply == BadEmail)
  {
  }

  lemma DateGate(s: Session, store: Store, u: string, answer: string, emailSent: bool, alertSent: bool)
    requires s.phase.AskingDate?
    ensures var t := Step(s, store, u, answer, emailSent, alertSent);
      && t.store == store && t.effects == []
      && (if IsValidDate(u) then t.session.phase == AskingTime(s.phase.name, s.phase.email, u) && t.reply == AskTime
          else t.session.phase == s.phase && t.reply == BadDate)
  {
  }

  lemma TimeGate(s: Session, store: Store, u: string, answer: string, emailSent: bool, alertSent: bool)
    requires s.phase.AskingTime?
    ensures var t := Step(s, store, u, answer, emailSent, alertSent);
      && t.store == store && t.effects == []
      && (if IsValidTime(u) then
            t.session.phase == Confirming(s.phase.name, s.phase.email, s.phase.date, u)
            && t.reply == Summary(s.phase.name, s.phase.date, u)
          else t.session.phase == s.phase && t.reply == BadTime)
  {
  }

  /**
   * Whatever is said at the confirmation, the dialogue returns to idle with
   * an empty draft; a booking is stored exactly when the reply is one of
   * the affirmatives, under a fresh id, with the collected fields.
   */
  lemma ConfirmationResets(s: Session, store: Store, u: string, answer: string, emailSent: bool, alertSent: bool)
    requires s.phase.Confirming?
    ensures var t := Step(s, store, u, answer, emailSent, alertSent);
      && t.session.phase == Idle
      && (t.store != store <==> IsAffirmative(u))
      && (!IsAffirmative(u) ==> t.reply == Cancelled && t.effects == [])
      && (IsAffirmative(u) ==>
            var id := store.lastId + 1;
            && t.store == AddBooking(store, s.phase.name, s.phase.email, s.phase.date, s.phase.time, DefaultBookingType).0
            && t.store.rows[id] == Booking(id, s.phase.name, s.phase.email, s.phase.date, s.phase.time,
                                           DefaultBookingType, Confirmed)
            && t.reply == Booked(id, emailSent))
  {
  }

  /**
   * On a commit the booking is stored first, and the two mails that follow
   * both name the new id; the patient's mail goes to the collected address.
   */
  lemma CommitOrder(s: Session, store: Store, u: string, answer: string, emailSent: bool, alertSent: bool)
    requires s.phase.Confirming? && IsAffirmative(u)
    ensures var t := Step(s, store, u, answer, emailSent, alertSent);
      exists id: nat {:trigger Inserted(id)} :: id == store.lastId + 1 && id in t.store.rows
        && t.effects == [Inserted(id), ConfirmationMailed(id, s.phase.email, emailSent), AdminAlerted(id)]
  {
    var t := Step(s, store, u, answer, emailSent, alertSent);
    var id: nat := store.lastId + 1;
    assert t.effects == [Inserted(id), ConfirmationMailed(id, s.phase.email, emailSent), AdminAlerted(id)];
  }

  /** The clinic alert's outcome changes nothing at all. */
  lemma AlertOutcomeIgnored(s: Session, store: Store, u: string, answer: string, emailSent: bool)
    ensures Step(s, store, u, answer, emailSent, true) == Step(s, store, u, answer, emailSent, false)
  {
  }

  /**
   * The patient-mail outcome changes only the wording of the booked reply
   * (and the recorded outcome); the phase, the store and the id are the same.
   */
  lemma MailOutcomeOnlyChangesWording(s: Session, store: Store, u: string, answer: string, alertSent: bool)
    ensures var t1 := Step(s, store, u, answer, true, alertSent);
      var t2 := Step(s, store, u, answer, false, alertSent);
      && t1.session.phase == t2.session.phase
      && t1.store == t2.store
      && (t1.reply == t2.reply || (t1.reply.Booked? && t2.reply.Booked? && t1.reply.id == t2.reply.id))
      && |t1.effects| == |t2.effects|
  {
    var o1 := Advance(s.phase, store, u, s.knowledgeLoaded, answer, true, alertSent);
    var o2 := Advance(s.phase, store, u, s.knowledgeLoaded, answer, false, alertSent);
    if s.phase.Confirming? {
      var p := s.phase;
      assert o1 == Confirm(store, p.name, p.email, p.date, p.time, u, true, alertSent);
      assert o2 == Confirm(store, p.name, p.email, p.date, p.time, u, false, alertSent);
    } else {
      assert o1 == o2;
    }
  }

  /** The chat history is written but never read: it cannot influence a step. */
  lemma HistoryIrrelevant(s1: Session, s2: Session, store: Store, u: string, answer: string,
                          emailSent: bool, alertSent: bool)
    requires s1.phase == s2.phase && s1.knowledgeLoaded == s2.knowledgeLoaded
    ensures var t1 := Step(s1, store, u, answer, emailSent, alertSent);
      var t2 := Step(s2, store, u, answer, emailSent, alertSent);
      t1.session.phase == t2.session.phase && t1.store == t2.store && t1.reply == t2.reply && t1.effects == t2.effects
  {
  }

  /**
   * A repeated "yes" after a booking lands in the idle phase, so it books
   * nothing: one completed dialogue stores at most one booking.
   */
  lemma SecondConfirmationBooksNothing(s: Session, store: Store, u1: string, u2: string, answer: string,
                                        emailSent: bool, alertSent: bool)
    requires s.phase.Confirming?
    ensures var t1 := Step(s, store, u1, answer, emailSent, alertSent);
      Step(t1.session, t1.store, u2, answer, emailSent, alertSent).store == t1.store
  {
    ConfirmationResets(s, store, u1, answer, emailSent, alertSent);
  }

  // ---------------------------------------------------------------------------
  // Stored bookings are always well formed
  // ---------------------------------------------------------------------------

  /** Every stored booking has an address, date and time that passed their validators. */
  predicate BookingsChecked(store: Store) {
    forall k :: k in store.rows ==>
      IsValidEmail(store.rows[k].email) && IsValidDate(store.rows[k].date) && IsValidTime(store.rows[k].time)
  }

  /** A step keeps stored bookings checked, as long as the draft it holds is valid. */
  lemma StepKeepsBookingsChecked(s: Session, store: Store, u: string, answer: string, emailSent: bool, alertSent: bool)
    requires DraftValid(s.phase) && BookingsChecked(store)
    ensures BookingsChecked(Step(s, store, u, answer, emailSent, alertSent).store)
  {
    if s.phase.Confirming? && IsAffirmative(u) {
      var p := s.phase;
      ConfirmationResets(s, store, u, answer, emailSent, alertSent);
      AddKeepsBookingsChecked(store, p.name, p.email, p.date, p.time);
    }
  }

  lemma AddKeepsBookingsChecked(store: Store, name: string, email: string, date: string, time: string)
    requires BookingsChecked(store) && IsValidEmail(email) && IsValidDate(date) && IsValidTime(time)
    ensures BookingsChecked(AddBooking(store, name, email, date, time, DefaultBookingType).0)
  {
    var r := AddBooking(store, name, email, date, time, DefaultBookingType);
    forall k | k in r.0.rows
      ensures IsValidEmail(r.0.rows[k].email) && IsValidDate(r.0.rows[k].date) && IsValidTime(r.0.rows[k].time)
    {
      if k != r.1 {
        assert r.0.rows[k] == store.rows[k];
      }
    }
  }
}
