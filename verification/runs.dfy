/**
 * Whole conversations: the step function folded over a sequence of turns,
 * with what holds however the conversation goes, and a few conversations
 * worked through end to end.
 */
module Runs {

  import opened Intent
  import opened Validators
  import opened BookingStore
  import opened Replies
  import opened Dialogue

  /** One user turn together with what the outside world answers during it. */
  datatype Input = Input(utterance: string, answer: string, emailSent: bool, alertSent: bool)

  function StepWith(s: Session, store: Store, i: Input): Turn {
    Step(s, store, i.utterance, i.answer, i.emailSent, i.alertSent)
  }

  /** The session and store after all the turns, in order. */
  function Run(s: Session, store: Store, inputs: seq<Input>): (Session, Store)
    decreases |inputs|
  {
    if inputs == [] then (s, store)
    else
      var t := StepWith(s, store, inputs[0]);
      Run(t.session, t.store, inputs[1..])
  }

  /** How many of the turns stored a booking. */
  function Commits(s: Session, store: Store, inputs: seq<Input>): nat
    decreases |inputs|
  {
    if inputs == [] then 0
    else
      var t := StepWith(s, store, inputs[0]);
      (if t.store != store then 1 else 0) + Commits(t.session, t.store, inputs[1..])
  }

  /** How far a booking has got: the number of turns spent on it so far. */
  function Progress(p: Phase): nat {
    match p
    case Idle => 0
    case AskingName => 1
    case AskingEmail(_) => 2
    case AskingDate(_, _) => 3
    case AskingTime(_, _, _) => 4
    case Confirming(_, _, _, _) => 5
  }

  /** Before the confirmation a turn never stores anything and moves on by at most one phase. */
  lemma CollectingProgress(s: Session, store: Store, i: Input)
    requires !s.phase.Confirming?
    ensures var t := StepWith(s, store, i);
      t.store == store && Progress(t.session.phase) <= Progress(s.phase) + 1
  {
    if s.phase.Idle? || s.phase.AskingName? {
      OpeningProgress(s, store, i);
    } else {
      FieldProgress(s, store, i);
    }
  }

  lemma OpeningProgress(s: Session, store: Store, i: Input)
    requires s.phase.Idle? || s.phase.AskingName?
    ensures var t := StepWith(s, store, i);
      t.store == store && Progress(t.session.phase) <= Progress(s.phase) + 1
  {
    var u, a, m, z := i.utterance, i.answer, i.emailSent, i.alertSent;
    if s.phase.Idle? {
      IdleDispatch(s, store, u, a, m, z);
    } else {
      NameTakenVerbatim(s, store, u, a, m, z);
    }
  }

  lemma FieldProgress(s: Session, store: Store, i: Input)
    requires s.phase.AskingEmail? || s.phase.AskingDate? || s.phase.AskingTime?
    ensures var t := StepWith(s, store, i);
      t.store == store && Progress(t.session.phase) <= Progress(s.phase) + 1
  {
    var u, a, m, z := i.utterance, i.answer, i.emailSent, i.alertSent;
    if s.phase.AskingEmail? {
      EmailGate(s, store, u, a, m, z);
    } else {
      LaterFieldProgress(s, store, i);
    }
  }

  lemma LaterFieldProgress(s: Session, store: Store, i: Input)
    requires s.phase.AskingDate? || s.phase.AskingTime?
    ensures var t := StepWith(s, store, i);
      t.store == store && Progress(t.session.phase) <= Progress(s.phase) + 1
  {
    var u, a, m, z := i.utterance, i.answer, i.emailSent, i.alertSent;
    if s.phase.AskingDate? {
      DateGate(s, store, u, a, m, z);
    } else {
      TimeGate(s, store, u, a, m, z);
    }
  }

  /**
   * A turn moves a booking on by at most one phase; a turn that stores a
   * booking comes from the confirmation phase, issues exactly one id and
   * starts over.
   */
  lemma StepProgress(s: Session, store: Store, i: Input)
    ensures var t := StepWith(s, store, i);
      && (t.store == store ==> Progress(t.session.phase) <= Progress(s.phase) + 1)
      && (t.store != store ==>
            Progress(s.phase) == 5 && t.session.phase == Idle && t.store.lastId == store.lastId + 1)
  {
    if s.phase.Confirming? {
      ConfirmationResets(s, store, i.utterance, i.answer, i.emailSent, i.alertSent);
    } else {
      CollectingProgress(s, store, i);
    }
  }

  /**
   * Over any conversation, the id counter grows by exactly the number of
   * bookings stored, and every booking costs six turns: one to ask, one for
   * each of the four fields and one to confirm.
   */
  lemma {:induction false} RunCounts(s: Session, store: Store, inputs: seq<Input>)
    ensures Run(s, store, inputs).1.lastId == store.lastId + Commits(s, store, inputs)
    ensures 6 * Commits(s, store, inputs) + Progress(Run(s, store, inputs).0.phase) <= |inputs| + Progress(s.phase)
    decreases |inputs|
  {
    if inputs != [] {
      var t := StepWith(s, store, inputs[0]);
      StepProgress(s, store, inputs[0]);
      RunCounts(t.session, t.store, inputs[1..]);
    }
  }

  /** A fresh chat cannot store more than one booking per six turns. */
  lemma SixTurnsPerBooking(inputs: seq<Input>)
    ensures 6 * Run(NewSession, EmptyStore, inputs).1.lastId <= |inputs|
  {
    RunCounts(NewSession, EmptyStore, inputs);
  }

  /**
   * Every booking the chat stores has an address, a date and a time that
   * passed their validators, and the draft stays valid throughout.
   */
  lemma {:induction false} RunKeepsBookingsChecked(s: Session, store: Store, inputs: seq<Input>)
    requires DraftValid(s.phase) && BookingsChecked(store)
    ensures DraftValid(Run(s, store, inputs).0.phase) && BookingsChecked(Run(s, store, inputs).1)
    decreases |inputs|
  {
    if inputs != [] {
      var i := inputs[0];
      var t := StepWith(s, store, i);
      StepKeepsBookingsChecked(s, store, i.utterance, i.answer, i.emailSent, i.alertSent);
      RunKeepsBookingsChecked(t.session, t.store, inputs[1..]);
    }
  }

  /** The chat keeps the store well formed. */
  lemma {:induction false} RunKeepsStoreValid(s: Session, store: Store, inputs: seq<Input>)
    requires Valid(store)
    ensures Valid(Run(s, store, inputs).1)
    decreases |inputs|
  {
    if inputs != [] {
      var i := inputs[0];
      var t := StepWith(s, store, i);
      if s.phase.Confirming? && IsAffirmative(i.utterance) {
        OperationsPreserveValid(store, 0, DefaultBookingType, DefaultAdmin,
                                s.phase.name, s.phase.email, s.phase.date, s.phase.time);
      }
      RunKeepsStoreValid(t.session, t.store, inputs[1..]);
    }
  }

  /** The history records every turn, two messages each, and never loses one. */
  lemma {:induction false} RunHistory(s: Session, store: Store, inputs: seq<Input>)
    ensures |Run(s, store, inputs).0.history| == |s.history| + 2 * |inputs|
    ensures Run(s, store, inputs).0.history[..|s.history|] == s.history
    decreases |inputs|
  {
    if inputs != [] {
      var t := StepWith(s, store, inputs[0]);
      RunHistory(t.session, t.store, inputs[1..]);
      var h := Run(s, store, inputs).0.history;
      assert h[..|t.session.history|] == t.session.history;
      assert h[..|s.history|] == h[..|t.session.history|][..|s.history|];
    }
  }

  // ---------------------------------------------------------------------------
  // Conversations worked through
  // ---------------------------------------------------------------------------

  /** The booking the conversation below stores. */
  function Stored(store: Store, name: string, email: string, date: string, time: string): (r: Store)
    ensures store.lastId + 1 in r.rows
    ensures r.rows[store.lastId + 1] == Booking(store.lastId + 1, name, email, date, time, DefaultBookingType, Confirmed)
  {
    AddBooking(store, name, email, date, time, DefaultBookingType).0
  }

  // The conversation below, one turn per lemma, from the last turn back to the
  // first. Each turn brings its own knowledge-base answer and mail outcomes.

  lemma ConfirmTurn(s: Session, store: Store, inputs: seq<Input>)
    requires |inputs| == 1 && s.phase.Confirming? && IsAffirmative(inputs[0].utterance)
    ensures var r := Run(s, store, inputs);
      r.0.phase == Idle && r.1 == Stored(store, s.phase.name, s.phase.email, s.phase.date, s.phase.time)
  {
    var i := inputs[0];
    ConfirmationResets(s, store, i.utterance, i.answer, i.emailSent, i.alertSent);
    assert inputs[1..] == [];
  }

  lemma TimeTurn(s: Session, store: Store, inputs: seq<Input>)
    requires |inputs| == 2 && s.phase.AskingTime?
    requires IsValidTime(inputs[0].utterance) && IsAffirmative(inputs[1].utterance)
    ensures var r := Run(s, store, inputs);
      r.0.phase == Idle && r.1 == Stored(store, s.phase.name, s.phase.email, s.phase.date, inputs[0].utterance)
  {
    var i := inputs[0];
    var t := StepWith(s, store, i);
    TimeGate(s, store, i.utterance, i.answer, i.emailSent, i.alertSent);
    ConfirmTurn(t.session, t.store, inputs[1..]);
  }

  lemma DateTurn(s: Session, store: Store, inputs: seq<Input>)
    requires |inputs| == 3 && s.phase.AskingDate?
    requires IsValidDate(inputs[0].utterance) && IsValidTime(inputs[1].utterance)
    requires IsAffirmative(inputs[2].utterance)
    ensures var r := Run(s, store, inputs);
      r.0.phase == Idle
      && r.1 == Stored(store, s.phase.name, s.phase.email, inputs[0].utterance, inputs[1].utterance)
  {
    var i := inputs[0];
    var t := StepWith(s, store, i);
    DateGate(s, store, i.utterance, i.answer, i.emailSent, i.alertSent);
    TimeTurn(t.session, t.store, inputs[1..]);
  }

  lemma EmailTurn(s: Session, store: Store, inputs: seq<Input>)
    requires |inputs| == 4 && s.phase.AskingEmail?
    requires IsValidEmail(inputs[0].utterance) && IsValidDate(inputs[1].utterance)
    requires IsValidTime(inputs[2].utterance) && IsAffirmative(inputs[3].utterance)
    ensures var r := Run(s, store, inputs);
      r.0.phase == Idle
      && r.1 == Stored(store, s.phase.name, inputs[0].utterance, inputs[1].utterance, inputs[2].utterance)
  {
    var i := inputs[0];
    var t := StepWith(s, store, i);
    EmailGate(s, store, i.utterance, i.answer, i.emailSent, i.alertSent);
    DateTurn(t.session, t.store, inputs[1..]);
  }

  lemma NameTurn(s: Session, store: Store, inputs: seq<Input>)
    requires |inputs| == 5 && s.phase == AskingName
    requires IsValidEmail(inputs[1].utterance) && IsValidDate(inputs[2].utterance)
    requires IsValidTime(inputs[3].utterance) && IsAffirmative(inputs[4].utterance)
    ensures var r := Run(s, store, inputs);
      r.0.phase == Idle
      && r.1 == Stored(store, inputs[0].utterance, inputs[1].utterance, inputs[2].utterance, inputs[3].utterance)
  {
    var i := inputs[0];
    var t := StepWith(s, store, i);
    NameTakenVerbatim(s, store, i.utterance, i.answer, i.emailSent, i.alertSent);
    EmailTurn(t.session, t.store, inputs[1..]);
  }

  /**
   * A request, a name, then an address, a date and a time that pass their
   * checks, then an affirmative: exactly one Confirmed booking is stored,
   * under the next id, with those fields, and the chat is idle again. The
   * knowledge-base answers and the mail outcomes of the six turns are arbitrary.
   */
  lemma BookingConversation(s: Session, store: Store, inputs: seq<Input>)
    requires |inputs| == 6 && s.phase == Idle
    requires !IsGreeting(inputs[0].utterance) && !IsThanks(inputs[0].utterance)
    requires DetectBookingIntent(inputs[0].utterance)
    requires IsValidEmail(inputs[2].utterance) && IsValidDate(inputs[3].utterance)
    requires IsValidTime(inputs[4].utterance) && IsAffirmative(inputs[5].utterance)
    ensures var r := Run(s, store, inputs);
      r.0.phase == Idle
      && r.1 == Stored(store, inputs[1].utterance, inputs[2].utterance, inputs[3].utterance, inputs[4].utterance)
  {
    var i := inputs[0];
    var t := StepWith(s, store, i);
    RequestStartsBooking(s, store, i.utterance, i.answer, i.emailSent, i.alertSent);
    NameTurn(t.session, t.store, inputs[1..]);
  }

  /** The answers below pass the checks the conversation needs. */
  lemma JaneAnswersPass()
    ensures !IsGreeting("I want to book") && !IsThanks("I want to book") && DetectBookingIntent("I want to book")
    ensures IsValidEmail("jane@mail.com") && IsValidDate("2025-03-10") && IsValidTime("10:30 AM")
    ensures IsAffirmative("yes")
  {
    BookRequestIsOnlyBooking();
    AcceptsPlainAddress();
    AcceptsMarchTenth();
    AcceptsHalfPastTen();
    YesConfirmsInAnyCase();
  }

  lemma JaneIsFirstBooking()
    ensures Stored(EmptyStore, "Jane Doe", "jane@mail.com", "2025-03-10", "10:30 AM").rows
         == map[1 := Booking(1, "Jane Doe", "jane@mail.com", "2025-03-10", "10:30 AM", DefaultBookingType, Confirmed)]
  {
  }

  /**
   * The same conversation with concrete answers, on a fresh chat: booking
   * number 1 is stored, whatever the knowledge base and the mail server do.
   */
  lemma JaneBooks(inputs: seq<Input>)
    requires |inputs| == 6
    requires inputs[0].utterance == "I want to book" && inputs[1].utterance == "Jane Doe"
    requires inputs[2].utterance == "jane@mail.com" && inputs[3].utterance == "2025-03-10"
    requires inputs[4].utterance == "10:30 AM" && inputs[5].utterance == "yes"
    ensures var r := Run(NewSession, EmptyStore, inputs);
      && r.0.phase == Idle
      && r.1.rows == map[1 := Booking(1, "Jane Doe", "jane@mail.com", "2025-03-10", "10:30 AM",
                                      DefaultBookingType, Confirmed)]
  {
    JaneAnswersPass();
    BookingConversation(NewSession, EmptyStore, inputs);
    JaneIsFirstBooking();
  }

  /** A malformed address is refused and the chat keeps asking for one, holding on to the name. */
  lemma DoubleAtIsRefused(s: Session, store: Store, answer: string, sent: bool)
    requires s.phase.AskingEmail?
    ensures var t := Step(s, store, "jane@@mail", answer, sent, sent);
      t.session.phase == s.phase && t.reply == BadEmail && t.store == store
  {
    RejectsDoubleAt();
    EmailGate(s, store, "jane@@mail", answer, sent, sent);
  }

  /** Anything but an affirmative at the confirmation cancels: nothing is stored. */
  lemma NopeCancels(s: Session, store: Store, answer: string, sent: bool)
    requires s.phase.Confirming?
    ensures var t := Step(s, store, "nope", answer, sent, sent);
      t.session.phase == Idle && t.reply == Cancelled && t.store == store
  {
    NopeDoesNotConfirm();
    ConfirmationResets(s, store, "nope", answer, sent, sent);
  }
}
