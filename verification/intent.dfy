/**
 * The keyword classifiers that route an utterance in the IDLE state and the
 * confirmation test (app.py:144-163, 271-274, 558). Each classifier is a
 * lower-cased substring test over a fixed word list; the confirmation test is
 * exact membership of the whole lower-cased reply, unstripped, in its list.
 */
module Intent {

  import opened Text

  const Greetings: seq<string> :=
    ["hello", "hi", "hey", "good morning", "good afternoon", "good evening", "hola"]

  const ThanksWords: seq<string> := ["thanks", "thank you", "thx", "ty"]

  const BookingKeywords: seq<string> := ["book", "schedule", "appointment", "reserve", "slot"]

  /** The replies that confirm a booking, compared after lower-casing only. */
  const Affirmatives: seq<string> := ["yes", "y", "confirm", "ok"]

  /** Some word of `words` occurs in `text`. */
  ghost predicate Mentions(text: string, words: seq<string>) {
    exists k :: 0 <= k < |words| && Occurs(words[k], text)
  }

  /** Python's `any(w in text for w in words)`. */
  function AnyIn(words: seq<string>, text: string): (r: bool)
    ensures r <==> Mentions(text, words)
  {
    if words == [] then false
    else if Contains(text, words[0]) then true
    else
      assert forall k :: 1 <= k < |words| ==> words[k] == words[1..][k - 1];
      AnyIn(words[1..], text)
  }

  /** `w` neither starts nor ends with white space. */
  predicate Unpadded(w: string) {
    |w| > 0 && !IsSpace(w[0]) && !IsSpace(w[|w| - 1])
  }

  lemma GreetingsUnpadded()
    ensures forall k :: 0 <= k < |Greetings| ==> Unpadded(Greetings[k])
  {
    forall k | 0 <= k < |Greetings|
      ensures Unpadded(Greetings[k])
    {
      var w := Greetings[k];
      assert w[0] in "hg" && w[|w| - 1] in "oiygna";
    }
  }

  lemma MentionsStrip(text: string, words: seq<string>)
    requires forall k :: 0 <= k < |words| ==> Unpadded(words[k])
    ensures Mentions(Strip(text), words) <==> Mentions(text, words)
  {
    forall k | 0 <= k < |words|
      ensures Occurs(words[k], Strip(text)) <==> Occurs(words[k], text)
    {
      OccursStrip(words[k], text);
    }
  }

  /**
   * `is_greeting`: the text is lower-cased and stripped first, but stripping
   * cannot matter, since no greeting starts or ends with white space.
   */
  function IsGreeting(text: string): (r: bool)
    ensures r <==> Mentions(Lower(text), Greetings)
  {
    GreetingsUnpadded();
    MentionsStrip(Lower(text), Greetings);
    AnyIn(Greetings, Strip(Lower(text)))
  }

  /** `is_thanks`. */
  function IsThanks(text: string): (r: bool)
    ensures r <==> Mentions(Lower(text), ThanksWords)
  {
    AnyIn(ThanksWords, Lower(text))
  }

  /** `detect_booking_intent`. */
  function DetectBookingIntent(text: string): (r: bool)
    ensures r <==> Mentions(Lower(text), BookingKeywords)
  {
    AnyIn(BookingKeywords, Lower(text))
  }

  /**
   * The confirmation test: the lower-cased reply is exactly one of the
   * affirmatives. So the reply spells an affirmative letter for letter, each
   * letter small, capital or (for `k`) KELVIN SIGN, with nothing around it.
   */
  function IsAffirmative(text: string): (r: bool)
    ensures r <==> exists k :: 0 <= k < |Affirmatives| && SameLetters(text, Affirmatives[k])
  {
    AffirmativeLetters(text);
    Lower(text) in Affirmatives
  }

  /** Membership of the lower case in the list is a letter-for-letter match against one entry. */
  lemma AffirmativeLetters(u: string)
    ensures Lower(u) in Affirmatives <==> exists k :: 0 <= k < |Affirmatives| && SameLetters(u, Affirmatives[k])
  {
    forall k | 0 <= k < |Affirmatives|
      ensures Lower(u) == Affirmatives[k] <==> SameLetters(u, Affirmatives[k])
    {
      var w := Affirmatives[k];
      assert forall j :: 0 <= j < |w| ==> IsSmallAscii(w[j]);
      LowerMatchesWord(u, w);
    }
  }

  // ---------------------------------------------------------------------------
  // Facts about the classifiers
  // ---------------------------------------------------------------------------

  /** Every character of a word that occurs in a text occurs in the text. */
  lemma OccursCharIn(w: string, t: string, j: int)
    requires Occurs(w, t) && 0 <= j < |w|
    ensures w[j] in t
  {
    var i :| OccursAt(w, t, i);
    assert t[i + j] == t[i..i + |w|][j];
  }

  /**
   * A text mentions none of `words` when, for some position `j`, the character
   * every word has at `j` is missing from the text.
   */
  lemma NotMentioned(text: string, words: seq<string>, j: nat, absent: string)
    requires forall k :: 0 <= k < |words| ==> j < |words[k]| && words[k][j] in absent
    requires forall c :: c in absent ==> c !in text
    ensures !Mentions(text, words)
  {
    forall k | 0 <= k < |words|
      ensures !Occurs(words[k], text)
    {
      if Occurs(words[k], text) {
        OccursCharIn(words[k], text, j);
      }
    }
  }

  /** Adding text around an utterance never loses a keyword match. */
  lemma MentionsGrow(a: string, b: string, words: seq<string>)
    ensures Mentions(Lower(a), words) ==> Mentions(Lower(a + b), words) && Mentions(Lower(b + a), words)
  {
    LowerAppend(a, b);
    LowerAppend(b, a);
    if Mentions(Lower(a), words) {
      var k :| 0 <= k < |words| && Occurs(words[k], Lower(a));
      OccursInAppend(words[k], Lower(a), Lower(b));
      OccursInAppend(words[k], Lower(b), Lower(a));
    }
  }

  /** The classifiers are monotone: a longer utterance keeps every match of a shorter one. */
  lemma ClassifiersMonotone(a: string, b: string)
    ensures IsGreeting(a) ==> IsGreeting(a + b) && IsGreeting(b + a)
    ensures IsThanks(a) ==> IsThanks(a + b) && IsThanks(b + a)
    ensures DetectBookingIntent(a) ==> DetectBookingIntent(a + b) && DetectBookingIntent(b + a)
  {
    MentionsGrow(a, b, Greetings);
    MentionsGrow(a, b, ThanksWords);
    MentionsGrow(a, b, BookingKeywords);
  }

  lemma LowerOfThis()
    ensures Lower("this") == "this"
  {
    LowerKeeps("this");
  }

  /** "hi" is matched inside other words, so "this" counts as a greeting. */
  lemma HiInsideWordIsGreeting()
    ensures IsGreeting("this")
  {
    LowerOfThis();
    assert OccursAt(Greetings[1], "this", 1);
  }

  lemma LowerOfParty()
    ensures Lower("party") == "party"
  {
    LowerKeeps("party");
  }

  /** Likewise "ty" inside "party" counts as thanks. */
  lemma TyInsideWordIsThanks()
    ensures IsThanks("party")
  {
    LowerOfParty();
    assert OccursAt(ThanksWords[3], "party", 3);
  }

  lemma LowerOfSlotRequest()
    ensures Lower("can i book this slot") == "can i book this slot"
  {
    LowerKeeps("can i book this slot");
  }

  /**
   * A booking request that also contains "hi" is classified as a greeting as
   * well as a booking request; the dialogue checks greetings first.
   */
  lemma SlotRequestMentions()
    ensures Mentions("can i book this slot", Greetings)
    ensures Mentions("can i book this slot", BookingKeywords)
  {
    assert OccursAt(Greetings[1], "can i book this slot", 12);
    assert OccursAt(BookingKeywords[0], "can i book this slot", 6);
  }

  lemma GreetingAndBookingOverlap()
    ensures IsGreeting("can i book this slot") && DetectBookingIntent("can i book this slot")
  {
    LowerOfSlotRequest();
    SlotRequestMentions();
  }

  lemma BookRequestSplits()
    ensures "I" + " want to book" == "I want to book"
  {
  }

  lemma LowerOfBookRequestSplits()
    ensures Lower("I want to book") == Lower("I") + Lower(" want to book")
  {
    LowerAppend("I", " want to book");
    BookRequestSplits();
  }

  lemma LowerOfBookRequestTail()
    ensures Lower(" want to book") == " want to book"
  {
    LowerKeeps(" want to book");
  }

  lemma LowerOfBookRequest()
    ensures Lower("I want to book") == "i" + " want to book"
  {
    LowerOfBookRequestSplits();
    LowerOfBookRequestTail();
  }

  lemma BookRequestMentions()
    ensures !Mentions("i" + " want to book", Greetings)
    ensures !Mentions("i" + " want to book", ThanksWords)
    ensures Mentions("i" + " want to book", BookingKeywords)
  {
    var t := "i" + " want to book";
    assert forall k :: 0 <= k < |Greetings| ==> 0 < |Greetings[k]| && Greetings[k][0] in "hg";
    assert forall c :: c in "hg" ==> c !in t;
    NotMentioned(t, Greetings, 0, "hg");
    assert forall k :: 0 <= k < |ThanksWords| ==> 1 < |ThanksWords[k]| && ThanksWords[k][1] in "hy";
    assert forall c :: c in "hy" ==> c !in t;
    NotMentioned(t, ThanksWords, 1, "hy");
    assert t[10..14] == "book";
    assert OccursAt(BookingKeywords[0], t, 10);
  }

  /** The opening utterance of the booking scenario is a booking request and nothing else. */
  lemma BookRequestIsOnlyBooking()
    ensures !IsGreeting("I want to book")
    ensures !IsThanks("I want to book")
    ensures DetectBookingIntent("I want to book")
  {
    LowerOfBookRequest();
    BookRequestMentions();
  }

  /** Confirmation ignores case ... */
  lemma YesConfirmsInAnyCase()
    ensures IsAffirmative("yes") && IsAffirmative("YES") && IsAffirmative("Yes")
  {
    assert Lower("yes") == "yes";
    assert Lower("YES") == "yes";
    assert Lower("Yes") == "yes";
  }

  /** ... but not surrounding white space, */
  lemma PaddedYesDoesNotConfirm()
    ensures !IsAffirmative("yes ")
  {
    LowerKeeps("yes ");
  }

  lemma LowerOfYesPlease()
    ensures Lower("yes please") == "yes please"
  {
    LowerKeeps("yes please");
  }

  /** ... nor extra words. */
  lemma YesPleaseDoesNotConfirm()
    ensures !IsAffirmative("yes please")
  {
    LowerOfYesPlease();
  }

  lemma NopeDoesNotConfirm()
    ensures !IsAffirmative("nope")
  {
    LowerKeeps("nope");
  }

  /** KELVIN SIGN lowers to `k`, so "o" followed by it confirms too. */
  lemma KelvinSignConfirms()
    ensures IsAffirmative("o\U{212A}")
  {
    assert Lower("o\U{212A}") == "ok";
  }
}
