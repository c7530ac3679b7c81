/** The onboarding carousel (onboarding.tsx): three slides walked with the
    main button, left for the home screen by the last press or by SKIP. */
module Onboarding {
  import opened Text

  const SlideCount: nat := 3

  /** The slide on show and whether the screen has been left for `/home`. */
  datatype Carousel = Carousel(current: int, finished: bool)

  function Init(): (c: Carousel)
    ensures c.current == 0 && !c.finished
  {
    Carousel(0, false)
  }

  predicate InRange(c: Carousel) {
    0 <= c.current < SlideCount
  }

  /** `nextSlide`: one slide on while there is one, otherwise finish on the
      slide reached. */
  function Next(c: Carousel): (r: Carousel)
    ensures c.current < SlideCount - 1 ==> r.current == c.current + 1 && r.finished == c.finished
    ensures c.current >= SlideCount - 1 ==> r.current == c.current && r.finished
  {
    if c.current < SlideCount - 1 then c.(current := c.current + 1)
    else c.(finished := true)
  }

  /** SKIP: finish from whichever slide is on show. */
  function Skip(c: Carousel): (r: Carousel)
    ensures r.finished && r.current == c.current
  {
    c.(finished := true)
  }

  /** The main button's caption. */
  function ButtonLabel(c: Carousel): (s: string)
    ensures s == "GET STARTED" <==> c.current == SlideCount - 1
    ensures s != "GET STARTED" ==> s == "NEXT"
  {
    if c.current == SlideCount - 1 then "GET STARTED" else "NEXT"
  }

  /** On an unfinished carousel the button reads GET STARTED exactly when
      pressing it finishes onboarding; NEXT only ever moves to another
      slide. */
  lemma LabelPredictsFinish(c: Carousel)
    requires InRange(c) && !c.finished
    ensures ButtonLabel(c) == "GET STARTED" <==> Next(c).finished
  {
  }

  /** The counter at the top: the 1-based slide number over 3. */
  function ProgressText(c: Carousel): (s: string)
    requires InRange(c)
    ensures |s| == 3 && s[1..] == "/3"
    ensures AllDigits(s[..1]) && DigitsValue(s[..1]) == c.current + 1
  {
    var n := NatToString(c.current + 1);
    NatToStringRoundTrip(c.current + 1);
    assert (n + "/3")[..1] == n;
    n + "/" + "3"
  }

  function SlideTitle(c: Carousel): (s: string)
    requires InRange(c)
    ensures c.current == 0 ==> s == "ACHIEVEMENT"
    ensures c.current == 1 ==> s == "DISCIPLINE"
    ensures c.current == 2 ==> s == "MOTIVATION"
  {
    ["ACHIEVEMENT", "DISCIPLINE", "MOTIVATION"][c.current]
  }

  datatype Event = NextPress | SkipPress

  /** One press; once the screen is left, nothing more happens on it. */
  function Step(c: Carousel, e: Event): Carousel {
    if c.finished then c
    else match e
      case NextPress => Next(c)
      case SkipPress => Skip(c)
  }

  function Run(c: Carousel, events: seq<Event>): Carousel
    decreases |events|
  {
    if events == [] then c else Run(Step(c, events[0]), events[1..])
  }

  /** The slide index never leaves the three slides. */
  lemma {:induction false} RunStaysInRange(c: Carousel, events: seq<Event>)
    requires InRange(c)
    ensures InRange(Run(c, events))
    decreases |events|
  {
    if events != [] {
      RunStaysInRange(Step(c, events[0]), events[1..]);
    }
  }

  /** Starting from the first slide, k presses of the main button with
      k at most 2 show slide k and do not finish; one more press then
      finishes on the last slide. */
  lemma {:induction false} NextPresses(k: nat)
    requires k <= SlideCount - 1
    ensures Run(Init(), seq(k, _ => NextPress)) == Carousel(k, false)
    ensures Run(Init(), seq(k + 1, _ => NextPress)) ==
              (if k == SlideCount - 1 then Carousel(k, true) else Carousel(k + 1, false))
  {
    if k > 0 {
      NextPresses(k - 1);
      RunSnoc(Init(), seq(k - 1, _ => NextPress), NextPress);
      assert seq(k - 1, _ => NextPress) + [NextPress] == seq(k, _ => NextPress);
    } else {
      assert seq(0, _ => NextPress) == [];
    }
    RunSnoc(Init(), seq(k, _ => NextPress), NextPress);
    assert seq(k, _ => NextPress) + [NextPress] == seq(k + 1, _ => NextPress);
  }

  /** A run extended by one event is that event after the run. */
  lemma {:induction false} RunSnoc(c: Carousel, events: seq<Event>, e: Event)
    ensures Run(c, events + [e]) == Step(Run(c, events), e)
    decreases |events|
  {
    if events == [] {
      assert events + [e] == [e];
    } else {
      assert (events + [e])[1..] == events[1..] + [e];
      RunSnoc(Step(c, events[0]), events[1..], e);
    }
  }

  /** SKIP finishes from every slide, at once. */
  lemma SkipFinishesAnywhere(c: Carousel)
    requires InRange(c)
    ensures Run(c, [SkipPress]).finished
  {
  }
}
