/**
  The portfolio component as a state machine: its active section starts at
  `summary` and each click or scroll event is one transition.
 */
module Portfolio {
  import opened Sections
  import opened Tracker
  import Nav

  /** The active section at mount. */
  const InitialActive: string := "summary"

  /** One user-visible event, with the geometry read at the time of a scroll. */
  datatype Event =
    | Clicked(id: string)
    | Scrolled(top: string -> real, viewportHeight: int)

  /** Clicks come only from the navigation buttons, so they name declared sections. */
  predicate WellFormed(e: Event) {
    e.Clicked? ==> IsSectionId(e.id)
  }

  /** Applies one event to the active section. */
  function Step(active: string, e: Event): (r: string)
    requires WellFormed(e)
    ensures IsSectionId(active) ==> IsSectionId(r)
    ensures e.Clicked? ==> r == e.id
  {
    match e
    case Clicked(id) => Click(active, id)
    case Scrolled(top, viewportHeight) => Scroll(active, top, viewportHeight)
  }

  /** The active section after the events of `events`, in order, from mount. */
  function Run(events: seq<Event>): (r: string)
    requires forall i :: 0 <= i < |events| ==> WellFormed(events[i])
    ensures IsSectionId(r)
  {
    if |events| == 0 then
      assert Declared[0].id == InitialActive;
      InitialActive
    else Step(Run(events[..|events| - 1]), events[|events| - 1])
  }

  /** Before any event the active section is `summary`, the first declared section. */
  lemma InitialIsSummary()
    ensures Run([]) == "summary" && Run([]) == Declared[0].id
  {
  }

  /** Appending one event applies one step to the state reached so far. */
  lemma RunSnoc(events: seq<Event>, e: Event)
    requires forall i :: 0 <= i < |events| ==> WellFormed(events[i])
    requires WellFormed(e)
    ensures forall i :: 0 <= i < |events + [e]| ==> WellFormed((events + [e])[i])
    ensures Run(events + [e]) == Step(Run(events), e)
  {
  }

  /** A click decides the state alone: the last click wins over any history. */
  lemma ClickOverridesHistory(events: seq<Event>, id: string)
    requires forall i :: 0 <= i < |events| ==> WellFormed(events[i])
    requires IsSectionId(id)
    ensures Run(events + [Clicked(id)]) == id
    ensures Nav.CountHighlighted(Nav.Buttons(Run(events + [Clicked(id)]))) == 1
  {
    RunSnoc(events, Clicked(id));
    Nav.ExactlyOneHighlighted(id);
  }

  /** A scroll that finds no section in the upper half leaves the state as it was. */
  lemma NonMatchingScrollKeepsState(events: seq<Event>, top: string -> real, viewportHeight: int)
    requires forall i :: 0 <= i < |events| ==> WellFormed(events[i])
    requires !AnyMatch(top, viewportHeight)
    ensures Run(events + [Scrolled(top, viewportHeight)]) == Run(events)
  {
  }

  /**
    A click followed by a scroll that finds a match ends on the first match,
    whichever section was clicked: the scroll events the smooth-scroll
    animation produces can replace the clicked id.
   */
  lemma ClickThenScroll(events: seq<Event>, id: string, top: string -> real, viewportHeight: int)
    requires forall i :: 0 <= i < |events| ==> WellFormed(events[i])
    requires IsSectionId(id)
    requires AnyMatch(top, viewportHeight)
    ensures forall i :: IsFirstMatch(top, viewportHeight, i) ==>
      Run(events + [Clicked(id), Scrolled(top, viewportHeight)]) == Declared[i].id
  {
    var clicked := events + [Clicked(id)];
    RunSnoc(events, Clicked(id));
    RunSnoc(clicked, Scrolled(top, viewportHeight));
    assert clicked + [Scrolled(top, viewportHeight)] == events + [Clicked(id), Scrolled(top, viewportHeight)];
  }

  /**
    At the bottom of an 800-pixel viewport the short last card `languages`
    never reaches the upper half, so after a click on it the scroll events
    hand the highlight to `achievements`.
   */
  lemma ClickThenScrollExample()
    ensures IsSectionId("languages")
    ensures Run([Clicked("languages"), Scrolled(BottomTops, 800)]) == "achievements"
  {
    assert Declared[4].id == "languages";
    assert IsFirstMatch(BottomTops, 800, 3);
    ClickThenScroll([], "languages", BottomTops, 800);
    assert [] + [Clicked("languages"), Scrolled(BottomTops, 800)] == [Clicked("languages"), Scrolled(BottomTops, 800)];
  }

  /** Tops by section id with the page scrolled to its bottom. */
  function BottomTops(id: string): real {
    match id
    case "summary" => -1500.0
    case "competencies" => -1100.0
    case "experience" => -500.0
    case "achievements" => 278.0
    case _ => 560.0
  }

  /** In every reachable state exactly one navigation button is highlighted. */
  lemma ReachableHighlightsOne(events: seq<Event>)
    requires forall i :: 0 <= i < |events| ==> WellFormed(events[i])
    ensures Nav.CountHighlighted(Nav.Buttons(Run(events))) == 1
  {
    Nav.ExactlyOneHighlighted(Run(events));
  }
}
