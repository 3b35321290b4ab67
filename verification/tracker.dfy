/**
  The two transitions of the active-section state. The state is the id string
  the component keeps; the host's geometry reads are parameters: `top` gives
  the distance of a section's anchor from the viewport top (its
  bounding-rectangle top) and `viewportHeight` is the window's inner height.
 */
module Tracker {
  import opened Sections

  datatype Option<T> = None | Some(value: T)

  /** A section id paired with the top offset measured for it. */
  datatype Offset = Offset(id: string, top: real)

  /**
    The scroll predicate: the top lies in the upper half of the viewport.
    Equivalently, with no division, twice the top is below the height.
   */
  function InUpperHalf(top: real, viewportHeight: int): (b: bool)
    ensures b <==> 0.0 <= top && 2.0 * top < viewportHeight as real
  {
    0.0 <= top && top < viewportHeight as real / 2.0
  }

  /** Measures every declared section, in declared order. */
  function Measure(top: string -> real): (offsets: seq<Offset>)
    ensures |offsets| == |Declared|
    ensures forall i :: 0 <= i < |offsets| ==> offsets[i] == Offset(Declared[i].id, top(Declared[i].id))
  {
    seq(|Declared|, i requires 0 <= i < |Declared| => Offset(Declared[i].id, top(Declared[i].id)))
  }

  /** The first index at or after `k` whose offset lies in the upper half. */
  function FindFrom(offsets: seq<Offset>, viewportHeight: int, k: nat): (r: Option<nat>)
    requires k <= |offsets|
    ensures r.Some? ==> k <= r.value < |offsets| && InUpperHalf(offsets[r.value].top, viewportHeight)
    ensures r.Some? ==> forall j :: k <= j < r.value ==> !InUpperHalf(offsets[j].top, viewportHeight)
    ensures r.None? <==> forall j :: k <= j < |offsets| ==> !InUpperHalf(offsets[j].top, viewportHeight)
    decreases |offsets| - k
  {
    if k == |offsets| then None
    else if InUpperHalf(offsets[k].top, viewportHeight) then Some(k)
    else FindFrom(offsets, viewportHeight, k + 1)
  }

  /** The section `i` of the registry is in the upper half under `top`. */
  predicate Matches(top: string -> real, viewportHeight: int, i: int) {
    0 <= i < |Declared| && InUpperHalf(top(Declared[i].id), viewportHeight)
  }

  /** Some declared section is in the upper half under `top`. */
  predicate AnyMatch(top: string -> real, viewportHeight: int) {
    exists i :: 0 <= i < |Declared| && Matches(top, viewportHeight, i)
  }

  /** Section `i` matches and no section declared before it does. */
  predicate IsFirstMatch(top: string -> real, viewportHeight: int, i: int) {
    Matches(top, viewportHeight, i) && forall j :: 0 <= j < i ==> !Matches(top, viewportHeight, j)
  }

  /** A click makes the clicked section active, whatever was active before. */
  function Click(active: string, id: string): (r: string)
    requires IsSectionId(id)
    ensures IsSectionId(r) && r == id
  {
    id
  }

  /**
    A scroll event: the first section in declared order whose top lies in the
    upper half of the viewport becomes active; when none does, nothing changes.
   */
  function Scroll(active: string, top: string -> real, viewportHeight: int): (r: string)
    ensures forall i :: IsFirstMatch(top, viewportHeight, i) ==> r == Declared[i].id
    ensures !AnyMatch(top, viewportHeight) ==> r == active
    ensures r == active || IsSectionId(r)
  {
    var offsets := Measure(top);
    match FindFrom(offsets, viewportHeight, 0)
    case Some(i) =>
      assert IsFirstMatch(top, viewportHeight, i) by {
        forall j | 0 <= j < i ensures !Matches(top, viewportHeight, j) {
          assert offsets[j].top == top(Declared[j].id);
        }
      }
      FirstMatchUnique(top, viewportHeight, i);
      offsets[i].id
    case None =>
      assert !AnyMatch(top, viewportHeight) by {
        forall j | 0 <= j < |Declared| ensures !Matches(top, viewportHeight, j) {
          assert offsets[j].top == top(Declared[j].id);
        }
      }
      active
  }

  /** At most one section is the first match: the tie-break is total. */
  lemma FirstMatchUnique(top: string -> real, viewportHeight: int, i: int)
    requires IsFirstMatch(top, viewportHeight, i)
    ensures forall k :: IsFirstMatch(top, viewportHeight, k) ==> k == i
  {
  }

  /** Whenever some section is in the upper half, a first one in declared order exists. */
  lemma FirstMatchExists(top: string -> real, viewportHeight: int) returns (i: nat)
    requires AnyMatch(top, viewportHeight)
    ensures IsFirstMatch(top, viewportHeight, i)
  {
    var offsets := Measure(top);
    var w :| 0 <= w < |Declared| && Matches(top, viewportHeight, w);
    assert offsets[w].top == top(Declared[w].id);
    var found := FindFrom(offsets, viewportHeight, 0);
    i := found.value;
    forall j | 0 <= j < i ensures !Matches(top, viewportHeight, j) {
      assert offsets[j].top == top(Declared[j].id);
    }
  }

  /** A matching scroll selects a matching section and none declared earlier matches. */
  lemma ScrollSelectsFirstMatch(active: string, top: string -> real, viewportHeight: int)
    requires AnyMatch(top, viewportHeight)
    ensures exists i :: IsFirstMatch(top, viewportHeight, i) && Scroll(active, top, viewportHeight) == Declared[i].id
    ensures IsSectionId(Scroll(active, top, viewportHeight))
  {
  }

  /**
    The scroll transition writes the first match if and only if some section
    matches; the state can change only in that case.
   */
  lemma ScrollChangesOnlyOnMatch(active: string, top: string -> real, viewportHeight: int)
    ensures Scroll(active, top, viewportHeight) != active ==> AnyMatch(top, viewportHeight)
    ensures AnyMatch(top, viewportHeight) <==>
      exists i :: IsFirstMatch(top, viewportHeight, i) && Scroll(active, top, viewportHeight) == Declared[i].id
  {
  }

  /** When some section matches, the outcome does not depend on the prior state. */
  lemma ScrollForgetsPrior(a: string, b: string, top: string -> real, viewportHeight: int)
    requires AnyMatch(top, viewportHeight)
    ensures Scroll(a, top, viewportHeight) == Scroll(b, top, viewportHeight)
  {
  }

  /** Repeating a scroll event with the same geometry changes nothing further. */
  lemma ScrollIdempotent(active: string, top: string -> real, viewportHeight: int)
    ensures Scroll(Scroll(active, top, viewportHeight), top, viewportHeight) == Scroll(active, top, viewportHeight)
  {
  }

  /** When exactly one section is in the upper half, that section becomes active. */
  lemma ScrollUniqueMatch(active: string, top: string -> real, viewportHeight: int, i: nat)
    requires Matches(top, viewportHeight, i)
    requires forall j :: 0 <= j < |Declared| && j != i ==> !Matches(top, viewportHeight, j)
    ensures Scroll(active, top, viewportHeight) == Declared[i].id
  {
  }

  /**
    A viewport of height 800 with tops summary -50, competencies 150,
    experience 500, achievements 900 and languages 1200: the upper half is
    [0, 400), and competencies becomes active.
   */
  lemma ScrollExample(active: string)
    ensures Scroll(active, ExampleTops, 800) == "competencies"
  {
    assert IsFirstMatch(ExampleTops, 800, 1);
  }

  /** The tops of the example above, by section id. */
  function ExampleTops(id: string): real {
    match id
    case "summary" => -50.0
    case "competencies" => 150.0
    case "experience" => 500.0
    case "achievements" => 900.0
    case _ => 1200.0
  }

  /** Clicking `languages` while `summary` is active activates `languages` at once. */
  lemma ClickExample()
    ensures IsSectionId("languages") && Click("summary", "languages") == "languages"
  {
    assert Declared[4].id == "languages";
  }
}
