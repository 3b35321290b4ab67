/**
  The view registry of the portfolio component: the five navigable sections,
  each with the id used as anchor key and active-state value, and the title
  shown on its navigation button, in the order they are declared and drawn.
 */
module Sections {

  /** One navigable content block; `title` is the button text the component calls `label`. */
  datatype Section = Section(id: string, title: string)

  /** The declared sections, in navigation and page order. */
  const Declared: seq<Section> := [
    Section("summary", "Professional Summary"),
    Section("competencies", "Core Competencies"),
    Section("experience", "Experience"),
    Section("achievements", "Key Achievements"),
    Section("languages", "Languages")
  ]

  /** The ids of the declared sections, in declared order. */
  function Ids(): (ids: seq<string>)
    ensures |ids| == |Declared|
    ensures forall i :: 0 <= i < |ids| ==> ids[i] == Declared[i].id
  {
    seq(|Declared|, i requires 0 <= i < |Declared| => Declared[i].id)
  }

  /** True iff `id` names one of the declared sections. */
  predicate IsSectionId(id: string) {
    exists i :: 0 <= i < |Declared| && Declared[i].id == id
  }

  /** The registry holds exactly these five ids, in this order. */
  lemma DeclaredOrder()
    ensures Ids() == ["summary", "competencies", "experience", "achievements", "languages"]
  {
  }

  /** No two declared sections share an id, so an id picks out one section. */
  lemma IdsDistinct()
    ensures forall i, j :: 0 <= i < |Declared| && 0 <= j < |Declared| && Declared[i].id == Declared[j].id ==> i == j
  {
  }
}
