/**
  The navigation bar: one button per declared section, in declared order,
  drawn highlighted exactly when its id equals the active section.
 */
module Nav {
  import opened Sections

  /** A rendered navigation button and whether it carries the highlight style. */
  datatype Button = Button(id: string, title: string, highlighted: bool)

  /** The buttons drawn for the state `active`. */
  function Buttons(active: string): (bs: seq<Button>)
    ensures |bs| == |Declared|
    ensures forall i :: 0 <= i < |bs| ==> bs[i].id == Declared[i].id && bs[i].title == Declared[i].title
    ensures forall i :: 0 <= i < |bs| ==> (bs[i].highlighted <==> Declared[i].id == active)
  {
    seq(|Declared|, i requires 0 <= i < |Declared| =>
      Button(Declared[i].id, Declared[i].title, Declared[i].id == active))
  }

  /** The number of highlighted buttons in `bs`. */
  function CountHighlighted(bs: seq<Button>): nat {
    if |bs| == 0 then 0
    else (if bs[0].highlighted then 1 else 0) + CountHighlighted(bs[1..])
  }

  /** A bar where only position `k` is highlighted has exactly one highlighted button. */
  lemma {:induction false} CountSingle(bs: seq<Button>, k: nat)
    requires k < |bs| && bs[k].highlighted
    requires forall j :: 0 <= j < |bs| && j != k ==> !bs[j].highlighted
    ensures CountHighlighted(bs) == 1
  {
    if k == 0 {
      CountNone(bs[1..]);
    } else {
      CountSingle(bs[1..], k - 1);
    }
  }

  /** A bar where no position is highlighted counts zero. */
  lemma {:induction false} CountNone(bs: seq<Button>)
    requires forall j :: 0 <= j < |bs| ==> !bs[j].highlighted
    ensures CountHighlighted(bs) == 0
  {
    if |bs| > 0 {
      CountNone(bs[1..]);
    }
  }

  /**
    For a known active id exactly one button is highlighted, and it is the
    active section's button.
   */
  lemma ExactlyOneHighlighted(active: string)
    requires IsSectionId(active)
    ensures CountHighlighted(Buttons(active)) == 1
    ensures forall i :: 0 <= i < |Declared| && Buttons(active)[i].highlighted ==> Buttons(active)[i].id == active
  {
    var bs := Buttons(active);
    var k :| 0 <= k < |Declared| && Declared[k].id == active;
    IdsDistinct();
    CountSingle(bs, k);
  }

  /** A state that names no declared section highlights no button. */
  lemma NoneHighlightedForUnknown(active: string)
    requires !IsSectionId(active)
    ensures CountHighlighted(Buttons(active)) == 0
  {
    CountNone(Buttons(active));
  }
}
