/** The page layout record (src/types/index.ts), its defaults, the saved
    layout merged over them (src/hooks/useResumeState.ts), and the page-size
    buttons and spacing sliders that edit it
    (src/components/editor/LayoutControls.tsx). */
module Layout {
  import opened Wrappers

  /** `LayoutSettings['pageSize']`. */
  datatype PageSize = A4 | Letter

  /** `LayoutSettings`: page size, margins in millimetres and gaps in
      pixels. */
  datatype LayoutSettings = LayoutSettings(
    pageSize: PageSize,
    paddingTopBottom: int,
    paddingLeftRight: int,
    gapPoints: int,
    gapSectionToSub: int,
    gapSubsections: int)

  /** The five numeric fields, each edited by one slider. */
  datatype NumField = PaddingTopBottom | PaddingLeftRight | GapPoints | GapSectionToSub | GapSubsections

  function Num(l: LayoutSettings, f: NumField): int {
    match f
    case PaddingTopBottom => l.paddingTopBottom
    case PaddingLeftRight => l.paddingLeftRight
    case GapPoints => l.gapPoints
    case GapSectionToSub => l.gapSectionToSub
    case GapSubsections => l.gapSubsections
  }

  /** `defaultLayout`. */
  const DefaultLayout := LayoutSettings(A4, 12, 12, 4, 10, 14)

  // ------------------------------------------------------------- controls

  /** The largest value a slider offers; every slider starts at 0 and moves
      in steps of 1. */
  function SliderMax(f: NumField): nat {
    match f
    case PaddingTopBottom => 30
    case PaddingLeftRight => 30
    case GapSectionToSub => 40
    case GapSubsections => 40
    case GapPoints => 20
  }

  /** Every numeric field holds a value its slider can produce. */
  predicate InRange(l: LayoutSettings) {
    forall f: NumField :: 0 <= Num(l, f) <= SliderMax(f)
  }

  /** What the layout panel can do: press the A4 or Letter button, or move
      one slider to a value. */
  datatype Control = SetPageSize(size: PageSize) | Slide(field: NumField, value: int)

  /** A slider can only report an integer within its range. */
  predicate Producible(c: Control) {
    c.Slide? ==> 0 <= c.value <= SliderMax(c.field)
  }

  /** `setLayout(s => ({ ...s, <field>: value }))`: the control writes its
      own field and copies every other. */
  function Apply(l: LayoutSettings, c: Control): (r: LayoutSettings)
    ensures c.SetPageSize? ==> r.pageSize == c.size && forall g :: Num(r, g) == Num(l, g)
    ensures c.Slide? ==>
              r.pageSize == l.pageSize
              && forall g :: Num(r, g) == if g == c.field then c.value else Num(l, g)
  {
    match c
    case SetPageSize(size) => l.(pageSize := size)
    case Slide(f, v) =>
      match f
      case PaddingTopBottom => l.(paddingTopBottom := v)
      case PaddingLeftRight => l.(paddingLeftRight := v)
      case GapPoints => l.(gapPoints := v)
      case GapSectionToSub => l.(gapSectionToSub := v)
      case GapSubsections => l.(gapSubsections := v)
  }

  /** A sequence of control actions, applied in order. */
  function ApplyAll(l: LayoutSettings, cs: seq<Control>): LayoutSettings
    decreases |cs|
  {
    if |cs| == 0 then l else ApplyAll(Apply(l, cs[0]), cs[1..])
  }

  /** The defaults are values the sliders can produce. */
  lemma DefaultInRange()
    ensures InRange(DefaultLayout)
  {
    forall f: NumField ensures 0 <= Num(DefaultLayout, f) <= SliderMax(f) {
      match f
      case PaddingTopBottom =>
      case PaddingLeftRight =>
      case GapPoints =>
      case GapSectionToSub =>
      case GapSubsections =>
    }
  }

  /** From an in-range layout, no sequence of control actions can leave the
      slider ranges. */
  lemma {:induction false} ApplyAllInRange(l: LayoutSettings, cs: seq<Control>)
    requires InRange(l)
    requires forall i :: 0 <= i < |cs| ==> Producible(cs[i])
    ensures InRange(ApplyAll(l, cs))
    decreases |cs|
  {
    if |cs| > 0 {
      var l1 := Apply(l, cs[0]);
      assert InRange(l1);
      ApplyAllInRange(l1, cs[1..]);
    }
  }

  /** Pressing a page-size button and then moving a slider is the same as
      doing it the other way round: the two touch different fields. */
  lemma ControlsOnDifferentFieldsCommute(l: LayoutSettings, size: PageSize, f: NumField, v: int)
    ensures Apply(Apply(l, SetPageSize(size)), Slide(f, v)) == Apply(Apply(l, Slide(f, v)), SetPageSize(size))
  {
  }

  // -------------------------------------------------------------- restore

  /** The saved layout object, whatever subset of the fields it carries. */
  datatype LayoutPatch = LayoutPatch(
    pageSize: Option<PageSize>,
    paddingTopBottom: Option<int>,
    paddingLeftRight: Option<int>,
    gapPoints: Option<int>,
    gapSectionToSub: Option<int>,
    gapSubsections: Option<int>)

  const EmptyPatch := LayoutPatch(None, None, None, None, None, None)

  function PatchNum(p: LayoutPatch, f: NumField): Option<int> {
    match f
    case PaddingTopBottom => p.paddingTopBottom
    case PaddingLeftRight => p.paddingLeftRight
    case GapPoints => p.gapPoints
    case GapSectionToSub => p.gapSectionToSub
    case GapSubsections => p.gapSubsections
  }

  /** `{ ...base, ...saved }`: every field the saved object carries
      overrides the base, and every other field keeps its base value. */
  function Merge(base: LayoutSettings, p: LayoutPatch): (r: LayoutSettings)
    ensures r.pageSize == if p.pageSize.Some? then p.pageSize.value else base.pageSize
    ensures forall f :: Num(r, f) == if PatchNum(p, f).Some? then PatchNum(p, f).value else Num(base, f)
  {
    LayoutSettings(
      p.pageSize.GetOr(base.pageSize),
      p.paddingTopBottom.GetOr(base.paddingTopBottom),
      p.paddingLeftRight.GetOr(base.paddingLeftRight),
      p.gapPoints.GetOr(base.gapPoints),
      p.gapSectionToSub.GetOr(base.gapSectionToSub),
      p.gapSubsections.GetOr(base.gapSubsections))
  }

  /** The object `JSON.stringify(layout)` saves: every field. */
  function Snapshot(l: LayoutSettings): LayoutPatch {
    LayoutPatch(
      Some(l.pageSize), Some(l.paddingTopBottom), Some(l.paddingLeftRight),
      Some(l.gapPoints), Some(l.gapSectionToSub), Some(l.gapSubsections))
  }

  /** The layout the hook starts with: the defaults, overridden by the saved
      object when one was stored and could be parsed (`None` otherwise). */
  function RestoreLayout(saved: Option<LayoutPatch>): (r: LayoutSettings)
    ensures saved.None? ==> r == DefaultLayout
    ensures saved.Some? ==>
              && r.pageSize == (if saved.value.pageSize.Some? then saved.value.pageSize.value else DefaultLayout.pageSize)
              && forall f :: Num(r, f) == if PatchNum(saved.value, f).Some? then PatchNum(saved.value, f).value
                                         else Num(DefaultLayout, f)
  {
    match saved
    case None => DefaultLayout
    case Some(p) => Merge(DefaultLayout, p)
  }

  /** An empty saved object restores the defaults. */
  lemma RestoreEmpty()
    ensures RestoreLayout(Some(EmptyPatch)) == DefaultLayout
  {
    assert forall f :: Num(RestoreLayout(Some(EmptyPatch)), f) == Num(DefaultLayout, f);
  }

  /** Saving a layout and restoring it gives back the same layout. */
  lemma RestoreSnapshot(l: LayoutSettings)
    ensures RestoreLayout(Some(Snapshot(l))) == l
  {
    var r := RestoreLayout(Some(Snapshot(l)));
    assert forall f :: Num(r, f) == Num(l, f);
  }

  /** The restored layout is not checked against the slider ranges: a saved
      top and bottom margin of 100 is taken as it is. */
  lemma RestoreUnchecked()
    ensures !InRange(RestoreLayout(Some(EmptyPatch.(paddingTopBottom := Some(100)))))
  {
    var r := RestoreLayout(Some(EmptyPatch.(paddingTopBottom := Some(100))));
    assert Num(r, PaddingTopBottom) == 100;
  }
}
