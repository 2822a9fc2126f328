/** The printable page (src/components/preview/ResumePreview.tsx): which
    category headings, entries, bullets and skill lines are drawn, in which
    order, and the page dimensions. Markup and styling are not modelled. */
module Preview {
  import opened Strings
  import opened Seqs
  import opened Parser
  import opened Catalog
  import opened ResumeState
  import opened Layout
  import Sidebar

  // ----------------------------------------------------------------- page

  /** `getPageDimensions`: width and minimum height. Only A4 is checked for;
      every other size gets US Letter dimensions. */
  function PageDimensions(size: PageSize): (r: (string, string))
    ensures r == ("210mm", "297mm") <==> size == A4
    ensures r == ("8.5in", "11in") <==> size != A4
  {
    if size == A4 then ("210mm", "297mm") else ("8.5in", "11in")
  }

  // --------------------------------------------------------------- points

  /** `points.filter(p => selectedPoints[p.id])`: the points with a truthy
      flag. */
  function ActivePoints(s: Section, sel: map<string, bool>): (r: seq<Point>)
    ensures forall j :: 0 <= j < |r| ==> r[j] in s.points && Flag(sel, r[j].id)
    ensures forall j :: 0 <= j < |s.points| ==> (s.points[j] in r <==> Flag(sel, s.points[j].id))
  {
    Filter((p: Point) => Flag(sel, p.id), s.points)
  }

  /** `points.some(p => selectedPoints[p.id])`. */
  predicate AnyActive(s: Section, sel: map<string, bool>) {
    exists j :: 0 <= j < |s.points| && Flag(sel, s.points[j].id)
  }

  /** The active points keep their order, and there is one exactly when
      some point's flag is truthy. */
  lemma ActivePointsIff(s: Section, sel: map<string, bool>)
    ensures IsSubseq(ActivePoints(s, sel), s.points)
    ensures |ActivePoints(s, sel)| > 0 <==> AnyActive(s, sel)
  {
    FilterIsSubseq((p: Point) => Flag(sel, p.id), s.points);
    if !AnyActive(s, sel) {
      FilterNone((p: Point) => Flag(sel, p.id), s.points);
    }
  }

  // -------------------------------------------------------------- entries

  /** Whether the entry of a section is drawn. Experience, project and
      skills entries need an active point; an education entry is also drawn
      when it has no points at all. */
  predicate Shown(s: Section, sel: map<string, bool>) {
    |ActivePoints(s, sel)| > 0 || (s.kind == Education && |s.points| == 0)
  }

  /** The sections of category `k` whose entries are drawn, in data order. */
  function Rendered(data: seq<Section>, sel: map<string, bool>, k: Kind): (r: seq<Section>)
    ensures forall i :: 0 <= i < |r| ==> r[i] in data && r[i].kind == k && Shown(r[i], sel)
    ensures forall i :: 0 <= i < |data| && data[i].kind == k && Shown(data[i], sel) ==> data[i] in r
    ensures IsSubseq(r, data)
  {
    FilterIsSubseq((s: Section) => s.kind == k && Shown(s, sel), data);
    Filter((s: Section) => s.kind == k && Shown(s, sel), data)
  }

  /** The test that decides whether a category heading is drawn, written
      separately from the entry test: `d.type === k && (some active point)`,
      and for education also `|| d.points.length === 0`. */
  predicate HeadingTest(s: Section, sel: map<string, bool>, k: Kind) {
    s.kind == k && (AnyActive(s, sel) || (k == Education && |s.points| == 0))
  }

  predicate HeadingShown(data: seq<Section>, sel: map<string, bool>, k: Kind) {
    |Filter((s: Section) => HeadingTest(s, sel, k), data)| > 0
  }

  /** The heading test and the entry test agree: a category heading is
      drawn exactly when at least one of its entries is. */
  lemma HeadingIffEntry(data: seq<Section>, sel: map<string, bool>, k: Kind)
    ensures HeadingShown(data, sel, k) <==> |Rendered(data, sel, k)| > 0
  {
    var h := Filter((s: Section) => HeadingTest(s, sel, k), data);
    var r := Rendered(data, sel, k);
    forall i | 0 <= i < |data|
      ensures HeadingTest(data[i], sel, k) <==> data[i].kind == k && Shown(data[i], sel)
    {
      ActivePointsIff(data[i], sel);
    }
    if |h| > 0 {
      assert h[0] in data;
    }
    if |r| > 0 {
      assert r[0] in data;
    }
  }

  /** A drawn entry: its section's id and fields, and the bullets drawn
      under it (none means no list at all). */
  datatype EntryPlan = EntryPlan(id: string, meta: map<string, string>, bullets: seq<Point>)

  function EntryOf(s: Section, sel: map<string, bool>): EntryPlan {
    EntryPlan(s.id, s.meta, ActivePoints(s, sel))
  }

  /** The entries drawn under category `k`. */
  function Entries(data: seq<Section>, sel: map<string, bool>, k: Kind): (r: seq<EntryPlan>)
    ensures |r| == |Rendered(data, sel, k)|
    ensures forall i :: 0 <= i < |r| ==> r[i] == EntryOf(Rendered(data, sel, k)[i], sel)
  {
    var rs := Rendered(data, sel, k);
    seq(|rs|, i requires 0 <= i < |rs| => EntryOf(rs[i], sel))
  }

  /** Every drawn experience or project entry has bullets; a drawn education
      entry has none exactly when its section has no points. */
  lemma EntryBullets(data: seq<Section>, sel: map<string, bool>, k: Kind)
    ensures forall i :: 0 <= i < |Entries(data, sel, k)| ==>
              (|Entries(data, sel, k)[i].bullets| == 0 <==>
                 k == Education && |Rendered(data, sel, k)[i].points| == 0)
  {
    var rs := Rendered(data, sel, k);
    forall i | 0 <= i < |rs|
      ensures |ActivePoints(rs[i], sel)| == 0 <==> k == Education && |rs[i].points| == 0
    {
      assert Shown(rs[i], sel);
      assert |ActivePoints(rs[i], sel)| <= |rs[i].points|;
    }
  }

  // --------------------------------------------------------------- skills

  /** A skills line: bold up to and including the first colon, then the
      rest; or the whole text when it has no colon. */
  datatype SkillLine = Labelled(lead: string, rest: string) | Plain(text: string)

  function LineText(l: SkillLine): string {
    match l
    case Labelled(lead, rest) => lead + rest
    case Plain(text) => text
  }

  /** `p.text.indexOf(':')` and the two `substring`s around it. */
  function SplitSkill(text: string): (r: SkillLine)
    ensures LineText(r) == text
    ensures r.Labelled? <==> Contains(text, ":")
    ensures r.Labelled? ==>
              |r.lead| > 0 && r.lead[|r.lead| - 1] == ':'
              && !Contains(r.lead[..|r.lead| - 1], ":")
  {
    var m := IndexOf(text, ":");
    if m.None? then Plain(text)
    else
      var c := m.value;
      var lead := text[..c + 1];
      assert text[c + 0] == ":"[0];
      assert lead + text[c + 1..] == text;
      forall j: nat | j <= c ensures !OccursAt(lead[..c], ":", j) {
        if j < c {
          assert !OccursAt(text, ":", j);
          assert text[j + 0] != ":"[0];
        }
      }
      Labelled(lead, text[c + 1..])
  }

  /** The lines drawn for the active points of one skills entry. */
  function LinesOf(ps: seq<Point>): (r: seq<SkillLine>)
    ensures |r| == |ps|
    ensures forall j :: 0 <= j < |r| ==> LineText(r[j]) == ps[j].text
    ensures forall j :: 0 <= j < |r| ==> r[j] == SplitSkill(ps[j].text)
  {
    seq(|ps|, j requires 0 <= j < |ps| => SplitSkill(ps[j].text))
  }

  /** Every line of the "Technical Skills" panel: the drawn skills entries'
      active points, entry after entry. */
  function SkillLines(data: seq<Section>, sel: map<string, bool>): (r: seq<SkillLine>)
    ensures var rs := Rendered(data, sel, Skills);
            forall l :: l in r <==>
              exists i, j :: 0 <= i < |rs| && 0 <= j < |ActivePoints(rs[i], sel)| && l == SplitSkill(ActivePoints(rs[i], sel)[j].text)
  {
    LinesOfAll(Rendered(data, sel, Skills), sel)
  }

  /** The lines of several skills entries: each line is the split text of
      an active point of one of them. */
  function LinesOfAll(rs: seq<Section>, sel: map<string, bool>): (r: seq<SkillLine>)
    ensures forall l :: l in r <==>
              exists i, j :: 0 <= i < |rs| && 0 <= j < |ActivePoints(rs[i], sel)| && l == SplitSkill(ActivePoints(rs[i], sel)[j].text)
  {
    var ls := seq(|rs|, i requires 0 <= i < |rs| => LinesOf(ActivePoints(rs[i], sel)));
    var r := Flatten(ls);
    forall l ensures l in r <==>
        exists i, j :: 0 <= i < |rs| && 0 <= j < |ActivePoints(rs[i], sel)| && l == SplitSkill(ActivePoints(rs[i], sel)[j].text)
    {
      if l in r {
        var i :| 0 <= i < |ls| && l in ls[i];
        var j :| 0 <= j < |ls[i]| && ls[i][j] == l;
        assert l == SplitSkill(ActivePoints(rs[i], sel)[j].text);
      }
      if exists i, j :: 0 <= i < |rs| && 0 <= j < |ActivePoints(rs[i], sel)| && l == SplitSkill(ActivePoints(rs[i], sel)[j].text) {
        var i, j :| 0 <= i < |rs| && 0 <= j < |ActivePoints(rs[i], sel)| && l == SplitSkill(ActivePoints(rs[i], sel)[j].text);
        assert ls[i][j] == l;
      }
    }
    r
  }

  /** Entry after entry: the first entry's lines come first, then those of
      the rest. */
  lemma LinesOfAllOrder(rs: seq<Section>, sel: map<string, bool>)
    ensures |rs| == 0 ==> LinesOfAll(rs, sel) == []
    ensures |rs| > 0 ==> LinesOfAll(rs, sel) == LinesOf(ActivePoints(rs[0], sel)) + LinesOfAll(rs[1..], sel)
  {
    if |rs| > 0 {
      var ls := seq(|rs|, i requires 0 <= i < |rs| => LinesOf(ActivePoints(rs[i], sel)));
      var ts := seq(|rs[1..]|, i requires 0 <= i < |rs[1..]| => LinesOf(ActivePoints(rs[1..][i], sel)));
      assert ls[1..] == ts;
    }
  }

  // ----------------------------------------------------------------- plan

  /** A category panel: heading title and its entries, or the skills lines. */
  datatype Panel =
    | EntriesPanel(kind: Kind, title: string, entries: seq<EntryPlan>)
    | SkillsPanel(title: string, lines: seq<SkillLine>)

  function PanelKind(p: Panel): Kind {
    match p
    case EntriesPanel(k, _, _) => k
    case SkillsPanel(_, _) => Skills
  }

  function Title(k: Kind): string {
    match k
    case Experience => "Experience"
    case Project => "Projects"
    case Education => "Education"
    case Skills => "Technical Skills"
  }

  /** The panel of category `k`, present only when its heading is. */
  function PanelFor(data: seq<Section>, sel: map<string, bool>, k: Kind): (r: seq<Panel>)
    ensures |r| == if HeadingShown(data, sel, k) then 1 else 0
    ensures forall i :: 0 <= i < |r| ==> PanelKind(r[i]) == k && r[i].title == Title(k)
    ensures forall i :: 0 <= i < |r| ==>
              r[i] == if k == Skills then SkillsPanel(Title(k), SkillLines(data, sel))
                      else EntriesPanel(k, Title(k), Entries(data, sel, k))
  {
    if !HeadingShown(data, sel, k) then []
    else if k == Skills then [SkillsPanel(Title(Skills), SkillLines(data, sel))]
    else [EntriesPanel(k, Title(k), Entries(data, sel, k))]
  }

  /** The page body: experience, projects, education, technical skills;
      at most one panel per category, each under its category's title, and
      an empty page exactly when no category has a heading. */
  function RenderPlan(data: seq<Section>, sel: map<string, bool>): (r: seq<Panel>)
    ensures |r| <= 4
    ensures Titled(r)
    ensures |r| == 0 <==>
              && !HeadingShown(data, sel, Experience) && !HeadingShown(data, sel, Project)
              && !HeadingShown(data, sel, Education) && !HeadingShown(data, sel, Skills)
  {
    var pe, pp := PanelFor(data, sel, Experience), PanelFor(data, sel, Project);
    var pd, ps := PanelFor(data, sel, Education), PanelFor(data, sel, Skills);
    TitledConcat(pe, pp);
    TitledConcat(pe + pp, pd);
    TitledConcat(pe + pp + pd, ps);
    pe + pp + pd + ps
  }

  /** Every panel carries the title of its category. */
  predicate Titled(ps: seq<Panel>) {
    forall i :: 0 <= i < |ps| ==> ps[i].title == Title(PanelKind(ps[i]))
  }

  lemma TitledConcat(a: seq<Panel>, b: seq<Panel>)
    requires Titled(a) && Titled(b)
    ensures Titled(a + b)
  {
    forall i | 0 <= i < |a + b| ensures (a + b)[i].title == Title(PanelKind((a + b)[i])) {
      if i < |a| { assert (a + b)[i] == a[i]; } else { assert (a + b)[i] == b[i - |a|]; }
    }
  }

  /** The category of each panel follows from its position. */
  lemma PanelKinds(data: seq<Section>, sel: map<string, bool>, i: nat)
    requires i < |RenderPlan(data, sel)|
    ensures var a := |PanelFor(data, sel, Experience)|;
            var ab := a + |PanelFor(data, sel, Project)|;
            var abc := ab + |PanelFor(data, sel, Education)|;
            PanelKind(RenderPlan(data, sel)[i]) ==
              if i < a then Experience else if i < ab then Project else if i < abc then Education else Skills
  {
  }

  /** Panels come in the fixed category order whatever the order of the
      data, and a category has a panel exactly when one of its entries is
      drawn. */
  lemma RenderPlanLayout(data: seq<Section>, sel: map<string, bool>)
    ensures var r := RenderPlan(data, sel);
            forall i, j :: 0 <= i < j < |r| ==> Sidebar.Rank(PanelKind(r[i])) < Sidebar.Rank(PanelKind(r[j]))
    ensures var r := RenderPlan(data, sel);
            forall k :: (exists i :: 0 <= i < |r| && PanelKind(r[i]) == k) <==> |Rendered(data, sel, k)| > 0
    ensures var r := RenderPlan(data, sel);
            forall i :: 0 <= i < |r| ==>
              |PanelFor(data, sel, PanelKind(r[i]))| == 1 && r[i] == PanelFor(data, sel, PanelKind(r[i]))[0]
  {
    var r := RenderPlan(data, sel);
    forall i | 0 <= i < |r|
      ensures |PanelFor(data, sel, PanelKind(r[i]))| == 1 && r[i] == PanelFor(data, sel, PanelKind(r[i]))[0]
    {
      PanelAt(data, sel, i);
    }
    forall i, j | 0 <= i < j < |r| ensures Sidebar.Rank(PanelKind(r[i])) < Sidebar.Rank(PanelKind(r[j])) {
      PanelKinds(data, sel, i);
      PanelKinds(data, sel, j);
    }
    forall k ensures (exists i :: 0 <= i < |r| && PanelKind(r[i]) == k) <==> |Rendered(data, sel, k)| > 0 {
      HeadingIffEntry(data, sel, k);
      PanelIffHeading(data, sel, k);
    }
  }

  /** The panel at any position is its category's panel. */
  lemma PanelAt(data: seq<Section>, sel: map<string, bool>, i: nat)
    requires i < |RenderPlan(data, sel)|
    ensures var p := RenderPlan(data, sel)[i];
            |PanelFor(data, sel, PanelKind(p))| == 1 && p == PanelFor(data, sel, PanelKind(p))[0]
  {
    var pe, pp := PanelFor(data, sel, Experience), PanelFor(data, sel, Project);
    var pd, ps := PanelFor(data, sel, Education), PanelFor(data, sel, Skills);
    var r := RenderPlan(data, sel);
    assert r == pe + pp + pd + ps;
    if i < |pe| {
      assert r[i] == pe[i];
    } else if i < |pe| + |pp| {
      assert r[i] == pp[i - |pe|];
    } else if i < |pe| + |pp| + |pd| {
      assert r[i] == pd[i - |pe| - |pp|];
    } else {
      assert r[i] == ps[i - |pe| - |pp| - |pd|];
    }
  }

  /** A category has a panel exactly when its heading is shown. */
  lemma PanelIffHeading(data: seq<Section>, sel: map<string, bool>, k: Kind)
    ensures var r := RenderPlan(data, sel);
            (exists i :: 0 <= i < |r| && PanelKind(r[i]) == k) <==> HeadingShown(data, sel, k)
  {
    var r := RenderPlan(data, sel);
    var a := |PanelFor(data, sel, Experience)|;
    var ab := a + |PanelFor(data, sel, Project)|;
    var abc := ab + |PanelFor(data, sel, Education)|;
    if i :| 0 <= i < |r| && PanelKind(r[i]) == k {
      PanelKinds(data, sel, i);
    }
    if HeadingShown(data, sel, k) {
      var i := match k case Experience => 0 case Project => a case Education => ab case Skills => abc;
      PanelKinds(data, sel, i);
    }
  }

  // ------------------------------------------------------------ flags read

  /** Whether two flag maps agree on the truthiness of every point of the
      data. */
  predicate SamePointFlags(data: seq<Section>, sel1: map<string, bool>, sel2: map<string, bool>) {
    forall i, j :: 0 <= i < |data| && 0 <= j < |data[i].points| ==>
      Flag(sel1, data[i].points[j].id) == Flag(sel2, data[i].points[j].id)
  }

  /** Whether two flag maps give every section the same active points. */
  predicate SameActive(data: seq<Section>, sel1: map<string, bool>, sel2: map<string, bool>) {
    forall i :: 0 <= i < |data| ==> ActivePoints(data[i], sel1) == ActivePoints(data[i], sel2)
  }

  lemma SameRendered(data: seq<Section>, sel1: map<string, bool>, sel2: map<string, bool>, k: Kind)
    requires SameActive(data, sel1, sel2)
    ensures Rendered(data, sel1, k) == Rendered(data, sel2, k)
    ensures SameActive(Rendered(data, sel1, k), sel1, sel2)
  {
    FilterAgree((s: Section) => s.kind == k && Shown(s, sel1), (s: Section) => s.kind == k && Shown(s, sel2), data);
    var rs := Rendered(data, sel1, k);
    forall i | 0 <= i < |rs| ensures ActivePoints(rs[i], sel1) == ActivePoints(rs[i], sel2) {
      assert rs[i] in data;
    }
  }

  lemma SameHeading(data: seq<Section>, sel1: map<string, bool>, sel2: map<string, bool>, k: Kind)
    requires SameActive(data, sel1, sel2)
    ensures HeadingShown(data, sel1, k) == HeadingShown(data, sel2, k)
  {
    forall i | 0 <= i < |data| ensures HeadingTest(data[i], sel1, k) == HeadingTest(data[i], sel2, k) {
      ActivePointsIff(data[i], sel1);
      ActivePointsIff(data[i], sel2);
    }
    FilterAgree((s: Section) => HeadingTest(s, sel1, k), (s: Section) => HeadingTest(s, sel2, k), data);
  }

  lemma SameLines(rs: seq<Section>, sel1: map<string, bool>, sel2: map<string, bool>)
    requires SameActive(rs, sel1, sel2)
    ensures LinesOfAll(rs, sel1) == LinesOfAll(rs, sel2)
  {
    var l1 := seq(|rs|, i requires 0 <= i < |rs| => LinesOf(ActivePoints(rs[i], sel1)));
    var l2 := seq(|rs|, i requires 0 <= i < |rs| => LinesOf(ActivePoints(rs[i], sel2)));
    assert l1 == l2;
  }

  /** The panel of one category depends on the flags only through the
      active points of each section. */
  lemma SamePanel(data: seq<Section>, sel1: map<string, bool>, sel2: map<string, bool>, k: Kind)
    requires SameActive(data, sel1, sel2)
    ensures PanelFor(data, sel1, k) == PanelFor(data, sel2, k)
  {
    SameHeading(data, sel1, sel2, k);
    SameRendered(data, sel1, sel2, k);
    SameRendered(data, sel1, sel2, Skills);
    SameLines(Rendered(data, sel1, Skills), sel1, sel2);
    assert Entries(data, sel1, k) == Entries(data, sel2, k);
  }

  /** The page reads only the flags of the data's own points: two flag maps
      that agree on those give the same page. */
  lemma PlanReadsPointFlags(data: seq<Section>, sel1: map<string, bool>, sel2: map<string, bool>)
    requires SamePointFlags(data, sel1, sel2)
    ensures RenderPlan(data, sel1) == RenderPlan(data, sel2)
  {
    forall i | 0 <= i < |data| ensures ActivePoints(data[i], sel1) == ActivePoints(data[i], sel2) {
      FilterAgree((p: Point) => Flag(sel1, p.id), (p: Point) => Flag(sel2, p.id), data[i].points);
    }
    forall k ensures PanelFor(data, sel1, k) == PanelFor(data, sel2, k) {
      SamePanel(data, sel1, sel2, k);
    }
  }

  /** Every point id of the data has the shape of a parsed or added id. */
  ghost predicate ShapedIds(data: seq<Section>) {
    forall i, j :: 0 <= i < |data| && 0 <= j < |data[i].points| ==> Sidebar.PointShaped(data[i].points[j].id)
  }

  /** Clicking a skill token in the editor writes a "-skill-" flag, which the
      page never reads: the skills lines follow the point flags alone. */
  lemma TokenFlagsIgnored(data: seq<Section>, sel: map<string, bool>, sid: string, n: nat, b: bool)
    requires ShapedIds(data)
    ensures RenderPlan(data, sel[Sidebar.TokenId(sid, n) := b]) == RenderPlan(data, sel)
  {
    var t := Sidebar.TokenId(sid, n);
    forall i, j | 0 <= i < |data| && 0 <= j < |data[i].points|
      ensures Flag(sel[t := b], data[i].points[j].id) == Flag(sel, data[i].points[j].id)
    {
      Sidebar.TokenIdNotPointShaped(sid, n, data[i].points[j].id);
    }
    PlanReadsPointFlags(data, sel[t := b], sel);
  }
}
