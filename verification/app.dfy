/** The application shell (src/App.tsx): what the editor and the page are
    given, "Clear Filters", reset, and the events a session is made of. */
module App {
  import opened Wrappers
  import opened Strings
  import opened Seqs
  import opened Parser
  import opened Catalog
  import opened Layout
  import opened ResumeState
  import opened Ordering
  import Sidebar
  import Preview

  /** The four folders of markdown files the catalog is built from. */
  datatype Folders = Folders(exp: seq<File>, proj: seq<File>, edu: seq<File>, skl: seq<File>)

  function CatalogOf(f: Folders): seq<Section> {
    GetResumeData(f.exp, f.proj, f.edu, f.skl)
  }

  /** A page load: the catalog with the saved selection and layout, when
      present, laid over it. */
  function Load(f: Folders, savedSel: Option<map<string, bool>>, savedLayout: Option<LayoutPatch>): State {
    Init(CatalogOf(f), savedSel, savedLayout)
  }

  // ----------------------------------------------------------------- page

  /** What `<ResumePreview>` draws from the state it is handed: the page
      dimensions, the layout, and the panels. */
  datatype Page = Page(dims: (string, string), layout: LayoutSettings, panels: seq<Preview.Panel>)

  /** The page is given the unfiltered data, the flags and the layout: it
      is laid out with the state's layout on the sheet of its page size, and
      has a panel for a category exactly when an entry of it is drawn. */
  function PageOf(s: State): (p: Page)
    ensures p.layout == s.layout
    ensures p.dims == Preview.PageDimensions(s.layout.pageSize)
    ensures forall k :: (exists i :: 0 <= i < |p.panels| && Preview.PanelKind(p.panels[i]) == k)
                          <==> |Preview.Rendered(s.data, s.sel, k)| > 0
  {
    Preview.RenderPlanLayout(s.data, s.sel);
    Page(Preview.PageDimensions(s.layout.pageSize), s.layout, Preview.RenderPlan(s.data, s.sel))
  }

  /** The selected tags do not reach the page. */
  lemma PageIgnoresTags(s: State, tags: seq<string>)
    ensures PageOf(s.(tags := tags)) == PageOf(s)
  {
  }

  // --------------------------------------------------------------- editor

  /** What `<Sidebar>` is given: the four per-type slices of the filtered
      data, every tag, the selected tags, the flags and the layout. */
  datatype Editor = Editor(
    exp: seq<Section>, proj: seq<Section>, edu: seq<Section>, skl: seq<Section>,
    allTags: seq<string>, tags: seq<string>, sel: map<string, bool>, layout: LayoutSettings)

  function EditorOf(s: State): (e: Editor)
    ensures e.tags == s.tags && e.sel == s.sel && e.layout == s.layout
    ensures StrictlySorted(e.allTags) && forall t :: t in e.allTags <==> TagOccurs(s.data, t)
    ensures forall i :: 0 <= i < |e.exp| ==> e.exp[i].kind == Experience
    ensures forall i :: 0 <= i < |e.proj| ==> e.proj[i].kind == Project
    ensures forall i :: 0 <= i < |e.edu| ==> e.edu[i].kind == Education
    ensures forall i :: 0 <= i < |e.skl| ==> e.skl[i].kind == Skills
    ensures var fd := FilteredData(s.data, s.tags);
            IsSubseq(e.exp, fd) && IsSubseq(e.proj, fd) && IsSubseq(e.edu, fd) && IsSubseq(e.skl, fd)
  {
    var fd := FilteredData(s.data, s.tags);
    Editor(OfKind(fd, Experience), OfKind(fd, Project), OfKind(fd, Education), OfKind(fd, Skills),
           AllTags(s.data), s.tags, s.sel, s.layout)
  }

  function Slice(e: Editor, k: Kind): seq<Section> {
    match k
    case Experience => e.exp
    case Project => e.proj
    case Education => e.edu
    case Skills => e.skl
  }

  /** Every section the editor shows under category `k` is a section of
      that type with only the points the tag filter lets through, and every
      such section is shown; the tag list is built from all the data. */
  lemma EditorSeesFilteredSlices(s: State, k: Kind)
    ensures var sl := Slice(EditorOf(s), k);
            && (forall i :: 0 <= i < |sl| ==>
                  sl[i].kind == k && exists j :: 0 <= j < |s.data| && sl[i] == FilterSection(s.data[j], s.tags))
            && (forall j :: 0 <= j < |s.data| && s.data[j].kind == k ==> FilterSection(s.data[j], s.tags) in sl)
    ensures forall t :: t in EditorOf(s).allTags <==> TagOccurs(s.data, t)
  {
    var fd := FilteredData(s.data, s.tags);
    var sl := Slice(EditorOf(s), k);
    assert sl == OfKind(fd, k);
    forall i | 0 <= i < |sl|
      ensures exists j :: 0 <= j < |s.data| && sl[i] == FilterSection(s.data[j], s.tags)
    {
      var j :| 0 <= j < |fd| && fd[j] == sl[i];
      assert sl[i] == FilterSection(s.data[j], s.tags);
    }
    forall j | 0 <= j < |s.data| && s.data[j].kind == k ensures FilterSection(s.data[j], s.tags) in sl {
      assert fd[j] == FilterSection(s.data[j], s.tags);
    }
  }

  /** The editor's category blocks. */
  function EditorBlocksOf(s: State): seq<Sidebar.Block> {
    var e := EditorOf(s);
    Sidebar.EditorBlocks(e.exp, e.proj, e.edu, e.skl, e.sel)
  }

  // -------------------------------------------------------- clear filters

  /** "Clear Filters" is wired to `handleTagToggle('')`: it toggles the
      empty tag rather than emptying the list. */
  function ClearFilters(tags: seq<string>): (r: seq<string>)
    ensures forall t :: t != "" ==> (t in r <==> t in tags)
    ensures "" in r <==> "" !in tags
  {
    ToggleTag(tags, "")
  }

  /** The list comes out empty only when every selected tag was the empty
      tag; any other selection survives the click. */
  lemma ClearFiltersEmpties(tags: seq<string>)
    ensures ClearFilters(tags) == [] <==> |tags| > 0 && forall i :: 0 <= i < |tags| ==> tags[i] == ""
  {
    if "" in tags {
      var f := (x: string) => x != "";
      if forall i :: 0 <= i < |tags| ==> tags[i] == "" {
        FilterNone(f, tags);
      } else {
        var i :| 0 <= i < |tags| && tags[i] != "";
        assert tags[i] in ClearFilters(tags);
      }
    } else {
      assert |ClearFilters(tags)| == |tags| + 1;
      if |tags| > 0 {
        assert tags[0] != "";
      }
    }
  }

  // ---------------------------------------------------------------- reset

  /** `handleReset`: without confirmation nothing happens; with it the
      saved state is cleared and the page reloads, so the state is a fresh
      load with nothing saved. */
  function Reset(f: Folders, s: State, confirmed: bool): (r: State)
    ensures !confirmed ==> r == s
    ensures confirmed ==>
              && r.data == CatalogOf(f) && r.tags == [] && r.layout == DefaultLayout
              && (forall k :: k in r.sel <==> k in PointIds(r.data))
              && (forall k :: k in r.sel ==> r.sel[k])
  {
    if confirmed then Load(f, None, None) else s
  }

  // --------------------------------------------------------------- events

  /** What the user can do in a session. */
  datatype Event =
    | TagClicked(tag: string)
    | FiltersCleared
    | PointClicked(id: string)
    | TokenClicked(sectionId: string, idx: nat)
    | PointAdded(sectionId: string, text: string, tagsStr: string, now: nat)
    | LayoutChanged(c: Control)
    | ResetClicked(confirmed: bool)

  /** The state after one event. Each event touches only its own part of
      the state: tag clicks the selected tags, point and token clicks one
      flag, slider and page-size changes the layout. A skill token click
      toggles the flag `<section id>-skill-<idx>`. */
  function Step(f: Folders, s: State, e: Event): (r: State)
    ensures e.TagClicked? || e.FiltersCleared? ==> r.data == s.data && r.sel == s.sel && r.layout == s.layout
    ensures e.TagClicked? ==> (e.tag in r.tags <==> e.tag !in s.tags)
    ensures e.TagClicked? ==> forall x :: x != e.tag ==> (x in r.tags <==> x in s.tags)
    ensures e.FiltersCleared? ==> r.tags == ClearFilters(s.tags)
    ensures e.PointClicked? || e.TokenClicked? ==> r.data == s.data && r.tags == s.tags && r.layout == s.layout
    ensures e.PointClicked? ==> Flag(r.sel, e.id) == !Flag(s.sel, e.id)
    ensures e.PointClicked? ==> r.sel == TogglePoint(s.sel, e.id)
    ensures e.TokenClicked? ==> r.sel == TogglePoint(s.sel, Sidebar.TokenId(e.sectionId, e.idx))
    ensures e.PointClicked? ==> forall k :: k != e.id ==> (k in r.sel <==> k in s.sel)
    ensures e.TokenClicked? ==> var t := Sidebar.TokenId(e.sectionId, e.idx); Flag(r.sel, t) == !Flag(s.sel, t)
    ensures e.PointClicked? || e.TokenClicked? ==>
              forall k :: k in s.sel && k != (if e.PointClicked? then e.id else Sidebar.TokenId(e.sectionId, e.idx))
                          ==> k in r.sel && r.sel[k] == s.sel[k]
    ensures e.LayoutChanged? ==> r.data == s.data && r.tags == s.tags && r.sel == s.sel
    ensures e.LayoutChanged? ==> r.layout == Apply(s.layout, e.c)
    ensures e.PointAdded? ==> r.tags == s.tags && r.layout == s.layout
    ensures e.PointAdded? ==> r == AddPoint(s, e.sectionId, e.text, e.tagsStr, e.now)
    ensures e.ResetClicked? && !e.confirmed ==> r == s
    ensures e.ResetClicked? && e.confirmed ==> r == Reset(f, s, true)
  {
    match e
    case TagClicked(t) => s.(tags := ToggleTag(s.tags, t))
    case FiltersCleared => s.(tags := ClearFilters(s.tags))
    case PointClicked(id) => s.(sel := TogglePoint(s.sel, id))
    case TokenClicked(sid, idx) => s.(sel := TogglePoint(s.sel, Sidebar.TokenId(sid, idx)))
    case PointAdded(sid, text, tagsStr, now) => AddPoint(s, sid, text, tagsStr, now)
    case LayoutChanged(c) => s.(layout := Apply(s.layout, c))
    case ResetClicked(confirmed) => Reset(f, s, confirmed)
  }

  /** What a session keeps true: every point has a flag and a well-formed
      id, point and section ids are unique, no tag is selected twice, and
      the layout is within the slider ranges. */
  ghost predicate Inv(s: State) {
    && Covered(s)
    && Distinct(s.tags)
    && Preview.ShapedIds(s.data)
    && UniquePointIds(s.data)
    && (forall i, j :: 0 <= i < j < |s.data| ==> s.data[i].id != s.data[j].id)
    && InRange(s.layout)
  }

  /** The event is one the interface can produce: a slider value within
      range, and a clock reading not already used as an id. */
  predicate Possible(s: State, e: Event) {
    && (e.LayoutChanged? ==> Producible(e.c))
    && (e.PointAdded? ==> CustomId(e.now) !in PointIds(s.data))
  }

  /** A load with nothing saved satisfies the invariant when file names are
      unique within each folder. */
  lemma LoadInv(f: Folders)
    requires NamesDistinctPerFolder(Loaded(f.exp, f.proj, f.edu, f.skl))
    ensures Inv(Load(f, None, None))
  {
    var s := Load(f, None, None);
    CatalogPointIdsDistinct(f.exp, f.proj, f.edu, f.skl);
    SectionIdsDistinct(f.exp, f.proj, f.edu, f.skl);
    forall i, j | 0 <= i < |s.data| && 0 <= j < |s.data[i].points|
      ensures Sidebar.PointShaped(s.data[i].points[j].id)
    {
      assert s.data[i].points[j].id == PointId(s.data[i].id, j);
    }
    DefaultInRange();
  }

  /** Adding a point keeps every id well-formed. */
  lemma AddPointKeepsShaped(s: State, sectionId: string, text: string, tagsStr: string, now: nat)
    requires Preview.ShapedIds(s.data)
    ensures Preview.ShapedIds(AddPoint(s, sectionId, text, tagsStr, now).data)
  {
    if Trim(text) != "" {
      var p := Point(CustomId(now), Trim(text), CommaList(tagsStr));
      var r := AppendPoint(s.data, sectionId, p);
      forall i, j | 0 <= i < |r| && 0 <= j < |r[i].points| ensures Sidebar.PointShaped(r[i].points[j].id) {
        AppendPointAt(s.data, sectionId, p, i, j);
      }
    }
  }

  /** Every possible event keeps the invariant. */
  lemma StepInv(f: Folders, s: State, e: Event)
    requires NamesDistinctPerFolder(Loaded(f.exp, f.proj, f.edu, f.skl))
    requires Inv(s) && Possible(s, e)
    ensures Inv(Step(f, s, e))
  {
    match e
    case TagClicked(t) =>
      ToggleTagDistinct(s.tags, t);
      InvFrame(s, Step(f, s, e));
    case FiltersCleared =>
      ToggleTagDistinct(s.tags, "");
      InvFrame(s, Step(f, s, e));
    case PointClicked(id) => InvFrame(s, Step(f, s, e));
    case TokenClicked(sid, idx) => InvFrame(s, Step(f, s, e));
    case PointAdded(sid, text, tagsStr, now) => AddPointInv(s, sid, text, tagsStr, now);
    case LayoutChanged(c) => InvFrame(s, Step(f, s, e));
    case ResetClicked(confirmed) =>
      if confirmed {
        assert Step(f, s, e) == Load(f, None, None);
        LoadInv(f);
      }
  }

  /** Adding a point under a fresh clock reading keeps the invariant. */
  lemma AddPointInv(s: State, sectionId: string, text: string, tagsStr: string, now: nat)
    requires Inv(s) && CustomId(now) !in PointIds(s.data)
    ensures Inv(AddPoint(s, sectionId, text, tagsStr, now))
  {
    AddPointKeepsCovered(s, sectionId, text, tagsStr, now);
    AddPointKeepsUnique(s, sectionId, text, tagsStr, now);
    AddPointKeepsShaped(s, sectionId, text, tagsStr, now);
  }

  /** A state with the same data, duplicate-free tags, an in-range layout
      and no flag dropped keeps the invariant. */
  lemma InvFrame(s: State, r: State)
    requires Inv(s)
    requires r.data == s.data && Distinct(r.tags) && InRange(r.layout)
    requires forall x :: x in s.sel ==> x in r.sel
    ensures Inv(r)
  {
  }

  /** Clicking a skill token never changes the page. */
  lemma TokenClickKeepsPage(f: Folders, s: State, sid: string, idx: nat)
    requires Inv(s)
    ensures PageOf(Step(f, s, TokenClicked(sid, idx))) == PageOf(s)
  {
    var t := Sidebar.TokenId(sid, idx);
    Preview.TokenFlagsIgnored(s.data, s.sel, sid, idx, !Flag(s.sel, t));
  }

  /** Clicking a tag or "Clear Filters" never changes the page. */
  lemma TagEventsKeepPage(f: Folders, s: State, e: Event)
    requires e.TagClicked? || e.FiltersCleared?
    ensures PageOf(Step(f, s, e)) == PageOf(s)
  {
  }
}
