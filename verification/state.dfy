/** `useResumeState` (src/hooks/useResumeState.ts): the state behind the
    editor and the preview, how it starts, how its handlers change it, and
    the views derived from it. Persisted snapshots and the clock are
    parameters. */
module ResumeState {
  import opened Wrappers
  import opened Strings
  import opened Seqs
  import opened Ordering
  import opened Parser
  import opened Catalog
  import opened Layout

  /** The hook's state: the sections, the selected tags, the per-point
      selection flags and the layout. */
  datatype State = State(data: seq<Section>, tags: seq<string>, sel: map<string, bool>, layout: LayoutSettings)

  // ---------------------------------------------------------------- start

  /** The selection the hook starts with: every catalog point selected, then
      the saved selection, when one was stored and could be parsed, laid
      over it key by key. */
  function InitialSelection(data: seq<Section>, saved: Option<map<string, bool>>): (r: map<string, bool>)
    ensures forall k :: k in r <==> k in PointIds(data) || (saved.Some? && k in saved.value)
    ensures forall k :: k in r ==> r[k] == if saved.Some? && k in saved.value then saved.value[k] else true
  {
    var initial := map id | id in PointIds(data) :: true;
    match saved
    case None => initial
    case Some(m) => initial + m
  }

  /** A saved selection that covers the catalog comes back exactly as it
      was saved. */
  lemma RestoreSavedSelection(data: seq<Section>, sel: map<string, bool>)
    requires forall x :: x in PointIds(data) ==> x in sel
    ensures InitialSelection(data, Some(sel)) == sel
  {
    var r := InitialSelection(data, Some(sel));
    assert r.Keys == sel.Keys;
  }

  /** The state right after loading: the catalog, no selected tags, the
      restored selection and the restored layout. */
  function Init(data: seq<Section>, savedSel: Option<map<string, bool>>, savedLayout: Option<LayoutPatch>): (s: State)
    ensures s.data == data && s.tags == []
    ensures savedSel.None? ==> forall k :: k in s.sel <==> k in PointIds(data)
    ensures savedSel.None? ==> forall k :: k in s.sel ==> s.sel[k]
    ensures savedLayout.None? ==> s.layout == DefaultLayout
    ensures savedSel.Some? ==>
              && (forall k :: k in s.sel <==> k in PointIds(data) || k in savedSel.value)
              && (forall k :: k in savedSel.value ==> s.sel[k] == savedSel.value[k])
              && (forall k :: k in s.sel && k !in savedSel.value ==> s.sel[k])
    ensures savedLayout.Some? ==> s.layout == Merge(DefaultLayout, savedLayout.value)
  {
    State(data, [], InitialSelection(data, savedSel), RestoreLayout(savedLayout))
  }

  // ------------------------------------------------------------- all tags

  /** Some point of some section carries tag `t`. */
  predicate TagOccurs(data: seq<Section>, t: string) {
    exists i, j :: 0 <= i < |data| && 0 <= j < |data[i].points| && t in data[i].points[j].tags
  }

  /** Every tag of every point, in order, with repetitions. */
  function TagList(data: seq<Section>): (r: seq<string>)
    ensures forall t :: t in r <==> TagOccurs(data, t)
  {
    var perSection := seq(|data|, i requires 0 <= i < |data| =>
      Flatten(seq(|data[i].points|, j requires 0 <= j < |data[i].points| => data[i].points[j].tags)));
    assert forall t :: t in Flatten(perSection) <==> TagOccurs(data, t) by {
      forall t | t in Flatten(perSection) ensures TagOccurs(data, t) {
        var i :| 0 <= i < |perSection| && t in perSection[i];
        var j :| 0 <= j < |data[i].points| && t in data[i].points[j].tags;
      }
      forall t | TagOccurs(data, t) ensures t in Flatten(perSection) {
        var i, j :| 0 <= i < |data| && 0 <= j < |data[i].points| && t in data[i].points[j].tags;
        var inner := seq(|data[i].points|, j requires 0 <= j < |data[i].points| => data[i].points[j].tags);
        assert t in inner[j];
        assert perSection[i] == Flatten(inner);
      }
    }
    Flatten(perSection)
  }

  /** `allTags`: the tags of all points, once each, in ascending order. */
  function AllTags(data: seq<Section>): (r: seq<string>)
    ensures StrictlySorted(r)
    ensures forall t :: t in r <==> TagOccurs(data, t)
  {
    SortedSet(TagList(data))
  }

  /** No tag is listed twice. */
  lemma AllTagsDistinct(data: seq<Section>)
    ensures Distinct(AllTags(data))
  {
    StrictlySortedDistinct(AllTags(data));
  }

  /** The listing is the only ascending duplicate-free listing of the tags
      that occur. */
  lemma AllTagsCanonical(data: seq<Section>, xs: seq<string>)
    requires StrictlySorted(xs)
    requires forall t :: t in xs <==> TagOccurs(data, t)
    ensures xs == AllTags(data)
  {
    StrictlySortedUnique(xs, AllTags(data));
  }

  // ----------------------------------------------------------- tag toggle

  /** `handleTagToggle`: removes a selected tag (every copy of it) and
      appends one that is not selected. */
  function ToggleTag(tags: seq<string>, t: string): (r: seq<string>)
    ensures t in tags ==> t !in r && forall x :: x != t ==> (x in r <==> x in tags)
    ensures t !in tags ==> |r| == |tags| + 1 && r[..|tags|] == tags && r[|tags|] == t
  {
    if t in tags then Filter((x: string) => x != t, tags) else tags + [t]
  }

  /** Toggling keeps the selected tags free of duplicates. */
  lemma ToggleTagDistinct(tags: seq<string>, t: string)
    requires Distinct(tags)
    ensures Distinct(ToggleTag(tags, t))
  {
    if t in tags {
      FilterDistinct((x: string) => x != t, tags);
    }
  }

  /** Toggling a tag that is not selected twice gives back the very same
      list. */
  lemma ToggleAbsentTwice(tags: seq<string>, t: string)
    requires t !in tags
    ensures ToggleTag(ToggleTag(tags, t), t) == tags
  {
    var f := (x: string) => x != t;
    FilterAppend(f, tags, [t]);
    FilterKeepsAll(f, tags);
    assert Filter(f, [t]) == [];
  }

  /** Toggling any tag twice gives back the same set of tags; a selected tag
      moves to the end. */
  lemma ToggleTwiceSameTags(tags: seq<string>, t: string)
    ensures forall x :: x in ToggleTag(ToggleTag(tags, t), t) <==> x in tags
  {
    if t !in tags {
      ToggleAbsentTwice(tags, t);
    }
  }

  // --------------------------------------------------------- point toggle

  /** The truthiness of a selection flag: an absent flag reads as false. */
  predicate Flag(sel: map<string, bool>, id: string) {
    id in sel && sel[id]
  }

  /** `handlePointToggle`: writes the negation of the flag's truthiness. */
  function TogglePoint(sel: map<string, bool>, id: string): (r: map<string, bool>)
    ensures id in r && r[id] == !Flag(sel, id)
    ensures forall k :: k != id ==> (k in r <==> k in sel)
    ensures forall k :: k != id && k in sel ==> r[k] == sel[k]
  {
    sel[id := !Flag(sel, id)]
  }

  /** Toggling a present flag twice restores the selection. */
  lemma TogglePointTwice(sel: map<string, bool>, id: string)
    requires id in sel
    ensures TogglePoint(TogglePoint(sel, id), id) == sel
  {
    var r := TogglePoint(TogglePoint(sel, id), id);
    assert r.Keys == sel.Keys;
  }

  /** Toggling an absent flag twice does not remove it: it is left false. */
  lemma TogglePointAbsentTwice(sel: map<string, bool>, id: string)
    requires id !in sel
    ensures TogglePoint(sel, id)[id]
    ensures TogglePoint(TogglePoint(sel, id), id) == sel[id := false]
  {
    var r := TogglePoint(TogglePoint(sel, id), id);
    assert r.Keys == sel[id := false].Keys;
  }

  // ------------------------------------------------------------ add point

  /** The id `custom-${Date.now()}` of a point added at clock reading
      `now`. */
  function CustomId(now: nat): string {
    "custom-" + NatToString(now)
  }

  /** `str.split(',').map(t => t.trim()).filter(Boolean)`: the non-blank
      comma-separated pieces, trimmed. Used for the tags typed for a new
      point and for the tokens of a skills line. */
  function CommaList(tagsStr: string): (r: seq<string>)
    ensures forall i :: 0 <= i < |r| ==> r[i] != "" && Trim(r[i]) == r[i]
  {
    var pieces := TrimAll(Split(tagsStr, ','));
    assert forall i :: 0 <= i < |pieces| ==> Trim(pieces[i]) == pieces[i] by {
      forall i | 0 <= i < |pieces| ensures Trim(pieces[i]) == pieces[i] {
        TrimIdempotent(Split(tagsStr, ',')[i]);
      }
    }
    Filter((x: string) => x != "", pieces)
  }

  /** The comma list is the tag list the parser would take from the same
      text, with the empty pieces dropped and nothing else changed. */
  lemma TagInputDropsOnlyEmpty(tagsStr: string, x: string)
    ensures IsSubseq(CommaList(tagsStr), TrimAll(Split(tagsStr, ',')))
    ensures multiset(CommaList(tagsStr))[x] ==
              if x == "" then 0 else multiset(TrimAll(Split(tagsStr, ',')))[x]
  {
    FilterIsSubseq((y: string) => y != "", TrimAll(Split(tagsStr, ',')));
    FilterMultiplicity((y: string) => y != "", TrimAll(Split(tagsStr, ',')), x);
  }

  /** The parser keeps an empty tag where the add-point form drops it: an
      empty bracket group yields one empty tag, an empty tag field none. */
  lemma EmptyTagContrast()
    ensures ExtractTags("[]") == ("", [""])
    ensures CommaList("") == []
  {
    ExtractTagsBracketed("[]", 0);
    assert IndexOf("", ",").None?;
    assert Split("", ',') == [""];
    TrimUnpadded("");
    assert TrimAll([""]) == [""];
  }

  /** Every section with the given id gains `p` at the end of its points;
      every other section is unchanged. */
  function AppendPoint(data: seq<Section>, sectionId: string, p: Point): (r: seq<Section>)
    ensures |r| == |data|
    ensures forall i :: 0 <= i < |r| ==> r[i].id == data[i].id && r[i].kind == data[i].kind && r[i].meta == data[i].meta
    ensures forall i :: 0 <= i < |r| && data[i].id == sectionId ==>
              |r[i].points| == |data[i].points| + 1
              && r[i].points[..|data[i].points|] == data[i].points
              && r[i].points[|data[i].points|] == p
    ensures forall i :: 0 <= i < |r| && data[i].id != sectionId ==> r[i] == data[i]
  {
    seq(|data|, i requires 0 <= i < |data| =>
      if data[i].id == sectionId then data[i].(points := data[i].points + [p]) else data[i])
  }

  /** `handleAddPoint` at clock reading `now`: nothing happens when the text
      is blank; otherwise the matching section gains the new point and the
      new id is selected, whether or not any section matched. */
  function AddPoint(s: State, sectionId: string, text: string, tagsStr: string, now: nat): (r: State)
    ensures Trim(text) == "" ==> r == s
    ensures Trim(text) != "" ==>
              && r.tags == s.tags && r.layout == s.layout
              && r.data == AppendPoint(s.data, sectionId, Point(CustomId(now), Trim(text), CommaList(tagsStr)))
              && r.sel == s.sel[CustomId(now) := true]
  {
    if Trim(text) == "" then s
    else
      var id := CustomId(now);
      var p := Point(id, Trim(text), CommaList(tagsStr));
      s.(data := AppendPoint(s.data, sectionId, p), sel := s.sel[id := true])
  }

  /** A custom id never looks like a parsed point id. */
  lemma CustomIdNotPointId(now: nat, fileName: string, idx: nat)
    ensures CustomId(now) != PointId(fileName, idx)
  {
    var id := CustomId(now);
    var d := NatToString(now);
    TrailingDigitsAppend("custom-", d);
    assert id[|id| - |d| - 2..|id| - |d|] == "m-";
    assert SplitPointId(id).None?;
    SplitPointIdInverse(fileName, idx);
  }

  /** Every point has a selection flag. */
  predicate Covered(s: State) {
    forall x :: x in PointIds(s.data) ==> x in s.sel
  }

  /** A point after appending is an old point at its old place, or the
      appended one at the end of a matching section. */
  lemma AppendPointAt(data: seq<Section>, sectionId: string, p: Point, i: nat, j: nat)
    requires var r := AppendPoint(data, sectionId, p); i < |r| && j < |r[i].points|
    ensures var r := AppendPoint(data, sectionId, p);
            if j < |data[i].points| then r[i].points[j] == data[i].points[j] && r[i].points[j].id in PointIds(data)
            else data[i].id == sectionId && j == |data[i].points| && r[i].points[j] == p
  {
  }

  /** Adding a point keeps every point flagged. */
  lemma AddPointKeepsCovered(s: State, sectionId: string, text: string, tagsStr: string, now: nat)
    requires Covered(s)
    ensures Covered(AddPoint(s, sectionId, text, tagsStr, now))
  {
    var r := AddPoint(s, sectionId, text, tagsStr, now);
    if Trim(text) != "" {
      var p := Point(CustomId(now), Trim(text), CommaList(tagsStr));
      forall x | x in PointIds(r.data) ensures x in r.sel {
        var i, j :| 0 <= i < |r.data| && 0 <= j < |r.data[i].points| && r.data[i].points[j].id == x;
        AppendPointAt(s.data, sectionId, p, i, j);
      }
    }
  }

  /** Adding a point under a fresh id to a section id used at most once
      keeps point ids unique. */
  lemma AddPointKeepsUnique(s: State, sectionId: string, text: string, tagsStr: string, now: nat)
    requires UniquePointIds(s.data)
    requires forall i, j :: 0 <= i < j < |s.data| ==> s.data[i].id != s.data[j].id
    requires CustomId(now) !in PointIds(s.data)
    ensures UniquePointIds(AddPoint(s, sectionId, text, tagsStr, now).data)
  {
    if Trim(text) != "" {
      var p := Point(CustomId(now), Trim(text), CommaList(tagsStr));
      var r := AppendPoint(s.data, sectionId, p);
      forall i1, j1, i2, j2 |
        && 0 <= i1 < |r| && 0 <= j1 < |r[i1].points|
        && 0 <= i2 < |r| && 0 <= j2 < |r[i2].points|
        && r[i1].points[j1].id == r[i2].points[j2].id
        ensures (i1, j1) == (i2, j2)
      {
        AppendPointAt(s.data, sectionId, p, i1, j1);
        AppendPointAt(s.data, sectionId, p, i2, j2);
      }
    }
  }

  // ----------------------------------------------------------- tag filter

  /** A point survives the tag filter when no tag is selected or when it
      carries at least one selected tag. */
  predicate Visible(p: Point, tags: seq<string>) {
    |tags| == 0 || exists t :: t in tags && t in p.tags
  }

  /** A section with only its visible points, in order. */
  function FilterSection(s: Section, tags: seq<string>): (r: Section)
    ensures r.id == s.id && r.kind == s.kind && r.meta == s.meta
    ensures forall j :: 0 <= j < |r.points| ==> Visible(r.points[j], tags)
    ensures forall j :: 0 <= j < |s.points| ==> (s.points[j] in r.points <==> Visible(s.points[j], tags))
  {
    s.(points := Filter((p: Point) => Visible(p, tags), s.points))
  }

  /** The points kept are in their original order. */
  lemma FilterSectionKeepsOrder(s: Section, tags: seq<string>)
    ensures IsSubseq(FilterSection(s, tags).points, s.points)
  {
    FilterIsSubseq((p: Point) => Visible(p, tags), s.points);
  }

  /** `filteredData`: every section, in order, with only its visible
      points. */
  function FilteredData(data: seq<Section>, tags: seq<string>): (r: seq<Section>)
    ensures |r| == |data|
    ensures forall i :: 0 <= i < |r| ==> r[i] == FilterSection(data[i], tags)
  {
    seq(|data|, i requires 0 <= i < |data| => FilterSection(data[i], tags))
  }

  /** With no tag selected the filter changes nothing. */
  lemma FilteredNoTags(data: seq<Section>)
    ensures FilteredData(data, []) == data
  {
    forall i | 0 <= i < |data| ensures FilterSection(data[i], []) == data[i] {
      FilterKeepsAll((p: Point) => Visible(p, []), data[i].points);
    }
  }

  /** Filtering filtered data again changes nothing. */
  lemma FilteredIdempotent(data: seq<Section>, tags: seq<string>)
    ensures FilteredData(FilteredData(data, tags), tags) == FilteredData(data, tags)
  {
    forall i | 0 <= i < |data|
      ensures FilterSection(FilterSection(data[i], tags), tags) == FilterSection(data[i], tags)
    {
      FilterIdempotent((p: Point) => Visible(p, tags), data[i].points);
    }
  }

  // --------------------------------------------------------------- slices

  /** `filteredData.filter(d => d.type === k)`. */
  function OfKind(data: seq<Section>, k: Kind): (r: seq<Section>)
    ensures forall i :: 0 <= i < |r| ==> r[i].kind == k && r[i] in data
    ensures forall i :: 0 <= i < |data| && data[i].kind == k ==> data[i] in r
    ensures IsSubseq(r, data)
  {
    FilterIsSubseq((s: Section) => s.kind == k, data);
    Filter((s: Section) => s.kind == k, data)
  }

  /** The four slices split the sections between them: each section lands
      in the slice of its type, as often as it occurs, and in no other. */
  lemma SlicesPartition(data: seq<Section>, x: Section)
    ensures multiset(OfKind(data, Experience))[x] + multiset(OfKind(data, Project))[x]
            + multiset(OfKind(data, Education))[x] + multiset(OfKind(data, Skills))[x]
            == multiset(data)[x]
    ensures forall k :: multiset(OfKind(data, k))[x] == if x.kind == k then multiset(data)[x] else 0
  {
    forall k ensures multiset(OfKind(data, k))[x] == if x.kind == k then multiset(data)[x] else 0 {
      FilterMultiplicity((s: Section) => s.kind == k, data, x);
    }
  }
}
