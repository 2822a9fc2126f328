/** What the editor panel shows (src/components/editor/Sidebar.tsx): one
    block per non-empty category, an entry per section with its heading and
    one checkbox per point, and, for skills, one toggle token per
    comma-separated skill of the section's first point. Markup, icons and
    collapsing are not modelled. */
module Sidebar {
  import opened Wrappers
  import opened Strings
  import opened Seqs
  import opened Parser
  import opened ResumeState

  // ------------------------------------------------------------- headings

  /** The value of a metadata field when it is truthy: present and not
      empty. */
  function Truthy(meta: map<string, string>, k: string): Option<string> {
    if k in meta && meta[k] != "" then Some(meta[k]) else None
  }

  /** `a || b || ...` over metadata fields: the first truthy one. */
  function FirstTruthy(meta: map<string, string>, keys: seq<string>): (r: Option<string>)
    ensures r.None? <==> forall i :: 0 <= i < |keys| ==> Truthy(meta, keys[i]).None?
    ensures r.Some? ==> exists i :: 0 <= i < |keys| && Truthy(meta, keys[i]) == r
                                    && forall m :: 0 <= m < i ==> Truthy(meta, keys[m]).None?
  {
    if |keys| == 0 then None
    else if Truthy(meta, keys[0]).Some? then Truthy(meta, keys[0])
    else
      var r := FirstTruthy(meta, keys[1..]);
      assert r.Some? ==> exists i :: 0 <= i < |keys| && Truthy(meta, keys[i]) == r
                                     && forall m :: 0 <= m < i ==> Truthy(meta, keys[m]).None? by {
        if r.Some? {
          var i :| 0 <= i < |keys[1..]| && Truthy(meta, keys[1..][i]) == r
                   && forall m :: 0 <= m < i ==> Truthy(meta, keys[1..][m]).None?;
          assert forall m :: 0 <= m < i + 1 ==> Truthy(meta, keys[m]).None? by {
            forall m | 0 <= m < i + 1 ensures Truthy(meta, keys[m]).None? {
              if m > 0 {
                assert keys[m] == keys[1..][m - 1];
              }
            }
          }
        }
      }
      r
  }

  const HeadingKeys: seq<string> := ["company", "project_name", "institution", "category"]

  /** `item.company || item.project_name || item.institution ||
      item.category`; empty when all four are missing or empty. */
  function EntryHeading(s: Section): (h: string)
    ensures h != "" ==> exists i :: 0 <= i < |HeadingKeys| && Truthy(s.meta, HeadingKeys[i]) == Some(h)
  {
    var r := FirstTruthy(s.meta, HeadingKeys);
    assert r.Some? ==> r.value != "";
    r.GetOr("")
  }

  /** `item.designation || item.degree`, shown after the heading when
      either is truthy. */
  function EntrySubtitle(s: Section): (r: Option<string>)
    ensures r.Some? ==> r.value != ""
    ensures Truthy(s.meta, "designation").Some? ==> r == Some(s.meta["designation"])
    ensures Truthy(s.meta, "designation").None? ==> r == Truthy(s.meta, "degree")
  {
    var keys := ["designation", "degree"];
    var rest := keys[1..];
    assert rest == ["degree"] && rest[1..] == [];
    assert FirstTruthy(s.meta, rest) == Truthy(s.meta, "degree");
    var r := FirstTruthy(s.meta, keys);
    assert Truthy(s.meta, "designation").None? ==> r == FirstTruthy(s.meta, rest);
    assert r.Some? ==> r.value != "";
    r
  }

  /** The heading is the first of company, project name, institution and
      category that is present and not empty. */
  lemma EntryHeadingFallback(s: Section)
    ensures Truthy(s.meta, "company").Some? ==> EntryHeading(s) == s.meta["company"]
    ensures Truthy(s.meta, "company").None? && Truthy(s.meta, "project_name").Some? ==>
              EntryHeading(s) == s.meta["project_name"]
    ensures Truthy(s.meta, "company").None? && Truthy(s.meta, "project_name").None?
            && Truthy(s.meta, "institution").Some? ==>
              EntryHeading(s) == s.meta["institution"]
    ensures Truthy(s.meta, "company").None? && Truthy(s.meta, "project_name").None?
            && Truthy(s.meta, "institution").None? && Truthy(s.meta, "category").Some? ==>
              EntryHeading(s) == s.meta["category"]
    ensures EntryHeading(s) == "" <==> forall i :: 0 <= i < |HeadingKeys| ==> Truthy(s.meta, HeadingKeys[i]).None?
  {
    var m := s.meta;
    var ks1 := HeadingKeys[1..];
    var ks2 := ks1[1..];
    var ks3 := ks2[1..];
    assert ks1 == ["project_name", "institution", "category"];
    assert ks2 == ["institution", "category"];
    assert ks3 == ["category"];
    if Truthy(m, "company").None? {
      assert FirstTruthy(m, HeadingKeys) == FirstTruthy(m, ks1);
      if Truthy(m, "project_name").None? {
        assert FirstTruthy(m, ks1) == FirstTruthy(m, ks2);
        if Truthy(m, "institution").None? {
          assert FirstTruthy(m, ks2) == FirstTruthy(m, ks3);
        }
      }
    }
    var r := FirstTruthy(m, HeadingKeys);
    if r.Some? {
      var i :| 0 <= i < |HeadingKeys| && Truthy(m, HeadingKeys[i]) == r
               && forall j :: 0 <= j < i ==> Truthy(m, HeadingKeys[j]).None?;
      assert r.value != "";
    }
  }

  /** `item.category || 'Skills'`: the title of a skills entry. */
  function SkillsTitle(s: Section): (t: string)
    ensures t != ""
    ensures Truthy(s.meta, "category").Some? ==> t == s.meta["category"]
    ensures Truthy(s.meta, "category").None? ==> t == "Skills"
  {
    var r := FirstTruthy(s.meta, ["category"]);
    assert r.Some? ==> r.value != "";
    r.GetOr("Skills")
  }

  // --------------------------------------------------------------- tokens

  /** `item.points[0]?.text || ''`: only the first point of a skills
      section feeds its tokens. */
  function TokenSource(s: Section): string {
    if |s.points| == 0 then "" else s.points[0].text
  }

  /** The skills of a skills entry, one per token. */
  function SkillTokens(s: Section): (r: seq<string>)
    ensures forall i :: 0 <= i < |r| ==> r[i] != "" && Trim(r[i]) == r[i]
  {
    CommaList(TokenSource(s))
  }

  /** A skills section without points shows no tokens. */
  lemma NoPointsNoTokens(s: Section)
    requires |s.points| == 0
    ensures SkillTokens(s) == []
  {
    EmptyTagContrast();
  }

  /** `${item.id}-skill-${idx}`: the flag a token reads and toggles, keyed by
      the section's id and the token's position. */
  function TokenId(sectionId: string, idx: nat): string {
    sectionId + "-skill-" + NatToString(idx)
  }

  /** `selectedPoints[skillId] !== false`: a token is selected unless its
      flag is exactly false. */
  predicate TokenSelected(sel: map<string, bool>, id: string) {
    id !in sel || sel[id]
  }

  /** A token id determines its section id and position. */
  lemma TokenIdInjective(sid1: string, i1: nat, sid2: string, i2: nat)
    requires TokenId(sid1, i1) == TokenId(sid2, i2)
    ensures sid1 == sid2 && i1 == i2
  {
    var a := sid1 + "-skill-";
    var b := sid2 + "-skill-";
    assert TokenId(sid1, i1) == a + NatToString(i1);
    assert TokenId(sid2, i2) == b + NatToString(i2);
    NumberedInjective(a, i1, b, i2);
    assert sid1 == a[..|a| - 7] && sid2 == b[..|b| - 7];
  }

  /** A token id never collides with a parsed point id: the character before
      its digits is a dash, where a point id has a "p". */
  lemma TokenIdNotPointId(sid: string, i: nat, fileName: string, j: nat)
    ensures TokenId(sid, i) != PointId(fileName, j)
  {
    assert TokenId(sid, i) == (sid + "-skill-") + NatToString(i);
    assert PointId(fileName, j) == (fileName + "-p") + NatToString(j);
    MarkOfNumbered(sid + "-skill-", i);
    MarkOfNumbered(fileName + "-p", j);
  }

  /** A token id never collides with the id of an added point: the letter
      before the dash ahead of its digits is an "l", where an added point's
      id has an "m". */
  lemma TokenIdNotCustomId(sid: string, i: nat, now: nat)
    ensures TokenId(sid, i) != CustomId(now)
  {
    var a := sid + "-skill-";
    var t := a + NatToString(i);
    var c := "custom-" + NatToString(now);
    assert TokenId(sid, i) == t;
    TrailingDigitsAppend(a, NatToString(i));
    TrailingDigitsAppend("custom-", NatToString(now));
    assert t[|t| - |NatToString(i)| - 2] == 'l';
    assert c[|c| - |NatToString(now)| - 2] == 'm';
  }

  /** The shape of every point id the application creates: a parsed point's
      `<file>-p<i>` or an added point's `custom-<n>`. */
  ghost predicate PointShaped(id: string) {
    (exists f, j: nat :: id == PointId(f, j)) || (exists n: nat :: id == CustomId(n))
  }

  /** No token id has the shape of a point id. */
  lemma TokenIdNotPointShaped(sid: string, i: nat, id: string)
    requires PointShaped(id)
    ensures TokenId(sid, i) != id
  {
    if exists f, j: nat :: id == PointId(f, j) {
      var f, j: nat :| id == PointId(f, j);
      TokenIdNotPointId(sid, i, f, j);
    } else {
      var n: nat :| id == CustomId(n);
      TokenIdNotCustomId(sid, i, n);
    }
  }

  /** An untouched token reads as selected while an untouched point's
      checkbox reads as unchecked; the first click on the token writes true,
      so it stays selected, and only the second click deselects it. */
  lemma UntouchedToken(sel: map<string, bool>, id: string)
    requires id !in sel
    ensures TokenSelected(sel, id) && !Flag(sel, id)
    ensures TogglePoint(sel, id)[id] && TokenSelected(TogglePoint(sel, id), id)
    ensures !TokenSelected(TogglePoint(TogglePoint(sel, id), id), id)
  {
    TogglePointAbsentTwice(sel, id);
  }

  /** The text the tokens of a section come from once the tag filter has
      run: that of its first point carrying a selected tag, or "" when none
      does. */
  function FirstVisibleText(ps: seq<Point>, tags: seq<string>): string {
    if |ps| == 0 then ""
    else if Visible(ps[0], tags) then ps[0].text
    else FirstVisibleText(ps[1..], tags)
  }

  lemma {:induction false} FirstVisibleTextIsHead(ps: seq<Point>, tags: seq<string>)
    ensures var kept := Filter((p: Point) => Visible(p, tags), ps);
            FirstVisibleText(ps, tags) == if |kept| == 0 then "" else kept[0].text
    decreases |ps|
  {
    if |ps| > 0 {
      FirstVisibleTextIsHead(ps[1..], tags);
    }
  }

  /** The editor is given tag-filtered sections, so the tokens of a skills
      section come from its first point that survives the filter. */
  lemma TokensAfterFilter(s: Section, tags: seq<string>)
    ensures SkillTokens(FilterSection(s, tags)) == CommaList(FirstVisibleText(s.points, tags))
  {
    FirstVisibleTextIsHead(s.points, tags);
  }

  // ---------------------------------------------------------------- views

  /** A skill token: its flag id, its skill and whether it shows as
      selected. */
  datatype Token = Token(id: string, skill: string, selected: bool)

  /** An ordinary entry: heading, optional subtitle, and one checkbox per
      point with its checked state. */
  datatype EntryView = EntryView(id: string, heading: string, subtitle: Option<string>, checks: seq<(Point, bool)>)

  /** A skills entry: title and tokens. */
  datatype SkillView = SkillView(id: string, title: string, tokens: seq<Token>)

  /** A category block of the editor. */
  datatype Block = EntriesBlock(kind: Kind, entries: seq<EntryView>) | SkillsBlock(skills: seq<SkillView>)

  function BlockKind(b: Block): Kind {
    match b
    case EntriesBlock(k, _) => k
    case SkillsBlock(_) => Skills
  }

  /** The tokens of a skills section under the current flags. */
  function Tokens(s: Section, sel: map<string, bool>): (r: seq<Token>)
    ensures |r| == |SkillTokens(s)|
    ensures forall i :: 0 <= i < |r| ==>
              r[i].id == TokenId(s.id, i) && r[i].skill == SkillTokens(s)[i]
              && (r[i].selected <==> TokenSelected(sel, TokenId(s.id, i)))
  {
    var skills := SkillTokens(s);
    seq(|skills|, i requires 0 <= i < |skills| =>
      Token(TokenId(s.id, i), skills[i], TokenSelected(sel, TokenId(s.id, i))))
  }

  /** The tokens of one section have pairwise distinct ids. */
  lemma TokenIdsDistinct(s: Section, sel: map<string, bool>)
    ensures var ts := Tokens(s, sel); forall i, j :: 0 <= i < j < |ts| ==> ts[i].id != ts[j].id
  {
    var ts := Tokens(s, sel);
    forall i, j | 0 <= i < j < |ts| ensures ts[i].id != ts[j].id {
      if ts[i].id == ts[j].id {
        TokenIdInjective(s.id, i, s.id, j);
      }
    }
  }

  /** `!!selectedPoints[point.id]` for every point: an absent flag shows
      unchecked. */
  function Checks(ps: seq<Point>, sel: map<string, bool>): (r: seq<(Point, bool)>)
    ensures |r| == |ps|
    ensures forall j :: 0 <= j < |r| ==> r[j].0 == ps[j] && (r[j].1 <==> Flag(sel, ps[j].id))
  {
    seq(|ps|, j requires 0 <= j < |ps| => (ps[j], Flag(sel, ps[j].id)))
  }

  /** One editor entry: the section's heading, its subtitle, and a check
      box per point. */
  function ViewEntry(s: Section, sel: map<string, bool>): EntryView {
    EntryView(s.id, EntryHeading(s), EntrySubtitle(s), Checks(s.points, sel))
  }

  /** One skills entry: its title and its tokens. */
  function ViewSkill(s: Section, sel: map<string, bool>): SkillView {
    SkillView(s.id, SkillsTitle(s), Tokens(s, sel))
  }

  /** `renderSection` and `renderSkillsSection`: no block at all for an
      empty list, otherwise one entry per section in order. */
  function CategoryBlock(k: Kind, data: seq<Section>, sel: map<string, bool>): (r: seq<Block>)
    ensures |r| == if |data| == 0 then 0 else 1
    ensures forall i :: 0 <= i < |r| ==> BlockKind(r[i]) == k
    ensures |data| > 0 && k != Skills ==>
              r[0].EntriesBlock? && |r[0].entries| == |data|
              && forall i :: 0 <= i < |data| ==> r[0].entries[i] == ViewEntry(data[i], sel)
    ensures |data| > 0 && k == Skills ==>
              r[0].SkillsBlock? && |r[0].skills| == |data|
              && forall i :: 0 <= i < |data| ==> r[0].skills[i] == ViewSkill(data[i], sel)
  {
    if |data| == 0 then []
    else if k == Skills then
      [SkillsBlock(seq(|data|, i requires 0 <= i < |data| => ViewSkill(data[i], sel)))]
    else
      [EntriesBlock(k, seq(|data|, i requires 0 <= i < |data| => ViewEntry(data[i], sel)))]
  }

  /** The position of a category in the editor and in the preview. */
  function Rank(k: Kind): nat {
    match k
    case Experience => 0
    case Project => 1
    case Education => 2
    case Skills => 3
  }

  /** The editor's category blocks: experience, projects, education and
      skills, each only when its list is not empty. */
  function EditorBlocks(exp: seq<Section>, proj: seq<Section>, edu: seq<Section>, skl: seq<Section>,
                        sel: map<string, bool>): (r: seq<Block>)
    ensures |r| == |CategoryBlock(Experience, exp, sel)| + |CategoryBlock(Project, proj, sel)|
                   + |CategoryBlock(Education, edu, sel)| + |CategoryBlock(Skills, skl, sel)|
  {
    CategoryBlock(Experience, exp, sel) + CategoryBlock(Project, proj, sel)
    + CategoryBlock(Education, edu, sel) + CategoryBlock(Skills, skl, sel)
  }

  /** The category of each block follows from its position. */
  lemma EditorBlockKinds(exp: seq<Section>, proj: seq<Section>, edu: seq<Section>, skl: seq<Section>,
                         sel: map<string, bool>, i: nat)
    requires i < |EditorBlocks(exp, proj, edu, skl, sel)|
    ensures var a := |CategoryBlock(Experience, exp, sel)|;
            var ab := a + |CategoryBlock(Project, proj, sel)|;
            var abc := ab + |CategoryBlock(Education, edu, sel)|;
            BlockKind(EditorBlocks(exp, proj, edu, skl, sel)[i]) ==
              if i < a then Experience else if i < ab then Project else if i < abc then Education else Skills
  {
  }

  /** The blocks come in the fixed category order, and a category has a
      block exactly when its list is not empty. */
  lemma EditorBlocksLayout(exp: seq<Section>, proj: seq<Section>, edu: seq<Section>, skl: seq<Section>,
                           sel: map<string, bool>)
    ensures var r := EditorBlocks(exp, proj, edu, skl, sel);
            forall i, j :: 0 <= i < j < |r| ==> Rank(BlockKind(r[i])) < Rank(BlockKind(r[j]))
    ensures var r := EditorBlocks(exp, proj, edu, skl, sel);
            && ((exists i :: 0 <= i < |r| && BlockKind(r[i]) == Experience) <==> |exp| > 0)
            && ((exists i :: 0 <= i < |r| && BlockKind(r[i]) == Project) <==> |proj| > 0)
            && ((exists i :: 0 <= i < |r| && BlockKind(r[i]) == Education) <==> |edu| > 0)
            && ((exists i :: 0 <= i < |r| && BlockKind(r[i]) == Skills) <==> |skl| > 0)
    ensures var r := EditorBlocks(exp, proj, edu, skl, sel);
            forall i :: 0 <= i < |r| ==>
              var k := BlockKind(r[i]);
              |SliceFor(k, exp, proj, edu, skl)| > 0 && r[i] == CategoryBlock(k, SliceFor(k, exp, proj, edu, skl), sel)[0]
  {
    EditorBlocksOrder(exp, proj, edu, skl, sel);
    EditorBlocksPresence(exp, proj, edu, skl, sel);
    var r := EditorBlocks(exp, proj, edu, skl, sel);
    forall i | 0 <= i < |r|
      ensures var k := BlockKind(r[i]);
              |SliceFor(k, exp, proj, edu, skl)| > 0 && r[i] == CategoryBlock(k, SliceFor(k, exp, proj, edu, skl), sel)[0]
    {
      BlockAt(exp, proj, edu, skl, sel, i);
    }
  }

  /** The slice a category's block is drawn from. */
  function SliceFor(k: Kind, exp: seq<Section>, proj: seq<Section>, edu: seq<Section>, skl: seq<Section>): seq<Section> {
    match k
    case Experience => exp
    case Project => proj
    case Education => edu
    case Skills => skl
  }

  /** The block at any position is its category's block over that
      category's slice. */
  lemma BlockAt(exp: seq<Section>, proj: seq<Section>, edu: seq<Section>, skl: seq<Section>,
                sel: map<string, bool>, i: nat)
    requires i < |EditorBlocks(exp, proj, edu, skl, sel)|
    ensures var b := EditorBlocks(exp, proj, edu, skl, sel)[i];
            var k := BlockKind(b);
            |SliceFor(k, exp, proj, edu, skl)| > 0 && b == CategoryBlock(k, SliceFor(k, exp, proj, edu, skl), sel)[0]
  {
    var be, bp := CategoryBlock(Experience, exp, sel), CategoryBlock(Project, proj, sel);
    var bd, bs := CategoryBlock(Education, edu, sel), CategoryBlock(Skills, skl, sel);
    var r := EditorBlocks(exp, proj, edu, skl, sel);
    assert r == be + bp + bd + bs;
    if i < |be| {
      assert r[i] == be[i];
    } else if i < |be| + |bp| {
      assert r[i] == bp[i - |be|];
    } else if i < |be| + |bp| + |bd| {
      assert r[i] == bd[i - |be| - |bp|];
    } else {
      assert r[i] == bs[i - |be| - |bp| - |bd|];
    }
  }

  lemma EditorBlocksOrder(exp: seq<Section>, proj: seq<Section>, edu: seq<Section>, skl: seq<Section>,
                          sel: map<string, bool>)
    ensures var r := EditorBlocks(exp, proj, edu, skl, sel);
            forall i, j :: 0 <= i < j < |r| ==> Rank(BlockKind(r[i])) < Rank(BlockKind(r[j]))
  {
    var r := EditorBlocks(exp, proj, edu, skl, sel);
    forall i, j | 0 <= i < j < |r| ensures Rank(BlockKind(r[i])) < Rank(BlockKind(r[j])) {
      EditorBlockKinds(exp, proj, edu, skl, sel, i);
      EditorBlockKinds(exp, proj, edu, skl, sel, j);
    }
  }

  lemma EditorBlocksPresence(exp: seq<Section>, proj: seq<Section>, edu: seq<Section>, skl: seq<Section>,
                             sel: map<string, bool>)
    ensures var r := EditorBlocks(exp, proj, edu, skl, sel);
            && ((exists i :: 0 <= i < |r| && BlockKind(r[i]) == Experience) <==> |exp| > 0)
            && ((exists i :: 0 <= i < |r| && BlockKind(r[i]) == Project) <==> |proj| > 0)
            && ((exists i :: 0 <= i < |r| && BlockKind(r[i]) == Education) <==> |edu| > 0)
            && ((exists i :: 0 <= i < |r| && BlockKind(r[i]) == Skills) <==> |skl| > 0)
  {
    var r := EditorBlocks(exp, proj, edu, skl, sel);
    var a := |CategoryBlock(Experience, exp, sel)|;
    var ab := a + |CategoryBlock(Project, proj, sel)|;
    var abc := ab + |CategoryBlock(Education, edu, sel)|;
    forall i | 0 <= i < |r|
      ensures BlockKind(r[i]) ==
                if i < a then Experience else if i < ab then Project else if i < abc then Education else Skills
    {
      EditorBlockKinds(exp, proj, edu, skl, sel, i);
    }
    assert |exp| > 0 ==> BlockKind(r[0]) == Experience;
    assert |proj| > 0 ==> BlockKind(r[a]) == Project;
    assert |edu| > 0 ==> BlockKind(r[ab]) == Education;
    assert |skl| > 0 ==> BlockKind(r[abc]) == Skills;
  }
}
