/** `getResumeData` (src/data.ts): every content file of the four folders is
    parsed, folder by folder, under a name made of its file name and a
    suffix naming the folder. The bundler's eager glob import is replaced by
    four sequences of files given as parameters, in the order the import
    enumerates them. */
module Catalog {
  import opened Wrappers
  import opened Strings
  import opened Seqs
  import opened Parser

  /** One content file as the bundler supplies it. */
  datatype File = File(path: string, content: string)

  /** The suffix appended to the file name of every file of a folder. */
  function Suffix(k: Kind): (s: string)
    ensures |s| >= 5 && s[0] == ' '
  {
    match k
    case Experience => " (exp)"
    case Project => " (proj)"
    case Education => " (edu)"
    case Skills => " (skl)"
  }

  /** `path.split('/').pop()`: the part of the path after its last slash. */
  function Basename(path: string): (b: string)
    ensures |b| <= |path| && path[|path| - |b|..] == b
    ensures |b| == |path| || path[|path| - |b| - 1] == '/'
    ensures forall m :: 0 <= m < |b| ==> b[m] != '/'
  {
    SplitLast(path, '/');
    var parts := Split(path, '/');
    parts[|parts| - 1]
  }

  /** `path.split('/').pop()?.replace('.md', '') || path`: the basename
      without its first ".md", or the whole path when that leaves nothing. */
  function FileName(path: string): (r: string)
    ensures r == "" ==> path == ""
    ensures r == path || forall m :: 0 <= m < |r| ==> r[m] != '/'
    ensures r != path && Contains(Basename(path), ".md") ==>
              exists i :: 0 <= i <= |r| && Basename(path) == r[..i] + ".md" + r[i..]
    ensures var b := Basename(path);
            IndexOf(b, ".md").None? ==> r == if b == "" then path else b
    ensures var b := Basename(path);
            IndexOf(b, ".md").Some? ==>
              var i := IndexOf(b, ".md").value;
              i + 3 <= |b| && r == if |b| == 3 then path else b[..i] + b[i + 3..]
  {
    var b := Basename(path);
    var stem := RemoveFirst(b, ".md");
    assert IndexOf(b, ".md").Some? ==>
             var i := IndexOf(b, ".md").value; i + 3 <= |b| && stem == b[..i] + b[i + 3..] by {
      if IndexOf(b, ".md").Some? {
        var i := IndexOf(b, ".md").value;
        assert OccursAt(b, ".md", i);
        assert b == stem[..i] + ".md" + stem[i..];
        assert b[..i] == stem[..i];
        assert b[i + 3..] == stem[i..];
      }
    }
    if stem == "" then path
    else
      assert forall m :: 0 <= m < |stem| ==> stem[m] != '/' by {
        if Contains(b, ".md") {
          var i := IndexOf(b, ".md").value;
          forall m | 0 <= m < |stem| ensures stem[m] != '/' {
            if m < i {
              assert stem[m] == b[m];
            } else {
              assert stem[m] == b[m + 3];
            }
          }
        }
      }
      stem
  }

  /** The basename of a path ending in a slash and a slash-free name is
      that name. */
  lemma BasenameAfterSlash(dir: string, file: string)
    requires forall m :: 0 <= m < |file| ==> file[m] != '/'
    ensures Basename(dir + "/" + file) == file
  {
    var path := dir + "/" + file;
    var b := Basename(path);
    var p := |path| - |file|;
    assert path[p - 1] == '/';
    assert forall m :: p <= m < |path| ==> path[m] == file[m - p];
    assert forall m :: |path| - |b| <= m < |path| ==> path[m] == b[m - (|path| - |b|)];
    assert |b| <= |file|;
    assert |b| >= |file|;
  }

  /** In a dot-free name followed by ".md", the first ".md" is that one. */
  lemma FirstExtension(name: string)
    requires forall m :: 0 <= m < |name| ==> name[m] != '.'
    ensures IndexOf(name + ".md", ".md") == Some(|name|)
  {
    var file := name + ".md";
    assert OccursAt(file, ".md", |name|);
    assert Contains(file, ".md");
    forall j: nat | j < |name| ensures !OccursAt(file, ".md", j) {
      assert file[j + 0] == name[j] != ".md"[0];
    }
  }

  /** A markdown file whose name has no dot and no slash is known by that
      name. */
  lemma FileNameOfMarkdown(dir: string, name: string)
    requires |name| > 0
    requires forall m :: 0 <= m < |name| ==> name[m] != '/' && name[m] != '.'
    ensures FileName(dir + "/" + name + ".md") == name
  {
    var file := name + ".md";
    assert dir + "/" + name + ".md" == dir + "/" + file;
    BasenameAfterSlash(dir, file);
    FirstExtension(name);
    assert RemoveFirst(file, ".md") == file[..|name|] + file[|name| + 3..] == name;
  }

  /** In a dot-free name followed by ".md" and anything, the first ".md"
      is the one right after the name. */
  lemma FirstExtensionBefore(a: string, b: string)
    requires forall m :: 0 <= m < |a| ==> a[m] != '.'
    ensures IndexOf(a + ".md" + b, ".md") == Some(|a|)
  {
    var file := a + ".md" + b;
    assert OccursAt(file, ".md", |a|);
    forall j: nat | j < |a| ensures !OccursAt(file, ".md", j) {
      assert file[j + 0] == a[j] != ".md"[0];
    }
    IndexOfAt(file, ".md", |a|);
  }

  lemma SlashFreeJoin(a: string, b: string)
    requires forall m :: 0 <= m < |a| ==> a[m] != '/'
    requires forall m :: 0 <= m < |b| ==> b[m] != '/'
    ensures forall m :: 0 <= m < |a + ".md" + b| ==> (a + ".md" + b)[m] != '/'
  {
    var file := a + ".md" + b;
    forall m | 0 <= m < |file| ensures file[m] != '/' {
      if m < |a| { assert file[m] == a[m]; }
      else if m >= |a| + 3 { assert file[m] == b[m - |a| - 3]; }
    }
  }

  /** Only the first ".md" of the basename is removed: `x/a.mdb.md` is
      known as `ab.md`. */
  lemma FirstMarkdownRemoved(dir: string, a: string, b: string)
    requires forall m :: 0 <= m < |a| ==> a[m] != '/' && a[m] != '.'
    requires forall m :: 0 <= m < |b| ==> b[m] != '/'
    requires |a| + |b| > 0
    ensures FileName(dir + "/" + a + ".md" + b) == a + b
  {
    var file := a + ".md" + b;
    Regroup(dir, "/", a, ".md", b);
    SlashFreeJoin(a, b);
    BasenameAfterSlash(dir, file);
    FirstExtensionBefore(a, b);
    CutMiddle(a, ".md", b);
    FileNameCut(dir + "/" + file, |a|);
  }

  lemma Regroup(d: string, s: string, a: string, m: string, b: string)
    ensures d + s + a + m + b == d + s + (a + m + b)
  {
  }

  lemma CutMiddle(a: string, m: string, b: string)
    ensures (a + m + b)[..|a|] + (a + m + b)[|a| + |m|..] == a + b
  {
    var f := a + m + b;
    assert f[..|a|] == a;
    assert f[|a| + |m|..] == b;
  }

  lemma FileNameCut(path: string, i: nat)
    requires IndexOf(Basename(path), ".md") == Some(i)
    requires |Basename(path)| != 3
    ensures i + 3 <= |Basename(path)|
    ensures FileName(path) == Basename(path)[..i] + Basename(path)[i + 3..]
  {
  }

  /** The files of the four folders, each paired with its folder, in the
      order they are parsed. */
  function Loaded(exp: seq<File>, proj: seq<File>, edu: seq<File>, skl: seq<File>): (l: seq<(File, Kind)>)
    ensures |l| == |exp| + |proj| + |edu| + |skl|
  {
    Tagged(exp, Experience) + Tagged(proj, Project) + Tagged(edu, Education) + Tagged(skl, Skills)
  }

  /** Experience files are parsed first, then projects, then education, then
      skills, each folder in its enumeration order. */
  lemma LoadOrder(exp: seq<File>, proj: seq<File>, edu: seq<File>, skl: seq<File>, i: nat)
    requires i < |exp| + |proj| + |edu| + |skl|
    ensures var l := Loaded(exp, proj, edu, skl);
            var a := |exp|; var b := a + |proj|; var c := b + |edu|;
            l[i] == if i < a then (exp[i], Experience)
                    else if i < b then (proj[i - a], Project)
                    else if i < c then (edu[i - b], Education)
                    else (skl[i - c], Skills)
  {
  }

  function Tagged(files: seq<File>, k: Kind): (r: seq<(File, Kind)>)
    ensures |r| == |files|
    ensures forall i :: 0 <= i < |r| ==> r[i] == (files[i], k)
  {
    seq(|files|, i requires 0 <= i < |files| => (files[i], k))
  }

  /** `fileName + ' (exp)'` and its siblings: the name a file is parsed
      under. */
  function SectionName(f: File, k: Kind): string {
    FileName(f.path) + Suffix(k)
  }

  /** `parseMarkdown(fileName, content)` for one loaded file: the section
      is known by the file's section name, and its type is read off that
      name. */
  function ParseEntry(e: (File, Kind)): (s: Section)
    ensures s.id == SectionName(e.0, e.1)
    ensures s.kind == InferKind(SectionName(e.0, e.1))
  {
    ParseMarkdown(SectionName(e.0, e.1), e.0.content)
  }

  /** `getResumeData()`: one section per loaded file, in load order, each
      parsed under its section name. The files of each folder give the run
      of sections at that folder's offset, in the folder's order. */
  function GetResumeData(exp: seq<File>, proj: seq<File>, edu: seq<File>, skl: seq<File>): (r: seq<Section>)
    ensures |r| == |exp| + |proj| + |edu| + |skl|
    ensures forall i :: 0 <= i < |r| ==> r[i].id == SectionName(Loaded(exp, proj, edu, skl)[i].0, Loaded(exp, proj, edu, skl)[i].1)
    ensures r[0..|exp|] == Map(ParseEntry, Tagged(exp, Experience))
    ensures r[|exp|..|exp| + |proj|] == Map(ParseEntry, Tagged(proj, Project))
    ensures r[|exp| + |proj|..|exp| + |proj| + |edu|] == Map(ParseEntry, Tagged(edu, Education))
    ensures r[|exp| + |proj| + |edu|..|r|] == Map(ParseEntry, Tagged(skl, Skills))
  {
    LoadedRuns(ParseEntry, exp, proj, edu, skl);
    Map(ParseEntry, Loaded(exp, proj, edu, skl))
  }

  /** Whatever is done to each loaded file, the results for each folder's
      files form the run at that folder's offset. */
  lemma LoadedRuns<S>(f: ((File, Kind)) -> S, exp: seq<File>, proj: seq<File>, edu: seq<File>, skl: seq<File>)
    ensures var r := Map(f, Loaded(exp, proj, edu, skl));
            && |r| == |exp| + |proj| + |edu| + |skl|
            && r[0..|exp|] == Map(f, Tagged(exp, Experience))
            && r[|exp|..|exp| + |proj|] == Map(f, Tagged(proj, Project))
            && r[|exp| + |proj|..|exp| + |proj| + |edu|] == Map(f, Tagged(edu, Education))
            && r[|exp| + |proj| + |edu|..|r|] == Map(f, Tagged(skl, Skills))
  {
    var a, b, c, d := Tagged(exp, Experience), Tagged(proj, Project), Tagged(edu, Education), Tagged(skl, Skills);
    MapRuns(f, a, b, c, d, |exp|, |exp| + |proj|, |exp| + |proj| + |edu|, |exp| + |proj| + |edu| + |skl|);
  }

  // ------------------------------------------------------------ properties

  /** Which type markers each suffix carries: exactly the one of its own
      folder. */
  lemma SuffixMarkers(k: Kind)
    ensures ExperienceMarker(Suffix(k)) <==> k == Experience
    ensures EducationMarker(Suffix(k)) <==> k == Education
    ensures SkillsMarker(Suffix(k)) <==> k == Skills
  {
    var s := Suffix(k);
    MissingChar(s, "/experience/", 0);
    MissingChar(s, "/education/", 0);
    MissingChar(s, "/skills/", 0);
    match k
    case Experience =>
      assert OccursAt(s, "(exp)", 1);
      MissingChar(s, "(edu)", 2);
      MissingChar(s, "(skl)", 2);
    case Project =>
      MissingChar(s, "(exp)", 2);
      MissingChar(s, "(edu)", 2);
      MissingChar(s, "(skl)", 2);
    case Education =>
      assert OccursAt(s, "(edu)", 1);
      MissingChar(s, "(exp)", 2);
      MissingChar(s, "(skl)", 2);
    case Skills =>
      assert OccursAt(s, "(skl)", 1);
      MissingChar(s, "(exp)", 2);
      MissingChar(s, "(edu)", 2);
  }

  /** A marker occurs in a suffixed name exactly when it occurs in the name
      or in the suffix: no marker has a space, and every suffix starts with
      one. */
  lemma MarkersOfSuffixed(name: string, k: Kind)
    ensures ExperienceMarker(name + Suffix(k)) <==> ExperienceMarker(name) || k == Experience
    ensures EducationMarker(name + Suffix(k)) <==> EducationMarker(name) || k == Education
    ensures SkillsMarker(name + Suffix(k)) <==> SkillsMarker(name) || k == Skills
  {
    SuffixMarkers(k);
    var s := Suffix(k);
    ContainsSpaced(name, s, "/experience/");
    ContainsSpaced(name, s, "(exp)");
    ContainsSpaced(name, s, "/education/");
    ContainsSpaced(name, s, "(edu)");
    ContainsSpaced(name, s, "/skills/");
    ContainsSpaced(name, s, "(skl)");
  }

  /** The section type of a loaded file: its folder, unless the file name
      itself carries a marker of higher priority. */
  lemma InferredKindOfSuffixed(name: string, k: Kind)
    ensures InferKind(name + Suffix(k)) ==
              if SkillsMarker(name) || k == Skills then Skills
              else if EducationMarker(name) || k == Education then Education
              else if ExperienceMarker(name) || k == Experience then Experience
              else Project
  {
    MarkersOfSuffixed(name, k);
  }

  /** Every section of the catalog has the type of the folder its file came
      from when file names carry no type markers. */
  lemma CatalogKinds(exp: seq<File>, proj: seq<File>, edu: seq<File>, skl: seq<File>)
    requires var l := Loaded(exp, proj, edu, skl);
             forall i :: 0 <= i < |l| ==> NoMarker(FileName(l[i].0.path))
    ensures var l := Loaded(exp, proj, edu, skl);
            var r := GetResumeData(exp, proj, edu, skl);
            forall i :: 0 <= i < |r| ==> r[i].kind == l[i].1
  {
    var l := Loaded(exp, proj, edu, skl);
    forall i | 0 <= i < |l| ensures InferKind(SectionName(l[i].0, l[i].1)) == l[i].1 {
      InferredKindOfSuffixed(FileName(l[i].0.path), l[i].1);
    }
  }

  predicate NoMarker(name: string) {
    !ExperienceMarker(name) && !EducationMarker(name) && !SkillsMarker(name)
  }

  /** The folder named by the last five characters of a section name. */
  function FolderOfTail(t: string): Option<Kind> {
    if t == "(exp)" then Some(Experience)
    else if t == "proj)" then Some(Project)
    else if t == "(edu)" then Some(Education)
    else if t == "(skl)" then Some(Skills)
    else None
  }

  /** The last five characters of a suffixed name give back its folder. */
  lemma FolderOfSuffixed(name: string, k: Kind)
    ensures var n := name + Suffix(k); FolderOfTail(n[|n| - 5..]) == Some(k)
  {
    var n := name + Suffix(k);
    var s := Suffix(k);
    assert n[|n| - 5..] == s[|s| - 5..];
  }

  /** A suffixed name determines its folder and the name. */
  lemma SuffixedInjective(n1: string, k1: Kind, n2: string, k2: Kind)
    requires n1 + Suffix(k1) == n2 + Suffix(k2)
    ensures k1 == k2 && n1 == n2
  {
    assert k1 == k2 by {
      FolderOfSuffixed(n1, k1);
      FolderOfSuffixed(n2, k2);
    }
    CancelTail(n1, n2, Suffix(k1));
  }

  /** Section names determine their folder and file name. */
  lemma SectionNameInjective(f1: File, k1: Kind, f2: File, k2: Kind)
    requires SectionName(f1, k1) == SectionName(f2, k2)
    ensures k1 == k2 && FileName(f1.path) == FileName(f2.path)
  {
    SuffixedInjective(FileName(f1.path), k1, FileName(f2.path), k2);
  }

  /** No two files of one folder have the same file name. */
  predicate NamesDistinctPerFolder(l: seq<(File, Kind)>) {
    forall i, j :: 0 <= i < j < |l| && l[i].1 == l[j].1 ==> FileName(l[i].0.path) != FileName(l[j].0.path)
  }

  /** Section ids are unique across the catalog exactly when file names are
      unique within each folder. */
  lemma {:induction false} SectionIdsDistinct(exp: seq<File>, proj: seq<File>, edu: seq<File>, skl: seq<File>)
    ensures var l := Loaded(exp, proj, edu, skl);
            var r := GetResumeData(exp, proj, edu, skl);
            (forall i, j :: 0 <= i < j < |r| ==> r[i].id != r[j].id) <==> NamesDistinctPerFolder(l)
  {
    var l := Loaded(exp, proj, edu, skl);
    var r := GetResumeData(exp, proj, edu, skl);
    if NamesDistinctPerFolder(l) {
      forall i, j | 0 <= i < j < |r| ensures r[i].id != r[j].id {
        if r[i].id == r[j].id {
          SectionNameInjective(l[i].0, l[i].1, l[j].0, l[j].1);
        }
      }
    }
    if forall i, j :: 0 <= i < j < |r| ==> r[i].id != r[j].id {
      forall i, j | 0 <= i < j < |l| && l[i].1 == l[j].1
        ensures FileName(l[i].0.path) != FileName(l[j].0.path)
      {
        assert r[i].id != r[j].id;
      }
    }
  }

  // --------------------------------------------------------------- point ids

  /** Every point is keyed by its section's id and its position. */
  predicate WellKeyed(data: seq<Section>) {
    forall i, j :: 0 <= i < |data| && 0 <= j < |data[i].points| ==>
      data[i].points[j].id == PointId(data[i].id, j)
  }

  /** The ids of all points, section by section, in order. */
  function PointIds(data: seq<Section>): (ids: seq<string>)
    ensures forall x :: x in ids <==>
              exists i, j :: 0 <= i < |data| && 0 <= j < |data[i].points| && data[i].points[j].id == x
  {
    if |data| == 0 then []
    else
      var rest := PointIds(data[1..]);
      var ids := IdsOf(data[0].points) + rest;
      assert forall x :: x in ids <==>
               exists i, j :: 0 <= i < |data| && 0 <= j < |data[i].points| && data[i].points[j].id == x by {
        forall x | x in ids
          ensures exists i, j :: 0 <= i < |data| && 0 <= j < |data[i].points| && data[i].points[j].id == x
        {
          if x in rest {
            var i, j :| 0 <= i < |data[1..]| && 0 <= j < |data[1..][i].points| && data[1..][i].points[j].id == x;
            assert data[i + 1].points[j].id == x;
          } else {
            var j :| 0 <= j < |data[0].points| && IdsOf(data[0].points)[j] == x;
            assert data[0].points[j].id == x;
          }
        }
        forall x, i, j | 0 <= i < |data| && 0 <= j < |data[i].points| && data[i].points[j].id == x
          ensures x in ids
        {
          if i == 0 {
            assert IdsOf(data[0].points)[j] == x;
          } else {
            assert data[1..][i - 1].points[j].id == x;
          }
        }
      }
      ids
  }

  function IdsOf(ps: seq<Point>): (ids: seq<string>)
    ensures |ids| == |ps|
    ensures forall j :: 0 <= j < |ps| ==> ids[j] == ps[j].id
  {
    seq(|ps|, j requires 0 <= j < |ps| => ps[j].id)
  }

  /** No two points of the data, wherever they sit, share an id. */
  predicate UniquePointIds(data: seq<Section>) {
    forall i1, j1, i2, j2 ::
      && 0 <= i1 < |data| && 0 <= j1 < |data[i1].points|
      && 0 <= i2 < |data| && 0 <= j2 < |data[i2].points|
      && (i1, j1) != (i2, j2)
      ==> data[i1].points[j1].id != data[i2].points[j2].id
  }

  /** Keyed sections with distinct ids have distinct point ids. */
  lemma KeyedIdsUnique(data: seq<Section>)
    requires WellKeyed(data)
    requires forall i, j :: 0 <= i < j < |data| ==> data[i].id != data[j].id
    ensures UniquePointIds(data)
  {
    forall i1, j1, i2, j2 |
      && 0 <= i1 < |data| && 0 <= j1 < |data[i1].points|
      && 0 <= i2 < |data| && 0 <= j2 < |data[i2].points|
      && data[i1].points[j1].id == data[i2].points[j2].id
      ensures (i1, j1) == (i2, j2)
    {
      PointIdInjective(data[i1].id, j1, data[i2].id, j2);
    }
  }

  /** The catalog is keyed, and when file names are unique within each
      folder no point id occurs twice in it. */
  lemma CatalogPointIdsDistinct(exp: seq<File>, proj: seq<File>, edu: seq<File>, skl: seq<File>)
    requires NamesDistinctPerFolder(Loaded(exp, proj, edu, skl))
    ensures WellKeyed(GetResumeData(exp, proj, edu, skl))
    ensures UniquePointIds(GetResumeData(exp, proj, edu, skl))
  {
    SectionIdsDistinct(exp, proj, edu, skl);
    KeyedIdsUnique(GetResumeData(exp, proj, edu, skl));
  }
}
