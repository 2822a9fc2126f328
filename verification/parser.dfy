/** `parseMarkdown` (src/utils/parser.ts): one raw content file becomes one
    section record. The raw text is split on the substring "---" into front
    matter and body, front-matter lines give `key: value` metadata, every
    body line whose trimmed form starts with a dash becomes a point, a
    trailing bracket group on a point becomes its tags, and the section type
    is inferred from markers in the file name. */
module Parser {
  import opened Wrappers
  import opened Strings
  import opened Seqs

  /** `ResumeData['type']`. */
  datatype Kind = Experience | Project | Education | Skills

  /** `ResumePoint`. */
  datatype Point = Point(id: string, text: string, tags: seq<string>)

  /** `ResumeData`: the optional string fields are the entries of `meta`;
      a field that is `undefined` in the source has no entry. */
  datatype Section = Section(id: string, kind: Kind, meta: map<string, string>, points: seq<Point>)

  /** The front-matter keys a section record carries. */
  const MetaKeys: set<string> :=
    {"company", "designation", "location", "startDate", "endDate", "project_name",
     "url", "institution", "degree", "gpa", "category"}

  const Delimiter: string := "---"

  // ---------------------------------------------------------------- split

  /** Front matter and body. Front matter is taken only when the raw text
      starts with the delimiter and splitting on it gives at least three
      pieces; it is then the text up to the next occurrence of the delimiter,
      and the body is everything after that occurrence. */
  function SplitFrontMatter(raw: string): (r: (string, string))
    ensures HasFrontMatter(raw) ==> raw == Delimiter + r.0 + Delimiter + r.1
    ensures HasFrontMatter(raw) ==> IndexOf(raw[3..], Delimiter) == Some(|r.0|)
    ensures !HasFrontMatter(raw) ==> r == ("", raw)
  {
    var parts := SplitOn(raw, Delimiter);
    if |parts| >= 3 && Delimiter <= raw then
      var r := (parts[1], Join(parts[2..], Delimiter));
      FrontMatterJoin(raw, parts);
      r
    else ("", raw)
  }

  predicate HasFrontMatter(raw: string) {
    |SplitOn(raw, Delimiter)| >= 3 && Delimiter <= raw
  }

  lemma FrontMatterJoin(raw: string, parts: seq<string>)
    requires parts == SplitOn(raw, Delimiter) && |parts| >= 3 && Delimiter <= raw
    ensures raw == Delimiter + parts[1] + Delimiter + Join(parts[2..], Delimiter)
    ensures IndexOf(raw[3..], Delimiter) == Some(|parts[1]|)
  {
    IndexOfPrefix(raw, Delimiter);
    FrontMatterEnd(raw, parts);
    JoinSplitOn(raw, Delimiter);
    JoinEmptyHead(raw, Delimiter, parts);
  }


  lemma FrontMatterEnd(raw: string, parts: seq<string>)
    requires parts == SplitOn(raw, Delimiter) && |parts| >= 3 && Delimiter <= raw
    requires IndexOf(raw, Delimiter) == Some(0)
    ensures parts[0] == []
    ensures IndexOf(raw[3..], Delimiter) == Some(|parts[1]|)
  {
    var rest := raw[3..];
    assert parts == [raw[..0]] + SplitOn(rest, Delimiter);
    match IndexOf(rest, Delimiter)
    case None =>
    case Some(i) =>
      assert SplitOn(rest, Delimiter) == [rest[..i]] + SplitOn(rest[i + 3..], Delimiter);
  }

  /** Front matter is recognised exactly when the text starts with the
      delimiter and the delimiter occurs again later, anywhere, not only on a
      line of its own. */
  lemma {:induction false} HasFrontMatterIff(raw: string)
    ensures HasFrontMatter(raw) <==> Delimiter <= raw && Contains(raw[3..], Delimiter)
  {
    if Delimiter <= raw {
      IndexOfPrefix(raw, Delimiter);
      var rest := raw[3..];
      assert SplitOn(raw, Delimiter) == [raw[..0]] + SplitOn(rest, Delimiter);
      match IndexOf(rest, Delimiter)
      case None =>
      case Some(i) =>
        assert SplitOn(rest, Delimiter) == [rest[..i]] + SplitOn(rest[i + 3..], Delimiter);
    }
  }

  /** Where the closing delimiter is found when the front matter holds no
      dash. */
  lemma FrontMatterEndAt(fm: string, body: string)
    requires forall j :: 0 <= j < |fm| ==> fm[j] != '-'
    ensures var rest := (Delimiter + fm + Delimiter + body)[3..]; IndexOf(rest, Delimiter) == Some(|fm|)
  {
    var raw := Delimiter + fm + Delimiter + body;
    var rest := raw[3..];
    assert rest == fm + (Delimiter + body);
    assert OccursAt(rest, Delimiter, |fm|) by {
      assert forall k :: 0 <= k < 3 ==> rest[|fm| + k] == Delimiter[k];
    }
    forall j: nat | j < |fm| ensures !OccursAt(rest, Delimiter, j) {
      assert rest[j + 0] == fm[j] != Delimiter[0];
    }
    IndexOfAt(rest, Delimiter, |fm|);
  }

  lemma DelimitedUnique(a: string, b: string, fm: string, body: string)
    requires Delimiter + a + Delimiter + b == Delimiter + fm + Delimiter + body
    requires |a| == |fm|
    ensures a == fm && b == body
  {
    var raw := Delimiter + fm + Delimiter + body;
    assert raw[3..3 + |fm|] == fm;
    assert (Delimiter + a + Delimiter + b)[3..3 + |a|] == a;
    assert raw[6 + |fm|..] == body;
    assert (Delimiter + a + Delimiter + b)[6 + |a|..] == b;
  }

  lemma HasDelimitedFrontMatter(fm: string, body: string)
    requires IndexOf((Delimiter + fm + Delimiter + body)[3..], Delimiter) == Some(|fm|)
    ensures HasFrontMatter(Delimiter + fm + Delimiter + body)
  {
    var raw := Delimiter + fm + Delimiter + body;
    assert Delimiter <= raw;
    HasFrontMatterIff(raw);
  }

  /** Splitting undoes the framing: front matter without a dash, framed by
      delimiters and followed by a body, splits back into that front matter
      and that body, whatever the body holds. */
  lemma FrontMatterRoundTrip(fm: string, body: string)
    requires forall j :: 0 <= j < |fm| ==> fm[j] != '-'
    ensures SplitFrontMatter(Delimiter + fm + Delimiter + body) == (fm, body)
  {
    var raw := Delimiter + fm + Delimiter + body;
    FrontMatterEndAt(fm, body);
    HasDelimitedFrontMatter(fm, body);
    var r := SplitFrontMatter(raw);
    DelimitedUnique(r.0, r.1, fm, body);
  }

  // ---------------------------------------------------------- front matter

  /** `value.slice(1, -1)` when the value starts and ends with a double
      quote. A lone quote starts and ends with one, and becomes empty. */
  function Unquote(v: string): (r: string)
    ensures |v| >= 2 && v[0] == '"' && v[|v| - 1] == '"' ==> v == "\"" + r + "\""
    ensures v == "\"" ==> r == ""
    ensures !(|v| > 0 && v[0] == '"' && v[|v| - 1] == '"') ==> r == v
  {
    if |v| > 0 && v[0] == '"' && v[|v| - 1] == '"' then
      if |v| >= 2 then v[1..|v| - 1] else ""
    else v
  }

  /** The key and value a front-matter line contributes: split at the first
      colon, both sides trimmed, the value unquoted. No colon, no entry. */
  function LineEntry(line: string): Option<(string, string)> {
    match IndexOf(line, ":")
    case None => None
    case Some(i) => Some((Trim(line[..i]), Unquote(Trim(line[i + 1..]))))
  }

  /** A line yields an entry iff it has a colon; the key is the trimmed text
      before the first colon and the value the trimmed, unquoted text after
      it. */
  lemma LineEntryAtColon(line: string, i: nat)
    requires i < |line| && line[i] == ':'
    requires forall j :: 0 <= j < i ==> line[j] != ':'
    ensures LineEntry(line) == Some((Trim(line[..i]), Unquote(Trim(line[i + 1..]))))
  {
    OccursAtChar(line, ':', i);
    var j := IndexOf(line, ":").value;
    OccursAtChar(line, ':', j);
  }

  lemma LineEntryNoColon(line: string)
    requires forall j :: 0 <= j < |line| ==> line[j] != ':'
    ensures LineEntry(line) == None
  {
    var r := IndexOf(line, ":");
    if r.Some? {
      OccursAtChar(line, ':', r.value);
    }
  }

  /** The entries of the front-matter lines, line by line. */
  function Entries(lines: seq<string>): (es: seq<Option<(string, string)>>)
    ensures |es| == |lines|
    ensures forall i :: 0 <= i < |lines| ==> es[i] == LineEntry(lines[i])
  {
    if |lines| == 0 then [] else [LineEntry(lines[0])] + Entries(lines[1..])
  }

  /** Assigning the entries in turn to an initially empty record, as the
      `forEach` over the front-matter lines does. */
  function Assign(es: seq<Option<(string, string)>>): map<string, string>
  {
    if |es| == 0 then map[]
    else
      var m := Assign(es[..|es| - 1]);
      match es[|es| - 1]
      case None => m
      case Some(e) => m[e.0 := e.1]
  }

  /** The front-matter record of a list of lines. */
  function FrontMatter(lines: seq<string>): map<string, string> {
    Assign(Entries(lines))
  }

  predicate SetsKey(e: Option<(string, string)>, k: string) {
    e.Some? && e.value.0 == k
  }

  /** A key is present iff some entry sets it. */
  lemma {:induction false} AssignKeys(es: seq<Option<(string, string)>>, k: string)
    ensures k in Assign(es) <==> exists i :: 0 <= i < |es| && SetsKey(es[i], k)
  {
    if |es| > 0 {
      var init := es[..|es| - 1];
      AssignKeys(init, k);
      assert forall i :: 0 <= i < |init| ==> init[i] == es[i];
      if !SetsKey(es[|es| - 1], k) {
        assert forall i :: 0 <= i < |es| && SetsKey(es[i], k) ==> i < |init|;
      }
    }
  }

  /** A later entry for the same key overwrites an earlier one: the value
      kept is that of the last entry setting the key. */
  lemma {:induction false} AssignLastWins(es: seq<Option<(string, string)>>, i: nat)
    requires i < |es| && es[i].Some?
    requires forall j :: i < j < |es| ==> !SetsKey(es[j], es[i].value.0)
    ensures es[i].value.0 in Assign(es)
    ensures Assign(es)[es[i].value.0] == es[i].value.1
  {
    var init := es[..|es| - 1];
    if i < |es| - 1 {
      assert forall j :: i < j < |init| ==> init[j] == es[j];
      AssignLastWins(init, i);
    }
  }

  // ---------------------------------------------------------------- points

  /** A body line is a bullet when its trimmed form starts with a dash. */
  predicate IsBullet(line: string) {
    "-" <= Trim(line)
  }

  function BulletLines(body: string): (ls: seq<string>)
    ensures forall i :: 0 <= i < |ls| ==> IsBullet(ls[i])
  {
    Filter(IsBullet, Split(body, '\n'))
  }

  /** The bullet lines are exactly the body lines whose trimmed form starts
      with a dash: in their order, each as often as it occurs. */
  lemma BulletLinesExactly(body: string, line: string)
    ensures IsSubseq(BulletLines(body), Split(body, '\n'))
    ensures multiset(BulletLines(body))[line] ==
              if IsBullet(line) then multiset(Split(body, '\n'))[line] else 0
  {
    FilterIsSubseq(IsBullet, Split(body, '\n'));
    FilterMultiplicity(IsBullet, Split(body, '\n'), line);
  }

  /** The regular expression /\[(.*?)\]$/ can match starting at `p`: an
      opening bracket before a final closing bracket, with no line
      terminator (which `.` refuses) between them. */
  predicate BracketAt(s: string, p: nat) {
    && p + 1 < |s| && s[p] == '[' && s[|s| - 1] == ']'
    && forall m :: p < m < |s| - 1 ==> !IsLineTerminator(s[m])
  }

  function BracketFrom(s: string, from: nat): (r: Option<nat>)
    ensures r.Some? ==> from <= r.value && BracketAt(s, r.value)
    ensures forall p: nat :: from <= p && (r.None? || p < r.value) ==> !BracketAt(s, p)
    decreases |s| - from
  {
    if from + 1 >= |s| then None
    else if BracketAt(s, from) then Some(from)
    else BracketFrom(s, from + 1)
  }

  /** Where the tag regular expression matches: its leftmost match. */
  function TagBracket(s: string): (r: Option<nat>)
    ensures r.Some? ==> BracketAt(s, r.value)
    ensures forall p: nat :: (r.None? || p < r.value) ==> !BracketAt(s, p)
  {
    BracketFrom(s, 0)
  }

  /** `map(t => t.trim())`. */
  function TrimAll(xs: seq<string>): (r: seq<string>)
    ensures |r| == |xs|
    ensures forall i :: 0 <= i < |xs| ==> r[i] == Trim(xs[i])
  {
    if |xs| == 0 then []
    else
      var rest := TrimAll(xs[1..]);
      assert forall i :: 1 <= i < |xs| ==> xs[1..][i - 1] == xs[i];
      [Trim(xs[0])] + rest
  }

  /** Text and tags of the dash-stripped, trimmed bullet text: tags only
      when the tag pattern matches, each of them trimmed, and the text
      trimmed whenever the input was. */
  function ExtractTags(s: string): (r: (string, seq<string>))
    ensures r.1 == [] <==> TagBracket(s).None?
    ensures TagBracket(s).None? ==> r.0 == s
    ensures TagBracket(s).Some? ==> Trim(r.0) == r.0 && |r.0| < |s|
    ensures Trim(s) == s ==> Trim(r.0) == r.0
    ensures forall i :: 0 <= i < |r.1| ==> Trim(r.1[i]) == r.1[i]
  {
    match TagBracket(s)
    case None => (s, [])
    case Some(p) =>
      var tags := TrimAll(Split(s[p + 1..|s| - 1], ','));
      TrimIdempotent(s[..p]);
      TrimAllTrimmed(Split(s[p + 1..|s| - 1], ','));
      (Trim(s[..p]), tags)
  }

  /** Every entry of a trimmed list is its own trim. */
  lemma TrimAllTrimmed(xs: seq<string>)
    ensures forall i :: 0 <= i < |xs| ==> Trim(TrimAll(xs)[i]) == TrimAll(xs)[i]
  {
    forall i | 0 <= i < |xs| ensures Trim(TrimAll(xs)[i]) == TrimAll(xs)[i] {
      TrimIdempotent(xs[i]);
    }
  }

  predicate NoLineTerminator(s: string) {
    forall m :: 0 <= m < |s| ==> !IsLineTerminator(s[m])
  }

  /** On a single line that ends in "]", with "[" first occurring at `p`:
      the bracket group from that leftmost "[" is taken, the tags are the
      trimmed comma-separated pieces inside it, empty ones kept, so there is
      one more tag than there are commas, and the text is the trimmed prefix
      before the "[". */
  lemma ExtractTagsBracketed(s: string, p: nat)
    requires NoLineTerminator(s) && |s| > 0 && s[|s| - 1] == ']'
    requires p < |s| && s[p] == '['
    requires forall j :: 0 <= j < p ==> s[j] != '['
    ensures p < |s| - 1
    ensures ExtractTags(s) == (Trim(s[..p]), TrimAll(Split(s[p + 1..|s| - 1], ',')))
    ensures |ExtractTags(s).1| == Count(s[p + 1..|s| - 1], ',') + 1
  {
    assert TagBracket(s) == Some(p) by {
      assert BracketAt(s, p);
      var t := TagBracket(s);
      assert t.Some? && !(t.value < p);
    }
    var inner := s[p + 1..|s| - 1];
    assert ExtractTags(s) == (Trim(s[..p]), TrimAll(Split(inner, ',')));
    SplitCount(inner, ',');
    assert |TrimAll(Split(inner, ','))| == |Split(inner, ',')|;
  }

  /** Without a final "]", or without any "[", the text is kept whole and
      there are no tags. */
  lemma ExtractTagsPlain(s: string)
    requires |s| == 0 || s[|s| - 1] != ']' || forall j :: 0 <= j < |s| ==> s[j] != '['
    ensures ExtractTags(s) == (s, [])
  {
  }

  // ------------------------------------------------------------- the record

  /** `${fileName}-p${idx}`. */
  function PointId(fileName: string, idx: nat): string {
    fileName + "-p" + NatToString(idx)
  }

  /** The point a bullet line becomes: dash stripped, trimmed, tags peeled;
      its id names the file and the bullet's position, and its text and
      tags carry no surrounding white space. */
  function MakePoint(fileName: string, idx: nat, line: string): (r: Point)
    requires IsBullet(line)
    ensures r.id == PointId(fileName, idx)
    ensures Trim(r.text) == r.text
    ensures forall i :: 0 <= i < |r.tags| ==> Trim(r.tags[i]) == r.tags[i]
  {
    var body := Trim(Trim(line)[1..]);
    TrimIdempotent(Trim(line)[1..]);
    var (text, tags) := ExtractTags(body);
    Point(PointId(fileName, idx), text, tags)
  }

  /** Trimming a dash line keeps the dash and what follows it up to the
      last non-space character. */
  lemma TrimDashLine(pad: string, a: string, t: string, b: string)
    requires AllSpace(pad) && AllSpace(a) && AllSpace(b)
    requires |t| > 0 && !IsSpace(t[0]) && !IsSpace(t[|t| - 1])
    ensures Trim(pad + "-" + (a + t + b)) == "-" + a + t
  {
    var core := "-" + a + t;
    assert pad + "-" + (a + t + b) == pad + core + b;
    assert core[|core| - 1] == t[|t| - 1];
    TrimPadded(pad, core, b);
  }

  lemma StripDashBlank(pad: string, rest: string)
    requires AllSpace(pad) && AllSpace(rest)
    ensures Trim(pad + "-" + rest) == "-"
    ensures Trim(Trim(pad + "-" + rest)[1..]) == Trim(rest)
  {
    TrimPadded(pad, "-", rest);
    TrimUnpadded([]);
  }

  lemma StripDashText(pad: string, a: string, t: string, b: string)
    requires AllSpace(pad) && AllSpace(a) && AllSpace(b)
    requires |t| > 0 && !IsSpace(t[0]) && !IsSpace(t[|t| - 1])
    ensures "-" <= Trim(pad + "-" + (a + t + b))
    ensures Trim(Trim(pad + "-" + (a + t + b))[1..]) == t
  {
    assert Trim(pad + "-" + (a + t + b)) == "-" + a + t by { TrimDashLine(pad, a, t, b); }
    assert ("-" + a + t)[1..] == a + t + [];
    assert Trim(a + t + []) == t by { TrimPadded(a, t, []); }
  }

  /** Dropping the dash of a trimmed bullet and trimming again leaves the
      trimmed text after the dash. */
  lemma StripDash(pad: string, rest: string)
    requires AllSpace(pad)
    ensures "-" <= Trim(pad + "-" + rest)
    ensures Trim(Trim(pad + "-" + rest)[1..]) == Trim(rest)
  {
    var a, t, b := TrimSplit(rest);
    if t == [] {
      StripDashBlank(pad, rest);
    } else {
      StripDashText(pad, a, t, b);
    }
  }

  /** A bullet `pad + "-" + rest` with white-space padding gives the point
      whose text and tags are those extracted from the trimmed `rest`. */
  lemma MakePointOfBullet(fileName: string, idx: nat, pad: string, rest: string)
    requires AllSpace(pad)
    ensures IsBullet(pad + "-" + rest)
    ensures MakePoint(fileName, idx, pad + "-" + rest)
              == Point(PointId(fileName, idx), ExtractTags(Trim(rest)).0, ExtractTags(Trim(rest)).1)
  {
    StripDash(pad, rest);
  }

  /** Default project; overridden by experience, education and skills
      markers in that order, so the last marker present wins. */
  function InferKind(fileName: string): (k: Kind)
    ensures k == Skills <==> SkillsMarker(fileName)
    ensures k == Education <==> EducationMarker(fileName) && !SkillsMarker(fileName)
    ensures k == Experience <==>
              ExperienceMarker(fileName) && !EducationMarker(fileName) && !SkillsMarker(fileName)
    ensures k == Project <==>
              !ExperienceMarker(fileName) && !EducationMarker(fileName) && !SkillsMarker(fileName)
  {
    var k0 := Project;
    var k1 := if ExperienceMarker(fileName) then Experience else k0;
    var k2 := if EducationMarker(fileName) then Education else k1;
    if SkillsMarker(fileName) then Skills else k2
  }

  predicate ExperienceMarker(name: string) {
    Contains(name, "/experience/") || Contains(name, "(exp)")
  }

  predicate EducationMarker(name: string) {
    Contains(name, "/education/") || Contains(name, "(edu)")
  }

  predicate SkillsMarker(name: string) {
    Contains(name, "/skills/") || Contains(name, "(skl)")
  }

  /** `parseMarkdown(fileName, rawContent)`. */
  function ParseMarkdown(fileName: string, raw: string): (r: Section)
    ensures r.id == fileName
    ensures r.kind == InferKind(fileName)
    ensures r.meta.Keys <= MetaKeys
    ensures forall k :: k in r.meta <==> k in MetaKeys && k in FrontMatter(Split(SplitFrontMatter(raw).0, '\n'))
    ensures forall k :: k in r.meta ==> r.meta[k] == FrontMatter(Split(SplitFrontMatter(raw).0, '\n'))[k]
    ensures |r.points| == |BulletLines(SplitFrontMatter(raw).1)|
    ensures forall i :: 0 <= i < |r.points| ==>
              r.points[i] == MakePoint(fileName, i, BulletLines(SplitFrontMatter(raw).1)[i])
    ensures forall i :: 0 <= i < |r.points| ==> r.points[i].id == PointId(fileName, i)
  {
    var (fm, body) := SplitFrontMatter(raw);
    var entries := FrontMatter(Split(fm, '\n'));
    Section(fileName, InferKind(fileName), KnownFields(entries), MakePoints(fileName, BulletLines(body)))
  }

  /** The front-matter entries whose key is a field of the record. */
  function KnownFields(entries: map<string, string>): (m: map<string, string>)
    ensures m.Keys <= MetaKeys
    ensures forall k :: k in m <==> k in MetaKeys && k in entries
    ensures forall k :: k in m ==> m[k] == entries[k]
  {
    map k | k in entries && k in MetaKeys :: entries[k]
  }

  /** One point per bullet line, numbered by position. */
  function MakePoints(fileName: string, bullets: seq<string>): (ps: seq<Point>)
    requires forall i :: 0 <= i < |bullets| ==> IsBullet(bullets[i])
    ensures |ps| == |bullets|
    ensures forall i :: 0 <= i < |ps| ==> ps[i] == MakePoint(fileName, i, bullets[i])
    ensures forall i :: 0 <= i < |ps| ==> ps[i].id == PointId(fileName, i)
  {
    seq(|bullets|, i requires 0 <= i < |bullets| => MakePoint(fileName, i, bullets[i]))
  }

  // ------------------------------------------------------------ properties

  /** Splits a point id at its trailing digits into the file name and the
      bullet index. */
  function SplitPointId(id: string): Option<(string, nat)> {
    var k := TrailingDigits(id);
    if k > 0 && |id| >= k + 2 && id[|id| - k - 2..|id| - k] == "-p" then
      Some((id[..|id| - k - 2], ParseNat(id[|id| - k..])))
    else None
  }

  /** A point id determines its file name and index. */
  lemma SplitPointIdInverse(fileName: string, idx: nat)
    ensures SplitPointId(PointId(fileName, idx)) == Some((fileName, idx))
  {
    var d := NatToString(idx);
    var id := PointId(fileName, idx);
    assert id == (fileName + "-p") + d;
    TrailingDigitsAppend(fileName + "-p", d);
    assert id[|id| - |d|..] == d;
    assert id[|id| - |d| - 2..|id| - |d|] == "-p";
    assert id[..|id| - |d| - 2] == fileName;
    ParseNatToString(idx);
  }

  lemma PointIdInjective(f1: string, i1: nat, f2: string, i2: nat)
    requires PointId(f1, i1) == PointId(f2, i2)
    ensures f1 == f2 && i1 == i2
  {
    SplitPointIdInverse(f1, i1);
    SplitPointIdInverse(f2, i2);
  }

  /** The points of one parsed section have pairwise distinct ids. */
  lemma ParsedPointIdsDistinct(fileName: string, raw: string)
    ensures var ps := ParseMarkdown(fileName, raw).points;
            forall i, j :: 0 <= i < j < |ps| ==> ps[i].id != ps[j].id
  {
    var ps := ParseMarkdown(fileName, raw).points;
    forall i, j | 0 <= i < j < |ps| ensures ps[i].id != ps[j].id {
      if ps[i].id == ps[j].id {
        PointIdInjective(fileName, i, fileName, j);
      }
    }
  }

  /** Without a leading delimiter there is no metadata, and the points are
      the bullet lines of the whole text. */
  lemma NoFrontMatterWholeBody(fileName: string, raw: string)
    requires !(Delimiter <= raw)
    ensures ParseMarkdown(fileName, raw).meta == map[]
    ensures |ParseMarkdown(fileName, raw).points| == |BulletLines(raw)|
  {
    var lines := Split("", '\n');
    assert IndexOf("", "\n").None?;
    assert lines == [""];
    assert LineEntry("").None?;
    assert FrontMatter(lines) == map[];
  }
}
