/** Parsing a whole file of the simplest non-trivial shape (src/utils/parser.ts):
    one front-matter entry and one bullet with two tags, for any words that
    avoid the characters the parser splits at; and the worked example
    "---\ncompany: Acme\n---\n- Built thing [Go, SQL]\n". */
module ParserShape {
  import opened Wrappers
  import opened Strings
  import opened Seqs
  import opened Parser

  /** A word for the one-entry, one-bullet file: not empty, no white space
      at either end, on one line, and free of the characters the parser
      splits or strips at. */
  predicate Clean(s: string) {
    && |s| > 0 && !IsSpace(s[0]) && !IsSpace(s[|s| - 1])
    && forall j :: 0 <= j < |s| ==> !IsLineTerminator(s[j]) && s[j] !in ":-[,\""
  }

  /** One entry between two colon-less lines gives a one-key record. */
  lemma AssignOne(e: (string, string))
    ensures Assign([None, Some(e), None]) == map[e.0 := e.1]
  {
    var es: seq<Option<(string, string)>> := [None, Some(e), None];
    var es2 := es[..2];
    var es1 := es2[..1];
    assert es1[..0] == [];
    assert Assign(es1[..0]) == map[];
    assert Assign(es1) == map[];
    assert Assign(es2) == map[e.0 := e.1];
  }

  lemma EntryPieces(key: string, value: string)
    requires Clean(key)
    ensures var l := key + ": " + value;
            && |key| < |l| && l[|key|] == ':' && (forall j :: 0 <= j < |key| ==> l[j] != ':')
            && l[..|key|] == key && l[|key| + 1..] == " " + value + ""
  {
    var l := key + ": " + value;
    assert forall j :: 0 <= j < |key| ==> l[j] == key[j];
  }

  /** `key: value` yields exactly that entry. */
  lemma EntryShape(key: string, value: string)
    requires Clean(key) && Clean(value)
    ensures LineEntry(key + ": " + value) == Some((key, value))
  {
    var l := key + ": " + value;
    assert Trim(key) == key by { TrimUnpadded(key); }
    assert Trim(" " + value + "") == value by { TrimPadded(" ", value, ""); }
    assert Unquote(value) == value by { assert value[0] != '"'; }
    assert l[..|key|] == key && l[|key| + 1..] == " " + value + "" by { EntryPieces(key, value); }
    assert LineEntry(l) == Some((Trim(l[..|key|]), Unquote(Trim(l[|key| + 1..])))) by {
      EntryPieces(key, value);
      LineEntryAtColon(l, |key|);
    }
  }

  /** Of a blank line, a bullet and a blank line, only the bullet is kept. */
  lemma Bullets(l: string)
    requires "-" <= l && !IsSpace(l[|l| - 1])
    ensures Filter(IsBullet, ["", l, ""]) == [l]
  {
    TrimUnpadded(l);
    assert IsBullet(l);
    assert Trim("") == "";
    assert !IsBullet("");
    var xs := ["", l, ""];
    assert Filter(IsBullet, xs[2..]) == [] by {
      assert xs[2..] == [""];
      assert xs[2..][1..] == [];
    }
    assert Filter(IsBullet, xs[1..]) == [l] by {
      assert xs[1..][1..] == xs[2..];
    }
  }

  lemma SplitTwo(t1: string, t2: string)
    requires Clean(t1) && Clean(t2)
    ensures Split(t1 + ", " + t2, ',') == [t1, " " + t2]
  {
    var u := " " + t2;
    assert t1 + ", " + t2 == t1 + [','] + u;
    assert Split(t1 + [','] + u, ',') == [t1, u] by {
      assert forall j :: 0 <= j < |u| ==> u[j] != ',' by {
        forall j | 0 <= j < |u| ensures u[j] != ',' {
          if j > 0 { assert u[j] == t2[j - 1]; }
        }
      }
      assert forall j :: 0 <= j < |t1| ==> t1[j] != ',';
      SplitAtSeparator(t1, ',', u);
    }
  }

  lemma TrimTwo(t1: string, t2: string)
    requires Clean(t1) && Clean(t2)
    ensures TrimAll([t1, " " + t2]) == [t1, t2]
  {
    TrimUnpadded(t1);
    TrimPadded(" ", t2, "");
    assert " " + t2 == " " + t2 + "";
  }

  /** The bullet line `- text [t1, t2]`. */
  function Bullet(text: string, t1: string, t2: string): string {
    "- " + text + " [" + t1 + ", " + t2 + "]"
  }

  /** The bullet's text after the dash and the space. */
  function Tagged(text: string, t1: string, t2: string): string {
    text + " [" + t1 + ", " + t2 + "]"
  }

  lemma BulletPieces(text: string, t1: string, t2: string)
    requires Clean(text) && Clean(t1) && Clean(t2)
    ensures var l := Bullet(text, t1, t2);
            && "-" <= l && !IsSpace(l[|l| - 1]) && l[1..] == " " + Tagged(text, t1, t2) + ""
  {
    var l := Bullet(text, t1, t2);
    assert l[1..] == " " + Tagged(text, t1, t2) + "";
  }

  lemma TaggedPieces(text: string, t1: string, t2: string)
    requires Clean(text) && Clean(t1) && Clean(t2)
    ensures var s := Tagged(text, t1, t2); var p := |text| + 1;
            && p < |s| && s[p] == '[' && s[|s| - 1] == ']'
            && (forall j :: 0 <= j < p ==> s[j] != '[')
            && NoLineTerminator(s)
            && s[..p] == "" + text + " " && s[p + 1..|s| - 1] == t1 + ", " + t2
  {
    var s := Tagged(text, t1, t2);
    var p := |text| + 1;
    assert forall j :: 0 <= j < |text| ==> s[j] == text[j];
    assert forall j :: p + 1 <= j < p + 1 + |t1| ==> s[j] == t1[j - p - 1];
    assert forall j :: p + 3 + |t1| <= j < |s| - 1 ==> s[j] == t2[j - p - 3 - |t1|];
    assert s[..p] == "" + text + " ";
    assert s[p + 1..|s| - 1] == t1 + ", " + t2;
  }

  /** The text before the bracket group and the two tags inside it. */
  lemma TagsOfTagged(text: string, t1: string, t2: string)
    requires Clean(text) && Clean(t1) && Clean(t2)
    ensures ExtractTags(Tagged(text, t1, t2)) == (text, [t1, t2])
  {
    TaggedPieces(text, t1, t2);
    TagsOfPieces(Tagged(text, t1, t2), |text| + 1, text, t1, t2);
  }

  lemma TagsOfPieces(s: string, p: nat, text: string, t1: string, t2: string)
    requires Clean(text) && Clean(t1) && Clean(t2)
    requires p < |s| && s[p] == '[' && s[|s| - 1] == ']'
    requires (forall j :: 0 <= j < p ==> s[j] != '[') && NoLineTerminator(s)
    requires s[..p] == "" + text + " " && s[p + 1..|s| - 1] == t1 + ", " + t2
    ensures ExtractTags(s) == (text, [t1, t2])
  {
    ExtractTagsBracketed(s, p);
    assert Trim(s[..p]) == text by { TrimPadded("", text, " "); }
    assert TrimAll(Split(s[p + 1..|s| - 1], ',')) == [t1, t2] by {
      SplitTwo(t1, t2);
      TrimTwo(t1, t2);
    }
  }

  /** The bullet becomes the first point with that text and those tags. */
  lemma PointShape(fileName: string, text: string, t1: string, t2: string)
    requires Clean(text) && Clean(t1) && Clean(t2)
    ensures IsBullet(Bullet(text, t1, t2))
    ensures MakePoint(fileName, 0, Bullet(text, t1, t2)) == Point(PointId(fileName, 0), text, [t1, t2])
  {
    var l := Bullet(text, t1, t2);
    BulletPieces(text, t1, t2);
    TrimUnpadded(l);
    TrimPadded(" ", Tagged(text, t1, t2), "");
    TagsOfTagged(text, t1, t2);
  }

  /** A file with one front-matter entry and one tagged bullet. */
  function OneEntryFile(key: string, value: string, text: string, t1: string, t2: string): string {
    Delimiter + ("\n" + key + ": " + value + "\n") + Delimiter + ("\n" + Bullet(text, t1, t2) + "\n")
  }

  lemma EntryLineChars(key: string, value: string)
    requires Clean(key) && Clean(value)
    ensures var line := key + ": " + value;
            forall j :: 0 <= j < |line| ==> line[j] != '\n' && line[j] != '-'
  {
    var line := key + ": " + value;
    assert forall j :: 0 <= j < |key| ==> line[j] == key[j];
    assert forall j :: 0 <= j < |value| ==> line[|key| + 2 + j] == value[j];
  }

  lemma FrontMatterChars(key: string, value: string)
    requires Clean(key) && Clean(value)
    ensures var fm := "\n" + key + ": " + value + "\n";
            forall j :: 0 <= j < |fm| ==> fm[j] != '-'
  {
    var line := key + ": " + value;
    EntryLineChars(key, value);
    var fm := "\n" + line + "\n";
    assert forall j :: 0 <= j < |line| ==> fm[j + 1] == line[j];
  }

  /** The front matter of such a file is the one-key record. */
  lemma FrontMatterShape(key: string, value: string)
    requires Clean(key) && Clean(value)
    ensures FrontMatter(Split("\n" + key + ": " + value + "\n", '\n')) == map[key := value]
  {
    var line := key + ": " + value;
    assert Split("\n" + key + ": " + value + "\n", '\n') == ["", line, ""] by {
      EntryLineChars(key, value);
      assert "\n" + key + ": " + value + "\n" == "" + "\n" + line + "\n" + "";
      SplitThreeLines("", line, "");
    }
    assert Entries(["", line, ""]) == [None, Some((key, value)), None] by {
      LineEntryNoColon("");
      EntryShape(key, value);
    }
    AssignOne((key, value));
  }

  /** The body of such a file has exactly the one bullet line. */
  lemma BodyShape(text: string, t1: string, t2: string)
    requires Clean(text) && Clean(t1) && Clean(t2)
    ensures BulletLines("\n" + Bullet(text, t1, t2) + "\n") == [Bullet(text, t1, t2)]
  {
    var l := Bullet(text, t1, t2);
    assert forall j :: 0 <= j < |text| ==> l[2 + j] == text[j];
    assert forall j :: 0 <= j < |t1| ==> l[4 + |text| + j] == t1[j];
    assert forall j :: 0 <= j < |t2| ==> l[6 + |text| + |t1| + j] == t2[j];
    assert forall j :: 0 <= j < |l| ==> l[j] != '\n';
    assert "\n" + l + "\n" == "" + "\n" + l + "\n" + "";
    SplitThreeLines("", l, "");
    BulletPieces(text, t1, t2);
    Bullets(l);
  }

  lemma RestrictOne(entries: map<string, string>, key: string, value: string)
    requires key in MetaKeys && entries == map[key := value]
    ensures (map k | k in entries && k in MetaKeys :: entries[k]) == map[key := value]
  {
  }

  /** `parseMarkdown` assembled from its parts. */
  lemma ParseFromParts(fileName: string, raw: string, fm: string, body: string, key: string, value: string,
                       line: string, p: Point)
    requires key in MetaKeys
    requires SplitFrontMatter(raw) == (fm, body)
    requires FrontMatter(Split(fm, '\n')) == map[key := value]
    requires BulletLines(body) == [line] && IsBullet(line) && MakePoint(fileName, 0, line) == p
    ensures ParseMarkdown(fileName, raw) == Section(fileName, InferKind(fileName), map[key := value], [p])
  {
    RestrictOne(FrontMatter(Split(fm, '\n')), key, value);
  }

  /** Parsing a file with one entry and one tagged bullet gives back the
      entry as the whole record and the bullet as the only point, with its
      text and its two tags. */
  lemma ParseShape(fileName: string, key: string, value: string, text: string, t1: string, t2: string)
    requires key in MetaKeys
    requires Clean(key) && Clean(value) && Clean(text) && Clean(t1) && Clean(t2)
    ensures ParseMarkdown(fileName, OneEntryFile(key, value, text, t1, t2))
            == Section(fileName, InferKind(fileName), map[key := value], [Point(PointId(fileName, 0), text, [t1, t2])])
  {
    var fm := "\n" + key + ": " + value + "\n";
    var body := "\n" + Bullet(text, t1, t2) + "\n";
    FrontMatterChars(key, value);
    FrontMatterShape(key, value);
    FrontMatterRoundTrip(fm, body);
    BodyShape(text, t1, t2);
    PointShape(fileName, text, t1, t2);
    ParseFromParts(fileName, OneEntryFile(key, value, text, t1, t2), fm, body, key, value,
                   Bullet(text, t1, t2), Point(PointId(fileName, 0), text, [t1, t2]));
  }

  // -------------------------------------------------------------- example

  lemma ExampleBullet()
    ensures Bullet("Built thing", "Go", "SQL") == "- Built thing [Go, SQL]"
  {
  }

  lemma ExampleFront()
    ensures "\n" + "company" + ": " + "Acme" + "\n" == "\ncompany: Acme\n"
  {
  }

  lemma ExampleBody()
    ensures "\n" + "- Built thing [Go, SQL]" + "\n" == "\n- Built thing [Go, SQL]\n"
  {
  }

  lemma ExampleText()
    ensures OneEntryFile("company", "Acme", "Built thing", "Go", "SQL")
            == "---" + "\ncompany: Acme\n" + "---" + "\n- Built thing [Go, SQL]\n"
  {
    ExampleBullet();
    ExampleFront();
    ExampleBody();
    assert Delimiter == "---";
  }

  lemma CleanCompany()
    ensures Clean("company")
  {
  }

  lemma CleanAcme()
    ensures Clean("Acme")
  {
  }

  lemma CleanBuilt()
    ensures Clean("Built thing")
  {
  }

  lemma CleanGo()
    ensures Clean("Go")
  {
  }

  lemma CleanSQL()
    ensures Clean("SQL")
  {
  }

  lemma AcmeKind()
    ensures InferKind("acme") == Project
  {
  }

  lemma AcmeId()
    ensures PointId("acme", 0) == "acme-p0"
  {
  }

  /** The worked example: the entry becomes the record, the bullet the one
      point, with its text and its two tags; the file name carries no
      marker, so the type is the default. */
  lemma Example()
    ensures ParseMarkdown("acme", "---" + "\ncompany: Acme\n" + "---" + "\n- Built thing [Go, SQL]\n")
            == Section("acme", Project, map["company" := "Acme"], [Point("acme-p0", "Built thing", ["Go", "SQL"])])
  {
    ExampleText();
    CleanCompany();
    CleanAcme();
    CleanBuilt();
    CleanGo();
    CleanSQL();
    AcmeKind();
    AcmeId();
    ParseShape("acme", "company", "Acme", "Built thing", "Go", "SQL");
  }
}
