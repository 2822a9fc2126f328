# ResumeForge core, modelled in Dafny

ResumeForge is a single-page resume builder. Resume content lives in markdown files, one per entry, in four folders: experience, projects, education and skills. Each file has optional `---`-delimited front matter of `key: value` lines. Its body has `- text [Tag, Tag]` bullet points.

The application works in four stages:
- The catalog parses every file into a section with an id, a type, metadata and points.
- A state hook keeps the catalog, the selected tags, a per-point on/off flag and a page layout.
- The editor sidebar shows the tag-filtered sections with check boxes and skill tokens.
- The preview draws the page from the unfiltered data and the flags.

This project models that core as pure functions over immutable datatypes:

| module | file | models |
|---|---|---|
| `Wrappers` | wrappers.dfy | `Option` |
| `Strings` | strings.dfy | the JavaScript string operations the core relies on: `trim`, `indexOf`, `includes`, `split`, `join`, `replace` with a string pattern, number-to-string |
| `Seqs` | seqs.dfy | `Array.prototype.filter` and sub-sequences |
| `Ordering` | ordering.dfy | the default `sort()` order on strings, and sorted sets |
| `Parser` | parser.dfy | `parseMarkdown` (src/utils/parser.ts) |
| `ParserShape` | parser_shape.dfy | what `parseMarkdown` returns for a file of a known shape, with a worked example |
| `Catalog` | catalog.dfy | `getResumeData` (src/data.ts) |
| `Layout` | layout.dfy | `LayoutSettings` and `defaultLayout` (src/types/index.ts), the layout panel (src/components/editor/LayoutControls.tsx), and the saved layout merged over the defaults |
| `ResumeState` | state.dfy | `useResumeState` (src/hooks/useResumeState.ts) |
| `Sidebar` | sidebar.dfy | what the editor derives from its props (src/components/editor/Sidebar.tsx) |
| `Preview` | preview.dfy | the render plan of the page (src/components/preview/ResumePreview.tsx) |
| `App` | app.dfy | the wiring in src/App.tsx and the events a session is made of |

Three pieces of outside behaviour become parameters:
- The browser's saved values are `Option` arguments; `None` means nothing was stored or the stored text did not parse.
- The clock reading used for new point ids is a `now: nat` argument.
- The confirmation dialog's answer is a `confirmed: bool` argument.

The file globs become the four sequences of `File(path, content)` the bundler hands over.

## Model

| member | source | states |
|---|---|---|
| Strings.Trim | src/utils/parser.ts:38-39 | `trim` returns a contiguous slice of its input with only whitespace cut from either end; the result is empty exactly when the input is all whitespace, and otherwise starts and ends with a non-space |
| Strings.IndexOf | src/utils/parser.ts:36 | `indexOf` finds the first occurrence: the pattern occurs at the result, nowhere earlier, and the result is absent exactly when the pattern does not occur |
| Strings.SplitOn | src/utils/parser.ts:25 | `split` with a separator yields at least one piece and no piece contains the separator |
| Strings.SplitOnLeftmost | src/utils/parser.ts:25 | the cut is at the leftmost occurrence: without an occurrence the text is the only piece, otherwise the first piece is the text before the first occurrence |
| Strings.JoinSplitOn | src/utils/parser.ts:31 | joining the pieces of a split with the same separator restores the original string: `split('---')` followed by `join('---')` loses nothing |
| Strings.SplitCount | src/utils/parser.ts:54 | splitting on a character yields one more piece than the character has occurrences |
| Strings.SplitLast | src/data.ts:15 | the last piece of `split('/')` is the part after the last `/`, or the whole string when there is none; it contains no `/` |
| Strings.RemoveFirst | src/data.ts:15 | `replace('.md', '')` with a string pattern removes only the first occurrence: the input is the result with the pattern put back at the first occurrence, and an input without the pattern is unchanged |
| Strings.ParseNatToString | src/utils/parser.ts:58 | the decimal text of an index reads back as that index |
| Strings.NumberedInjective | src/utils/parser.ts:58 | a prefix ending in a non-digit followed by a decimal number determines both the prefix and the number |
| Seqs.Filter | src/utils/parser.ts:48 | `filter` keeps exactly the elements that pass the test and drops the rest |
| Seqs.FilterMultiplicity | src/utils/parser.ts:48 | `filter` keeps every passing element as many times as it occurs and drops every failing one |
| Seqs.FilterIsSubseq | src/hooks/useResumeState.ts:88-91 | `filter` preserves the relative order of what it keeps |
| Seqs.FilterIdempotent | src/hooks/useResumeState.ts:88-91 | filtering twice with the same test is filtering once |
| Seqs.FilterDistinct | src/hooks/useResumeState.ts:62 | filtering a list without duplicates gives a list without duplicates |
| Ordering.LexLessTransitive | src/hooks/useResumeState.ts:57 | the string order used by `sort()` is transitive |
| Ordering.LexLessTotal | src/hooks/useResumeState.ts:57 | any two different strings are ordered one way or the other |
| Ordering.SortedSet | src/hooks/useResumeState.ts:57 | `Array.from(set).sort()` yields a strictly increasing list with exactly the members of the input |
| Ordering.StrictlySortedUnique | src/hooks/useResumeState.ts:57 | two strictly increasing lists with the same members are equal, so the sorted tag list is determined by its members alone |
| Parser.SplitFrontMatter | src/utils/parser.ts:25-32 | when the text starts with `---` and has another `---` after it, the text is `---` + front matter + `---` + body, and the front matter ends at the first later `---`; otherwise the front matter is empty and the body is the whole text |
| Parser.HasFrontMatterIff | src/utils/parser.ts:29 | "at least three pieces and starts with `---`" holds exactly when the text starts with `---` and contains another `---` after those three characters |
| Parser.FrontMatterRoundTrip | src/utils/parser.ts:25-32 | front matter without a `-`, written between two delimiters and followed by any body, is split back into exactly that front matter and that body |
| Parser.Unquote | src/utils/parser.ts:40-42 | a value wrapped in double quotes loses exactly the two quotes; a lone `"` becomes empty; anything else is kept |
| Parser.LineEntryAtColon | src/utils/parser.ts:36-43 | a line whose first colon is at `i` sets the trimmed text before `i` to the trimmed and unquoted text after it |
| Parser.LineEntryNoColon | src/utils/parser.ts:37 | a line without a colon sets nothing |
| Parser.AssignKeys | src/utils/parser.ts:34-45 | a key is in the front matter exactly when some line sets it |
| Parser.AssignLastWins | src/utils/parser.ts:43 | when a key is set by several lines, the last line wins |
| Parser.BulletLines | src/utils/parser.ts:48 | every kept line is a bullet: after trimming it starts with `-` |
| Parser.BulletLinesExactly | src/utils/parser.ts:48 | the bullet lines keep the order of the body's lines, and each bullet line is kept as often as it occurs while every other line is dropped |
| Parser.TagBracket | src/utils/parser.ts:53 | the tag match starts at the leftmost `[` from which the rest of the text, free of line terminators, runs to a final `]`; no earlier position matches |
| Parser.ExtractTagsBracketed | src/utils/parser.ts:53-55 | with a tag match, the text is the trimmed part before the bracket, and the tags are the comma-separated pieces between the brackets, each trimmed and empty ones kept: one more tag than commas |
| Parser.ExtractTagsPlain | src/utils/parser.ts:54-55 | a text that does not end in `]`, or has no `[`, is kept whole with no tags |
| Parser.InferKind | src/utils/parser.ts:64-67 | the type is skills exactly when the name has a skills marker; education when it has an education marker but no skills marker; experience when it has only an experience marker; project otherwise. The last matching test wins |
| Parser.ExtractTags | src/utils/parser.ts:51-55 | there are tags exactly when the tag pattern matches, and without a match the text is the input unchanged; every tag is trimmed; with a match the text is trimmed and shorter than the input, and a trimmed input always gives a trimmed text |
| Parser.MakePoint | src/utils/parser.ts:50-61 | a bullet line becomes the point with id `<fileName>-p<idx>` whose text and tags carry no surrounding white space |
| Parser.MakePointOfBullet | src/utils/parser.ts:50-55 | a line of white space, a dash and a rest is a bullet, and its point's text and tags are those extracted from the trimmed rest: the dash is stripped and the remainder trimmed before the tags are peeled |
| Parser.ParseMarkdown | src/utils/parser.ts:24-85 | the section's id is the file name and its type is inferred from it; its metadata holds exactly the known keys the front matter sets, each with the value the front matter gives it; it has one point per bullet line of the body, in order, the i-th with id `<fileName>-p<i>` |
| Parser.SplitPointIdInverse | src/utils/parser.ts:58 | a point id can be taken apart into the file name and index it was built from |
| Parser.PointIdInjective | src/utils/parser.ts:58 | different file names or indices give different point ids |
| Parser.ParsedPointIdsDistinct | src/utils/parser.ts:50-58 | the points of one parsed file have pairwise different ids |
| Parser.NoFrontMatterWholeBody | src/utils/parser.ts:26-32 | a text that does not start with `---` has no metadata, and its whole text is scanned for bullets |
| ParserShape.TagsOfTagged | src/utils/parser.ts:51-55 | `text [a, b]` with plain words yields the text `text` and the tags `a` and `b` |
| ParserShape.FrontMatterShape | src/utils/parser.ts:34-45 | a front matter of one `key: value` line yields the one entry `key` to `value` |
| ParserShape.ParseShape | src/utils/parser.ts:24-85 | a file of one front-matter line and one tagged bullet parses to a section with that one metadata entry and one point `<fileName>-p0` carrying the text and the two tags |
| ParserShape.Example | src/utils/parser.ts:24-85 | the file `---`, `company: Acme`, `---`, `- Built thing [Go, SQL]` named `acme` parses to a project section with company Acme and the point `acme-p0`, "Built thing", tags Go and SQL |
| Catalog.Basename | src/data.ts:15 | `path.split('/').pop()` is a suffix of the path that contains no `/` and is either the whole path or preceded by a `/` |
| Catalog.FileName | src/data.ts:15 | the name is the last path segment with its first `.md` removed: with the first occurrence at `i`, the segment without the three characters at `i`; with none, the segment itself; the whole path when that leaves nothing. It has no `/` unless the whole path was kept, and is empty only for an empty path |
| Catalog.FirstMarkdownRemoved | src/data.ts:15 | `<dir>/<a>.md<b>`, with `a` free of `/` and `.`, is named `a` followed by `b`: only the first `.md` goes, so `x/a.mdb.md` is named `ab.md` |
| Catalog.FileNameOfMarkdown | src/data.ts:15 | `<dir>/<name>.md`, with a name free of `/` and `.`, yields `name` |
| Catalog.LoadOrder | src/data.ts:13-35 | the files are read experience first, then projects, education and skills, each folder in its own order, each tagged with its folder's type |
| Catalog.ParseEntry | src/data.ts:16 | each file is parsed under its file name with its folder's marker appended, and the section's type is read off that name |
| Catalog.GetResumeData | src/data.ts:10-38 | one section per file, in load order, each with id `<name> (<marker>)`; the experience files give the first run of sections, the project files the next run, then education, then skills, each run being that folder's files parsed one by one in the folder's order |
| Catalog.LoadedRuns | src/data.ts:13-35 | whatever is done to each loaded file, the results for each folder's files sit together at that folder's offset, in the folder's order |
| Catalog.InferredKindOfSuffixed | src/data.ts:16 | the folder's marker counts together with any marker in the file name itself, and the last matching test decides the type |
| Catalog.CatalogKinds | src/data.ts:13-35 | when no file name carries a marker of its own, every section gets the type of the folder it was read from |
| Catalog.SuffixedInjective | src/data.ts:16-34 | a name with one group's marker appended never equals a name with another group's marker appended, and equal suffixed names have equal stems |
| Catalog.SectionNameInjective | src/data.ts:15-16 | two section names agree only for the same folder and the same file name |
| Catalog.SectionIdsDistinct | src/data.ts:10-38 | the catalog's section ids are pairwise different exactly when the file names are distinct within each folder |
| Catalog.CatalogPointIdsDistinct | src/data.ts:10-38 | with file names distinct within each folder, every point id in the catalog is unique and belongs to its own section |
| Layout.Apply | src/components/editor/LayoutControls.tsx:15-76 | a page-size button sets only the page size; a slider sets only its own field; every other field is copied |
| Layout.DefaultInRange | src/types/index.ts:10-17 | the default margins and gaps are values the sliders can show |
| Layout.ApplyAllInRange | src/components/editor/LayoutControls.tsx:30-76 | starting in range, no sequence of button presses and slider moves leaves the slider ranges (0-30 mm margins, 0-40 px section gaps, 0-20 px point gap) |
| Layout.ControlsOnDifferentFieldsCommute | src/components/editor/LayoutControls.tsx:15-32 | a page-size change and a slider move commute |
| Layout.Merge | src/hooks/useResumeState.ts:32 | `{ ...defaultLayout, ...saved }`: each field the saved object carries wins; every other field keeps its default |
| Layout.RestoreLayout | src/hooks/useResumeState.ts:28-36 | with nothing saved, or unparsable text, the layout is the default; with a saved object, each field it carries wins and every other field keeps its default |
| Layout.RestoreSnapshot | src/hooks/useResumeState.ts:28-36 | a layout saved as a whole is restored as it was |
| Layout.RestoreEmpty | src/hooks/useResumeState.ts:32 | a saved object with no fields restores the defaults |
| Layout.RestoreUnchecked | src/hooks/useResumeState.ts:32 | a restored layout is not range-checked: a saved margin of 100 comes back out of range |
| ResumeState.InitialSelection | src/hooks/useResumeState.ts:12-26 | every catalog point starts selected; every saved flag then overrides, including flags for ids the catalog does not have |
| ResumeState.RestoreSavedSelection | src/hooks/useResumeState.ts:12-26 | a saved selection that covers every catalog point is restored exactly |
| ResumeState.Init | src/hooks/useResumeState.ts:9-36 | the hook starts with the catalog, no selected tags, all points selected when nothing is saved, and the default layout when no layout is saved; with a saved selection the flags cover the catalog's points and the saved ids, every saved flag as saved and every other catalog point true; with a saved layout, the saved fields over the defaults |
| ResumeState.AllTags | src/hooks/useResumeState.ts:50-58 | the tag list is strictly increasing and holds exactly the tags that occur on some point |
| ResumeState.AllTagsCanonical | src/hooks/useResumeState.ts:50-58 | any strictly increasing list of exactly the occurring tags is the tag list |
| ResumeState.ToggleTag | src/hooks/useResumeState.ts:60-64 | a selected tag is removed, every copy of it, and nothing else changes; an unselected tag is appended at the end |
| ResumeState.ToggleTagDistinct | src/hooks/useResumeState.ts:60-64 | toggling keeps the selected tags free of duplicates |
| ResumeState.ToggleAbsentTwice | src/hooks/useResumeState.ts:60-64 | toggling an unselected tag twice restores the selection exactly |
| ResumeState.ToggleTwiceSameTags | src/hooks/useResumeState.ts:60-64 | toggling any tag twice restores the set of selected tags |
| ResumeState.TogglePoint | src/hooks/useResumeState.ts:66-68 | the toggled id gets the negation of its truthiness, so an id without a flag becomes true; every other flag is kept |
| ResumeState.TogglePointTwice | src/hooks/useResumeState.ts:66-68 | toggling a flagged id twice restores the flags exactly |
| ResumeState.TogglePointAbsentTwice | src/hooks/useResumeState.ts:66-68 | toggling an unflagged id twice leaves it explicitly false |
| ResumeState.CommaList | src/hooks/useResumeState.ts:76 | the typed tags are trimmed and non-empty |
| ResumeState.TagInputDropsOnlyEmpty | src/hooks/useResumeState.ts:76 | the typed tags are the trimmed comma pieces with exactly the empty ones removed, in their typed order |
| ResumeState.EmptyTagContrast | src/hooks/useResumeState.ts:76 | the parser keeps an empty tag for `[]` while the add-point form drops it |
| ResumeState.AppendPoint | src/hooks/useResumeState.ts:79-81 | the new point is appended to every section with the given id, and all other sections and fields are unchanged |
| ResumeState.AddPoint | src/hooks/useResumeState.ts:74-83 | blank text changes nothing; otherwise the trimmed text with the typed tags is appended under id `custom-<now>`, which is flagged true, and the tags and layout are kept |
| ResumeState.CustomIdNotPointId | src/hooks/useResumeState.ts:77 | a custom id never equals a parsed point id |
| ResumeState.AddPointKeepsCovered | src/hooks/useResumeState.ts:74-83 | adding a point keeps every point flagged |
| ResumeState.AddPointKeepsUnique | src/hooks/useResumeState.ts:74-83 | with unique section ids and an unused clock reading, adding a point keeps point ids unique |
| ResumeState.FilterSection | src/hooks/useResumeState.ts:86-91 | a filtered section keeps its id, type and metadata, and keeps exactly the points that carry a selected tag, or all of them when no tag is selected |
| ResumeState.FilterSectionKeepsOrder | src/hooks/useResumeState.ts:88-91 | the kept points stay in their original order |
| ResumeState.FilteredData | src/hooks/useResumeState.ts:85-93 | every section stays, in order, even when none of its points is kept |
| ResumeState.FilteredNoTags | src/hooks/useResumeState.ts:89 | with no tag selected the filtered data is the data |
| ResumeState.FilteredIdempotent | src/hooks/useResumeState.ts:85-93 | filtering the filtered data again changes nothing |
| ResumeState.OfKind | src/hooks/useResumeState.ts:95-98 | a slice holds exactly the sections of its type, in the order of the data |
| ResumeState.SlicesPartition | src/hooks/useResumeState.ts:95-98 | the four slices together hold every section exactly as often as the data does, each in the slice of its own type |
| Sidebar.FirstTruthy | src/components/editor/Sidebar.tsx:91 | `a \|\| b \|\| …` picks the first non-empty value, and nothing when all are missing or empty |
| Sidebar.EntryHeading | src/components/editor/Sidebar.tsx:91 | a non-empty heading is the value of one of company, project name, institution and category |
| Sidebar.EntryHeadingFallback | src/components/editor/Sidebar.tsx:91 | the heading is the company, else the project name, else the institution, else the category, and empty when none is set |
| Sidebar.EntrySubtitle | src/components/editor/Sidebar.tsx:92 | the subtitle is the designation when it is set, else the degree when that is set, else absent; a shown subtitle is never empty |
| Sidebar.SkillsTitle | src/components/editor/Sidebar.tsx:43 | a skills entry is titled by its category, or "Skills" when it has none |
| Sidebar.SkillTokens | src/components/editor/Sidebar.tsx:44-45 | the tokens are trimmed and non-empty |
| Sidebar.NoPointsNoTokens | src/components/editor/Sidebar.tsx:44 | a skills section without points shows no tokens |
| Sidebar.TokensAfterFilter | src/components/editor/Sidebar.tsx:44-45 | the tokens come from the first point the tag filter keeps |
| Sidebar.Tokens | src/components/editor/Sidebar.tsx:50-57 | the i-th token has id `<section id>-skill-<i>`, shows the i-th skill, and is selected unless its flag is explicitly false |
| Sidebar.TokenIdsDistinct | src/components/editor/Sidebar.tsx:51 | the tokens of one section have pairwise different ids |
| Sidebar.TokenIdInjective | src/components/editor/Sidebar.tsx:51 | different sections or indices give different token ids |
| Sidebar.TokenIdNotPointShaped | src/components/editor/Sidebar.tsx:51 | a token id never equals a parsed or custom point id, so clicking a token never toggles a point |
| Sidebar.UntouchedToken | src/components/editor/Sidebar.tsx:52 | a token with no flag shows as selected; its first click sets the flag true and it still shows selected; only the second click deselects it |
| Sidebar.Checks | src/components/editor/Sidebar.tsx:95 | each point's check box is ticked exactly when its flag is truthy |
| Sidebar.CategoryBlock | src/components/editor/Sidebar.tsx:36-84 | a category with no sections renders nothing; any other renders one block of its type holding one entry per section in order, each with the section's heading, subtitle and check boxes, or its title and tokens for skills |
| Sidebar.EditorBlocksLayout | src/components/editor/Sidebar.tsx:120-126 | the category blocks come in the order experience, projects, education, skills; a block of each type is present exactly when its slice is non-empty, and each block is its category's block over that slice |
| Preview.PageDimensions | src/components/preview/ResumePreview.tsx:11-16 | A4 is 210 mm by 297 mm, and any other page size is 8.5 in by 11 in |
| Preview.ActivePoints | src/components/preview/ResumePreview.tsx:55 | the active points are exactly the section's points whose flag is truthy |
| Preview.ActivePointsIff | src/components/preview/ResumePreview.tsx:47 | the active points keep their order, and there is one exactly when `some` point is flagged |
| Preview.Rendered | src/components/preview/ResumePreview.tsx:54-56 | an entry is drawn exactly when it is of the panel's type and has an active point; an education entry is also drawn when it has no points; drawn entries keep the order of the data |
| Preview.HeadingIffEntry | src/components/preview/ResumePreview.tsx:47 | a panel's heading is shown exactly when at least one of its entries is drawn |
| Preview.Entries | src/components/preview/ResumePreview.tsx:54-71 | each drawn entry carries its section's id, metadata and active points |
| Preview.EntryBullets | src/components/preview/ResumePreview.tsx:127-131 | a drawn entry has no bullet list exactly when it is an education entry without points |
| Preview.SplitSkill | src/components/preview/ResumePreview.tsx:152-161 | a skill line with a colon is split after its first colon into a bold lead and the rest, which together give back the text; a line without a colon is drawn plain |
| Preview.LinesOf | src/components/preview/ResumePreview.tsx:151-162 | one line per active skill point, in order: the point's text split after its first colon into a bold lead and the rest, or drawn plain when it has no colon |
| Preview.SkillLines | src/components/preview/ResumePreview.tsx:148-162 | the "Technical Skills" panel holds exactly the split texts of the active points of the drawn skills entries |
| Preview.LinesOfAllOrder | src/components/preview/ResumePreview.tsx:148-162 | the lines come entry after entry: the first entry's lines, then the rest's |
| Preview.PanelFor | src/components/preview/ResumePreview.tsx:46-166 | a type gets one panel when its heading is shown, and none otherwise; the panel carries the type's title and either the skill lines or the drawn entries of that type |
| Preview.RenderPlan | src/components/preview/ResumePreview.tsx:45-167 | the page has at most four panels, each under its category's title, and none exactly when no category heading is shown |
| Preview.RenderPlanLayout | src/components/preview/ResumePreview.tsx:45-167 | the panels come in the order experience, projects, education, technical skills; a panel of each type is present exactly when one of its entries is drawn, and each panel is that type's panel with its entries or lines |
| Preview.PlanReadsPointFlags | src/components/preview/ResumePreview.tsx:47-150 | the page depends only on the flags of the data's own points |
| Preview.TokenFlagsIgnored | src/components/editor/Sidebar.tsx:51-57 | a skill-token flag never changes the page, because no point id has the token id's shape |
| App.PageOf | src/App.tsx:63-67 | the page is laid out with the state's layout on the sheet of its page size, and has a panel for a category exactly when an entry of it is drawn |
| App.EditorOf | src/App.tsx:37-53 | the editor gets the state's selected tags, flags and layout; its tag list is strictly increasing and holds exactly the occurring tags; each of its four lists holds only sections of its own type, in the order of the tag-filtered data |
| App.PageIgnoresTags | src/App.tsx:63-67 | the page is drawn from the unfiltered data, so selecting tags never changes it |
| App.EditorSeesFilteredSlices | src/App.tsx:46-49 | the editor's category lists hold the tag-filtered sections of each type, and its tag list is built from all the data |
| App.ClearFilters | src/App.tsx:43 | "Clear Filters" toggles the empty tag: every other selected tag stays selected |
| App.ClearFiltersEmpties | src/App.tsx:43 | the selection comes out empty only when every selected tag was the empty tag |
| App.Reset | src/App.tsx:26-31 | an unconfirmed reset changes nothing; a confirmed one gives a fresh load: the catalog, no tags, every point selected, the default layout |
| App.LoadInv | src/hooks/useResumeState.ts:9-36 | a load with nothing saved starts in a state where every point is flagged, ids are unique and well formed, no tag is selected twice and the layout is in range |
| App.AddPointKeepsShaped | src/hooks/useResumeState.ts:77 | added points keep every point id in the parsed or custom form |
| App.Step | src/App.tsx:37-67 | each event changes only its own part of the state: a tag click flips that tag's selection, keeps every other tag's and keeps data, flags and layout; "Clear Filters" gives the cleared tag list; a point or token click is the flag toggle of that one id (the negation written, every other key and value kept) and keeps data, tags and layout; a layout change applies the control and keeps data, tags and flags; adding a point is the add-point operation; an unconfirmed reset changes nothing and a confirmed one is the fresh load |
| App.StepInv | src/App.tsx:37-67 | every event the interface can produce keeps that invariant |
| App.TokenClickKeepsPage | src/App.tsx:63-67 | clicking a skill token never changes the page |
| App.TagEventsKeepPage | src/App.tsx:42-43 | clicking a tag or "Clear Filters" never changes the page |

## Left out

- The browser's storage and `JSON.parse` are not modelled. A saved value is an `Option` argument. A saved selection is a map from ids to booleans; stored values of other JSON types are not modelled.
- The saving effects (src/hooks/useResumeState.ts:42-48) are not modelled as a step. Their round trip is stated by `Layout.RestoreSnapshot` and `ResumeState.RestoreSavedSelection`.
- `import.meta.glob` is not modelled: the folders' files are sequences of `File(path, content)`, in the bundler's order.
- `Date.now` is a `now: nat` argument. `App.Possible` asks that its id not be in use already; two clicks in the same millisecond are not modelled.
- `window.confirm` is a boolean argument. `localStorage.clear` and the reload are modelled as a fresh load with nothing saved.
- Collapsing and expanding editor sections (`toggleSection`, `collapsedSections`) are not modelled: they change only what is on screen.
- PDF export (src/utils/pdfExport.ts) and the presentation components are not part of this model:
  - `PreviewToolbar`, `SectionHeader`, `CheckboxItem`, `AddPointForm` and `TagFilters`;
  - the header with the name and contacts;
  - markup, CSS classes, and the margins and gaps as CSS lengths.
  - The page dimensions are modelled.
- `trim` uses a fixed list of whitespace (`Strings.IsSpace`): the ECMAScript white-space and line-terminator characters, with the space separators of current Unicode. A character added to that category by a later Unicode version is not covered.
- Strings are sequences of code points. The default `sort()` compares UTF-16 code units, which agrees with this only below U+10000.
- `Layout.PageSize` has only the two values the interface offers. A restored layout with some other page size is drawn at 8.5 in by 11 in by the preview; the model cannot express such a value.
- Catalog.SectionIdsDistinct: file names distinct within each folder are required rather than derived. Two different paths can give the same name, for example `x/a.md.md` and `x/.mda.md` both give `a.md`, because only the first `.md` is removed.
- App.Possible: "Clear Filters" is only offered while a tag is selected; the model accepts the event with no tag selected as well, so `App.StepInv` covers more events than the interface produces.
- App.StepInv: the invariant is proved for events the interface can produce (`App.Possible`). A slider value out of range, or a reused clock reading, is not covered.

Differences between the documented behaviour and the code, where the model follows the code:
- The front matter is found by splitting on `---` anywhere in the text, not only on delimiter lines. A `---` inside the front matter ends it early (`Parser.SplitFrontMatter`).
- The type tests run in order and the last match wins, so a name with both `(exp)` and `(skl)` is a skills section (`Parser.InferKind`).
- An empty tag (`[]`, or `[a,,b]`) is kept by the parser but dropped by the add-point form (`ResumeState.EmptyTagContrast`).
- "Clear Filters" toggles the empty tag instead of clearing the selection (`App.ClearFilters`, `App.ClearFiltersEmpties`).
- Toggling a point with no flag makes it true (`ResumeState.TogglePoint`), while a skill token with no flag already shows as selected (`Sidebar.UntouchedToken`).
- Skill-token ids are built from the section id (`Sidebar.Tokens`). They never match a point id, so the page's skills panel ignores the token flags (`Preview.TokenFlagsIgnored`).
- The filtered data keeps sections whose points are all filtered out (`ResumeState.FilteredData`).
