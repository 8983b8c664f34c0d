# tufte-acm-pandoc filters, modelled in Dafny

The repository ships two Pandoc filters written with panflute:

- **citet** (`src/citet_filter/main.py`). Its `prepare` reads the bibliography files named in the document's `bibliography` metadata. It builds a dictionary from citation key to display name ("Smith", "Smith and Doe", "Smith et al.", with " (Ed.)" for editor lists). The traversal rewrites every author-in-text citation (`\citet{key}`) as the resolved names, a space, and the original citation.
- **tufte** (`src/tufte_filter/main.py`). It does the same, and also collects ACM conference metadata. `prepare` scans the first main LaTeX file (`00_main.tex`, `main.tex`, `paper.tex`) in which one of the five ACM commands occurs. The traversal scans every raw LaTeX block and inline. `finalize` writes `conference`, `doi` and `conference_year` into the document metadata. It also attaches a `marginnote` span, holding the venue line and a DOI link, to the first paragraph of the first `teaserfigure` div, or else to the first top-level paragraph.

The model has these modules:

| module | file | contents |
|---|---|---|
| `Wrappers` | `wrappers.dfy` | `Option` |
| `Text` | `text.dfy` | Python's `sep.join` |
| `Pandoc` | `pandoc.dfy` | the panflute node kinds the filters inspect, metadata values, and the `Document` class |
| `Bibliography` | `bibliography.dfy` | `format_author_name` (identical in both filters, defined once); the file loop of `prepare` as a method proved against the fold `Loaded` |
| `Citations` | `citations.dfy` | the citation branch of `transform_elements`, shared by both filters |
| `Patterns` | `patterns.dfy` | the fragment of Python's `re` the scanner uses. Patterns are chains of literals and `([^x]+)` / `(\d+)` groups. There is a greedy matcher, a declarative meaning of a match, and `re.search` as the leftmost match at any start position, with soundness and completeness proofs |
| `Scanner` | `scanner.dfy` | the five ACM command shapes and the fields each writes. One scan of `text` turns the record `m` into `m + Writes(text)` |
| `Injector` | `injector.dfy` | what `finalize` computes: the metadata fields, the margin content, and the attachment rule |
| `Tufte` | `tufte.dfy` | class `TufteFilter`. Its fields `bib` and `info` are the filter's module-level dictionaries `BIB_DATA` and `CONFERENCE_INFO`. Its methods (`Prepare`, `ScanText`, `ExtractConferenceMetadata`, `TransformElements`, `Walk`, `Finalize`) update them step by step as the source does |
| `Citet` | `citet.dfy` | class `CitetFilter` with `Prepare` (early returns) and `TransformElements` |

Every imperative method is proved against a specification function, such as `Loaded`, `Writes`, `FilePassWrites`, `Absorb`, `FinalMetadata` or `Finalized`. The lemmas beside each function state what the source promises about it.

## Model

| member | source | states |
|---|---|---|
| Bibliography.NameByCount | src/tufte_filter/main.py:56-64 | One person gives their joined last names. Two give "A and B". Three or more give "A et al." from the first person only. Each form ends with the suffix of the list used. |
| Bibliography.SuffixChoice | src/tufte_filter/main.py:46-51 | The suffix is " (Ed.)" exactly when the editor list is used because the entry has no author list. |
| Bibliography.EditorIsAuthorPlusSuffix | src/citet_filter/main.py:38-56 | For the same persons, an editor-only entry's name is the author-only entry's name followed by " (Ed.)". |
| Bibliography.AuthorPreferred | src/tufte_filter/main.py:46-51 | When an author list exists, the editor list never affects the name. |
| Bibliography.EtAlFirstOnly | src/tufte_filter/main.py:62-64 | With three or more persons, only the first person matters. |
| Bibliography.KeyFallback | src/tufte_filter/main.py:44-66 | With neither list, or with an empty list (where `persons[0]` raises and the exception is caught), the name is the entry's key. |
| Bibliography.SmithAndDoe | src/citet_filter/main.py:50-53 | Scenario: authors Smith and Doe give "Smith and Doe". |
| Bibliography.BibFilesCases | src/citet_filter/main.py:12-22 | A non-empty string names one file and a list names its items. An absent, empty or other value names no file and leaves the index unchanged. |
| Bibliography.LoadFiles | src/citet_filter/main.py:25-32 | The nested loops give exactly `Loaded`: each file parsed in order, each entry's display name written under its key. |
| Bibliography.LoadedAppend | src/tufte_filter/main.py:31-37 | Loading `a + b` is loading `a`, then loading `b` onto the result. |
| Bibliography.FailedFileSkipped | src/citet_filter/main.py:27-32 | A file that fails to parse is skipped. The other files load exactly as if it were not listed. |
| Bibliography.AddEntriesKeys | src/tufte_filter/main.py:34-35 | After one file, a key is present exactly when it was present before or some entry carries it. |
| Bibliography.AddEntriesLast | src/citet_filter/main.py:29-30 | Within one file, a key holds the display name of its last entry. |
| Bibliography.AddEntriesKeeps | src/citet_filter/main.py:29-30 | A key that no entry carries keeps its old value. |
| Bibliography.LoadedUntouched | src/tufte_filter/main.py:31-37 | Files that do not mention a key leave its value unchanged. |
| Bibliography.LastFileWins | src/citet_filter/main.py:26-30 | A key holds the name of its last entry in the last parsed file that mentions it. |
| Text.JoinAppend | src/tufte_filter/main.py:131 | Joining `a + b` is joining `a`, the separator, then joining `b` (both non-empty). |
| Citations.AuthorNames | src/citet_filter/main.py:64 | One name per citation, in order. Each name is the index's value for the id, or the id itself when the index lacks it. |
| Citations.Rewrite | src/citet_filter/main.py:62-66 | There is a replacement exactly for a `Cite` whose citation list is non-empty and whose first citation is author-in-text. It is a `Str`, then `Space`, then the unchanged `Cite`. One citation shows its index entry, or its key when the index has none. With more, the text starts with the first citation's name and " and ", followed by the joined names of the rest. |
| Citations.NamesSplit | src/tufte_filter/main.py:130-131 | Splitting the citation list splits the rendered names at one " and ". |
| Citations.EmptyIndexShowsKeys | src/citet_filter/main.py:64 | With an empty index, each citation shows its raw key. |
| Patterns.RunEnd | src/tufte_filter/main.py:76 | A group `[^x]+` or `\d+` extends over the maximal run of class characters: all characters before the end are in the class, and the one at the end is not. |
| Patterns.RunEndUnique | src/tufte_filter/main.py:76 | Any run that is followed by a non-class character or the end of the text is that maximal run. |
| Patterns.MatchFrom | src/tufte_filter/main.py:76 | A match at `i` ends within the text and has one group per capture group of the pattern. |
| Patterns.MatchSound | src/tufte_filter/main.py:76 | Whatever the greedy matcher returns is a match in the declarative sense (`Spans`). |
| Patterns.MatchComplete | src/tufte_filter/main.py:76 | For the patterns the scanner uses, every match at `i` is the greedy matcher's result. So the backtracking engine has no other way to match there. |
| Patterns.SpansRender | src/tufte_filter/main.py:76 | Matched text is the pattern laid out with its groups. |
| Patterns.SpansGroups | src/tufte_filter/main.py:76 | A match has one non-empty group per capture group, each made of that group's class characters. |
| Patterns.Search | src/tufte_filter/main.py:76-104 | `re.search` returns a match at the first start position that matches. It returns nothing only when no position matches. |
| Patterns.SearchLeftmost | src/tufte_filter/main.py:76-104 | The result is a match, and no match starts earlier. When it is empty, no match exists anywhere in the text. |
| Patterns.SearchRender | src/tufte_filter/main.py:76-104 | The found text is the pattern laid out with the found groups. |
| Patterns.SearchFacts | src/tufte_filter/main.py:76-104 | For a found match: the bounds, the layout, the group count, and each group non-empty and in its class. |
| Scanner.ConferenceArgs | src/tufte_filter/main.py:76-77 | A found `\acmConference` command has four arguments. |
| Scanner.Find | src/tufte_filter/main.py:76-104 | When `\acmConference` is found, its slot in the scan result holds exactly four arguments. Each of the other four commands has one optional argument. |
| Scanner.ConferenceFlat | src/tufte_filter/main.py:76 | The conference pattern has four groups, `[^]]` then three `[^}]`, and is of the shape the matcher is exact for. |
| Scanner.CommandsWellFormed | src/tufte_filter/main.py:76-104 | All five patterns are of that shape. |
| Scanner.ConferenceCommand | src/tufte_filter/main.py:76 | The matched text is `\acmConference[s]{f}{d}{l}` with the four arguments returned. |
| Scanner.ConferenceArgsShape | src/tufte_filter/main.py:76 | The four arguments are non-empty. The first contains no `]` and the other three contain no `}`. |
| Scanner.RenderConference | src/tufte_filter/main.py:76 | The conference pattern laid out with arguments s, f, d, l is `\acmConference[s]{f}{d}{l}`. |
| Scanner.ArgumentCommand | src/tufte_filter/main.py:86-104 | For a one-argument command, the found text is `name{arg}` with a non-empty argument of class characters, and no occurrence starts earlier. |
| Scanner.FieldsKeys | src/tufte_filter/main.py:78-106 | A scan writes only the record's nine keys. |
| Scanner.FieldsConferenceKeys | src/tufte_filter/main.py:77-82 | The five conference fields are written exactly when the conference command is found. |
| Scanner.FieldsConferenceValues | src/tufte_filter/main.py:78-82 | The written fields hold the four arguments and `full_citation = "f (s), d, l"`. |
| Scanner.FieldsSingle | src/tufte_filter/main.py:86-106 | Each one-argument command writes its own key exactly when found, with its argument. |
| Scanner.ConferenceMapKeys | src/tufte_filter/main.py:78-82 | The conference command writes exactly its five keys, or nothing. |
| Scanner.SinglesKeys | src/tufte_filter/main.py:86-106 | The one-argument commands write only their four keys. |
| Scanner.SinglesLookup | src/tufte_filter/main.py:86-106 | No one-argument command overwrites another's key. |
| Scanner.KeyGroupsDisjoint | src/tufte_filter/main.py:78-106 | The conference keys and the one-argument keys are disjoint, and together they are the nine keys. |
| Scanner.WritesInOrder | src/tufte_filter/main.py:76-107 | Writing a scan's fields at once equals writing them command by command, in the source's order. |
| Scanner.FoundIffWrites | src/tufte_filter/main.py:73-109 | The scan reports success exactly when it writes something. |
| Scanner.EmptyTextFindsNothing | src/tufte_filter/main.py:70-71 | Empty text finds no command and writes nothing. |
| Scanner.ScanIdempotent | src/tufte_filter/main.py:76-107 | Scanning the same text twice leaves the record as scanning once does. |
| Scanner.ScanFrame | src/tufte_filter/main.py:76-107 | A scan removes no key. It changes only keys whose command matched, and those take the scanned value. |
| Scanner.DoiScenario | src/tufte_filter/main.py:86-88 | Scenario: `\acmDOI{10.1145/xyz}` gives `doi` = `10.1145/xyz`. |
| Injector.MarginNote | src/tufte_filter/main.py:156-178 | A note is produced exactly when there is a venue line (the full citation or the book title) or a DOI. It is one `marginnote` span around the margin content. |
| Injector.FirstTeaser | src/tufte_filter/main.py:181-185 | The index of the first `teaserfigure` div, and no earlier block is one. Empty when there is none. |
| Injector.FirstPara | src/tufte_filter/main.py:186-206 | The index of the first paragraph, and no earlier block is one. Empty when there is none. |
| Injector.MetadataWrites | src/tufte_filter/main.py:144-153 | `conference` comes from full_citation, else from book_title. `doi` and `conference_year` come from their fields. Each is set only when its source is truthy, and otherwise keeps its old value. |
| Injector.MetadataFrame | src/tufte_filter/main.py:141-153 | Every other metadata key is left alone. |
| Injector.YearOnlyAttachesNothing | src/tufte_filter/main.py:156-175 | A record holding only year or copyright_year attaches nothing. |
| Injector.DoiNote | src/tufte_filter/main.py:168-173 | Scenario: a DOI alone gives "DOI: ", a link to `https://doi.org/<doi>`, and a line break. |
| Injector.MarginOrder | src/tufte_filter/main.py:158-173 | The venue line and two line breaks come before the DOI part. |
| Injector.TeaserTakesPrecedence | src/tufte_filter/main.py:179-199 | With a teaser div, only that div changes; top-level paragraphs are not touched. |
| Injector.TeaserAnchor | src/tufte_filter/main.py:186-197 | Inside the teaser, the note goes first in its first paragraph, or into a new paragraph placed first. Nothing else changes. |
| Injector.ParagraphFallback | src/tufte_filter/main.py:200-206 | Without a teaser, only the first top-level paragraph changes. With no paragraph either, the blocks are unchanged. |
| Injector.CountUpdate | src/tufte_filter/main.py:179-206 | Replacing one block changes the note count by that block's difference. |
| Injector.AttachOnce | src/tufte_filter/main.py:179-206 | The note is inserted exactly once when an anchor exists, and not at all otherwise. |
| Tufte.PassFromHit | src/tufte_filter/main.py:114-120 | Scanning from candidate `j` writes the fields of the first hit at or after `j`. |
| Tufte.PassFromNoHit | src/tufte_filter/main.py:114-122 | With no hit from `j` on, the file pass writes nothing. |
| Tufte.FilePassFirstHit | src/tufte_filter/main.py:114-120 | The file pass writes exactly the fields of the first candidate, in the order 00_main.tex, main.tex, paper.tex, that was read and in which a command occurs. |
| Tufte.FilePassNoHit | src/tufte_filter/main.py:114-122 | Missing, unreadable or command-free candidates leave the record unchanged. |
| Tufte.AbsorbAppend | src/tufte_filter/main.py:134-137 | Visiting `a + b` is visiting `a`, then visiting `b`. |
| Tufte.NonLatexIgnored | src/tufte_filter/main.py:134-139 | Elements other than raw `latex` blocks and inlines never change the record, wherever they stand. |
| Tufte.AbsorbUntouched | src/tufte_filter/main.py:134-137 | A key that no later node writes keeps its value. |
| Tufte.LastNodeWins | src/tufte_filter/main.py:134-137 | The last raw LaTeX node that writes a key decides its value, over earlier nodes and over the file pass. |
| Tufte.TufteFilter.constructor | src/tufte_filter/main.py:13-14 | Both dictionaries start empty. |
| Tufte.TufteFilter.Prepare | src/tufte_filter/main.py:16-40 | `bib` becomes `Loaded` over the normalised bibliography files, and `info` absorbs the file pass. |
| Tufte.TufteFilter.ScanText | src/tufte_filter/main.py:68-109 | `info` becomes `old(info) + Writes(text)`. The result is whether any command was found. `bib` is unchanged. |
| Tufte.TufteFilter.WriteConference | src/tufte_filter/main.py:77-83 | The five conference assignments, and whether they happened. |
| Tufte.TufteFilter.WriteKey | src/tufte_filter/main.py:87-107 | One single-key assignment, and whether it happened. |
| Tufte.TufteFilter.ExtractConferenceMetadata | src/tufte_filter/main.py:111-122 | The loop with `break` and skipped candidates gives exactly `old(info) + FilePassWrites(read)`. |
| Tufte.TufteFilter.TransformElements | src/tufte_filter/main.py:124-139 | Returns the citation rewrite over `bib`, and absorbs the writes of a raw LaTeX node into `info`. |
| Tufte.TufteFilter.Walk | src/tufte_filter/main.py:124-139 | Visiting the elements in order gives each element's rewrite, and `info` becomes `Absorb(old(info), es)`. |
| Tufte.TufteFilter.Finalize | src/tufte_filter/main.py:141-208 | The metadata becomes `FinalMetadata` and the content becomes `Finalized`. |
| Tufte.TufteFilter.AttachNote | src/tufte_filter/main.py:179-206 | The nested loops with the `attached` flag compute exactly `Attach`. |
| Citet.CitetFilter.constructor | src/citet_filter/main.py:9 | The index starts empty. |
| Citet.CitetFilter.Prepare | src/citet_filter/main.py:11-32 | The early returns and the file loop give exactly `Loaded` over the normalised bibliography files. |
| Citet.CitetFilter.TransformElements | src/citet_filter/main.py:60-66 | Returns the citation rewrite over the index. |
| Citet.SmithDoeCitation | src/citet_filter/main.py:11-66 | Scenario: `bibliography: refs.bib` with `smith2020` by Smith and Doe makes `\citet{smith2020}` read "Smith and Doe", a space, and the citation. |

## Left out

- The BibTeX parser (`parser.parse_file`) is foreign code. It is the parameter `parse`, a function from file name to an optional list of (key, entry) pairs. `None` stands for any exception raised while that file is parsed.
- Reuse of one parser instance across files (src/tufte_filter/main.py:30-33, src/citet_filter/main.py:25-28). The model parses each file on its own. It does not model anything the library's parser carries over from one `parse_file` call to the next. Such carry-over could include the entries of earlier files, or the part of a failed file parsed before the error. It could also include a later file raising because it repeats an earlier key. `Bibliography.LastFileWins` and `Bibliography.FailedFileSkipped` therefore hold for independent parses, which may not be what the program's shared parser does.
- `pf.stringify` of non-string list items in the `bibliography` metadata: the model takes the list items as strings already.
- `doc.get_metadata` returns Python values. They are modelled as a string, a list of strings, or any other value with its truthiness.
- Filesystem access (`os.path.exists`, `open`, UTF-8 decoding) is the parameter `read`, from file name to optional contents. `None` stands for a missing file or any failure while reading it.
- panflute's traversal engine (`run_filter`/`walk`). `Walk` visits the elements given to it in that order and returns each element's replacement. Splicing the replacements back into the tree, and the bottom-up visiting order, are not modelled.
- The identity of panflute nodes. In the source, the returned `Cite` and the paragraphs that receive the note are the same objects as in the tree. The model works on values, so aliasing between nodes is not represented.
- Node identifiers and attributes, and node kinds the filters do not inspect (`OtherInline`, `OtherBlock`).
- Patterns.InClass: `\d` is taken as ASCII `0`-`9`. Python's `\d` also matches other Unicode decimal digits.
- The general regular-expression engine: only the five fixed command shapes are modelled.
- `main()`, `pf.run_filter` and the `__main__` entry point: process and command-line glue.
- assets/script.js is not part of this model. It holds browser event handlers with no filter logic.
- Exceptions inside `format_author_name` other than an empty person list. Persons are modelled as lists of last names, so malformed person data cannot be written down.
