/** The five LaTeX command shapes that `extract_conference_info_from_text`
    looks for, and the fields of the conference record that each one
    writes.  A scan of `text` overwrites the record with `Writes(text)`:
    the fields of every shape that occurs in the text, taken from the
    leftmost occurrence of that shape. */
module Scanner {
  import opened Wrappers
  import opened Patterns

  /** `\acmConference[short]{full}{dates}{location}` */
  const AcmConference: Pattern :=
    [Lit("\\acmConference["), Grab(Except(']')), Lit("]{"), Grab(Except('}'))] + ArgumentsTail
  /** `}{dates}{location}`, the last two arguments of the conference command. */
  const ArgumentsTail: Pattern := [Lit("}{"), Grab(Except('}')), Lit("}{"), Grab(Except('}')), Lit("}")]
  /** `\acmDOI{doi}` */
  const AcmDoi: Pattern := [Lit("\\acmDOI{"), Grab(Except('}')), Lit("}")]
  /** `\acmYear{digits}` */
  const AcmYear: Pattern := [Lit("\\acmYear{"), Grab(Digit), Lit("}")]
  /** `\copyrightyear{digits}` */
  const CopyrightYear: Pattern := [Lit("\\copyrightyear{"), Grab(Digit), Lit("}")]
  /** `\acmBooktitle{title}` */
  const AcmBooktitle: Pattern := [Lit("\\acmBooktitle{"), Grab(Except('}')), Lit("}")]

  /** The keys of the conference record that the scanner can write. */
  const ConferenceKeys: set<string> :=
    {"short_name", "full_name", "dates", "location", "full_citation",
     "doi", "year", "copyright_year", "book_title"}

  /** `"full (short), dates, location"`, the derived citation line. */
  function FullCitation(short: string, full: string, dates: string, location: string): string
  {
    full + " (" + short + "), " + dates + ", " + location
  }

  /** The leftmost `\acmConference` command, as its four arguments. */
  function ConferenceArgs(text: string): (r: Option<seq<string>>)
    ensures r.Some? ==> |r.value| == 4
  {
    match Search(AcmConference, text, 0)
    case None => None
    case Some(m) => ConferenceFlat(); Some(m.groups)
  }

  /** The first group of the leftmost match of a one-argument command. */
  function Argument(pat: Pattern, text: string): (r: Option<string>)
    requires Groups(pat) == 1
  {
    match Search(pat, text, 0)
    case None => None
    case Some(m) => Some(m.groups[0])
  }

  lemma OneGroupEach()
    ensures Groups(AcmDoi) == 1 && Groups(AcmYear) == 1
    ensures Groups(CopyrightYear) == 1 && Groups(AcmBooktitle) == 1
  {
  }

  function DoiArg(text: string): Option<string>
  {
    OneGroupEach(); Argument(AcmDoi, text)
  }

  function YearArg(text: string): Option<string>
  {
    OneGroupEach(); Argument(AcmYear, text)
  }

  function CopyrightYearArg(text: string): Option<string>
  {
    OneGroupEach(); Argument(CopyrightYear, text)
  }

  function BooktitleArg(text: string): Option<string>
  {
    OneGroupEach(); Argument(AcmBooktitle, text)
  }

  /** What one scan finds in a text: for each of the five commands, the
      arguments of its leftmost occurrence, if it occurs. */
  datatype Commands = Commands(
    conference: Option<seq<string>>,
    doi: Option<string>,
    year: Option<string>,
    copyrightYear: Option<string>,
    booktitle: Option<string>)

  predicate Shaped(c: Commands)
  {
    c.conference.Some? ==> |c.conference.value| == 4
  }

  function Find(text: string): (c: Commands)
    ensures Shaped(c)
  {
    Commands(ConferenceArgs(text), DoiArg(text), YearArg(text), CopyrightYearArg(text), BooktitleArg(text))
  }

  /** A one-argument command writes its own key, or nothing. */
  function KeyWrite(key: string, arg: Option<string>): map<string, string>
  {
    match arg
    case None => map[]
    case Some(v) => map[key := v]
  }

  /** The fields that the commands found write into the conference record. */
  function Fields(c: Commands): map<string, string>
    requires Shaped(c)
  {
    ConferenceMap(c.conference) + Singles(c)
  }

  /** The writes of the conference command: its four arguments and the
      derived citation line. */
  function ConferenceMap(args: Option<seq<string>>): map<string, string>
    requires args.Some? ==> |args.value| == 4
  {
    match args
    case None => map[]
    case Some(g) =>
      map["short_name" := g[0], "full_name" := g[1], "dates" := g[2], "location" := g[3],
          "full_citation" := FullCitation(g[0], g[1], g[2], g[3])]
  }

  /** The writes of the four one-argument commands. */
  function Singles(c: Commands): map<string, string>
  {
    KeyWrite("doi", c.doi) + KeyWrite("year", c.year)
    + KeyWrite("copyright_year", c.copyrightYear) + KeyWrite("book_title", c.booktitle)
  }

  const ConferenceCommandKeys: set<string> := {"short_name", "full_name", "dates", "location", "full_citation"}
  const SingleCommandKeys: set<string> := {"doi", "year", "copyright_year", "book_title"}

  lemma KeyGroupsDisjoint()
    ensures ConferenceCommandKeys !! SingleCommandKeys
    ensures ConferenceCommandKeys + SingleCommandKeys == ConferenceKeys
  {
  }

  lemma ConferenceMapKeys(args: Option<seq<string>>)
    requires args.Some? ==> |args.value| == 4
    ensures ConferenceMap(args).Keys == if args.Some? then ConferenceCommandKeys else {}
  {
  }

  lemma SinglesKeys(c: Commands)
    ensures Singles(c).Keys <= SingleCommandKeys
  {
  }

  /** The record's nine keys bound everything a scan writes. */
  lemma FieldsKeys(c: Commands)
    requires Shaped(c)
    ensures Fields(c).Keys <= ConferenceKeys
  {
    ConferenceMapKeys(c.conference);
    SinglesKeys(c);
    KeyGroupsDisjoint();
  }

  /** The five conference fields are written exactly when the conference
      command was found ... */
  lemma FieldsConferenceKeys(c: Commands)
    requires Shaped(c)
    ensures var w := Fields(c);
      && ("short_name" in w <==> c.conference.Some?) && ("full_name" in w <==> c.conference.Some?)
      && ("dates" in w <==> c.conference.Some?) && ("location" in w <==> c.conference.Some?)
      && ("full_citation" in w <==> c.conference.Some?)
  {
    ConferenceMapKeys(c.conference);
    SinglesKeys(c);
    KeyGroupsDisjoint();
  }

  /** ... and then hold its four arguments and the citation line derived
      from them. */
  lemma FieldsConferenceValues(c: Commands)
    requires Shaped(c) && c.conference.Some?
    ensures var w, g := Fields(c), c.conference.value;
      && "short_name" in w && "full_name" in w && "dates" in w && "location" in w && "full_citation" in w
      && w["short_name"] == g[0] && w["full_name"] == g[1] && w["dates"] == g[2]
      && w["location"] == g[3] && w["full_citation"] == FullCitation(g[0], g[1], g[2], g[3])
  {
    SinglesKeys(c);
    KeyGroupsDisjoint();
    var s := Singles(c);
    assert "short_name" !in s && "full_name" !in s && "dates" !in s && "location" !in s && "full_citation" !in s;
  }

  /** Each one-argument command writes its own key exactly when it was
      found, with its argument. */
  lemma FieldsSingle(c: Commands)
    requires Shaped(c)
    ensures var w := Fields(c);
      && ("doi" in w <==> c.doi.Some?) && (c.doi.Some? ==> w["doi"] == c.doi.value)
      && ("year" in w <==> c.year.Some?) && (c.year.Some? ==> w["year"] == c.year.value)
      && ("copyright_year" in w <==> c.copyrightYear.Some?)
      && (c.copyrightYear.Some? ==> w["copyright_year"] == c.copyrightYear.value)
      && ("book_title" in w <==> c.booktitle.Some?)
      && (c.booktitle.Some? ==> w["book_title"] == c.booktitle.value)
  {
    ConferenceMapKeys(c.conference);
    KeyGroupsDisjoint();
    SinglesLookup(c);
  }

  /** Within the one-argument writes no command overwrites another's key. */
  lemma SinglesLookup(c: Commands)
    ensures var s := Singles(c);
      && ("doi" in s <==> c.doi.Some?) && (c.doi.Some? ==> s["doi"] == c.doi.value)
      && ("year" in s <==> c.year.Some?) && (c.year.Some? ==> s["year"] == c.year.value)
      && ("copyright_year" in s <==> c.copyrightYear.Some?)
      && (c.copyrightYear.Some? ==> s["copyright_year"] == c.copyrightYear.value)
      && ("book_title" in s <==> c.booktitle.Some?)
      && (c.booktitle.Some? ==> s["book_title"] == c.booktitle.value)
  {
  }

  /** Everything one scan of `text` writes into the conference record. */
  function Writes(text: string): map<string, string>
  {
    Fields(Find(text))
  }

  /** Map union regroups: `a + (b + c)` is `(a + b) + c`. */
  lemma UnionAssoc(a: map<string, string>, b: map<string, string>, c: map<string, string>)
    ensures a + (b + c) == a + b + c
  {
  }

  /** Writing a scan's fields at once is writing each command's fields in
      the order the source tests the commands. */
  lemma WritesInOrder(m: map<string, string>, text: string)
    ensures var c := Find(text);
      m + Writes(text) == m + ConferenceMap(c.conference) + KeyWrite("doi", c.doi) + KeyWrite("year", c.year)
        + KeyWrite("copyright_year", c.copyrightYear) + KeyWrite("book_title", c.booktitle)
  {
    var c := Find(text);
    var a, b, d, e, f := ConferenceMap(c.conference), KeyWrite("doi", c.doi), KeyWrite("year", c.year),
      KeyWrite("copyright_year", c.copyrightYear), KeyWrite("book_title", c.booktitle);
    UnionAssoc(m, a, b + d + e + f);
    UnionAssoc(m + a, b + d + e, f);
    UnionAssoc(m + a, b + d, e);
    UnionAssoc(m + a, b, d);
  }

  /** Whether any command was found: what the scan returns. */
  predicate AnyFound(c: Commands)
  {
    c.conference.Some? || c.doi.Some? || c.year.Some? || c.copyrightYear.Some? || c.booktitle.Some?
  }

  /** All five patterns are of the shape the greedy matcher is exact for. */
  lemma CommandsWellFormed()
    ensures WellFormed(AcmConference) && WellFormed(AcmDoi) && WellFormed(AcmYear)
    ensures WellFormed(CopyrightYear) && WellFormed(AcmBooktitle)
  {
    ConferenceFlat();
  }

  /** The conference pattern piece by piece: four groups, well formed, and
      the classes `[^]]` then three times `[^}]`. */
  lemma ConferenceFlat()
    ensures Groups(AcmConference) == 4 && WellFormed(AcmConference)
    ensures GrabClasses(AcmConference) == [Except(']'), Except('}'), Except('}'), Except('}')]
  {
    var flat := [Lit("\\acmConference["), Grab(Except(']')), Lit("]{"), Grab(Except('}')),
      Lit("}{"), Grab(Except('}')), Lit("}{"), Grab(Except('}')), Lit("}")];
    assert AcmConference == flat;
    assert Groups(flat) == 4 && WellFormed(flat);
    assert GrabClasses(flat) == [Except(']'), Except('}'), Except('}'), Except('}')];
  }

  /** The conference fields come from the leftmost `\acmConference` command
      in the text (`SearchLeftmost`): the matched text is the command with
      those four arguments. */
  lemma ConferenceCommand(text: string)
    requires ConferenceArgs(text).Some?
    ensures var m := Search(AcmConference, text, 0).value;
      var g := ConferenceArgs(text).value;
      && m.start <= m.end <= |text|
      && text[m.start..m.end] ==
         "\\acmConference[" + g[0] + "]{" + g[1] + "}{" + g[2] + "}{" + g[3] + "}"
  {
    SearchRender(AcmConference, text);
    RenderConference(ConferenceArgs(text).value);
  }

  /** The four conference arguments are non-empty; the first holds no `]`
      and the other three no `}`. */
  lemma ConferenceArgsShape(text: string)
    requires ConferenceArgs(text).Some?
    ensures var g := ConferenceArgs(text).value;
      && (forall n :: 0 <= n < 4 ==> |g[n]| > 0)
      && (forall k :: 0 <= k < |g[0]| ==> g[0][k] != ']')
      && (forall k :: 0 <= k < |g[1]| ==> g[1][k] != '}')
      && (forall k :: 0 <= k < |g[2]| ==> g[2][k] != '}')
      && (forall k :: 0 <= k < |g[3]| ==> g[3][k] != '}')
  {
    CommandsWellFormed();
    SearchFacts(AcmConference, text);
    ConferenceFlat();
    var cs := GrabClasses(AcmConference);
    assert cs[0] == Except(']') && cs[1] == Except('}') && cs[2] == Except('}') && cs[3] == Except('}');
  }

  /** The conference pattern laid out with four arguments. */
  lemma RenderConference(g: seq<string>)
    requires |g| == 4
    ensures Render(AcmConference, g) ==
      "\\acmConference[" + g[0] + "]{" + g[1] + "}{" + g[2] + "}{" + g[3] + "}"
  {
    ConferenceSplit(g);
    RenderArgumentsTail(g[2], g[3]);
    Regroup("\\acmConference[", g[0], "]{", g[1], "}{", g[2], "}{", g[3], "}");
  }

  lemma ConferenceSplit(g: seq<string>)
    requires |g| == 4
    ensures Render(AcmConference, g) ==
      "\\acmConference[" + (g[0] + ("]{" + (g[1] + Render(ArgumentsTail, [g[2], g[3]]))))
  {
    RenderTwoPairs("\\acmConference[", Except(']'), "]{", Except('}'), ArgumentsTail, g);
    assert g[2..] == [g[2], g[3]];
  }

  lemma Regroup(l0: string, a: string, l1: string, b: string, l2: string, c: string,
                l3: string, d: string, l4: string)
    ensures l0 + (a + (l1 + (b + (l2 + c + l3 + d + l4)))) == l0 + a + l1 + b + l2 + c + l3 + d + l4
  {
  }

  lemma RenderArgumentsTail(c: string, d: string)
    ensures Render(ArgumentsTail, [c, d]) == "}{" + c + "}{" + d + "}"
  {
    var t := ArgumentsTail;
    assert [c, d][1..] == [d] && [d][1..] == [];
    assert Render(t[4..], []) == "}";
    assert Render(t[3..], [d]) == d + "}";
    assert Render(t[2..], [d]) == "}{" + d + "}";
    assert Render(t[1..], [c, d]) == c + "}{" + d + "}";
  }

  /** The same for a one-argument command `name{arg}`: the argument is the
      non-empty run of class characters between the braces, taken from the
      command's leftmost occurrence. */
  lemma ArgumentCommand(name: string, cls: CharClass, text: string)
    requires |name| > 0 && !InClass(cls, '}')
    requires Search([Lit(name), Grab(cls), Lit("}")], text, 0).Some?
    ensures var pat := [Lit(name), Grab(cls), Lit("}")];
      var m := Search(pat, text, 0).value;
      && |m.groups| == 1
      && m.start <= m.end <= |text|
      && text[m.start..m.end] == name + m.groups[0] + "}"
      && |m.groups[0]| > 0 && (forall k :: 0 <= k < |m.groups[0]| ==> InClass(cls, m.groups[0][k]))
      && (forall j, q, gs :: 0 <= j < m.start && j <= q <= |text| ==> !Spans(pat, text, j, q, gs))
  {
    var pat := [Lit(name), Grab(cls), Lit("}")];
    var tail: Pattern := [Lit("}")];
    var mid: Pattern := [Grab(cls), Lit("}")];
    assert pat[1..] == mid && mid[1..] == tail && tail[1..] == [];
    assert WellFormed(tail) && Groups(tail) == 0 && GrabClasses(tail) == [];
    assert WellFormed(mid) && Groups(mid) == 1 && GrabClasses(mid) == [cls];
    assert WellFormed(pat) && Groups(pat) == 1 && GrabClasses(pat) == [cls];
    SearchLeftmost(pat, text);
    var m := Search(pat, text, 0).value;
    SpansRender(pat, text, m.start, m.end, m.groups);
    SpansGroups(pat, text, m.start, m.end, m.groups);
    assert Render(tail, m.groups[1..]) == "}";
    assert Render(mid, m.groups) == m.groups[0] + "}";
    assert Render(pat, m.groups) == name + m.groups[0] + "}";
  }

  /** The scan reports success exactly when it writes something. */
  lemma FoundIffWrites(c: Commands)
    requires Shaped(c)
    ensures AnyFound(c) <==> Fields(c) != map[]
  {
    var w := Fields(c);
    FieldsKeys(c); FieldsConferenceKeys(c); FieldsSingle(c);
    if c.conference.Some? {
      assert "short_name" in w;
    } else if c.doi.Some? {
      assert "doi" in w;
    } else if c.year.Some? {
      assert "year" in w;
    } else if c.copyrightYear.Some? {
      assert "copyright_year" in w;
    } else if c.booktitle.Some? {
      assert "book_title" in w;
    } else {
      assert forall k :: k in w ==> k in ConferenceKeys;
    }
  }

  /** Empty text holds no command. */
  lemma EmptyTextFindsNothing()
    ensures Find("") == Commands(None, None, None, None, None) && Writes("") == map[]
  {
  }

  /** Scanning the same text again leaves the record as one scan left it. */
  lemma ScanIdempotent(m: map<string, string>, text: string)
    ensures (m + Writes(text)) + Writes(text) == m + Writes(text)
  {
  }

  /** A scan never removes a key, and it changes only the keys of commands
      that occur in the text. */
  lemma ScanFrame(m: map<string, string>, text: string)
    ensures m.Keys <= (m + Writes(text)).Keys
    ensures forall k :: k in m && k !in Writes(text) ==> (m + Writes(text))[k] == m[k]
    ensures forall k :: k in Writes(text) ==> (m + Writes(text))[k] == Writes(text)[k]
  {
  }

  /** Scenario: a text holding `\acmDOI{10.1145/xyz}` yields the DOI field
      `10.1145/xyz`. */
  lemma DoiScenario(t: string)
    requires t == "\\acmDOI{10.1145/xyz}"
    ensures "doi" in Writes(t) && Writes(t)["doi"] == "10.1145/xyz"
  {
    var mid: Pattern := [Grab(Except('}')), Lit("}")];
    var tail: Pattern := [Lit("}")];
    assert AcmDoi[1..] == mid && mid[1..] == tail && tail[1..] == [];
    assert t[0..8] == "\\acmDOI{" && t[8..19] == "10.1145/xyz" && t[19..20] == "}";
    assert Spans(tail, t, 19, 20, []);
    assert Spans(mid, t, 8, 20, ["10.1145/xyz"]);
    assert Spans(AcmDoi, t, 0, 20, ["10.1145/xyz"]);
    CommandsWellFormed();
    MatchComplete(AcmDoi, t, 0, 20, ["10.1145/xyz"]);
    assert DoiArg(t) == Some("10.1145/xyz");
    FieldsSingle(Find(t));
  }
}
