/** The bibliography index that both filters build in `prepare`: one
    display name per BibTeX entry, keyed by the entry's key.  The BibTeX
    parser itself is abstracted as a function from a file name to its
    entries in file order, or to nothing when the file cannot be read or
    parsed. */
module Bibliography {
  import opened Wrappers
  import opened Text
  import opened Pandoc

  /** A person, as the last names the display name is built from. */
  type Person = seq<string>

  /** A parsed entry: its key and, when the entry has them, its author and
      editor lists. */
  datatype Entry = Entry(key: string, author: Option<seq<Person>>, editor: Option<seq<Person>>)

  /** What parsing one file yields: `(key, entry)` pairs in file order, or
      `None` when the parser raised. */
  type ParsedFile = Option<seq<(string, Entry)>>

  /** `' '.join(person.last_names)` */
  function LastNames(p: Person): string
  {
    Join(" ", p)
  }

  /** The name built from a person list: one, two, or "et al." after the
      first; with no person at all `persons[0]` raises and the key is used. */
  function PersonsName(persons: seq<Person>, suffix: string, key: string): string
  {
    if |persons| == 1 then LastNames(persons[0]) + suffix
    else if |persons| == 2 then LastNames(persons[0]) + " and " + LastNames(persons[1]) + suffix
    else if |persons| == 0 then key
    else LastNames(persons[0]) + " et al." + suffix
  }

  /** The list the display name is built from and its suffix: the author
      list if there is one, else the editor list with " (Ed.)". */
  function Chosen(e: Entry): Option<(seq<Person>, string)>
  {
    if e.author.Some? then Some((e.author.value, ""))
    else if e.editor.Some? then Some((e.editor.value, " (Ed.)"))
    else None
  }

  /** `format_author_name`: the name built from the chosen list, else the key. */
  function FormatAuthorName(e: Entry): string
  {
    match Chosen(e)
    case None => e.key
    case Some((ps, suffix)) => PersonsName(ps, suffix, e.key)
  }

  /** The display name by person count: one person gives the joined last
      names, two give "A and B", three or more "A et al." from the first
      person alone, each followed by the chosen list's suffix. */
  lemma NameByCount(e: Entry)
    requires Chosen(e).Some?
    ensures var (ps, suffix) := Chosen(e).value;
      && (|ps| == 1 ==> FormatAuthorName(e) == LastNames(ps[0]) + suffix)
      && (|ps| == 2 ==> FormatAuthorName(e) == LastNames(ps[0]) + " and " + LastNames(ps[1]) + suffix)
      && (|ps| >= 3 ==> FormatAuthorName(e) == LastNames(ps[0]) + " et al." + suffix)
  {
  }

  /** " (Ed.)" is appended exactly when the editor list is used because
      there is no author list. */
  lemma SuffixChoice(e: Entry)
    ensures Chosen(e).Some? ==> (Chosen(e).value.1 == " (Ed.)" <==> e.author.None?)
  {
  }

  /** An editor list gives the same name an author list would, plus " (Ed.)". */
  lemma EditorIsAuthorPlusSuffix(key: string, ps: seq<Person>)
    requires |ps| > 0
    ensures FormatAuthorName(Entry(key, None, Some(ps))) == FormatAuthorName(Entry(key, Some(ps), None)) + " (Ed.)"
  {
  }

  /** The author list wins: with one present, the editor list is never read. */
  lemma AuthorPreferred(e: Entry, editor: Option<seq<Person>>)
    requires e.author.Some?
    ensures FormatAuthorName(e) == FormatAuthorName(e.(editor := editor))
  {
  }

  /** Beyond two persons only the first one counts. */
  lemma EtAlFirstOnly(key: string, ps: seq<Person>, qs: seq<Person>)
    requires |ps| >= 3 && |qs| >= 3 && ps[0] == qs[0]
    ensures FormatAuthorName(Entry(key, Some(ps), None)) == FormatAuthorName(Entry(key, Some(qs), None))
  {
  }

  /** The key is the display name when there is neither list, or when the
      list used is empty. */
  lemma KeyFallback(e: Entry)
    requires Chosen(e).None? || |Chosen(e).value.0| == 0
    ensures FormatAuthorName(e) == e.key
  {
  }

  /** Scenario: `author = Smith, J. and Doe, A.` under key `smith2020`. */
  lemma SmithAndDoe()
    ensures FormatAuthorName(Entry("smith2020", Some([["Smith"], ["Doe"]]), None)) == "Smith and Doe"
  {
  }

  /** The bibliography files named by the `bibliography` metadata: a
      non-empty string is one file, a non-empty list is its items, anything
      else names no file. */
  function BibFiles(meta: Option<MetaValue>): (files: seq<string>)
  {
    if !Truthy(meta) then []
    else match meta.value
      case MetaString(s) => [s]
      case MetaList(items) => items
      case MetaOther(_) => []
  }

  /** A non-empty string names one file, a list names its items in order,
      and an absent, empty or other value names none, so the index is left
      as it was. */
  lemma BibFilesCases(meta: Option<MetaValue>, index: map<string, string>, parse: string -> ParsedFile)
    ensures meta.Some? && meta.value.MetaString? && meta.value.s != "" ==> BibFiles(meta) == [meta.value.s]
    ensures meta.Some? && meta.value.MetaList? ==> BibFiles(meta) == meta.value.items
    ensures !Truthy(meta) || meta.value.MetaOther? ==>
      BibFiles(meta) == [] && Loaded(index, BibFiles(meta), parse) == index
  {
  }

  /** The index after the entries of one file, in order: later entries win. */
  function AddEntries(index: map<string, string>, entries: seq<(string, Entry)>): map<string, string>
  {
    if entries == [] then index
    else
      var last := entries[|entries| - 1];
      AddEntries(index, entries[..|entries| - 1])[last.0 := FormatAuthorName(last.1)]
  }

  /** A file that failed to parse contributes nothing. */
  function AddFile(index: map<string, string>, parsed: ParsedFile): map<string, string>
  {
    match parsed
    case None => index
    case Some(entries) => AddEntries(index, entries)
  }

  /** The index after the files in order: later files win. */
  function Loaded(index: map<string, string>, files: seq<string>, parse: string -> ParsedFile): map<string, string>
  {
    if files == [] then index
    else AddFile(Loaded(index, files[..|files| - 1], parse), parse(files[|files| - 1]))
  }

  /** The loop of `prepare` that parses each file and writes every entry's
      display name into the index. */
  method LoadFiles(index: map<string, string>, files: seq<string>, parse: string -> ParsedFile)
    returns (r: map<string, string>)
    ensures r == Loaded(index, files, parse)
  {
    r := index;
    for i := 0 to |files|
      invariant r == Loaded(index, files[..i], parse)
    {
      assert files[..i + 1][..i] == files[..i];
      var parsed := parse(files[i]);
      if parsed.Some? {
        var entries := parsed.value;
        for j := 0 to |entries|
          invariant r == AddEntries(Loaded(index, files[..i], parse), entries[..j])
        {
          assert entries[..j + 1][..j] == entries[..j];
          r := r[entries[j].0 := FormatAuthorName(entries[j].1)];
        }
        assert entries[..|entries|] == entries;
      }
    }
    assert files[..|files|] == files;
  }

  /** Loading two lists of files is loading the first, then the second. */
  lemma {:induction false} LoadedAppend(index: map<string, string>, a: seq<string>, b: seq<string>, parse: string -> ParsedFile)
    ensures Loaded(index, a + b, parse) == Loaded(Loaded(index, a, parse), b, parse)
    decreases |b|
  {
    if b == [] {
      assert a + b == a;
    } else {
      var b' := b[..|b| - 1];
      assert (a + b)[..|a + b| - 1] == a + b';
      assert (a + b)[|a + b| - 1] == b[|b| - 1];
      LoadedAppend(index, a, b', parse);
    }
  }

  /** A file that fails to parse is skipped: the other files are loaded as
      if it were not listed. */
  lemma FailedFileSkipped(index: map<string, string>, a: seq<string>, f: string, b: seq<string>, parse: string -> ParsedFile)
    requires parse(f).None?
    ensures Loaded(index, a + [f] + b, parse) == Loaded(index, a + b, parse)
  {
    LoadedAppend(index, a + [f], b, parse);
    LoadedAppend(index, a, [f], parse);
    assert Loaded(Loaded(index, a, parse), [f], parse) == Loaded(index, a, parse) by {
      assert [f][..0] == [];
    }
    LoadedAppend(index, a, b, parse);
  }

  /** `entries[j]` is the last entry with key `k`. */
  ghost predicate LastWith(entries: seq<(string, Entry)>, k: string, j: int)
  {
    0 <= j < |entries| && entries[j].0 == k && forall j' :: j < j' < |entries| ==> entries[j'].0 != k
  }

  /** Within one file, the keys after loading are the old keys and the
      keys of the entries ... */
  lemma {:induction false} AddEntriesKeys(index: map<string, string>, entries: seq<(string, Entry)>, k: string)
    ensures k in AddEntries(index, entries) <==>
      k in index || exists j :: 0 <= j < |entries| && entries[j].0 == k
    decreases |entries|
  {
    if entries != [] {
      var n := |entries| - 1;
      var init := entries[..n];
      AddEntriesKeys(index, init, k);
      if exists j :: 0 <= j < n && init[j].0 == k {
        var j :| 0 <= j < n && init[j].0 == k;
        assert entries[j].0 == k;
      }
      if exists j :: 0 <= j < |entries| && entries[j].0 == k {
        var j :| 0 <= j < |entries| && entries[j].0 == k;
        if j < n {
          assert init[j].0 == k;
        }
      }
    }
  }

  /** ... a key holds the name of its last entry ... */
  lemma {:induction false} AddEntriesLast(index: map<string, string>, entries: seq<(string, Entry)>, k: string, j: nat)
    requires LastWith(entries, k, j)
    ensures k in AddEntries(index, entries) && AddEntries(index, entries)[k] == FormatAuthorName(entries[j].1)
    decreases |entries|
  {
    var n := |entries| - 1;
    if j < n {
      var init := entries[..n];
      assert LastWith(init, k, j);
      AddEntriesLast(index, init, k, j);
    }
  }

  /** ... and a key that no entry carries keeps its old value. */
  lemma {:induction false} AddEntriesKeeps(index: map<string, string>, entries: seq<(string, Entry)>, k: string)
    requires k in index
    requires forall j :: 0 <= j < |entries| ==> entries[j].0 != k
    ensures k in AddEntries(index, entries) && AddEntries(index, entries)[k] == index[k]
    decreases |entries|
  {
    if entries != [] {
      var n := |entries| - 1;
      var init := entries[..n];
      assert forall j :: 0 <= j < n ==> init[j] == entries[j];
      AddEntriesKeeps(index, init, k);
    }
  }

  /** Whether a parsed file has an entry with key `k`. */
  ghost predicate Mentions(parsed: ParsedFile, k: string)
  {
    parsed.Some? && exists j :: 0 <= j < |parsed.value| && parsed.value[j].0 == k
  }

  /** Files that do not mention a key leave it as it was. */
  lemma {:induction false} LoadedUntouched(index: map<string, string>, files: seq<string>, parse: string -> ParsedFile, k: string)
    requires k in index
    requires forall i :: 0 <= i < |files| ==> !Mentions(parse(files[i]), k)
    ensures k in Loaded(index, files, parse) && Loaded(index, files, parse)[k] == index[k]
    decreases |files|
  {
    if files != [] {
      var n := |files| - 1;
      LoadedUntouched(index, files[..n], parse, k);
      var before := Loaded(index, files[..n], parse);
      match parse(files[n])
      case None =>
      case Some(entries) =>
        AddEntriesKeeps(before, entries, k);
    }
  }

  /** Last file wins: a key holds the name of its last entry in the last
      successfully parsed file that has it. */
  lemma LastFileWins(index: map<string, string>, files: seq<string>, parse: string -> ParsedFile, k: string, i: nat, j: nat)
    requires i < |files| && parse(files[i]).Some? && LastWith(parse(files[i]).value, k, j)
    requires forall i' :: i < i' < |files| ==> !Mentions(parse(files[i']), k)
    ensures k in Loaded(index, files, parse)
    ensures Loaded(index, files, parse)[k] == FormatAuthorName(parse(files[i]).value[j].1)
  {
    var a, b := files[..i + 1], files[i + 1..];
    assert files == a + b;
    LoadedAppend(index, a, b, parse);
    assert a[..i] == files[..i];
    var mid := Loaded(index, a, parse);
    AddEntriesLast(Loaded(index, files[..i], parse), parse(files[i]).value, k, j);
    forall i' | 0 <= i' < |b| ensures !Mentions(parse(b[i']), k) {
      assert b[i'] == files[i + 1 + i'];
    }
    LoadedUntouched(mid, b, parse, k);
  }
}
