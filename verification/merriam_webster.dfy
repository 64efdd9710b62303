/** The response formatter of the Merriam-Webster lookup tool
    (dictionary_integration/merriam_webster_tool.py, `get_definition`): once
    the Collegiate Dictionary reply has been fetched and parsed, the text the
    tool returns is a pure function of the query word and that reply. */
module MerriamWebster {
  import opened Optional
  import opened Text

  /** The `meta` object of an entry; only its `id` field is read. */
  datatype Meta = Meta(id: Option<string>)

  /** One entry record of the reply; only `meta` and `shortdef` are read. */
  datatype Entry = Entry(meta: Option<Meta>, shortdef: Option<seq<string>>)

  /** The parsed reply: a list of spelling suggestions when the word has no
      entry, otherwise a list of entry records. Either list may be empty. */
  datatype Payload = Suggestions(words: seq<string>) | Entries(entries: seq<Entry>)
  {
    function Size(): nat
    {
      match this
      case Suggestions(words) => |words|
      case Entries(entries) => |entries|
    }
  }

  /** How many suggestions are shown. */
  const MaxSuggestions: nat := 5
  /** How many leading entries are examined. */
  const MaxEntries: nat := 3

  function NoResults(word: string): string
  {
    "No results found for '" + word + "'."
  }

  function NoDefinitions(word: string): string
  {
    "No definitions found for '" + word + "'."
  }

  /** `entry.get("shortdef", [])`: a missing list reads as empty. */
  function ShortDefs(e: Entry): seq<string>
  {
    e.shortdef.GetOr([])
  }

  /** An entry yields a line exactly when its short-definition list is non-empty. */
  predicate Contributes(e: Entry)
  {
    |ShortDefs(e)| > 0
  }

  /** `entry.get("meta", {}).get("id", word)`: the id verbatim, or the query word. */
  function EntryId(word: string, e: Entry): string
  {
    match e.meta
    case None => word
    case Some(m) => m.id.GetOr(word)
  }

  /** The line an entry contributes, if any: `<id>: ` then its short
      definitions separated by `; `. */
  function DefinitionLine(word: string, e: Entry): (r: Option<string>)
    ensures r.None? <==> (e.shortdef.None? || e.shortdef.value == [])
    ensures r.Some? && e.meta.Some? && e.meta.value.id.Some? ==>
              r.value == e.meta.value.id.value + ": " + Join("; ", e.shortdef.value)
    ensures r.Some? && (e.meta.None? || e.meta.value.id.None?) ==>
              r.value == word + ": " + Join("; ", e.shortdef.value)
  {
    if Contributes(e) then Some(EntryId(word, e) + ": " + Join("; ", ShortDefs(e))) else None
  }

  /** The lines the loop over `entries` accumulates, in entry order. */
  function DefinitionLines(word: string, entries: seq<Entry>): (lines: seq<string>)
    ensures |lines| <= |entries|
    ensures forall k :: 0 <= k < |lines| ==> |lines[k]| > 0
  {
    if |entries| == 0 then []
    else
      DefinitionLines(word, entries[..|entries| - 1])
        + DefinitionLine(word, entries[|entries| - 1]).ToSeq()
  }

  /** The positions of the contributing entries, in increasing order: an
      independent description of which entries produce a line. */
  function ContributingIndices(entries: seq<Entry>): (idx: seq<nat>)
    ensures forall k :: 0 <= k < |idx| ==> idx[k] < |entries| && Contributes(entries[idx[k]])
    ensures forall k, l :: 0 <= k < l < |idx| ==> idx[k] < idx[l]
    ensures forall j :: 0 <= j < |entries| && Contributes(entries[j]) ==> j in idx
  {
    if |entries| == 0 then []
    else
      var rest := ContributingIndices(entries[..|entries| - 1]);
      if Contributes(entries[|entries| - 1]) then rest + [|entries| - 1] else rest
  }

  /** The text `get_definition` returns for `word` once the reply `data` is
      parsed: never empty, and a suggestion reply always reads as a question.
      Each branch is pinned down by a lemma below: EmptyPayloadMessage,
      SuggestionsMessage, DefinitionsJoined and NoDefinitionsMessage. */
  function GetDefinition(word: string, data: Payload): (r: string)
    ensures |r| > 0
    ensures data.Suggestions? && data.Size() > 0 ==> "Did you mean: " <= r && r[|r| - 1] == '?'
  {
    if data.Size() == 0 then NoResults(word)
    else
      match data
      case Suggestions(words) =>
        "Did you mean: " + Join(", ", Take(words, MaxSuggestions)) + "?"
      case Entries(entries) =>
        var defs := DefinitionLines(word, Take(entries, MaxEntries));
        if |defs| > 0 then Join("\n", defs) else NoDefinitions(word)
  }

  /** The accumulation loop over the first three entries, statement by statement. */
  method CollectDefinitions(word: string, entries: seq<Entry>) returns (defs: seq<string>)
    ensures |defs| <= MaxEntries
    ensures |defs| == |ContributingIndices(Take(entries, MaxEntries))|
    ensures defs == DefinitionLines(word, Take(entries, MaxEntries))
  {
    var window := Take(entries, MaxEntries);
    defs := [];
    var i := 0;
    while i < |window|
      invariant i <= |window|
      invariant defs == DefinitionLines(word, window[..i])
    {
      var entry := window[i];
      var short := ShortDefs(entry);
      if |short| > 0 {
        var entryId := EntryId(word, entry);
        defs := defs + [entryId + ": " + Join("; ", short)];
      }
      assert window[..i + 1][..i] == window[..i];
      i := i + 1;
    }
    assert window[..i] == window;
    LinesAtIndices(word, window);
  }

  // ----- properties of the formatter -----

  /** Line k of the output belongs to the k-th contributing entry: the lines are
      exactly the contributing entries' lines, one each, in entry order. */
  lemma {:induction false} LinesAtIndices(word: string, entries: seq<Entry>)
    ensures |DefinitionLines(word, entries)| == |ContributingIndices(entries)|
    ensures forall k :: 0 <= k < |ContributingIndices(entries)| ==>
              DefinitionLine(word, entries[ContributingIndices(entries)[k]])
                == Some(DefinitionLines(word, entries)[k])
    decreases |entries|
  {
    if |entries| > 0 {
      var init := entries[..|entries| - 1];
      LinesAtIndices(word, init);
      var idx := ContributingIndices(init);
      forall k | 0 <= k < |idx|
        ensures entries[idx[k]] == init[idx[k]]
      {
      }
    }
  }

  /** No line is produced exactly when no entry has short definitions. */
  lemma {:induction false} NoLinesIff(word: string, entries: seq<Entry>)
    ensures DefinitionLines(word, entries) == [] <==>
              forall j :: 0 <= j < |entries| ==> !Contributes(entries[j])
    decreases |entries|
  {
    if |entries| > 0 {
      var init := entries[..|entries| - 1];
      NoLinesIff(word, init);
      if forall j :: 0 <= j < |init| ==> !Contributes(init[j]) {
        forall j | 0 <= j < |entries|
          ensures !Contributes(entries[j]) || j == |entries| - 1
        {
          if j < |init| {
            assert entries[j] == init[j];
          }
        }
      }
    }
  }

  /** An entry without short definitions can be removed without changing the lines. */
  lemma {:induction false} SilentEntryIgnored(word: string, a: seq<Entry>, e: Entry, b: seq<Entry>)
    requires !Contributes(e)
    ensures DefinitionLines(word, a + [e] + b) == DefinitionLines(word, a + b)
    decreases |b|
  {
    if |b| == 0 {
      assert a + [e] + b == a + [e];
      assert (a + [e])[..|a|] == a;
      assert a + b == a;
    } else {
      var b' := b[..|b| - 1];
      assert (a + [e] + b)[..|a + [e] + b| - 1] == a + [e] + b';
      assert (a + b)[..|a + b| - 1] == a + b';
      SilentEntryIgnored(word, a, e, b');
    }
  }

  /** An empty reply gives the "no results" message with the word as given. */
  lemma EmptyPayloadMessage(word: string, data: Payload)
    requires data.Size() == 0
    ensures GetDefinition(word, data) == "No results found for '" + word + "'."
  {
  }

  /** A suggestion reply shows each of its first (at most) five suggestions
      inside `Did you mean: ...?`, preceded by the earlier ones and followed by
      the later ones, each pair separated by `, `. */
  lemma SuggestionAt(word: string, words: seq<string>, i: nat)
    requires i < Min(|words|, MaxSuggestions)
    ensures var n := Min(|words|, MaxSuggestions);
            GetDefinition(word, Suggestions(words)) ==
              "Did you mean: "
              + (if i == 0 then "" else Join(", ", words[..i]) + ", ")
              + words[i]
              + (if i == n - 1 then "" else ", " + Join(", ", words[i + 1..n]))
              + "?"
  {
    var shown := Take(words, MaxSuggestions);
    var n := |shown|;
    var pre := if i == 0 then "" else Join(", ", words[..i]) + ", ";
    var post := if i == n - 1 then "" else ", " + Join(", ", words[i + 1..n]);
    assert Join(", ", shown) == pre + words[i] + post by {
      assert shown[..i] == words[..i];
      assert shown[i + 1..] == words[i + 1..n];
      JoinAt(", ", shown, i);
    }
    SuggestionsMessage(word, words);
    var q := "Did you mean: ";
    assert q + (pre + words[i] + post) + "?" == q + pre + words[i] + post + "?";
  }

  /** A non-empty suggestion reply gives the shown suggestions joined by `, `
      inside `Did you mean: ...?`. */
  lemma SuggestionsMessage(word: string, words: seq<string>)
    requires |words| > 0
    ensures GetDefinition(word, Suggestions(words))
              == "Did you mean: " + Join(", ", Take(words, MaxSuggestions)) + "?"
  {
  }

  /** Suggestions past the fifth never affect the output. */
  lemma SuggestionsTailIgnored(word: string, w1: seq<string>, w2: seq<string>)
    requires Take(w1, MaxSuggestions) == Take(w2, MaxSuggestions)
    ensures GetDefinition(word, Suggestions(w1)) == GetDefinition(word, Suggestions(w2))
  {
  }

  /** Entries past the third never affect the output. */
  lemma EntriesTailIgnored(word: string, e1: seq<Entry>, e2: seq<Entry>)
    requires Take(e1, MaxEntries) == Take(e2, MaxEntries)
    ensures GetDefinition(word, Entries(e1)) == GetDefinition(word, Entries(e2))
  {
  }

  /** When some entry among the first three has short definitions, the output
      is the lines joined by newlines: it starts with the first line, carries
      no header and no trailing newline, and splitting it at newlines gives the
      lines back when none of them holds a newline itself. */
  lemma DefinitionsJoined(word: string, entries: seq<Entry>)
    requires exists j :: 0 <= j < Min(|entries|, MaxEntries) && Contributes(entries[j])
    ensures var defs := DefinitionLines(word, Take(entries, MaxEntries));
            && 0 < |defs| <= MaxEntries
            && GetDefinition(word, Entries(entries)) == Join("\n", defs)
            && defs[0] <= GetDefinition(word, Entries(entries))
            && ((forall k :: 0 <= k < |defs| ==> '\n' !in defs[k]) ==>
                  Split(GetDefinition(word, Entries(entries)), '\n') == defs)
  {
    var window := Take(entries, MaxEntries);
    var j :| 0 <= j < Min(|entries|, MaxEntries) && Contributes(entries[j]);
    assert window[j] == entries[j];
    NoLinesIff(word, window);
    var defs := DefinitionLines(word, window);
    if forall k :: 0 <= k < |defs| ==> '\n' !in defs[k] {
      SplitJoin(defs, '\n');
    }
  }

  /** When the reply has entries but none of the first three has short
      definitions, the output is the "no definitions" message. */
  lemma NoDefinitionsMessage(word: string, entries: seq<Entry>)
    requires |entries| > 0
    requires forall j :: 0 <= j < Min(|entries|, MaxEntries) ==> !Contributes(entries[j])
    ensures GetDefinition(word, Entries(entries)) == "No definitions found for '" + word + "'."
  {
    var window := Take(entries, MaxEntries);
    forall j | 0 <= j < |window|
      ensures !Contributes(window[j])
    {
      assert window[j] == entries[j];
    }
    NoLinesIff(word, window);
  }
}
