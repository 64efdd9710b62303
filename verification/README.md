# Merriam-Webster definition formatter, in Dafny

This project models the response formatter of the LangChain dictionary tool
`get_definition` (dictionary_integration/merriam_webster_tool.py). The tool
fetches the Merriam-Webster Collegiate Dictionary reply for a word. It then
turns the parsed JSON reply into one string, in four ways:

- an empty reply gives `No results found for '<word>'.`;
- a reply whose first element is a string is a list of spelling suggestions,
  and gives `Did you mean: <s1>, ..., <s5>?` with at most the first five;
- otherwise the reply is a list of entry records. Each of the first three
  entries that has a non-empty `shortdef` list gives one line. The line is
  `<meta.id>: ` followed by the short definitions separated by `; `. The
  query word replaces the id when `meta` or `meta.id` is missing.
- the lines are joined by newlines; with no line the result is
  `No definitions found for '<word>'.`

Files:

- `optional.dfy` (module `Optional`): `Option`, for a JSON key that may be absent.
- `text.dfy` (module `Text`): Python's slice `s[:n]` (`Take`), `sep.join` (`Join`),
  one-character `split` (`Split`) and the facts about them.
- `merriam_webster.dfy` (module `MerriamWebster`): the reply datatypes, the
  formatter `GetDefinition`, the entry loop `CollectDefinitions`, and the
  lemmas about them.

The model follows the code as written. The id is used verbatim (`cat:1` stays
`cat:1`), the word is neither trimmed nor checked for emptiness, and there is no
headword, functional label, numbering or header line. The repository's test
file (dictionary_integration/test_merriam_webster_tool.py) expects those
features from a `MerriamWebster` tool class that the modelled file does not
define; where it and `get_definition` disagree, this model follows
`get_definition`.

## Model

| member | source | states |
|---|---|---|
| Text.Take | dictionary_integration/merriam_webster_tool.py:34-36 | A slice `s[:n]` is the prefix of `s` of length min(n, len(s)) |
| Text.Join | dictionary_integration/merriam_webster_tool.py:40-41 | `sep.join(parts)` is empty for no parts; otherwise it starts with the first part and its length is the parts' total length plus one separator per gap |
| Text.JoinConcat | dictionary_integration/merriam_webster_tool.py:41 | Joining `a + b` equals joining `a`, one separator, then joining `b` (both non-empty) |
| Text.JoinAt | dictionary_integration/merriam_webster_tool.py:34 | Every part appears in the joined text, after the join of all earlier parts and before the join of all later ones, with one separator on each side: order and content are kept |
| Text.SplitJoin | dictionary_integration/merriam_webster_tool.py:41 | Lines joined by `\n`, none of them holding a newline, are recovered exactly by splitting at `\n` |
| MerriamWebster.DefinitionLine | dictionary_integration/merriam_webster_tool.py:37-40 | An entry gives no line exactly when `shortdef` is missing or empty; otherwise the line is `<id>: ` plus the short definitions joined by `; `, with the query word replacing the id when `meta` or `meta.id` is missing |
| MerriamWebster.DefinitionLines | dictionary_integration/merriam_webster_tool.py:35-40 | The entry loop produces at most one line per entry examined |
| MerriamWebster.ContributingIndices | dictionary_integration/merriam_webster_tool.py:36-38 | The positions of the entries that produce a line: strictly increasing, in range, each with short definitions, and containing every entry that has some |
| MerriamWebster.CollectDefinitions | dictionary_integration/merriam_webster_tool.py:35-40 | The loop over `data[:3]` appends one line per contributing entry; it yields at most three lines, as many as there are contributing entries among the first three |
| MerriamWebster.LinesAtIndices | dictionary_integration/merriam_webster_tool.py:35-40 | The k-th line produced is the line of the k-th contributing entry: the lines follow entry order, one per contributing entry and nothing else |
| MerriamWebster.NoLinesIff | dictionary_integration/merriam_webster_tool.py:37-41 | No line is produced if and only if none of the examined entries has short definitions |
| MerriamWebster.SilentEntryIgnored | dictionary_integration/merriam_webster_tool.py:37-38 | Inserting or removing an entry without short definitions anywhere in the examined entries leaves the produced lines unchanged |
| MerriamWebster.GetDefinition | dictionary_integration/merriam_webster_tool.py:30-41 | The formatter is total and never returns an empty string, and a non-empty suggestion reply always gives text that starts with `Did you mean: ` and ends with `?`. Four lemmas fix the output for every payload: EmptyPayloadMessage (empty reply), SuggestionsMessage (suggestions), DefinitionsJoined (some examined entry has short definitions) and NoDefinitionsMessage (none has). The helpers ShortDefs (line 37, missing `shortdef` read as empty), Contributes (line 38) and EntryId (line 39, id or query word) are covered by DefinitionLine |
| MerriamWebster.EmptyPayloadMessage | dictionary_integration/merriam_webster_tool.py:30-31 | An empty reply gives exactly `No results found for '<word>'.` with the word unchanged |
| MerriamWebster.SuggestionsMessage | dictionary_integration/merriam_webster_tool.py:32-34 | A non-empty suggestion reply gives `Did you mean: ` plus the shown suggestions joined by `, ` plus `?`, where the shown suggestions are the first at most five |
| MerriamWebster.SuggestionAt | dictionary_integration/merriam_webster_tool.py:34 | Each of the first min(5, n) suggestions appears in the message after exactly the suggestions before it and before exactly the shown suggestions after it, separated by `, `: the original order is kept and no later suggestion appears |
| MerriamWebster.SuggestionsTailIgnored | dictionary_integration/merriam_webster_tool.py:34 | Two suggestion replies that agree on their first five suggestions give the same output |
| MerriamWebster.EntriesTailIgnored | dictionary_integration/merriam_webster_tool.py:36 | Two entry replies that agree on their first three entries give the same output |
| MerriamWebster.DefinitionsJoined | dictionary_integration/merriam_webster_tool.py:41 | When one of the first three entries has short definitions, there are one to three lines, the output is them joined by `\n`, it begins with the first line (no header), and splitting it at newlines gives the lines back when no line holds a newline |
| MerriamWebster.NoDefinitionsMessage | dictionary_integration/merriam_webster_tool.py:41 | An entry reply in which none of the first three entries has short definitions gives exactly `No definitions found for '<word>'.` |

## Left out

- The HTTP request, URL building and status check (dictionary_integration/merriam_webster_tool.py:24-29): network I/O. The formatter takes the parsed reply as a parameter instead.
- The API key read from the environment and its start-up check (lines 12-14): process configuration, not formatting.
- The `except Exception` branch that returns `Error looking up '<word>': <e>` (lines 42-43): its text is the message of exceptions raised by the HTTP library, which is not part of this model.
- Replies that make Python raise inside the `try` and so end in that error branch. Python reads only `data[0]`, then the first five suggestions (line 34) or the first three entries (line 36), and reads `meta` only for an entry with short definitions (line 39). So the error cases include: a record among the first five elements of a suggestion reply; any non-object among the first three elements of an entry reply; a `meta` that is not an object (including `null`) on an entry with short definitions; a non-string among the shown suggestions or among a contributing entry's short definitions. `Payload` is either all suggestions or all entries, `meta` is an object and every other present field is a string or a list of strings. Replies that mix shapes only beyond the part Python reads return normally, and equal a representable `Payload` by SuggestionsTailIgnored and EntriesTailIgnored; a `meta: null` on an entry without short definitions is never read. A `shortdef` that is JSON `null` raises nothing and, like a missing one, gives no line; `None` in `Entry.shortdef` stands for both.
- A `shortdef` sent as a plain string rather than a list: Python would join its characters with `; ` at line 40. `Entry.shortdef` is a list of strings, so this is not modelled.
- Replies that are not JSON arrays (an object, a number): the service returns arrays, so `Payload` has only the two list shapes.
- Non-string `meta.id` values, including JSON `null` (printed as `None`), which Python would format with `str()`: ids are modelled as strings.
- The LLM setup, agent creation, agent invocation and printing (lines 10, 45-70) and dictionary_integration/dictionary_agent_instance.py: orchestration and console I/O with no formatting logic.
- dictionary_integration/test_merriam_webster_tool.py: its tests target a `MerriamWebster` class (`_run`, `_format_api_response`, `_format_definition`) that is not part of this model. Word trimming, the blank-word prompt, numbered alternatives, the `Definition(s) of` header, `hwi.hw` headwords and splitting the id at `:` are therefore not modelled.
