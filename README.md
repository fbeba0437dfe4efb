# Lyricist's Pad — a verified model of the library store, the analyzer and the cleaner

Lyricist's Pad is a browser application for drafting song lyrics. A library
holds songs. Each song holds ordered versions of its lyrics. One song and one
version are "active" at a time. Two text tools work on the lyrics of the
current version:

- the **analyzer** reports counts, repeated three-word phrases, line lengths
  and a keyword tone;
- the **cleaner** applies one of four text rewrites.

This project models those three pieces in Dafny and proves what they promise.

| file | models |
|---|---|
| `wrappers.dfy` | `Option`, standing for the source's `null` / `undefined` |
| `types.dfy` | the records `Version`, `Song` and `AnalysisReport` (`types.ts`) |
| `text.dfy` | the JavaScript string primitives the core uses: `trim` (ECMAScript white space and line terminators), `split`, `join`, and decimal rendering of a count |
| `sorting.dfy` | `Array.prototype.sort` with a `(a, b) => b.k - a.k` comparator (a stable sort into non-increasing key order), `[0]` of that sort, and `slice(0, n)` |
| `analysis.dfy` | `services/analysisService.ts`: `getWords`, `findRepeatedPhrases`, `getBasicTone`, `analyzeLyrics` and the two keyword sets |
| `cleaner.dfy` | the four `action` rules of `CLEANING_ACTIONS` in `components/CleanerView.tsx` |
| `library.dfy` | `App.tsx`: the current song and version resolution, the handlers, the display order and the title trim guard. `LibraryStore` is a class with the fields `songs`, `activeSongId` and `activeVersionId` and one method per handler |
| `scenarios.dfy` | worked examples: the latest of three versions, "love love love hate", and "a b c a b c a b c" |

### How the pieces are modelled

**Loops become methods.** The code that works with a loop is modelled as a
method with a `while` loop:

- `findRepeatedPhrases` fills a dictionary in a `for` loop. The model keeps it
  as an insertion-ordered key list plus a `map`.
- `getBasicTone` increments a `reduce` accumulator.
- `analyzeLyrics` calls both.

Each method is proved equal to a reference function (`RepeatedPhrases`,
`ToneOf`, `Analyze`). The properties the source promises are proved about
those functions as lemmas.

**Display order.** The comparator is `b.k - a.k`. `Array.prototype.sort` is
stable, so equal counts keep the order in which their phrases first appeared
(`Object.entries` lists string keys in insertion order, and a three-word
phrase is never an integer-like key). The model's sort is therefore a stable
insertion sort by descending key.

**Tokenizer.** `getWords` applies `/\b(\w+)\b/g` to the lower-cased text. It
returns the maximal runs of `[A-Za-z0-9_]`. `TokensSpec` characterises those
runs in full: the text is the tokens woven with the gaps between them, every
token is a non-empty word run, and every inner gap is a non-empty run of
non-word characters.

**Store.** Each handler of `App.tsx` is one method of `LibraryStore`:

- `window.confirm` is modelled as a `confirmed: bool` parameter.
- The readings of `Date.now()` (ids and timestamps) are modelled as parameters.
- `Valid()` states the library invariant: song ids are unique, every song has
  at least one version, and version ids are unique within a song.
- `Current()` is the `useMemo` resolution, as positions into the stored
  sequences.

### Behaviour of the code worth knowing

- `selectSong` stores the requested id even when no song has it, and clears
  the active version (App.tsx:31, 38). `SelectSong` does the same.
- Renaming a song or a version with an unknown id is silently a map with no
  match (App.tsx:59, 109). Nothing fails. `handleVersionRename` and
  `handleVersionDelete` still refresh the current song's `updatedAt` when no
  version matches. The model does the same.
- For "a b c a b c a b c" the code reports "a b c" three times, "b c a" twice
  and "c a b" twice. `Scenarios.AbcAnalysis` proves the full result
  `[("a b c", 3), ("b c a", 2), ("c a b", 2)]`.

## Model

| member | source | states |
|---|---|---|
| Text.TrimSpec | components/CleanerView.tsx:14 | `trim` returns a contiguous slice of its input whose dropped prefix and suffix are all white space, and the result starts and ends with a non-white-space character (or is empty) |
| Text.TrimFixpoint | components/CleanerView.tsx:14 | `trim` leaves a string unchanged exactly when it has no white space at either end |
| Text.TrimIdempotent | components/CleanerView.tsx:14 | trimming twice is trimming once |
| Text.TrimEmpty | services/analysisService.ts:62 | `trim` gives `''` exactly for a blank (all white-space) string |
| Text.TrimKeepsOut | components/CleanerView.tsx:14 | trimming introduces no character and never lengthens a string |
| Text.Split | components/CleanerView.tsx:14 | `split(d)` yields at least one piece, and no piece contains `d` |
| Text.JoinSplit | components/CleanerView.tsx:14 | `join(d)` after `split(d)` gives back the original text |
| Text.SplitJoin | components/CleanerView.tsx:14 | `split(d)` after `join(d)` of `d`-free pieces gives back the pieces |
| Text.JoinShorter | components/CleanerView.tsx:14 | joining piecewise shorter pieces gives a text no longer than before |
| Text.NonBlankLines | components/CleanerView.tsx:19 | `filter(line => line.trim() !== '')` keeps an in-order subsequence of the lines, each with a non-blank trim, and keeps every occurrence of a non-blank line: each line value occurs as often as in the input, or not at all when blank |
| Text.NonBlankLinesKeep | services/analysisService.ts:75 | a line is kept exactly when it is one of the input lines and not blank |
| Text.NonBlankLinesFixpoint | components/CleanerView.tsx:19 | the filter leaves the lines unchanged exactly when none is blank |
| Text.NonBlankPieces | services/analysisService.ts:75 | splitting on `'\n'` leaves no non-blank line exactly when the text is blank |
| Text.NatToString | App.tsx:94 | a count renders as a non-empty string of decimal digits, `"0"` only for zero and with no leading zero otherwise |
| Text.NatToStringValue | App.tsx:94 | the rendered digits denote the count itself, so "Version n" names the number n |
| Text.NatToStringInjective | App.tsx:94 | two counts render alike exactly when they are equal |
| Sorting.SortDesc | services/analysisService.ts:36 | the sort with comparator `b.count - a.count` returns a permutation of its input in non-increasing key order |
| Sorting.SortDescStable | services/analysisService.ts:36 | the sort is stable: the elements with any one key appear in their original relative order |
| Sorting.SortDescTies | services/analysisService.ts:36 | input ascending by a rank comes out ordered by key and, within equal keys, by that rank |
| Sorting.MaxIndex | App.tsx:24 | the first position of a maximal key |
| Sorting.SortDescHead | App.tsx:24 | `sort((a,b) => b.k - a.k)[0]` is the first element with a maximal key |
| Sorting.Take | services/analysisService.ts:37 | `slice(0, n)` is the prefix of length `min(n, length)`: the whole input when it is no longer than n, otherwise exactly n elements |
| Sorting.TakeKeeps | services/analysisService.ts:37 | an element of a non-increasing sequence is kept by `slice(0, n)`, or `n` elements are kept, none with a smaller key |
| Analysis.TokensSpec | services/analysisService.ts:14 | the text is its tokens woven with the gaps between them; tokens are non-empty `\w` runs and inner gaps are non-empty non-`\w` runs, so each token is maximal |
| Analysis.TokensOfSpaced | services/analysisService.ts:14 | tokenizing word runs joined by spaces gives back exactly those runs |
| Analysis.TokensNoUpper | services/analysisService.ts:14 | tokens are cut from the text: when the text has no upper-case letter, no token has one |
| Analysis.GetWordsLower | services/analysisService.ts:13-15 | every word is non-empty and made only of `[a-z0-9_]` |
| Analysis.Windows | services/analysisService.ts:26-29 | fewer than 3 words give no window; otherwise there are `length - 2` windows |
| Analysis.Distinct | services/analysisService.ts:30 | the dictionary's keys are exactly the windows, each once |
| Analysis.DistinctInFirstOrder | services/analysisService.ts:30-33 | the keys are listed in first-occurrence order |
| Analysis.FirstIndex | services/analysisService.ts:30-33 | the first position of a phrase, or the length when it is absent |
| Analysis.Frequent | services/analysisService.ts:33-35 | `filter(count > 1)` keeps exactly the keys counted more than once, paired with their counts |
| Analysis.FrequentInOrder | services/analysisService.ts:33-35 | the filter keeps the keys' order |
| Analysis.RankedEntries | services/analysisService.ts:28-36 | every ranked entry has count at least 2, equal to the number of windows that produced its phrase |
| Analysis.RepeatedPhrasesCounts | services/analysisService.ts:26-37 | at most 5 entries; none below 3 words; each count is ≥ 2 and is the phrase's window count; counts are non-increasing |
| Analysis.RankedTies | services/analysisService.ts:33-36 | ranked entries are ordered by count and, for equal counts, by first occurrence |
| Analysis.RepeatedPhrasesTies | services/analysisService.ts:33-37 | reported phrases are distinct, and equal counts keep first-occurrence order |
| Analysis.RepeatedPhrasesTop | services/analysisService.ts:34-37 | any phrase seen at least twice is reported, or five phrases with counts at least its own are |
| Analysis.SumOfTally | services/analysisService.ts:28-31 | the counts of the distinct keys add up to the number of windows |
| Analysis.WindowsTotal | services/analysisService.ts:26-31 | below 3 words there are no windows; otherwise `wordCount - 2` windows, and all counts sum to that number |
| Analysis.FindRepeatedPhrases | services/analysisService.ts:22-38 | the dictionary loop, filter, sort and slice compute `RepeatedPhrases`: at most 5 entries, each count ≥ 2 |
| Analysis.MatchesDisjoint | services/analysisService.ts:5-6 | matches against two disjoint keyword sets add up to the matches of their union, at most the word count |
| Analysis.ToneBound | services/analysisService.ts:45-54 | positive plus negative matches never exceed the number of words |
| Analysis.GetBasicTone | services/analysisService.ts:45-54 | the `reduce` loop counts, independently, the words in each keyword set |
| Analysis.UniqueCountBound | services/analysisService.ts:76 | the number of distinct words is at most the word count, and at least 1 when there are words |
| Analysis.AnalyzeLyrics | services/analysisService.ts:61-87 | the imperative analyzer computes the report `Analyze` |
| Analysis.AnalyzeBlank | services/analysisService.ts:62-72 | the report is all zeros exactly when the lyrics are blank |
| Analysis.AnalyzeCounts | services/analysisService.ts:74-86 | for non-blank lyrics: word count, raw character count, unique words ≤ word count, tone counts bounded by the word count, and the repeated phrases of the words |
| Analysis.AnalyzeLines | services/analysisService.ts:75 | `lineLengths` has `lineCount` entries, each ≥ 1 and equal to its non-blank line's untrimmed length; non-blank lyrics have a line |
| Cleaner.TrimWhitespaceLines | components/CleanerView.tsx:14 | Trim Whitespace keeps the number of lines, each the trimmed original, none with white space at either end |
| Cleaner.TrimWhitespaceIdempotent | components/CleanerView.tsx:14 | Trim Whitespace applied twice equals applied once |
| Cleaner.TrimWhitespaceShorter | components/CleanerView.tsx:14 | Trim Whitespace never lengthens the text |
| Cleaner.KeptLines | components/CleanerView.tsx:19 | every line Remove Empty Lines keeps is newline-free and not blank |
| Cleaner.RemoveEmptyLinesEmpty | components/CleanerView.tsx:19 | Remove Empty Lines returns `""` exactly for blank text |
| Cleaner.RemoveEmptyLinesSpec | components/CleanerView.tsx:19 | otherwise its lines are the non-blank input lines, unchanged and in order |
| Cleaner.RemoveEmptyLinesIdempotent | components/CleanerView.tsx:19 | Remove Empty Lines applied twice equals applied once |
| Cleaner.CollapseSpaces | components/CleanerView.tsx:24 | Collapse Spaces never lengthens the text |
| Cleaner.CollapseRun | components/CleanerView.tsx:24 | a run of one or more spaces becomes one space |
| Cleaner.CollapseAround | components/CleanerView.tsx:24 | a non-space character is kept and splits the collapse into two independent halves |
| Cleaner.CollapseNoDouble | components/CleanerView.tsx:24 | the output has no two adjacent spaces and starts with the input's first character |
| Cleaner.CollapseFixpoint | components/CleanerView.tsx:24 | the text is unchanged exactly when it has no two adjacent spaces |
| Cleaner.CollapseKeepsOthers | components/CleanerView.tsx:24 | the output is a subsequence of the input that keeps every non-space character (tabs and newlines included) in order |
| Cleaner.CollapseSpacesIdempotent | components/CleanerView.tsx:24 | Collapse Spaces applied twice equals applied once |
| Cleaner.RemovePunctuation | components/CleanerView.tsx:29 | the output is no longer than the input and contains none of `. , ? ! ( ) [ ] { } " '` |
| Cleaner.RemovePunctuationSpec | components/CleanerView.tsx:29 | the output is a subsequence of the input with every other character kept as often as in the input |
| Cleaner.RemovePunctuationFixpoint | components/CleanerView.tsx:29 | the text is unchanged exactly when it has no punctuation |
| Cleaner.RemovePunctuationIdempotent | components/CleanerView.tsx:29 | Remove Punctuation applied twice equals applied once |
| Library.FindId | App.tsx:18-21 | `songs.find` and `versions.find` by id give the first position holding the id, or none when no element has it |
| Library.Latest | App.tsx:35 | the version selected by default is one of the song's own, with a maximal `createdAt` |
| Library.DisplayOrder | App.tsx:145 | the song list is shown as a permutation of the songs, most recently updated first |
| Library.DisplayOrderStable | App.tsx:145 | songs with equal `updatedAt` keep their stored order |
| Library.Resolve | App.tsx:17-27 | no current song when the active id matches none; otherwise the version with the active version id; failing that, a version with maximal `createdAt` |
| Library.ResolveDefined | App.tsx:17-27 | in a valid library, a current song always has a current version |
| Library.SubmittedName | App.tsx:191-196 | a blank title is refused; any other is submitted trimmed, non-empty and without white space at either end |
| Library.FilterIdSpec | App.tsx:65 | `filter(s => s.id !== songId)` (and the version filter at App.tsx:121) keeps exactly the elements with another id, in order |
| Library.MapIdAt | App.tsx:59 | with unique ids, `map(x => x.id === id ? f(x) : x)` changes the one element with that id and no other (as at App.tsx:76-82, 98-100 and 108-109) |
| Library.MapIdNone | App.tsx:109 | a map by an id no element has changes nothing |
| Library.FilterIdAt | App.tsx:65 | with unique ids, the filter by an element's id removes exactly that position and keeps the rest in order (also App.tsx:121) |
| Library.SongsWithoutShape | App.tsx:65 | deleting a song keeps the library valid, removing the song's one position or nothing |
| Library.RemoveVersion | App.tsx:116-121 | from a song with two or more versions the filter leaves at least one, with unique ids: the list without the matching version, or unchanged when none matches |
| Library.ReplaceSong | App.tsx:76-86 | replacing one song by one with the same id and a valid version list keeps the library valid and the song lookup unchanged |
| Library.ResolveStable | App.tsx:74-87 | editing a song without changing any version's id or `createdAt` leaves the current song and version where they were |
| Library.LibraryStore.constructor | App.tsx:11-13 | an empty library with nothing selected |
| Library.LibraryStore.SelectSong | App.tsx:30-41 | activates the id; a found song's latest version becomes active and current; a missing song clears the active version and the selection |
| Library.LibraryStore.AddSong | App.tsx:44-55 | prepends exactly one "New Song" holding one empty "Verse 1", leaves the other songs unchanged, and makes both the active selection |
| Library.LibraryStore.RenameSong | App.tsx:58-60 | sets the title and `updatedAt` of the one song with the id; every other song and the selection are unchanged |
| Library.LibraryStore.SaveSongTitle | App.tsx:191-196 | a blank title changes nothing; any other renames the song to the trimmed title, and changes nothing when no song has the id |
| Library.LibraryStore.DeleteSong | App.tsx:63-71 | without confirmation nothing changes; otherwise the song with that id is removed and the others keep their order, and deleting the active song clears both selection ids |
| Library.LibraryStore.ChangeLyrics | App.tsx:74-87 | replaces only the current version's lyrics, verbatim, and refreshes its song's `updatedAt`; nothing changes without a current version; the selection stays |
| Library.LibraryStore.AddVersion | App.tsx:90-103 | appends one version named "Version " + (old count + 1), with the current version's lyrics; the count grows by exactly 1 and the new version is active and current |
| Library.LibraryStore.RenameVersion | App.tsx:106-112 | renames only the matching version of the current song and refreshes that song's `updatedAt`; nothing changes without a current song |
| Library.LibraryStore.SaveVersionName | components/EditorView.tsx:38-43 | a blank name changes nothing; any other renames the version of the current song to the trimmed name, and changes nothing when there is no current song |
| Library.LibraryStore.DeleteVersion | App.tsx:115-132 | a no-op without a current song, with at most one version, or without confirmation; otherwise removes only that id, keeps at least one version, and makes the first remaining version active if the deleted one was; the current version stays defined |
| Library.LibraryStore.RemoveFromSong | App.tsx:118-130 | the confirmed branch of the delete: the filtered versions and refreshed `updatedAt` replace the song, and the new active id is the first remaining version's id (`null` for an empty id) |
| Scenarios.LatestOfThree | App.tsx:35 | among versions created at 100, 300 and 200, the latest is the one created at 300 |
| Scenarios.LoveHate | services/analysisService.ts:74-85 | "love love love hate" has 4 words, 2 distinct, tone (3, 1) |
| Scenarios.AbcWords | services/analysisService.ts:13-15 | "a b c a b c a b c" tokenizes into its nine one-letter words |
| Scenarios.AbcRepeated | services/analysisService.ts:22-38 | its windows repeat as "a b c" ×3, "b c a" ×2 and "c a b" ×2, in that order |
| Scenarios.AbcAnalysis | services/analysisService.ts:61-83 | the analyzer reports exactly those three repeated phrases |

## Left out

- Rendering: the JSX of App.tsx:134-238 and the views `AnalyzerView`, `EditorView` (apart from its rename guard) and `icons` are not modelled. They are presentation only. Their bar widths are floating-point display arithmetic.
- Persistence: `hooks/useLocalStorage.ts` is not part of this model. It stores JSON in browser storage. The store's constructor starts from an empty library, which is also the hook's value when nothing is stored.
- `services/geminiService.ts` is not part of this model. It holds asynchronous placeholders for a remote service.
- The confirmation dialogs and the clock: `window.confirm` is the `confirmed` parameter, and every `Date.now()` reading (ids and timestamps) is a parameter.
- Library.LibraryStore.AddSong: the source takes each id from its own `Date.now()` reading (App.tsx:45, 47), so the ids can equal each other and the ids of existing songs. The model requires a song id that no other song has.
- Library.LibraryStore.AddVersion: the version id is also a `Date.now()` reading (App.tsx:93), so it can equal an existing version id. The model requires a version id that no version of the current song has.
- Library.LibraryStore.Valid: it also asks every song to have a version. A song never loses its last version, and new songs start with one, so `selectSong`'s branch for a song without versions (App.tsx:33, 38) is not reachable from the modelled operations.
- In-place sorting: `versions.sort(...)` at App.tsx:24 and 35 and `songs.sort(...)` at App.tsx:145 reorder the arrays they sort.
  - The model keeps every sequence in its stored order and describes the sorted order by a function (`DisplayOrder`, `Latest`).
  - "The first remaining version" after a delete is therefore the first one in stored order.
  - The order that earlier renders left behind is not tracked.
- Analysis.GetWords: `toLowerCase` is modelled for ASCII letters only, and `\w` is ASCII `[A-Za-z0-9_]`. Other letters have no case mapping in the model.
- Analysis.Analyze: `characterCount` and `lineLengths` count characters, not the UTF-16 code units of JavaScript's `length`. The two differ for characters outside the Basic Multilingual Plane.
- The switch to the editor view in `selectSong` (`setActiveView`, App.tsx:40) is UI state and is not modelled.
- The analyzer's independence of any state holds by construction: `Analyze` is a Dafny function of the lyrics alone. No lemma states it separately.
