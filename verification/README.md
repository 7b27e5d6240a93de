# MinLib: case-insensitive dictionary, path and line helpers, list filter

A Dafny model of the sequential core of MinLib, a small C# utility library:

- `CaseInsensitiveDictionary<TValue>` (`case_insensitive_dictionary.dfy`, module `Collection`):
  a string-keyed dictionary built on `StringComparer.OrdinalIgnoreCase`, with
  `TryGetKey`, `TryRemove` and `FilterKey`. It is a class whose state is a map
  from the folded key to the key as first stored (its original casing) and
  its value. `Valid()` is the comparer's invariant: every entry sits under the fold of
  its own key, so stored keys are pairwise distinct ignoring case. The spec
  functions `Assign`, `Without`, `RemovedValue` and `Filtered` give the new
  state of each method, and the lemmas about them are proved.
  C#'s `TValue` enters through two constants of the object: `Default`
  (`default(TValue)`) and `IsNull` (the test `v == null`). `IsNull` is
  constantly false for a non-nullable value type such as `int`.
- The string logic of `IOUtility` (`io_utility.dfy`): the file-name
  normalisation of `FileFullPath`, the leading-backslash strip of
  `GetAbsolutePath`, and the line filter of `ReadText`. `Path.Combine`,
  `Path.GetFullPath`, the application root and `File.ReadLines` are parameters.
- `ListExtension.Filter` (`list_extension.dfy`): an order-preserving filter.
- `strings.dfy` holds the string primitives these use: ordinal ignore-case
  comparison (`Fold`, `EqualsIgnoreCase`, `EndsWithIgnoreCase`),
  `char.IsWhiteSpace` and `string.Trim`.

Where the source's comments and its code disagree, the model follows the
code. The doc comment of `ReadText` (MinLib/Utility/IOUtility.cs:106) says that lines
starting with `#` are ignored. The code drops only blank lines, and so does the
model (`IOUtility.NonBlankLinesKeepsComments`).

## Model

| member | source | states |
|---|---|---|
| `Collection.StoredKeysDistinct` | MinLib/Collection/CaseInsensitiveDictionary.cs:9-22 | under the comparer's invariant, two stored keys are equal ignoring case iff they are the same key |
| `Collection.CaseInsensitiveDictionary.constructor` | MinLib/Collection/CaseInsensitiveDictionary.cs:9-12 | the parameterless constructor gives an empty dictionary that satisfies the ignore-case invariant |
| `Collection.CaseInsensitiveDictionary.FromPairs` | MinLib/Collection/CaseInsensitiveDictionary.cs:14-22 | the copy constructors succeed iff the given keys are pairwise distinct ignoring case (a duplicate makes `Add` throw); on success the result is fresh, satisfies the invariant and holds exactly the stored pairs |
| `Collection.PairsEntriesStep` | MinLib/Collection/CaseInsensitiveDictionary.cs:14-22 | adding one more pair extends the entries by that pair, and its key is already present ignoring case iff the keys so far plus it stop being distinct |
| `Collection.PairsEntriesAt` | MinLib/Collection/CaseInsensitiveDictionary.cs:14-22 | when the keys are distinct ignoring case, every pair is stored with its key casing and value unchanged |
| `Collection.Assign` | MinLib/Collection/CaseInsensitiveDictionary.cs:47 | the indexer setter keeps the invariant, stores the value under the key, keeps the casing of a key already present ignoring case, and leaves every other entry unchanged |
| `Collection.CaseInsensitiveDictionary.SetItem` | MinLib/Collection/CaseInsensitiveDictionary.cs:47 | the indexer setter keeps `Valid()` and its new state is `Assign` of the old one |
| `Collection.CaseInsensitiveDictionary.TryGetKey` | MinLib/Collection/CaseInsensitiveDictionary.cs:24-28 | returns true iff some stored key equals the query ignoring case; the key it gives back is then that stored key in its original casing (the only match), and otherwise it is null (`None`); the dictionary is only read |
| `Collection.Without` | MinLib/Collection/CaseInsensitiveDictionary.cs:33-36 | after removal no stored key equals the removed key ignoring case, the invariant holds, and every other entry keeps its key and value |
| `Collection.RemovedValue` | MinLib/Collection/CaseInsensitiveDictionary.cs:32-35 | the value handed back is the stored value when a stored key matches ignoring case, and `default(TValue)` when none does |
| `Collection.CaseInsensitiveDictionary.TryRemove` | MinLib/Collection/CaseInsensitiveDictionary.cs:30-39 | removes the matching entry (`Without`), hands back `RemovedValue`, and returns whether that value is non-null, not whether an entry was removed |
| `Collection.TryRemoveNullValueReportsFalse` | MinLib/Collection/CaseInsensitiveDictionary.cs:35-38 | a present entry whose value is null is removed, yet `TryRemove` returns false |
| `Collection.TryRemoveAbsentNullableReportsFalse` | MinLib/Collection/CaseInsensitiveDictionary.cs:32-38 | for a reference or nullable `TValue`, an absent key leaves the dictionary unchanged and returns false |
| `Collection.TryRemoveAbsentValueTypeReportsTrue` | MinLib/Collection/CaseInsensitiveDictionary.cs:32-38 | for `int` values, an absent key leaves the dictionary unchanged and yet returns true, because `0 != null` |
| `Collection.TryRemoveFound` | MinLib/Collection/CaseInsensitiveDictionary.cs:30-39 | the corrected report: true iff a stored key matched ignoring case, equivalently iff removal shrank the dictionary by one, and false iff it left it unchanged |
| `Collection.TryRemoveReportAgreesWhenNonNull` | MinLib/Collection/CaseInsensitiveDictionary.cs:35-38 | for a reference or nullable `TValue` whose matching entry (if any) holds a non-null value, the written report and the corrected one agree |
| `Collection.Filtered` | MinLib/Collection/CaseInsensitiveDictionary.cs:44-48 | the filtered entries keep the invariant, are a subset of the receiver's (same keys, same values), and contain an entry exactly when its stored key satisfies the condition |
| `Collection.FilteredStoredKeys` | MinLib/Collection/CaseInsensitiveDictionary.cs:44-48 | the filtered dictionary's keys are exactly the receiver's keys that satisfy the condition, casing kept |
| `Collection.CaseInsensitiveDictionary.FilterKey` | MinLib/Collection/CaseInsensitiveDictionary.cs:41-50 | returns a fresh dictionary, with the same `TValue`, that satisfies the ignore-case invariant and holds `Filtered` of the receiver; the receiver is not modified |
| `IOUtility.WithExtension` | MinLib/Utility/IOUtility.cs:156-158 | the normalised name always ends with the extension ignoring case and starts with the name; it equals the name iff the name already ends with the extension ignoring case, and otherwise it is the name followed by `.` and the extension |
| `IOUtility.WithExtensionIdempotent` | MinLib/Utility/IOUtility.cs:156-158 | normalising twice equals normalising once |
| `IOUtility.WithExtensionExamples` | MinLib/Utility/IOUtility.cs:156-158 | `notestxt` with `txt` is left as is because no dot is needed; `NOTES.TXT` is left as is; `notes` becomes `notes.txt` and `data.json` becomes `data.json.txt` |
| `IOUtility.FileFullPath` | MinLib/Utility/IOUtility.cs:154-161 | a name already ending with the extension is combined with the root unchanged |
| `IOUtility.FileFullPathSameFile` | MinLib/Utility/IOUtility.cs:154-161 | a bare name and the name with `.extension` appended resolve to the same path |
| `IOUtility.StripLeadingBackslash` | MinLib/Utility/IOUtility.cs:28 | the result is the path or the path minus one leading `\`; it is shorter exactly when the path starts with `\` |
| `IOUtility.StripLeadingBackslashExamples` | MinLib/Utility/IOUtility.cs:28 | only one backslash of `\\server\share` is removed; a path without a leading backslash, and the empty path, are unchanged |
| `IOUtility.GetAbsolutePath` | MinLib/Utility/IOUtility.cs:26-30 | a path without a leading backslash is combined and made full unchanged |
| `IOUtility.GetAbsolutePathIgnoresOneBackslash` | MinLib/Utility/IOUtility.cs:28-29 | a path with one leading backslash resolves like the path without it |
| `Strings.TrimEmptyIffBlank` | MinLib/Utility/IOUtility.cs:113 | `Trim()` yields the empty string exactly for strings made only of white space |
| `IOUtility.NonBlankLines` | MinLib/Utility/IOUtility.cs:112-113 | every line kept has a character other than white space |
| `IOUtility.NonBlankLinesExact` | MinLib/Utility/IOUtility.cs:112-113 | each non-blank line is kept as many times as it occurs and each blank line is dropped, in the original order (a subsequence) |
| `IOUtility.NonBlankLinesKeepsComments` | MinLib/Utility/IOUtility.cs:104-113 | a line starting with `#` is kept, although the doc comment says it is ignored |
| `IOUtility.ReadText` | MinLib/Utility/IOUtility.cs:109-114 | the lines returned are non-blank, and there are no more of them than lines in the `txt` file the name resolves to |
| `ListExtension.Filter` | MinLib/Extension/ListExtension.cs:5-8 | every element of the result satisfies the condition, and the result is no longer than the input |
| `ListExtension.FilterIsSubsequence` | MinLib/Extension/ListExtension.cs:7 | the result is a subsequence of the input: the relative order is kept |
| `ListExtension.FilterMultiplicity` | MinLib/Extension/ListExtension.cs:7 | an element satisfying the condition occurs in the result as often as in the input; any other element does not occur |
| `ListExtension.FilterMembership` | MinLib/Extension/ListExtension.cs:7 | an element is in the result iff it is in the input and satisfies the condition |
| `ListExtension.FilterIdempotent` | MinLib/Extension/ListExtension.cs:7 | filtering twice with the same predicate equals filtering once |

## Left out

- `AsyncExtension.ForEachAsync` and `AsyncUtility.WhenAll` (MinLib/Extension/AsyncExtension.cs, MinLib/Utility/AsyncUtility.cs): these are concurrent task orchestration (`Task.Run`, `Task.WhenAll`, `Partitioner`, `lock`, continuations). The model has no concurrency.
- The file and JSON operations of `IOUtility` are file-system I/O or `System.Text.Json` calls, and are not modelled: `Create`, `CreateAndWriteLines`, `CopyFile`, `WriteText`, `ReadJson`, `WriteJson`, `DeserializeJson`, `DeserializeJsonAsync`, `CreateParentFolder`, `GetFilesWithExtension` and the `ApplicationRoot` lookup. `ReadText` takes its file reader as a parameter.
- `ApplicationFolder` and `GetRelativePath` only pass their arguments to `Path.GetFullPath`, `Path.Combine` and `Path.GetRelativePath`. Those are .NET library functions, so they are not modelled. `Path.Combine` and `Path.GetFullPath` are parameters wherever the model uses them.
- MinLib/Utility/ConsoleLog.cs (console colours), MinLib/Utility/Git.cs (an external process runner) and MinLib/Utility/Timer.cs (a wall-clock stopwatch) are not part of this model.
- `CaseInsensitiveHashSet` has no logic of its own; it only selects the comparer for `HashSet<string>`.
- `Strings.FoldChar` folds the ASCII letters only. .NET's ordinal ignore-case comparison upper-cases every UTF-16 code unit with the invariant simple mapping. The dictionary and path properties hold for any fold; only the concrete example lemmas rely on this one.
- Null arguments (a null key, name, path, condition or source dictionary) throw `ArgumentNullException` or `NullReferenceException` in C#. The model's strings and functions are never null.
- `path.StartsWith("\\")` in `GetAbsolutePath` is a culture-sensitive comparison, which can skip ignorable characters. The model compares the first character ordinally.
- A `Dictionary`'s enumeration order is not modelled: the state is a map. `TryGetKey` takes the first matching key in enumeration order, but at most one key can match, so the order does not change its result. `FilterKey` builds the same map whatever order it visits the entries in.
- Of the inherited `Dictionary` API, only what the core uses is modelled: the indexer setter (`SetItem`), the adds done by the copy constructors (`FromPairs`), and the lookup and removal inside `TryRemove`.
- `Collection.CaseInsensitiveDictionary.FromPairs`: an exception is modelled as `None`. The two copy constructors, from an `IDictionary` and from a sequence of pairs, are one method taking the pairs in enumeration order.

## Findings

| source | as written | input that shows it | evidently intended | confidence | as-written member | corrected member |
|---|---|---|---|---|---|---|
| MinLib/Collection/CaseInsensitiveDictionary.cs:32-38 | `TryRemove` returns `value != null`, with `value` set to `default(TValue)` when the key is absent | a `CaseInsensitiveDictionary<int>` without the key `"x"`: `TryRemove("x", out v)` returns true with `v == 0`, because an `int` is never null, although nothing was removed | true iff an entry matching the key ignoring case was found and removed | high (not executed) | `Collection.TryRemoveAbsentValueTypeReportsTrue` | `Collection.TryRemoveFound` |
