# i18n translator — a Dafny model of the translation core

`script.py` is a small desktop tool. It fills a folder of i18n bundles (`en.json`, `sv.json`, …) by
machine-translating one template bundle, and it works with two services. DeepL handles long texts
in the languages it lists. Google Translate handles short texts (fewer than four whitespace-separated
tokens), plus the languages DeepL leaves out. The tool has three modes:

* **plain translation** (`confirm_translation` and `start_translation`):
  - Derive the target languages from the file names.
  - Move the languages DeepL does not list into a deferred list.
  - Show the cost estimate and ask for confirmation.
  - Populate a fresh bundle per language and write it. A language whose bundle comes out empty is
    deferred as well.
  - Offer a Google-only fallback pass over the deferred languages that Google lists
    (`fallback_translation`).
* **cleanup** (`deepL_cleanup_mode`): in every bundle of a DeepL-listed language, re-translate the
  keys whose template text is short, using Google.
* **resume from a key** (`translate_from_key_mode`): re-translate every key from a start key onward
  into the existing bundles. A key is overwritten only by a truthy translation.

The model takes the source's form:
* Each loop of the source is a `method` with a `while` loop. Each is proved equal to a fold
  (a `function` over growing prefixes), or, for the partition loop, to a recursion from the
  iterator index over the shrinking list. The meaning of these functions is stated and proved as
  lemmas.
* Python dicts are insertion-ordered maps (`Dicts.Dict`).
* The folder is a map from file name to what `read_json` finds in the file. The listing is a
  sequence of names.
* The two HTTP services are abstract functions (`Routing.Services`). A failed capability listing is
  the empty set, and a translate call that produces nothing is `None`.
* Each prompt's answer is a parameter of the mode. So is the template as `read_json` finds it: the
  `template` parameter of each mode is not tied to the folder's entry for the template file.

Files:
- `wrappers.dfy`: `Option`.
- `text.dfy`: Python `str.split()`, token counts, `split('.')[0]`, `endswith`, ASCII `upper`/`lower`.
- `seqs.dfy`: list comprehension filters, `list.index`, `list.remove`.
- `dicts.dfy`: ordered dicts.
- `routing.dfy`: provider choice and the provider call.
- `cost.dfy`: `count_characters` and the estimate.
- `bundles.dfy`: the three key loops over one bundle.
- `languages.dfy`: target languages, the DeepL partition loop, the Google targets.
- `session.dfy`: the per-language and per-file loops and the three modes.

The partition loop in `confirm_translation` (script.py:216-220) removes elements from the list it
is iterating over. The model reproduces exactly what Python does:
* The iterator keeps an index, and `list.remove` drops the first occurrence.
* So right after a removal, the next code is never examined and stays a target.
* `Languages.PartitionSkipExample` proves this on one input: `["sv","xx","yy","de"]`, with only
  `SV` supported, keeps `yy` as a target and defers only `xx` and `de`.
* On every list with no two unsupported neighbours, repeated codes included, the loop keeps exactly
  the supported codes and defers exactly the unsupported ones, both in order
  (`Languages.ConfirmPartitionExact`).
* On every list, it is a permutation that defers only unsupported codes.

`translate_text` routes by token count alone and never consults either service's language list.
Of the two routing rules, only the resume loop (script.py:180-183) sends a long text to Google
when DeepL does not list the code. The fallback pass (script.py:97-102) sends every text to Google.

For `{"a": "hello world", "b": "hi"}` over two languages the estimate is (11 + 2) × 2 = 26
(`Cost.CostExample`).

Resume mode compares the first dot part of each file name with the whole template code
(script.py:171-172). With a template code that holds a dot, such as `pt.BR`, the template's own file
`pt.BR.json` has code `pt`, so it is selected and merged into whenever a service lists `pt`
(`Session.ResumeSelectsTemplateFile`). Cleanup compares whole file names and always skips it.

For a fixed template, both rewriting modes are idempotent. Run a second time over the same
listing, with the same template, answers and service results, they change nothing
(`Session.RewrittenFilesIdempotent`). The program re-reads the template file on each run
(script.py:156-157). Cleanup never changes that file, and neither does resume when the template
code has no dot (`Session.TemplateFileUntouched`). So in those cases the second run also sees the
same template. A resume with a dotted template code can rewrite the template file, and then the
second run translates the changed texts.

## Model

| member | source | states |
|---|---|---|
| Text.Split | script.py:26 | every word `split()` returns is a non-empty run of non-whitespace characters; that the runs are maximal is `SplitWord` and `SplitAtSpace` |
| Text.SplitWord | script.py:26 | a non-empty run of non-whitespace characters splits into itself |
| Text.SplitAtSpace | script.py:26 | any one whitespace character separates: the words of `a + [c] + b` are the words of `a` followed by the words of `b`; with `SplitWord` and the empty text this fixes the words as the maximal non-whitespace runs |
| Text.SplitKeepsNonSpace | script.py:26 | concatenating the words gives back exactly the non-whitespace characters of the text, in order |
| Text.SplitJoin | script.py:26 | splitting words joined by single spaces gives back those words, so the token count of a text is its number of words |
| Text.ShortExample | script.py:26 | "hello world" has two tokens, so it counts as short |
| Text.LongExample | script.py:26 | "the quick brown fox" has four tokens, so it does not count as short |
| Text.FirstDotPart | script.py:127 | `split('.')[0]` is a prefix of the name with no dot, followed in the name by a dot unless it is the whole name |
| Routing.TranslateText | script.py:25-39 | `translate_text` calls Google when the text has fewer than four tokens and DeepL with the upper-cased code otherwise |
| Routing.ResumeTranslate | script.py:180-183 | the resume step calls the provider `ResumeRoute` picks: Google if the text is short or DeepL lacks the upper-cased code, otherwise the same provider as `translate_text` |
| Routing.ShortTextGoesToGoogle | script.py:26-27 | a text of fewer than four tokens goes to Google on both paths, whatever DeepL lists |
| Routing.LongTextRouting | script.py:180-183 | a text of four or more tokens goes to DeepL on the plain path, and on the resume path exactly when DeepL lists the upper-cased code |
| Cost.CountCharactersPut | script.py:41-42 | assigning a key changes the character count by the new value's length minus the old one's |
| Cost.SumLengthsUpdate | script.py:41-42 | the sum of value lengths over a key list containing `k` changes by the new length minus the old one when `k` is reassigned |
| Cost.CostExample | script.py:95 | the estimate for `{"a": "hello world", "b": "hi"}` over two languages is 26 |
| Dicts.Dict.Put | script.py:49 | an assignment keeps the dict well formed: the key maps to the new value, every other key keeps its value, an existing key keeps its position and a new key goes last |
| Dicts.EmptyIffNoEntries | script.py:228 | a dict is falsy exactly when it has no entries |
| Seqs.Filter | script.py:91 | a comprehension filter keeps exactly the elements that pass the test and adds none |
| Seqs.FilterConcat | script.py:91 | filtering preserves order: it distributes over concatenation |
| Seqs.IndexOf | script.py:167 | `list.index` returns the position of the first occurrence |
| Seqs.RemoveFirst | script.py:220 | `list.remove` removes one occurrence of the value, and only that one |
| Bundles.PopulatedOver | script.py:44-50 | the populated dict has a key exactly when that key's call returned something, holds that result, and keeps the template's key order |
| Bundles.Populate | script.py:44-50 | the loop of `translate_and_populate` builds exactly `Populated` |
| Bundles.PopulatedKeys | script.py:44-50 | no orphans and no invented keys: the bundle maps exactly the template keys whose call succeeded, each to its result |
| Bundles.PopulatedEmptyIff | script.py:228 | a populated bundle is empty exactly when every call failed |
| Bundles.MergedOver | script.py:178-185 | a key is overwritten only by a truthy translation, every other key keeps its value or stays absent, and existing keys keep their positions |
| Bundles.MergeFrom | script.py:178-185 | the resume loop from the start index builds exactly `Merged` |
| Bundles.MergedKeepsOthers | script.py:178 | keys before the start key, and keys the template lacks, come out unchanged |
| Bundles.MergedIdempotent | script.py:178-185 | merging from the same start key a second time, with the same provider, changes nothing |
| Bundles.MergedOverwrites | script.py:184-185 | from the start key on, a key holds the new translation exactly when that translation is truthy, and keeps its old state otherwise |
| Bundles.ShortKeys | script.py:120 | a key is short exactly when the template has it and its text has fewer than four tokens |
| Bundles.CleanedOver | script.py:134-136 | cleanup keeps the same keys in the same order, reassigns each listed key the bundle has to the call's result (possibly null), and leaves the rest alone |
| Bundles.Cleanup | script.py:134-136 | the cleanup loop over the short keys builds exactly `Cleaned` |
| Bundles.CleanedIdempotent | script.py:134-136 | cleaning a cleaned bundle again with the same provider changes nothing |
| Bundles.CleanedTouchesOnlyShortKeys | script.py:133-136 | cleanup never adds or removes a key, reassigns a present key exactly when its template text is short, and leaves every other key alone |
| Languages.TargetLanguages | script.py:215 | a code is a target exactly when some listed `.json` file other than the template file has it as its first dot part |
| Languages.PartitionUnsupported | script.py:216-220 | the loop computes `ConfirmPartition`, loses and duplicates nothing, and defers only codes whose upper case DeepL does not list |
| Languages.PartitionPermutes | script.py:216-220 | on every list: the two outputs are a permutation of the input, every deferred code is unsupported, and every supported code keeps its multiplicity among the targets |
| Languages.ConfirmPartitionDistinct | script.py:216-220 | on a list without repetitions the loop is `SkipNext`: after a removal, the next code is kept unexamined |
| Languages.UnsupportedAfterRemovalStays | script.py:217-220 | on a list without repetitions, when the first code is deferred, the second stays a target, whatever its support |
| Languages.SkipNextExactWithoutAdjacentUnsupported | script.py:216-220 | with no two adjacent unsupported codes, `SkipNext` (the loop on lists without repetitions) keeps exactly the supported codes and defers exactly the unsupported ones, both in order |
| Languages.ConfirmPartitionExact | script.py:216-220 | on every list with no two adjacent unsupported codes, repetitions included, the loop itself keeps exactly the supported codes and defers exactly the unsupported ones, both in order |
| Languages.PartitionFromExact | script.py:216-220 | the same from any iterator position whose prefix is all supported: each `list.remove` then drops the code under the iterator |
| Languages.PartitionSkipExample | script.py:216-220 | `["sv","xx","yy","de"]` with only `SV` supported gives targets `["sv","yy"]` and deferred `["xx","de"]` |
| Languages.GoogleTargets | script.py:91 | a code is a fallback target exactly when it is deferred and Google lists it |
| Languages.GoogleTargetsKeepOrder | script.py:91 | fallback targets keep the deferred order, and a fully listed deferred list is kept whole |
| Session.FileOfInjective | script.py:229 | distinct languages are written to distinct files |
| Session.LanguageOfFileOf | script.py:127-128 | for a code without a dot, the first dot part of its file name is the code again |
| Session.Written | script.py:228-230 | a pass writes a language's file exactly when its bundle is non-empty, and writes no other file |
| Session.TranslatedDeferred | script.py:231-232 | the languages a pass defers are exactly those whose bundle came out empty, in order |
| Session.TranslatedKeys | script.py:228-230 | a pass adds to the folder exactly the files it writes |
| Session.TranslatedWrites | script.py:228-230 | a language with a non-empty bundle has that bundle in its file afterwards |
| Session.TranslatedKeeps | script.py:229 | a file the pass does not write is left as it was |
| Session.TranslateLanguages | script.py:226-232 | the per-language loop produces exactly `TranslatedAll` |
| Session.EveryLanguageAccountedFor | script.py:226-232 | each language is deferred exactly when its bundle is empty, and otherwise its file holds that bundle |
| Session.FallbackOutcome | script.py:90-96 | the fallback reports no languages exactly when no deferred code is listed by Google; otherwise it reports those codes in order and the estimate for them, and runs exactly when the user confirms |
| Session.FallbackTranslation | script.py:89-107 | the folder changes only when the fallback runs, and then as a Google-only pass over the reported languages |
| Session.StartTranslation | script.py:225-237 | the deferred list is the given one followed by the languages with empty bundles; the fallback is offered exactly when that list is non-empty and a key was entered; the folder is the primary pass, followed by the fallback pass if one ran |
| Session.PlainMode | script.py:198-223 | every cancel path leaves the folder untouched: missing template, unreadable template, no DeepL key, no Google key, in that order; otherwise the targets and deferred codes come from the partition and the estimate is over the targets; a decline writes nothing; a confirmation runs `start_translation` |
| Session.RewrittenFilesMeaning | script.py:126-188 | a rewriting mode changes only selected files with a non-empty bundle, gives each the rewritten bundle, and leaves every other file as it was |
| Session.RewrittenFiles | script.py:126-188 | a rewriting mode neither adds nor removes a file |
| Session.RewriteBundle | script.py:133-185 | one selected file gets the cleanup loop or the merge from the start key |
| Session.RewriteFiles | script.py:170-188 | the per-file loop produces exactly `RewrittenFiles` |
| Session.CleanupMode | script.py:109-138 | with no Google key, or a missing or unreadable template, or no DeepL key, in that order, nothing is written; otherwise every DeepL-listed bundle except the template's is cleaned |
| Session.ResumeMode | script.py:141-190 | a missing key, a missing, unreadable or empty template, or a start key that is empty or not in the template, in that order, writes nothing; otherwise every selected bundle is merged from the start key's index |
| Session.TemplateFileUntouched | script.py:128-129 | cleanup never changes the template file; resume leaves it alone when the template code has no dot |
| Session.ResumeSelectsTemplateFile | script.py:171-172 | resume selects the template's own file exactly when the template code has a dot and a service lists its first dot part |
| Session.ApplyIdempotent | script.py:133-136 | cleaning or merging a bundle a second time gives the bundle the first pass gave |
| Session.RewrittenFilesIdempotent | script.py:170-188 | for a fixed template, running a rewriting mode a second time over its own output, with the same answers and service results, leaves every file as it is |
| Session.CleanupRewritesShortKeysOnly | script.py:130-138 | in a cleaned file, keys keep their order, short keys hold Google's result, and all other keys keep their values |
| Session.ResumeOverwritesFromStart | script.py:178-185 | in a resumed file, keys before the start key are untouched; from it on, a key takes the routed translation exactly when that is truthy |

## Left out

- The Tk window, the folder picker, message boxes and the mode checkboxes: each answer to a prompt is a parameter, and messages are not modelled. Dispatching on the checkboxes (script.py:193-197) is three separate entry methods.
- HTTP transport: both services are abstract functions, a listing that fails is the empty set, and a translate call that yields nothing is `None`. Crashes on a response that is not JSON, or that lacks the expected fields, are not modelled.
- File I/O and JSON formatting: a file is a map entry, and a write replaces the entry. Encoding, indentation and `ensure_ascii` are left out. A language file that holds JSON other than an object is not modelled.
- A missing template in cleanup or resume mode: `read_json` raises `FileNotFoundError` there, which escapes the handler. The model treats it as a cancellation that writes nothing, which is the same effect on the folder.
- `move_to_not_translated_folder` and `select_folder`: nothing in the core calls them.
- `check_language_support` is called again on every pass through the partition loop (script.py:218). The model uses one fixed set, as it would for a service that answers the same way each time.
- `str.upper` and `str.lower` change ASCII letters only. Python's Unicode case mapping is out of scope, and language codes are ASCII.
- Template values are strings. In plain mode a number, boolean or null value crashes `count_characters` (script.py:42), and in cleanup mode the `split()` of script.py:120. A list or object value crashes at the first `split()` that reads it. Resume mode reads only the values from the start key on (script.py:178-179), so such a value before the start key is harmless there. The model cannot represent these templates.
- Bundle values are a string or null. JSON numbers, booleans, lists and objects in a language file, which cleanup and resume carry through unchanged (script.py:133-138, 184-188), cannot be represented.
- A `requests` exception in `translate_text` or `google_translate_text` (script.py:35, 68) is not caught, so it ends a mode midway, after the files of earlier languages were written. Every provider call in the model returns.
- Session.RewrittenFilesIdempotent: the template is an input held fixed across both runs, while the program re-reads it from the folder (script.py:156-157). The lemma is the program's behaviour only when the template file is left alone, which is cleanup, or resume with a template code that has no dot.
- Session.TemplateFileUntouched: for resume mode it holds only when the template code has no dot. With a dotted code the template file is selected and merged into, as `Session.ResumeSelectsTemplateFile` states.
- Languages.TargetLanguages: its contract states membership in both directions and the length bound. Listing order comes from its definition and is not restated.
- Seqs.RemoveFirst: its contract states the length and the multiset. That the first occurrence is the one removed comes from its definition over `IndexOf`.
