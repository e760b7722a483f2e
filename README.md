# Photo-export cleanup: the file-selection passes

This project models the file-selection pipeline of `photos_clean.py`. For the
file names of one directory, `clean_folder` runs three passes in a fixed order.
Each pass returns the names it keeps and the list of names it removed.

1. `remove_json_files` drops every sidecar name ending in `.json`.
2. `remove_duplicate_files` visits each name that holds a `(digits)` marker and
   deletes all markers from it. When the resulting unnumbered name is still in
   the list at that moment, the pass removes the numbered name from the list in
   place.
3. `remove_unwanted_hyphenated_files` reads a hyphen tag with the regular
   expression `-(\D+)\.` and groups the names by tag. Tag by tag, in order of
   first appearance, it then does one of three things:
   - keeps the group (`MOVIE`, `PANO`);
   - removes the group (`TWINKLE`, `SNOW`, `edited`, `PANO-edited`);
   - prompts once and keeps the group only when the answer lower-cases to `y`.

`clean_folder` collects the three removed lists, in order, into `files_to_remove`.

The project has three modules:
- `Sequences` models Python's `list.remove` (`RemoveFirst`) and a run of such
  calls (`RemoveEach`).
- `NamePatterns` models the name tests:
  - the `.json` suffix;
  - the search and substitution of `\(\d+\)` (`HasNumber`, `StripNumbers`);
  - the search for `-(\D+)\.` (`HyphenTag`), proved to be the leftmost-longest
    match;
  - the reading of the console answer (`IsYes`).
- `PhotosClean` models the passes and their composition.

The Python list that the duplicate and hyphen passes receive, shrink with
`.remove` and hand back is the class `NameList`. Iterating a Python `set` picks
an arbitrary element (`:|`). The console `input()` is the parameter
`ask: string -> string`, which gives the answer to the prompt for a tag. The
hyphen pass returns the tags it prompted for as `prompted`.

Three facts about the code that the model keeps:
- The duplicate pass tests the unnumbered name against the list it is
  shrinking (`files` and `files_to_keep` are the same list), not against the
  directory's names. A name removed earlier in the loop no longer counts as a
  base.
- The hyphen tag comes from the leftmost `-` that starts a match. From that
  `-`, the tag is the longest run of non-digits that is followed by a `.`.
  So `x-PANO-edited.jpg` has tag `PANO-edited`
  (`NamePatterns.HyphenTagExample`).
- `files_to_remove` holds three lists, one per pass, in pass order.

## Model

| member | source | states |
|---|---|---|
| NamePatterns.EndsWith | photos_clean.py:38 | `str.endswith`; `NamePatterns.JsonNameIff` shows that, for `.json`, it holds exactly for names of the form text followed by the suffix. |
| NamePatterns.IsJsonName | photos_clean.py:38 | `file_name.endswith('.json')`; `NamePatterns.JsonNameIff` shows it holds exactly for names of the form text followed by `.json`. |
| NamePatterns.JsonNameIff | photos_clean.py:38 | A name ends in `.json` exactly when it is some text followed by `.json`. |
| PhotosClean.RemoveJsonFiles | photos_clean.py:32-40 | The kept names are exactly the input names not ending in `.json`, and the removed names are exactly those that do. Each side holds every name as often as the input does. Together the two sides make up the input. |
| PhotosClean.NonJsonNames | photos_clean.py:38 | The keep comprehension, in input order; `PhotosClean.NonJsonNamesCount` gives its count of every name. |
| PhotosClean.NonJsonNamesCount | photos_clean.py:38 | The keep comprehension holds every name not ending in `.json` as often as the input does, and no `.json` name. |
| PhotosClean.NamesNotIn | photos_clean.py:39 | The removed comprehension, in input order; `PhotosClean.NamesNotInCount` gives its count of every name. |
| PhotosClean.NamesNotInCount | photos_clean.py:39 | The removed comprehension holds every input name missing from the kept list as often as the input does, and no other name. |
| PhotosClean.NameList.Remove | photos_clean.py:59 | `list.remove` is called only on a name in the list. It deletes that name's first occurrence and changes nothing else. |
| Sequences.RemoveFirst | photos_clean.py:59 | `list.remove` on a present name: the list is one shorter and loses exactly one copy of the name; `Sequences.RemoveFirstAt` shows the copy is the first one. |
| Sequences.RemoveFirstAt | photos_clean.py:59 | Putting the removed name back where its first occurrence stood restores the original list. No earlier occurrence exists. |
| Sequences.RemoveEach | photos_clean.py:59 | A run of `list.remove` calls in order (also photos_clean.py:93-95 and 102-104); `Sequences.RemoveEachCount` gives the count of every name left. |
| Sequences.RemoveEachCount | photos_clean.py:59 | After a run of `list.remove` calls, each name is left as often as it occurred, less the number of times it was removed. |
| Sequences.RemoveEachAppend | photos_clean.py:93-95 | Removing the names of `r + g` is removing those of `r`, then those of `g`. |
| NamePatterns.HasNumber | photos_clean.py:54 | `re.search(r'\(\d+\)', name)` succeeds; `NamePatterns.HasNumberIffContains` shows it holds exactly when a substring is a `(digits)` marker. |
| NamePatterns.IsDigit | photos_clean.py:54 | `\d` (also `\D` at photos_clean.py:82), restricted to the ASCII digits; its use is characterized through `NamePatterns.HasNumberIffContains` and `NamePatterns.HyphenTagIsSearchMatch`. |
| NamePatterns.NumberMatch | photos_clean.py:54-56 | One attempt of `\(\d+\)` at the front of a name: a found length is always a whole marker, and `NamePatterns.NumberMatchComplete` shows a marker at the front is always found at its exact length. |
| NamePatterns.NumberMatchComplete | photos_clean.py:54 | A `(digits)` match at the front of a name is always found, and no other match starts there. |
| NamePatterns.HasNumberIffContains | photos_clean.py:54 | `re.search(r'\(\d+\)', name)` succeeds exactly when some substring of the name is `(`, one or more ASCII digits, `)`. |
| NamePatterns.StripNumbers | photos_clean.py:56 | The substitution leaves a name without a marker unchanged, and makes a name with a marker strictly shorter. `StripNumbersAtMarker`, `StripNumbersKeeps` and `StripNumbersKeepsParen` together fix its result on every name, one front character or marker at a time. |
| NamePatterns.StripNumbersAtMarker | photos_clean.py:56 | A `(digits)` marker at the front of a name is deleted, and the substitution goes on right after it. |
| NamePatterns.StripNumbersKeeps | photos_clean.py:56 | A front character other than `(` is kept, and the substitution goes on right after it. |
| NamePatterns.StripNumbersKeepsParen | photos_clean.py:56 | A front `(` that starts no marker is kept, and the substitution goes on right after it. |
| NamePatterns.StripNumbersParenNonDigit | photos_clean.py:56 | A `(` followed by a non-digit starts no marker, so it is kept. |
| NamePatterns.StripNumbersNested | photos_clean.py:56 | In `c((1)tail)`, only the inner `(1)` is deleted, which leaves `c(tail`. |
| NamePatterns.StripNumbersNestedExample | photos_clean.py:56 | `x((1)1)` becomes `x(1)`, a name that is numbered again. |
| NamePatterns.NoParenNoNumber | photos_clean.py:54-56 | A name without `(` has no marker, and the substitution leaves it unchanged. |
| NamePatterns.StripNumbersMarker | photos_clean.py:56 | A marker after a prefix with no `(` is deleted and the prefix is kept; the substitution then continues on the rest. |
| NamePatterns.NumberedCopy | photos_clean.py:54-56 | For any base and extension without `(`, `base(1)ext` has a marker and becomes `baseext`, which has none. |
| NamePatterns.StripNumbersExample | photos_clean.py:54-56 | `img(1).jpg` has a marker and becomes `img.jpg`; `img.jpg` has none. |
| PhotosClean.RemoveDuplicateFiles | photos_clean.py:42-61 | The returned list is the input list itself, shrunk in place by one `list.remove` per removed name. Each removed name occurs once and holds a `(digits)` marker. When a name was removed, its unnumbered form was still in the list. Every numbered name that was kept has no unnumbered form in the final list. |
| PhotosClean.DuplicateLoopRemove | photos_clean.py:57-59 | A visited name whose unnumbered form is in the list is itself in the list, so `list.remove` succeeds. Removing it keeps the loop invariant. |
| PhotosClean.DuplicateLoopSkip | photos_clean.py:57 | A visited name whose unnumbered form is missing leaves the list unchanged and keeps the loop invariant. |
| PhotosClean.DuplicateLoopEnd | photos_clean.py:54-61 | Once every numbered name has been visited, each removed name is numbered. Each numbered name not removed has no unnumbered form left in the list. |
| PhotosClean.BaseWasPresentIn | photos_clean.py:57 | The unnumbered form of every removed name is a name of the pass's input. |
| PhotosClean.DuplicateExampleRemoved | photos_clean.py:45-46 | On `[img.jpg, img(1).jpg]`, the pass's postcondition forces the removed list to be `[img(1).jpg]`, whatever the visit order. |
| PhotosClean.DuplicateExampleKept | photos_clean.py:45-46 | On `[img(1).jpg]` alone, the pass's postcondition forces the removed list to be empty. |
| PhotosClean.DuplicateExamples | photos_clean.py:42-61 | Running the duplicate pass on `[img.jpg, img(1).jpg]` removes `[img(1).jpg]` and keeps `[img.jpg]`; on `[img(1).jpg]` it removes nothing. |
| NamePatterns.HyphenTag | photos_clean.py:82-85 | The tag of a name, or none when the search fails; `NamePatterns.HyphenTagIsSearchMatch` and `NamePatterns.HyphenTagOfSearchMatch` show it is the group of the leftmost-longest match of `-(\D+)\.`. |
| NamePatterns.NonDigitRunEndIsRunEnd | photos_clean.py:82 | The greedy `\D+` run ends at the first digit or at the end of the name. |
| NamePatterns.LastDotIsLast | photos_clean.py:82 | The backtracking of `\D+` stops at the last `.` of the run, and finds none only when the run has no `.`. |
| NamePatterns.TagSpanFrom | photos_clean.py:82 | The scan of `re.search(r'-(\D+)\.', name)` from a position; `NamePatterns.TagSpanFromIsSearch` shows it finds the leftmost-longest match, and nothing only when there is none. |
| NamePatterns.TagSpanFromIsSearch | photos_clean.py:82 | The scan finds the leftmost `-` that starts a match and, from it, the longest match. It finds nothing only when no match exists. |
| NamePatterns.HyphenTagIsSearchMatch | photos_clean.py:82-85 | A name has a tag exactly when `-(\D+)\.` matches somewhere. The tag is the group of the leftmost-longest match: one or more characters, none a digit. |
| NamePatterns.HyphenTagOfSearchMatch | photos_clean.py:82-85 | The leftmost-longest match determines the tag. |
| NamePatterns.HyphenTagExample | photos_clean.py:77-82 | `x-PANO-edited.jpg` has tag `PANO-edited`. |
| NamePatterns.NoHyphenNoTag | photos_clean.py:82-84 | A name without `-` has no tag. |
| NamePatterns.HyphenTagSnowExample | photos_clean.py:77-82 | `clip-SNOW.jpg` has tag `SNOW`. |
| NamePatterns.Lower | photos_clean.py:99 | `str.lower` keeps the length and lower-cases each ASCII letter. |
| NamePatterns.IsYesIff | photos_clean.py:99 | `response.lower() == 'y'` holds exactly for the answers `y` and `Y`. |
| NamePatterns.IsYes | photos_clean.py:99 | `response.lower() == 'y'`; `NamePatterns.IsYesIff` shows it holds exactly for `y` and `Y`. |
| PhotosClean.Policy | photos_clean.py:76-77 | The constants `KeepTags` and `RemoveTags` are the two lists of photos_clean.py:76-77. The keep list is tested first, then the remove list (photos_clean.py:89-96); `PhotosClean.RemovesGroupIff` shows no tag is on both lists. |
| PhotosClean.RemovesGroup | photos_clean.py:89-104 | Whether a tag's group goes, given the answers; characterized by `PhotosClean.RemovesGroupIff`. |
| PhotosClean.RemovesGroupIff | photos_clean.py:76-104 | No tag is on both lists. A tag's group goes exactly when the tag is not on the keep list, and it is on the remove list or the answer is neither `y` nor `Y`. |
| PhotosClean.GroupByTag | photos_clean.py:79-85 | The first loop builds the `defaultdict` `Groups`. Its keys come in insertion order `TagOrder`. |
| PhotosClean.AddToGroups | photos_clean.py:85 | `hyphenated_files[tag].append(file_name)`: one step of the `defaultdict`; `PhotosClean.GroupsAgree` shows what the steps build. |
| PhotosClean.Groups | photos_clean.py:80-85 | The `defaultdict` after the first loop; `PhotosClean.GroupsAgree` shows its keys are the tags that occur and each entry is its tag's group in list order. |
| PhotosClean.GroupsAgree | photos_clean.py:80-85 | The keys of the `defaultdict` are the tags that occur. Each entry is the group of its tag: the names with that tag, in list order. |
| PhotosClean.GroupCount | photos_clean.py:85 | A group holds every name with its tag, as often as the list does, and no name with another tag or none. So each name lies in at most one group. |
| PhotosClean.TagOrder | photos_clean.py:80-87 | The keys contain no repetition. |
| PhotosClean.TagOrderHasTags | photos_clean.py:81-87 | Every tagged name's tag is a key, and every key is the tag of some name. |
| PhotosClean.HandleTag | photos_clean.py:88-104 | Each tag is handled in one of three ways: a keep-list tag keeps its group and shows no prompt; a remove-list tag removes the whole group and shows no prompt; any other tag prompts once, and the whole group is removed unless the answer is yes. |
| PhotosClean.RemoveAll | photos_clean.py:93-95 | The inner loop calls `list.remove` once per name of the group, in order. |
| PhotosClean.RemoveTagGroups | photos_clean.py:87-104 | The removed names are the groups of removed tags, concatenated in key order. The prompts are the keys on neither list, in key order. The list is the input with those names removed. |
| PhotosClean.RemovedGroups | photos_clean.py:87-104 | The hyphen pass's `files_removed`: the groups of removed tags in key order; `PhotosClean.RemovedGroupsCount` gives its count of every name. |
| PhotosClean.RemovedGroupsCount | photos_clean.py:87-104 | Over distinct keys, a name is removed as often as it occurs when its tag is a key whose group goes, and never otherwise. |
| PhotosClean.AskedTags | photos_clean.py:96-98 | The prompts, in key order; `PhotosClean.AskedTagsCount` and `PhotosClean.PromptedOnce` show each key on neither list gets exactly one. |
| PhotosClean.AskedTagsCount | photos_clean.py:96-98 | A tag on neither list is prompted for as often as it is a key; a listed tag is never prompted for. |
| PhotosClean.PromptedOnce | photos_clean.py:96-98 | Every key on neither list gets exactly one prompt, and nothing else does. |
| PhotosClean.ListedTagsOnly | photos_clean.py:80-85 | When every tagged name's tag is on one of the lists, so is every key of the `defaultdict`. |
| PhotosClean.NoneAsked | photos_clean.py:87-98 | Keys that are all on the lists give no prompt. |
| PhotosClean.RemoveUnwantedHyphenatedFiles | photos_clean.py:63-106 | The returned list is the input list itself. The removed names are exactly the groups of the removed tags. The prompts are exactly the unlisted tags. The list is left without the removed names. |
| PhotosClean.HyphenPassCounts | photos_clean.py:81-106 | The hyphen pass removes every occurrence of a name whose tag's group goes, and nothing else. In particular it never removes an untagged name. Every other name stays as often as it occurred. |
| PhotosClean.SetToList | photos_clean.py:8 | Iterating `set(file_names)` yields each directory name exactly once. |
| PhotosClean.JsonPassCounts | photos_clean.py:8-12 | On the set of directory names, every name lands exactly once in the JSON pass's kept list or in its removed list. |
| PhotosClean.PipelineCounts | photos_clean.py:8-18 | Every directory name lands exactly once in the final kept list or in one of the three removed lists. |
| PhotosClean.PipelineSides | photos_clean.py:11-18 | Each list of the chained passes holds only the names its pass allows: the final kept names are neither `.json` names nor in a removed tag group; the duplicate pass removes only numbered non-`.json` names whose unnumbered form is a non-`.json` directory name; the hyphen pass removes only non-`.json` names in a removed tag group. |
| PhotosClean.DuplicateAndHyphenPasses | photos_clean.py:14-17 | The duplicate and hyphen passes run in that order on one shared list. The duplicate pass's removed list is distinct, numbered and shrinks its input to `mid`. Its removed names had their base present, and every numbered name it kept has no base left in `mid`. The hyphen pass then removes exactly the groups of the removed tags of `mid`, and prompts for exactly the unlisted tags of `mid`. |
| PhotosClean.CleanFolderOutcome | photos_clean.py:8-18 | The three passes' promises, chained, give every clause of `clean_folder`'s outcome listed for `PhotosClean.CleanFolder`. |
| PhotosClean.CleanFolder | photos_clean.py:8-18 | The JSON, duplicate and hyphen passes run in that order. `kept` is what the JSON pass keeps and `mid` what the duplicate pass leaves. `files_to_remove` holds exactly three lists, one per pass. `toRemove[0]` is exactly the `.json` names, and `kept` the other directory names, each once. `toRemove[1]` is the duplicate pass's result on `kept`, with its full postcondition, and `mid` is `kept` less `toRemove[1]`. `toRemove[2]` is the groups of the removed tags of `mid`, and the final list is `mid` less those. A prompt is shown exactly once for every tag of `mid` on neither list, and for nothing else. The kept list and the three removed lists partition the directory's names. |
| PhotosClean.ExampleFolderShape | photos_clean.py:8-18 | The directory `photo.jpg`, `photo(1).jpg`, `photo.jpg.json`, `meta.json`, `clip-SNOW.jpg` has two `.json` names, one numbered copy whose base is `photo.jpg`, and one tag, `SNOW`, which is on the remove list. |
| PhotosClean.ExampleSidecars | photos_clean.py:11-12 | In a directory of that shape, the JSON pass removes exactly the two `.json` names. |
| PhotosClean.ExampleDuplicates | photos_clean.py:14-15 | In a directory of that shape, the duplicate pass removes exactly the numbered copy. |
| PhotosClean.ExampleKept | photos_clean.py:8-18 | In a directory of that shape, the final kept list is the base name alone. |
| PhotosClean.ExampleTagged | photos_clean.py:17-18 | In a directory of that shape, the hyphen pass removes exactly the tagged name. |
| PhotosClean.ExampleNoPrompt | photos_clean.py:87-98 | When every tag the JSON pass keeps is on a list, the hyphen pass after the duplicate pass shows no prompt. |
| PhotosClean.CleanFolderExample | photos_clean.py:8-18 | On that directory, `clean_folder` keeps `[photo.jpg]`, removes the two `.json` names, then `[photo(1).jpg]`, then `[clip-SNOW.jpg]`, and prompts for nothing, whatever the answers. |

## Left out

- The `os.walk` traversal, the `print` calls and the `__main__` block. They are directory and console I/O. `CleanFolder` models the loop body for one directory's `file_names`.
- The `input()` call. It is the parameter `ask`, the answer the user gives for a tag. The prompt text is not modelled.
- `ensure_date_set` is an empty stub in `photos_clean.py`. Date resolution, sidecar parsing and metadata writing are not part of this model.
- `NamePatterns.IsDigit`: `\d` and `\D` are restricted to the ASCII digits `0`-`9`. Python also counts other Unicode decimal digits.
- `NamePatterns.Lower`: only ASCII letters are lower-cased. Python's `str.lower` also lower-cases other Unicode letters.
- The order in which Python iterates `set(file_names)` and `numbered_files` is arbitrary here.
  - The contracts hold for every order.
  - The duplicate pass's result can depend on the order. In the directory `x`, `x(1)`, `x((1)1)`, the name `x((1)1)` has unnumbered form `x(1)` (`NamePatterns.StripNumbersNestedExample`). Visiting `x(1)` first removes it, after which `x((1)1)` finds no base and is kept. Visiting `x((1)1)` first removes it, and then `x(1)` is removed too.
- `Sequences.RemoveEach` passes over a removal whose name is no longer in the list, where Python would raise `ValueError`. Every pass proves that its removals stay within its list, so this case never arises in the model.
