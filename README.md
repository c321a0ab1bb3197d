# Watch-root filtering, indenting output, live-template registry and patch path stripping

A Dafny model of four pieces of an IntelliJ-platform code base, with proofs about each.

- **`CanonicalPaths`** (`canonical_path_map.dfy`) models `CanonicalPathMap`. The file watcher uses this filter to decide which reported paths matter. The map keeps:
  - the recursive and flat watch roots, as requested and in symlink-resolved form;
  - an append-only list of (canonical prefix, requested prefix) rules.

  `getWatchedPaths` works in two steps:
  1. It rewrites a reported path through every rule. This is `applyMapping`, modelled by `Candidates`.
  2. For each candidate it keeps the entry of the first flat root, or failing that of the first recursive root, that covers the candidate (`Match`, `Collect`). In fast-path mode it stops after the first entry.

  The method is proved equal to that specification. The lemmas prove that every returned path is justified by a root, and that without the fast path every justified path is returned. They also prove the bounds, the order, the fast-path behaviour, the early return for a map without roots, and the effect of symlink rules.
- **`TextOutputs`** (`text_output.dfy`) models `TextOutput`. It is a class with:
  - the output buffer;
  - the indentation level;
  - the cache of indentation strings, an array that grows by copying;
  - the "owed indentation" flag.

  Every method states the new output, level and flag, and says when the cache array is kept and when it is replaced by a copy one entry longer. The invariant `Valid` says that cache entry `k` is exactly `2·k` blanks. Three rendering methods show what the writer produces for blocks, nested blocks and doc comments.
- **`Templates`** (`template_settings.dfy`) models the in-memory part of `TemplateSettings`:
  - the key map, the id map and the running longest key;
  - default templates, which never replace a user template with the same key;
  - the shortcut-name codec, with its round-trips;
  - the deleted-defaults list computed on save;
  - `convertName`, and choosing the first unused numbered file name.
- **`ApplyPatch`** (`apply_patch.dfy`) models `applySkipDirs` and `skipN`. These drop the first N `/`-separated components of a patch's file names. Java's `String.split` is modelled exactly: trailing empty pieces are dropped, and a leading `/` gives an empty first piece.

`Common` (`common.dfy`) holds `Option` and the text helpers. Those are Java's `lastIndexOf`, a character count, and `Integer.toString` for 32-bit values.

Assumptions about the environment:
- Symlink resolution (`FileSystemUtil.resolveSymLink`) is a function parameter `resolve: string -> Option<string>`. `None` stands for Java's `null`.
- `Character.isJavaIdentifierPart` is a function parameter.
- `FileUtil.namesEqual` is string equality, as on a case-sensitive file system.
- `FileUtil.startsWith` is the path-prefix rule: the empty prefix, or equal, or prefix ending in `/`, or prefix followed by `/`.
- `File.getParent` is the Unix rule of `java.io.File` on normalized paths.
- File existence is a set of paths.

The map built by the no-argument constructor holds an immutable empty rule list. `addMapping` of any rule on that map throws. `AddMapping` reports this as `ok == false` and leaves the map unchanged.

## Model

| member | source | states |
|---|---|---|
| Common.LastIndexOf | lang-impl/src/com/intellij/codeInsight/template/impl/TemplateSettings.java:299-301 | `lastIndexOf`: -1 or an index holding the character, with no occurrence after it |
| Common.NatToString | lang-impl/src/com/intellij/codeInsight/template/impl/TemplateSettings.java:478-479 | the decimal text of a file number: non-empty, digits only, at least two digits from 10 on |
| Common.NatToStringInjective | lang-impl/src/com/intellij/codeInsight/template/impl/TemplateSettings.java:478-479 | different numbers have different decimal texts |
| Common.Int32ToString | platform/script-debugger/protocol/protocol-reader/src/TextOutput.kt:50-54 | the text of an `Int`: a leading '-' exactly for negative values, digits otherwise |
| CanonicalPaths.Parent | platform/platform-impl/src/com/intellij/openapi/vfs/impl/local/CanonicalPathMap.java:110-111 | `getParent`: a proper prefix ending just before a separator (or the root "/"); absent exactly for a name without separator or for "/" |
| CanonicalPaths.RulesForExact | platform/platform-impl/src/com/intellij/openapi/vfs/impl/local/CanonicalPathMap.java:56-67 | exactly one (canonical, requested) rule per entry whose resolution differs, placed after the rules of the earlier such entries |
| CanonicalPaths.RulesForSound | platform/platform-impl/src/com/intellij/openapi/vfs/impl/local/CanonicalPathMap.java:61-64 | every rule comes from an input entry whose resolution is non-null and different, and pairs that resolution with the entry |
| CanonicalPaths.MapPaths | platform/platform-impl/src/com/intellij/openapi/vfs/impl/local/CanonicalPathMap.java:56-67 | same length as the input; entry i is the resolved path when resolution gives a different non-null path, else the input entry; the rule list is extended by exactly `RulesFor` |
| CanonicalPaths.Candidates | platform/platform-impl/src/com/intellij/openapi/vfs/impl/local/CanonicalPathMap.java:140-151 | the reported path comes first, and each rule adds at most one further candidate |
| CanonicalPaths.RewriteKeepsSuffix | platform/platform-impl/src/com/intellij/openapi/vfs/impl/local/CanonicalPathMap.java:143-148 | canonical-to-requested is tried first and requested-to-canonical only when the canonical prefix does not match; the rewrite swaps the matched prefix and keeps the rest; no rewrite exactly when neither prefix matches |
| CanonicalPaths.RewriteStaysUnder | platform/platform-impl/src/com/intellij/openapi/vfs/impl/local/CanonicalPathMap.java:143-144 | for a canonical prefix not ending in '/', the rewrite of a path under it lies under the requested prefix with the same remainder |
| CanonicalPaths.RewriteDropsSeparator | platform/platform-impl/src/com/intellij/openapi/vfs/impl/local/CanonicalPathMap.java:143-144 | the swap is textual: a canonical prefix ending in '/' takes the separator with it, so a requested prefix without one is glued to the remainder |
| CanonicalPaths.CandidatesFromRules | platform/platform-impl/src/com/intellij/openapi/vfs/impl/local/CanonicalPathMap.java:142-149 | a path after the first is a candidate if and only if some rule rewrites the reported path to it |
| CanonicalPaths.CandidatesAppend | platform/platform-impl/src/com/intellij/openapi/vfs/impl/local/CanonicalPathMap.java:140-151 | appending rules only appends candidates; the earlier ones are unchanged |
| CanonicalPaths.CandidatesSnoc | platform/platform-impl/src/com/intellij/openapi/vfs/impl/local/CanonicalPathMap.java:142-149 | one more rule adds at most its own rewrite, at the end |
| CanonicalPaths.MatchRecursiveFirst | platform/platform-impl/src/com/intellij/openapi/vfs/impl/local/CanonicalPathMap.java:118-130 | the first recursive root that reports anything decides the entry; with none, there is no entry |
| CanonicalPaths.MatchRecursiveSound | platform/platform-impl/src/com/intellij/openapi/vfs/impl/local/CanonicalPathMap.java:118-130 | a recursive entry is what some root reports, and there is none exactly when no root reports anything |
| CanonicalPaths.MatchCases | platform/platform-impl/src/com/intellij/openapi/vfs/impl/local/CanonicalPathMap.java:104-130 | the entry of a candidate is one of four things: the candidate equal to a flat root; the candidate whose parent is a flat root (exact reports); the candidate under a recursive root; or, for inexact reports, a recursive root whose parent is the candidate. There is no entry exactly when no root covers the candidate |
| CanonicalPaths.FlatBeforeRecursive | platform/platform-impl/src/com/intellij/openapi/vfs/impl/local/CanonicalPathMap.java:104-116 | a matching flat root decides the entry (the candidate itself) before any recursive root is tried |
| CanonicalPaths.CollectBounds | platform/platform-impl/src/com/intellij/openapi/vfs/impl/local/CanonicalPathMap.java:100-131 | no more entries than candidates, and at most one in fast-path mode |
| CanonicalPaths.CollectAppend | platform/platform-impl/src/com/intellij/openapi/vfs/impl/local/CanonicalPathMap.java:100-131 | without the fast path the result follows the candidates' order: collection distributes over concatenation |
| CanonicalPaths.FastPathIsFirstEntry | platform/platform-impl/src/com/intellij/openapi/vfs/impl/local/CanonicalPathMap.java:102 | the fast path returns exactly the first entry of the full result, or nothing when that is empty |
| CanonicalPaths.CollectStep | platform/platform-impl/src/com/intellij/openapi/vfs/impl/local/CanonicalPathMap.java:100-131 | one more candidate adds its own entry unless the fast path already holds one |
| CanonicalPaths.FastPathStops | platform/platform-impl/src/com/intellij/openapi/vfs/impl/local/CanonicalPathMap.java:102 | once the fast-path result is non-empty, later candidates change nothing |
| CanonicalPaths.NoRootsCollectNothing | platform/platform-impl/src/com/intellij/openapi/vfs/impl/local/CanonicalPathMap.java:95 | with no roots no candidate yields an entry, so the early return agrees with the loop |
| CanonicalPaths.CollectJustified | platform/platform-impl/src/com/intellij/openapi/vfs/impl/local/CanonicalPathMap.java:100-131 | every returned path is the entry of some candidate |
| CanonicalPaths.CollectComplete | platform/platform-impl/src/com/intellij/openapi/vfs/impl/local/CanonicalPathMap.java:100-131 | without the fast path, the entry of every candidate is returned |
| CanonicalPaths.ParentOfChild | platform/platform-impl/src/com/intellij/openapi/vfs/impl/local/CanonicalPathMap.java:110-111 | the parent of `root/name` is `root` |
| CanonicalPaths.FlatChildReported | platform/platform-impl/src/com/intellij/openapi/vfs/impl/local/CanonicalPathMap.java:104-116 | with one flat root R, an exact report of `R/name` yields exactly `[R/name]`, and an inexact one yields nothing |
| CanonicalPaths.RecursiveDescendantReported | platform/platform-impl/src/com/intellij/openapi/vfs/impl/local/CanonicalPathMap.java:118-130 | a path under a recursive root is reported as itself, unless an inexact report names the parent of an earlier root |
| CanonicalPaths.RewrittenIntoRequestedRoot | platform/platform-impl/src/com/intellij/openapi/vfs/impl/local/CanonicalPathMap.java:140-151 | a report under a rule's canonical prefix is returned under the requested prefix when that is a recursive root |
| CanonicalPaths.UncoveredReportNothing | platform/platform-impl/src/com/intellij/openapi/vfs/impl/local/CanonicalPathMap.java:100-137 | a report none of whose candidates any root covers yields nothing, with or without the fast path |
| CanonicalPaths.CanonicalPathMap.Empty | platform/platform-impl/src/com/intellij/openapi/vfs/impl/local/CanonicalPathMap.java:41-44 | no roots, no rules, and a rule list that refuses additions |
| CanonicalPaths.CanonicalPathMap.constructor | platform/platform-impl/src/com/intellij/openapi/vfs/impl/local/CanonicalPathMap.java:46-54 | the roots as given, their canonical forms, and the recursive roots' rules before the flat roots' rules |
| CanonicalPaths.CanonicalPathMap.CanonicalRecursiveWatchRoots | platform/platform-impl/src/com/intellij/openapi/vfs/impl/local/CanonicalPathMap.java:69-71 | one canonical form per recursive root, in order |
| CanonicalPaths.CanonicalPathMap.CanonicalFlatWatchRoots | platform/platform-impl/src/com/intellij/openapi/vfs/impl/local/CanonicalPathMap.java:73-75 | one canonical form per flat root, in order |
| CanonicalPaths.CanonicalPathMap.AddMapping | platform/platform-impl/src/com/intellij/openapi/vfs/impl/local/CanonicalPathMap.java:77-79 | the rules are appended and the existing ones keep their order; the roots are constants; on the map without roots any non-empty addition fails and changes nothing |
| CanonicalPaths.CanonicalPathMap.ApplyMapping | platform/platform-impl/src/com/intellij/openapi/vfs/impl/local/CanonicalPathMap.java:140-151 | the reported path first, then `Candidates` under the current rules |
| CanonicalPaths.CanonicalPathMap.GetWatchedPaths | platform/platform-impl/src/com/intellij/openapi/vfs/impl/local/CanonicalPathMap.java:94-138 | the result is exactly the specification `WatchedPaths`: empty without roots, else `Collect` of the candidates |
| CanonicalPaths.FirstCoveringEntry | platform/platform-impl/src/com/intellij/openapi/vfs/impl/local/CanonicalPathMap.java:104-130 | the entry for one candidate is exactly `Match`: the first flat root that covers it, otherwise the first recursive root that reports anything, otherwise none |
| CanonicalPaths.CanonicalPathMap.SymlinkedRootReported | platform/platform-impl/src/com/intellij/openapi/vfs/impl/local/CanonicalPathMap.java:50-53 | with one recursive root that resolves through a symlink, a report in resolved form is returned under the requested root, however many rules were added later |
| CanonicalPaths.CanonicalPathMap.NoRootsNothingWatched | platform/platform-impl/src/com/intellij/openapi/vfs/impl/local/CanonicalPathMap.java:95 | a map without roots returns nothing for any report, and the candidate loop would agree |
| TextOutputs.TextOutput.constructor | platform/script-debugger/protocol/protocol-reader/src/TextOutput.kt:8-11 | level 0, no owed indentation, a fresh one-entry cache holding the empty indentation |
| TextOutputs.TextOutput.IndentIn | platform/script-debugger/protocol/protocol-reader/src/TextOutput.kt:13-25 | the level rises by one; the cache is kept when it already has an entry for the new level and is otherwise replaced by a fresh copy one entry longer; entry k is 2·k blanks |
| TextOutputs.TextOutput.IndentOut | platform/script-debugger/protocol/protocol-reader/src/TextOutput.kt:27-30 | the level drops by one and nothing else changes |
| TextOutputs.TextOutput.NewLine | platform/script-debugger/protocol/protocol-reader/src/TextOutput.kt:32-36 | exactly '\n' is appended and indentation becomes owed |
| TextOutputs.TextOutput.MaybeIndent | platform/script-debugger/protocol/protocol-reader/src/TextOutput.kt:111-116 | when indentation is owed, the current level's indentation is appended and the debt cleared; otherwise the output is unchanged |
| TextOutputs.TextOutput.Append | platform/script-debugger/protocol/protocol-reader/src/TextOutput.kt:67-71 | the old output, then the owed indentation, then the text |
| TextOutputs.TextOutput.AppendChar | platform/script-debugger/protocol/protocol-reader/src/TextOutput.kt:56-60 | the old output, then the owed indentation, then the character |
| TextOutputs.TextOutput.AppendChars | platform/script-debugger/protocol/protocol-reader/src/TextOutput.kt:62-65 | the old output, then the owed indentation, then the array's characters |
| TextOutputs.TextOutput.AppendFrom | platform/script-debugger/protocol/protocol-reader/src/TextOutput.kt:73-77 | the old output, then the owed indentation, then exactly `s[start..len)` |
| TextOutputs.TextOutput.AppendInt | platform/script-debugger/protocol/protocol-reader/src/TextOutput.kt:50-54 | the old output, then the owed indentation, then the decimal text of the 32-bit value |
| TextOutputs.TextOutput.AppendBool | platform/script-debugger/protocol/protocol-reader/src/TextOutput.kt:44-48 | the old output, then the owed indentation, then "true" or "false" |
| TextOutputs.TextOutput.Space | platform/script-debugger/protocol/protocol-reader/src/TextOutput.kt:98 | owed indentation, then one blank |
| TextOutputs.TextOutput.Comma | platform/script-debugger/protocol/protocol-reader/src/TextOutput.kt:96 | owed indentation, then ", " |
| TextOutputs.TextOutput.Semi | platform/script-debugger/protocol/protocol-reader/src/TextOutput.kt:100 | owed indentation, then ";" |
| TextOutputs.TextOutput.OpenBlock | platform/script-debugger/protocol/protocol-reader/src/TextOutput.kt:84-90 | " {", plus a newline when asked for, then one level deeper, with the cache kept or grown as by `IndentIn` |
| TextOutputs.TextOutput.OpenBlockLine | platform/script-debugger/protocol/protocol-reader/src/TextOutput.kt:79-82 | " {" and a newline, then one level deeper, with the cache kept or grown as by `IndentIn` |
| TextOutputs.TextOutput.CloseBlock | platform/script-debugger/protocol/protocol-reader/src/TextOutput.kt:92-94 | one level shallower, then a newline and '}' indented at the lowered level; the cache is kept |
| TextOutputs.TextOutput.Doc | platform/script-debugger/protocol/protocol-reader/src/TextOutput.kt:102-107 | a missing description changes nothing; otherwise the three comment lines, each after the first indented at the current level, and a final newline; level and cache are kept |
| TextOutputs.TextOutput.Quote | platform/script-debugger/protocol/protocol-reader/src/TextOutput.kt:109 | owed indentation, then '"', the text, '"' |
| TextOutputs.RenderBlock | platform/script-debugger/protocol/protocol-reader/src/TextOutput.kt:79-94 | a block around a body renders as " {\n  body\n}" |
| TextOutputs.RenderNestedBlocks | platform/script-debugger/protocol/protocol-reader/src/TextOutput.kt:13-25 | two nested blocks put the body four blanks deep, using a newly cached level, and close each brace at its own level |
| TextOutputs.RenderDoc | platform/script-debugger/protocol/protocol-reader/src/TextOutput.kt:102-107 | a doc comment at level zero followed by a value renders as "/**\n * d\n */\nvalue" |
| Templates.ShortcutChar | lang-impl/src/com/intellij/codeInsight/template/impl/TemplateSettings.java:232-240 | TAB, ENTER and SPACE give tab, newline and blank, each if and only if that name is given; anything else, or nothing, gives 'D' |
| Templates.ShortcutRoundTrip | lang-impl/src/com/intellij/codeInsight/template/impl/TemplateSettings.java:438-444 | a saved template's shortcut reads back as itself for tab, newline and blank, and as 'D' otherwise |
| Templates.WriteDefaultShortcut | lang-impl/src/com/intellij/codeInsight/template/impl/TemplateSettings.java:140-148 | always TAB, ENTER or SPACE; TAB exactly for tab, ENTER exactly for newline |
| Templates.ReadDefaultShortcut | lang-impl/src/com/intellij/codeInsight/template/impl/TemplateSettings.java:115-126 | always tab, newline or blank; tab exactly when the written name is `TAB`, newline exactly when it is `ENTER`, the blank otherwise (also for a missing name) |
| Templates.DefaultShortcutRoundTrip | lang-impl/src/com/intellij/codeInsight/template/impl/TemplateSettings.java:115-148 | tab and newline round-trip exactly and every other character comes back as blank; whatever was read writes and reads back unchanged |
| Templates.DefaultTemplateName | lang-impl/src/com/intellij/codeInsight/template/impl/TemplateSettings.java:299-301 | a suffix of the input without '/', preceded by '/' unless it is the whole input |
| Templates.DefaultTemplateNames | lang-impl/src/com/intellij/codeInsight/template/impl/TemplateSettings.java:40-47 | the first and last default resources name the groups "html_xml" and "surround" |
| Templates.SafeName | lang-impl/src/com/intellij/codeInsight/template/impl/TemplateSettings.java:487-501 | "_" for a missing or empty name; otherwise the same length, each character kept when it is an identifier part or a blank and '_' otherwise |
| Templates.ConvertName | lang-impl/src/com/intellij/codeInsight/template/impl/TemplateSettings.java:487-501 | the buffer loop builds exactly `SafeName` of its input |
| Templates.SafeNameStable | lang-impl/src/com/intellij/codeInsight/template/impl/TemplateSettings.java:487-501 | converting a converted name again changes nothing, given that '_' is an identifier part |
| Templates.NumberedPathInjective | lang-impl/src/com/intellij/codeInsight/template/impl/TemplateSettings.java:472-485 | different numbers give different file paths, and the unnumbered path differs from every numbered one |
| Templates.NotYetTried | lang-impl/src/com/intellij/codeInsight/template/impl/TemplateSettings.java:478-484 | a path numbered at or after n is not among the paths numbered 1 to n − 1 |
| Templates.TriedStep | lang-impl/src/com/intellij/codeInsight/template/impl/TemplateSettings.java:478-484 | trying one more existing numbered path keeps the tried paths among the existing ones and leaves strictly fewer existing paths untried, so the search ends |
| Templates.FindFirstNotExistingFile | lang-impl/src/com/intellij/codeInsight/template/impl/TemplateSettings.java:472-485 | a path that does not exist; either the unnumbered one, or the numbered one with the smallest number from 1 whose file is missing, every earlier candidate existing |
| Templates.OccupiedHolds | lang-impl/src/com/intellij/codeInsight/template/impl/TemplateSettings.java:411-418 | a path exists during a save exactly when it existed before or an earlier group was written to it |
| Templates.FirstFreeStep | lang-impl/src/com/intellij/codeInsight/template/impl/TemplateSettings.java:411-418 | writing the next group at its first free path keeps every earlier group's path the first free one for its name |
| Templates.FreshStep | lang-impl/src/com/intellij/codeInsight/template/impl/TemplateSettings.java:411-418 | a path that is not occupied is new and differs from every path chosen before it |
| Templates.GroupFilePath | lang-impl/src/com/intellij/codeInsight/template/impl/TemplateSettings.java:415-416 | one group's path is its converted name at the first number free of the paths already taken |
| Templates.GroupStep | lang-impl/src/com/intellij/codeInsight/template/impl/TemplateSettings.java:411-418 | writing the next group at its first free path keeps all three facts about the paths chosen so far |
| Templates.GroupFilePaths | lang-impl/src/com/intellij/codeInsight/template/impl/TemplateSettings.java:411-418 | one path per group: the converted group name in the directory at the lowest number whose path neither existed nor was written by an earlier group of the same save; hence none existed before and all differ |
| Templates.KeyMapKeys | lang-impl/src/com/intellij/codeInsight/template/impl/TemplateSettings.java:202-209 | after `setTemplates` the key map holds exactly the new templates' keys, each template under its own key |
| Templates.KeyMapLastWins | lang-impl/src/com/intellij/codeInsight/template/impl/TemplateSettings.java:205-206 | a key maps to the last new template carrying it |
| Templates.MaxKeyLengthIsMax | lang-impl/src/com/intellij/codeInsight/template/impl/TemplateSettings.java:204-207 | the longest key bounds every key, is 0 for no templates, and is attained by one of them otherwise |
| Templates.AddIdsExact | lang-impl/src/com/intellij/codeInsight/template/impl/TemplateSettings.java:191-196 | the id map keeps earlier ids and gains exactly the non-null ids of the added templates, each template under its own id |
| Templates.DeletedDefaultsExact | lang-impl/src/com/intellij/codeInsight/template/impl/TemplateSettings.java:369-378 | a key is listed as deleted if and only if it is a default key absent from the saved keys, without repeats |
| Templates.DeletedDefaultsAppend | lang-impl/src/com/intellij/codeInsight/template/impl/TemplateSettings.java:374-378 | the deleted list follows the default keys' insertion order |
| Templates.TemplateSettings.constructor | lang-impl/src/com/intellij/codeInsight/template/impl/TemplateSettings.java:81-86 | empty maps, longest key 0, default shortcut tab, empty deleted list |
| Templates.TemplateSettings.GetMaxKeyLength | lang-impl/src/com/intellij/codeInsight/template/impl/TemplateSettings.java:198-200 | no template in use has a longer key |
| Templates.TemplateSettings.GetTemplates | lang-impl/src/com/intellij/codeInsight/template/impl/TemplateSettings.java:171-173 | every template in use, once each, and nothing else |
| Templates.TemplateSettings.AddTemplateWithId | lang-impl/src/com/intellij/codeInsight/template/impl/TemplateSettings.java:191-196 | the id map gains the template under its id only when it has one; nothing else changes |
| Templates.TemplateSettings.SaveTemplates | lang-impl/src/com/intellij/codeInsight/template/impl/TemplateSettings.java:366-378 | the deleted list becomes the default keys, in insertion order, that are absent from the saved keys; nothing else changes |
| Templates.TemplateSettings.SetTemplates | lang-impl/src/com/intellij/codeInsight/template/impl/TemplateSettings.java:202-212 | key map exactly from the new templates, longest key theirs, their ids added, the deleted list recomputed |
| Templates.TemplateSettings.AddTemplate | lang-impl/src/com/intellij/codeInsight/template/impl/TemplateSettings.java:214-219 | the template under its key (and id), the longest key raised to at least its key's length, the deleted list recomputed from the keys in use |
| Templates.TemplateSettings.SaveCurrentTemplates | lang-impl/src/com/intellij/codeInsight/template/impl/TemplateSettings.java:218 | `saveTemplates(getTemplates())`: the deleted list becomes the default keys no template in use has; nothing else changes |
| Templates.KeyedWithinPut | lang-impl/src/com/intellij/codeInsight/template/impl/TemplateSettings.java:215-217 | putting a template under its key with the bound raised to its key's length keeps every template under its own key within the bound |
| Templates.TemplateSettings.RemoveTemplate | lang-impl/src/com/intellij/codeInsight/template/impl/TemplateSettings.java:221-225 | the key's and the id's entries gone, the longest key unchanged, the deleted list recomputed |
| Templates.TemplateSettings.RecordDefault | lang-impl/src/com/intellij/codeInsight/template/impl/TemplateSettings.java:242 | the default template under its key, a new key last in insertion order |
| Templates.TemplateSettings.AddTemplateFromFile | lang-impl/src/com/intellij/codeInsight/template/impl/TemplateSettings.java:227-249 | the template with the decoded shortcut; a default is always recorded among the defaults but does not replace a template in use with its key; otherwise it is stored by key and id with the longest key raised |
| Templates.TemplateSettings.ReadExternal | lang-impl/src/com/intellij/codeInsight/template/impl/TemplateSettings.java:115-135 | a shortcut element sets the default shortcut (TAB, ENTER, anything else blank), its absence keeps it; deleted names are appended in order |
| Templates.TemplateSettings.WriteExternal | lang-impl/src/com/intellij/codeInsight/template/impl/TemplateSettings.java:140-160 | the default shortcut's name, and the deleted list exactly when it is not empty |
| ApplyPatch.RawPieces | platform/vcs-impl/src/com/intellij/openapi/vcs/changes/patch/ApplyPatchAction.java:139 | one piece more than there are slashes, none containing a slash |
| ApplyPatch.JoinRawPieces | platform/vcs-impl/src/com/intellij/openapi/vcs/changes/patch/ApplyPatchAction.java:139 | the raw pieces joined with '/' give back the path |
| ApplyPatch.DropTrailingEmpty | platform/vcs-impl/src/com/intellij/openapi/vcs/changes/patch/ApplyPatchAction.java:139 | a prefix of the pieces that does not end in an empty piece, and only empty pieces were dropped |
| ApplyPatch.Split | platform/vcs-impl/src/com/intellij/openapi/vcs/changes/patch/ApplyPatchAction.java:139 | `split("/")`: no piece contains a slash |
| ApplyPatch.RawPiecesPlain | platform/vcs-impl/src/com/intellij/openapi/vcs/changes/patch/ApplyPatchAction.java:139 | a string without a slash splits into itself alone |
| ApplyPatch.RawPiecesAfterSlash | platform/vcs-impl/src/com/intellij/openapi/vcs/changes/patch/ApplyPatchAction.java:139 | a slash followed by slash-free text adds exactly that text as one more piece |
| ApplyPatch.SkipN | platform/vcs-impl/src/com/intellij/openapi/vcs/changes/patch/ApplyPatchAction.java:138-146 | the result is '/' + piece for every piece from index num on, concatenated in order |
| ApplyPatch.SlashJoinFrom | platform/vcs-impl/src/com/intellij/openapi/vcs/changes/patch/ApplyPatchAction.java:140-145 | the loop builds '/' + piece for each piece from index num on, and nothing when there are no more than num pieces |
| ApplyPatch.SlashPrefixedCount | platform/vcs-impl/src/com/intellij/openapi/vcs/changes/patch/ApplyPatchAction.java:141-144 | concatenating slash-prefixed slash-free pieces gives one slash per piece and a leading slash |
| ApplyPatch.SkippedPathShape | platform/vcs-impl/src/com/intellij/openapi/vcs/changes/patch/ApplyPatchAction.java:139-145 | empty when num is at least the number of pieces; otherwise it starts with '/' and has exactly pieces − num slashes |
| ApplyPatch.SkipRelative | platform/vcs-impl/src/com/intellij/openapi/vcs/changes/patch/ApplyPatchAction.java:138-146 | for slash-free x, y and non-empty z, `skipN("x/y/z", 1)` is "/y/z": a relative path loses its first directory |
| ApplyPatch.SkipAbsolute | platform/vcs-impl/src/com/intellij/openapi/vcs/changes/patch/ApplyPatchAction.java:138-146 | for slash-free x and non-empty y, `skipN("/x/y", 1)` is "/x/y": an absolute path only loses the empty piece before its leading slash |
| ApplyPatch.SkipTrailing | platform/vcs-impl/src/com/intellij/openapi/vcs/changes/patch/ApplyPatchAction.java:138-146 | for slash-free x and y, `skipN("x/y/", 2)` is "": the trailing slash adds no piece |
| ApplyPatch.ApplySkipDirs | platform/vcs-impl/src/com/intellij/openapi/vcs/changes/patch/ApplyPatchAction.java:128-136 | below 1 nothing changes; otherwise both names of every patch are stripped with the same count, once per occurrence of the patch in the list |
| ApplyPatch.StripNext | platform/vcs-impl/src/com/intellij/openapi/vcs/changes/patch/ApplyPatchAction.java:132-135 | one pass of the loop strips both names of the next patch, so every patch stays stripped once per occurrence so far |
| ApplyPatch.NameStep | platform/vcs-impl/src/com/intellij/openapi/vcs/changes/patch/ApplyPatchAction.java:133-134 | stripping a name once more, or leaving it alone, keeps the count of strips in step with the occurrences |
| ApplyPatch.OnceEach | platform/vcs-impl/src/com/intellij/openapi/vcs/changes/patch/ApplyPatchAction.java:132-135 | in a list holding each patch once, every name is stripped exactly once |

## Left out

- File system and platform calls are parameters or fixed rules, as listed above: `resolveSymLink`, `isJavaIdentifierPart`, case sensitivity, and path normalization before `getParent` and `startsWith`. Paths are assumed to be normalized Unix paths.
- The lock-free copy-on-write rule list of `CanonicalPathMap` is modelled as a plain sequence. Concurrent readers and writers are not modelled.
- The debug logging of `getWatchedPaths` is left out, because it has no effect on the result.
- `getWatchedPaths` returns a Java collection. The model returns the sequence it builds, keeps the duplicates, and does not deduplicate.
- `TextOutput.append(Double)` is left out, because it is floating-point formatting.
- `TextOutput`'s `out` buffer belongs to the writer here. Sharing the `StringBuilder` with the caller is not modelled.
- The fluent `return this` of the `TextOutput` methods is dropped. A chain of calls is a sequence of calls.
- TextOutputs.TextOutput.AppendFrom: requires `0 <= start <= |s|`. For a start outside the string the source throws an index exception, and that exception is not modelled.
- Templates.ConvertName: the model works on Unicode scalar values, while Java's `charAt` walks UTF-16 code units. A character outside the Basic Multilingual Plane is two code units in Java and becomes "__" there, but it is one character here and becomes one '_' or stays. The same-length claim holds for code units in the source and for scalar values here.
- Templates.GroupFilePaths: a group whose `writeDocument` fails with an `IOException` leaves no file behind in the source, so a later group may reuse its path. The model treats every chosen path as written.
- TextOutputs.TextOutput.Append: like every method that writes after a newline, it requires the level to be non-negative while indentation is owed. At a negative level the source throws an index exception, and that exception is not modelled.
- `TemplateSettings` XML and file I/O is left out. That covers `loadTemplates`, `readTemplateFile`, `saveTemplate`'s other attributes, writing and deleting files, the write action and component plumbing. `readExternal`'s final `loadTemplates` call is left out for the same reason.
- Templates.TemplateSettings.GetTemplates: the order of the `LinkedHashMap` behind `myTemplates` is not modelled. The result holds each template in use once, in no stated order.
- Templates.TemplateSettings.ReadExternal: a `template` child without a `name` attribute adds `null` to the deleted list in the source. The model takes the names as strings.
- `getLastSelectedTemplateKey`, `getTemplate`, `getTemplateById` and the setter of the default shortcut are plain field accesses and are left out.
- `ApplyPatchAction`'s `update`, `actionPerformed`, `showApplyPatch`, `applyOnly` and `tryApplyPatch` are dialogs and merge UI. They are left out. `FilePatch` is reduced to its two names, which are never null.
- `IndexNotReadyException.java`, `ErrorMergeTool.java` and `WebModuleType.java` hold no logic of these components, so they are not part of this model.
