/**
 * The in-memory part of the live-template registry (`TemplateSettings`): templates by key and by
 * id, the longest key, default templates taking a back seat to user templates with the same key,
 * the shortcut-name codec, the list of deleted default templates computed on save, and the naming
 * of the files templates are saved to. Reading and writing XML and files is outside the model; the
 * existence of files is a set of paths.
 */
module Templates {
  import opened Common

  const SpaceChar: char := ' '
  const TabChar: char := '\t'
  const EnterChar: char := '\n'
  const DefaultChar: char := 'D'

  const SpaceName: string := "SPACE"
  const TabName: string := "TAB"
  const EnterName: string := "ENTER"

  const XmlExtension: string := ".xml"
  const FileSeparator: char := '/'

  /** The resources the default templates are read from. */
  const DefaultTemplates: seq<string> := [
    "/liveTemplates/html_xml",
    "/liveTemplates/iterations",
    "/liveTemplates/other",
    "/liveTemplates/output",
    "/liveTemplates/plain",
    "/liveTemplates/surround"
  ]

  /** A live template, as far as the registry looks at it. */
  datatype Template = Template(key: string, id: Option<string>, text: string, group: string,
                               description: Option<string>, shortcutChar: char)

  // ---------------------------------------------------------------------------------------------
  // Shortcut names.

  /** The shortcut character the private `addTemplate` gives a template for its `shortcut`
      attribute (absent when the attribute is missing). */
  function ShortcutChar(shortcut: Option<string>): (c: char)
    ensures c == TabChar <==> shortcut == Some(TabName)
    ensures c == EnterChar <==> shortcut == Some(EnterName)
    ensures c == SpaceChar <==> shortcut == Some(SpaceName)
    ensures c == DefaultChar <==> shortcut !in {Some(TabName), Some(EnterName), Some(SpaceName)}
  {
    if shortcut == Some(TabName) then TabChar
    else if shortcut == Some(EnterName) then EnterChar
    else if shortcut == Some(SpaceName) then SpaceChar
    else DefaultChar
  }

  /** The `shortcut` attribute `saveTemplate` writes for a template's shortcut character: none for
      the default character. */
  function ShortcutAttribute(c: char): Option<string>
  {
    if c == TabChar then Some(TabName)
    else if c == EnterChar then Some(EnterName)
    else if c == SpaceChar then Some(SpaceName)
    else None
  }

  /** A template's shortcut survives being saved and read back whenever it is one of the four
      characters reading can produce; any other character comes back as the default one. */
  lemma ShortcutRoundTrip(c: char)
    ensures ShortcutChar(ShortcutAttribute(c)) == if c in {TabChar, EnterChar, SpaceChar} then c else DefaultChar
  {
  }

  /** The name `writeExternal` writes for the default shortcut character. */
  function WriteDefaultShortcut(c: char): (name: string)
    ensures name in {TabName, EnterName, SpaceName}
    ensures name == TabName <==> c == TabChar
    ensures name == EnterName <==> c == EnterChar
  {
    if c == TabChar then TabName
    else if c == EnterChar then EnterName
    else SpaceName
  }

  /** The default shortcut character `readExternal` takes from a written name; a missing or
      unknown name gives the blank. */
  function ReadDefaultShortcut(name: Option<string>): (c: char)
    ensures c in {TabChar, EnterChar, SpaceChar}
    ensures c == TabChar <==> name == Some(TabName)
    ensures c == EnterChar <==> name == Some(EnterName)
  {
    if name == Some(TabName) then TabChar
    else if name == Some(EnterName) then EnterChar
    else SpaceChar
  }

  /** The default shortcut round-trips for tab, enter and blank; any other character is read back
      as the blank, and whatever was read is written and read back unchanged. */
  lemma DefaultShortcutRoundTrip(c: char, name: Option<string>)
    ensures ReadDefaultShortcut(Some(WriteDefaultShortcut(c))) == if c in {TabChar, EnterChar} then c else SpaceChar
    ensures ReadDefaultShortcut(Some(WriteDefaultShortcut(ReadDefaultShortcut(name)))) == ReadDefaultShortcut(name)
  {
  }

  // ---------------------------------------------------------------------------------------------
  // Names of templates and files.

  /** `getDefaultTemplateName`: the text after the last '/', or all of it when there is none. */
  function DefaultTemplateName(defTemplate: string): (name: string)
    ensures |name| <= |defTemplate|
    ensures defTemplate[|defTemplate| - |name|..] == name
    ensures forall k :: 0 <= k < |name| ==> name[k] != '/'
    ensures |name| < |defTemplate| ==> defTemplate[|defTemplate| - |name| - 1] == '/'
  {
    defTemplate[LastIndexOf(defTemplate, '/') + 1..]
  }

  /** The group names of the default templates. */
  lemma DefaultTemplateNames()
    ensures DefaultTemplateName(DefaultTemplates[0]) == "html_xml"
    ensures DefaultTemplateName(DefaultTemplates[5]) == "surround"
  {
    var s0, s5 := DefaultTemplates[0], DefaultTemplates[5];
    assert LastIndexOf(s0, '/') == 14 by {
      assert s0[14] == '/' && forall k :: 14 < k < |s0| ==> s0[k] != '/';
    }
    assert LastIndexOf(s5, '/') == 14 by {
      assert s5[14] == '/' && forall k :: 14 < k < |s5| ==> s5[k] != '/';
    }
  }

  /** The character `convertName` keeps for `c`: `c` itself when it may appear in a Java identifier
      or is a blank, '_' otherwise. */
  function SafeChar(c: char, isIdentifierPart: char -> bool): char
  {
    if isIdentifierPart(c) || c == ' ' then c else '_'
  }

  /** The name `convertName` gives: "_" for a missing or empty name; otherwise the name with every
      character that is neither part of a Java identifier nor a blank replaced by '_'. */
  function SafeName(s: Option<string>, isIdentifierPart: char -> bool): (r: string)
    ensures s.None? || |s.value| == 0 ==> r == "_"
    ensures s.Some? && |s.value| > 0 ==>
      |r| == |s.value| && forall i :: 0 <= i < |r| ==> r[i] == SafeChar(s.value[i], isIdentifierPart)
  {
    if s.None? || |s.value| == 0 then "_"
    else seq(|s.value|, i requires 0 <= i < |s.value| => SafeChar(s.value[i], isIdentifierPart))
  }

  /** `convertName`, character by character into a buffer. `isIdentifierPart` stands for
      `Character.isJavaIdentifierPart`. */
  method ConvertName(s: Option<string>, isIdentifierPart: char -> bool) returns (r: string)
    ensures r == SafeName(s, isIdentifierPart)
    ensures s.None? || |s.value| == 0 ==> r == "_"
    ensures s.Some? && |s.value| > 0 ==>
      |r| == |s.value| && forall i :: 0 <= i < |r| ==> r[i] == SafeChar(s.value[i], isIdentifierPart)
  {
    if s.None? || |s.value| == 0 {
      return "_";
    }
    var buf := "";
    for i := 0 to |s.value|
      invariant |buf| == i
      invariant forall k :: 0 <= k < i ==> buf[k] == SafeChar(s.value[k], isIdentifierPart)
    {
      var c := s.value[i];
      if isIdentifierPart(c) || c == ' ' {
        buf := buf + [c];
      } else {
        buf := buf + ['_'];
      }
    }
    r := buf;
  }

  /** When '_' is an identifier character (as in Java), converting a converted name again
      changes nothing: every kept character is kept again and every '_' stays. */
  lemma SafeNameStable(s: Option<string>, isIdentifierPart: char -> bool)
    requires isIdentifierPart('_')
    ensures SafeName(Some(SafeName(s, isIdentifierPart)), isIdentifierPart) == SafeName(s, isIdentifierPart)
  {
    var once := SafeName(s, isIdentifierPart);
    var twice := SafeName(Some(once), isIdentifierPart);
    assert |twice| == |once|;
    forall i | 0 <= i < |once| ensures twice[i] == once[i] {
      if s.Some? && |s.value| > 0 {
        assert once[i] == SafeChar(s.value[i], isIdentifierPart);
      }
    }
  }

  /** The path `findFirstNotExistingFile` tries with number `i`; 0 stands for the unnumbered name. */
  function NumberedPath(directory: string, fileName: string, extension: string, i: nat): string
  {
    directory + [FileSeparator] + fileName + (if i == 0 then "" else NatToString(i)) + extension
  }

  /** Different numbers give different paths. */
  lemma NumberedPathInjective(directory: string, fileName: string, extension: string, i: nat, j: nat)
    requires NumberedPath(directory, fileName, extension, i) == NumberedPath(directory, fileName, extension, j)
    ensures i == j
  {
    var prefix := directory + [FileSeparator] + fileName;
    var si := if i == 0 then "" else NatToString(i);
    var sj := if j == 0 then "" else NatToString(j);
    var pi, pj := NumberedPath(directory, fileName, extension, i), NumberedPath(directory, fileName, extension, j);
    assert pi == prefix + si + extension && pj == prefix + sj + extension;
    assert |si| == |sj|;
    assert si == pi[|prefix|..|prefix| + |si|];
    assert sj == pj[|prefix|..|prefix| + |sj|];
    if i != 0 && j != 0 {
      NatToStringInjective(i, j);
    }
  }

  /** The numbered paths tried before number `n`: those numbered 1 to `n - 1`. */
  ghost function TriedPaths(directory: string, fileName: string, extension: string, n: nat): set<string>
  {
    if n <= 1 then {} else TriedPaths(directory, fileName, extension, n - 1) + {NumberedPath(directory, fileName, extension, n - 1)}
  }

  /** A path numbered `i` or later has not been tried before number `n <= i`. */
  lemma {:induction false} NotYetTried(directory: string, fileName: string, extension: string, n: nat, i: nat)
    requires n <= i
    ensures NumberedPath(directory, fileName, extension, i) !in TriedPaths(directory, fileName, extension, n)
  {
    if n > 1 {
      NotYetTried(directory, fileName, extension, n - 1, i);
      if NumberedPath(directory, fileName, extension, i) == NumberedPath(directory, fileName, extension, n - 1) {
        NumberedPathInjective(directory, fileName, extension, i, n - 1);
      }
    }
  }

  /** Trying one more existing path leaves fewer existing paths untried. */
  lemma TriedStep(directory: string, fileName: string, extension: string, i: nat, existing: set<string>)
    requires 1 <= i
    requires TriedPaths(directory, fileName, extension, i) <= existing
    requires NumberedPath(directory, fileName, extension, i) in existing
    ensures TriedPaths(directory, fileName, extension, i + 1) <= existing
    ensures |existing - TriedPaths(directory, fileName, extension, i + 1)| < |existing - TriedPaths(directory, fileName, extension, i)|
  {
    var before := TriedPaths(directory, fileName, extension, i);
    var path := NumberedPath(directory, fileName, extension, i);
    NotYetTried(directory, fileName, extension, i, i);
    assert TriedPaths(directory, fileName, extension, i + 1) == before + {path};
    assert existing - (before + {path}) == (existing - before) - {path};
    assert path in existing - before;
  }

  /** `findFirstNotExistingFile`: the unnumbered path when no such file exists, otherwise the path
      with the smallest number from 1 up whose file does not exist. */
  method FindFirstNotExistingFile(directory: string, fileName: string, extension: string, existing: set<string>)
    returns (filePath: string)
    ensures filePath !in existing
    ensures exists k: nat :: (filePath == NumberedPath(directory, fileName, extension, k) &&
      forall j: nat :: j < k ==> NumberedPath(directory, fileName, extension, j) in existing)
  {
    filePath := NumberedPath(directory, fileName, extension, 0);
    if filePath !in existing {
      return;
    }
    var i: nat := 1;
    while true
      invariant 1 <= i
      invariant forall j: nat :: j < i ==> NumberedPath(directory, fileName, extension, j) in existing
      invariant TriedPaths(directory, fileName, extension, i) <= existing
      decreases |existing - TriedPaths(directory, fileName, extension, i)|
    {
      filePath := NumberedPath(directory, fileName, extension, i);
      if filePath !in existing {
        return;
      }
      TriedStep(directory, fileName, extension, i, existing);
      i := i + 1;
    }
  }

  /** `path` is the one `findFirstNotExistingFile` picks for `fileName` when the paths in `taken`
      exist: it is not taken, and it is the numbered path whose lower numbers are all taken. */
  ghost predicate FirstFree(path: string, directory: string, fileName: string, extension: string, taken: set<string>)
  {
    path !in taken &&
    exists k: nat :: path == NumberedPath(directory, fileName, extension, k) &&
      forall j: nat :: j < k ==> NumberedPath(directory, fileName, extension, j) in taken
  }

  /** The paths that exist once `written` has been saved on top of `existing`. */
  ghost function Occupied(existing: set<string>, written: seq<string>): set<string>
    decreases |written|
  {
    if |written| == 0 then existing
    else Occupied(existing, written[..|written| - 1]) + {written[|written| - 1]}
  }

  lemma {:induction false} OccupiedHolds(existing: set<string>, written: seq<string>, x: string)
    ensures x in Occupied(existing, written) <==> x in existing || x in written
    decreases |written|
  {
    if |written| > 0 {
      var init := written[..|written| - 1];
      OccupiedHolds(existing, init, x);
      assert written == init + [written[|written| - 1]];
    }
  }

  /** Each of the paths chosen for the first groups of a save is its group's first free path. */
  ghost predicate PlacedFirstFree(directory: string, groups: seq<string>, existing: set<string>,
                                  isIdentifierPart: char -> bool, paths: seq<string>)
    requires |paths| <= |groups|
  {
    forall i :: 0 <= i < |paths| ==>
      FirstFree(paths[i], directory, SafeName(Some(groups[i]), isIdentifierPart), XmlExtension,
                Occupied(existing, paths[..i]))
  }

  /** Placing the next group at its first free path keeps `PlacedFirstFree`. */
  lemma FirstFreeStep(directory: string, groups: seq<string>, existing: set<string>,
                      isIdentifierPart: char -> bool, paths: seq<string>, filePath: string)
    requires |paths| < |groups|
    requires PlacedFirstFree(directory, groups, existing, isIdentifierPart, paths)
    requires FirstFree(filePath, directory, SafeName(Some(groups[|paths|]), isIdentifierPart), XmlExtension,
                       Occupied(existing, paths))
    ensures PlacedFirstFree(directory, groups, existing, isIdentifierPart, paths + [filePath])
  {
    var next := paths + [filePath];
    assert |next| == |paths| + 1;
    forall i | 0 <= i < |next|
      ensures FirstFree(next[i], directory, SafeName(Some(groups[i]), isIdentifierPart), XmlExtension,
                        Occupied(existing, next[..i]))
    {
      if i < |paths| {
        assert next[i] == paths[i];
        assert next[..i] == paths[..i];
      } else {
        assert next[..i] == paths;
      }
    }
  }

  /** A path not yet occupied is new and differs from every path already chosen. */
  lemma FreshStep(existing: set<string>, paths: seq<string>, filePath: string)
    requires forall i :: 0 <= i < |paths| ==> paths[i] !in existing
    requires forall i, j :: 0 <= i < j < |paths| ==> paths[i] != paths[j]
    requires filePath !in Occupied(existing, paths)
    ensures forall i :: 0 <= i < |paths + [filePath]| ==> (paths + [filePath])[i] !in existing
    ensures forall i, j :: 0 <= i < j < |paths + [filePath]| ==> (paths + [filePath])[i] != (paths + [filePath])[j]
  {
    OccupiedHolds(existing, paths, filePath);
  }

  /** What the paths chosen for the first groups of a save satisfy: each is its group's first free
      path, none existed before the save, and no two are the same. */
  ghost predicate GroupsPlaced(directory: string, groups: seq<string>, existing: set<string>,
                               isIdentifierPart: char -> bool, paths: seq<string>)
    requires |paths| <= |groups|
  {
    PlacedFirstFree(directory, groups, existing, isIdentifierPart, paths) &&
    (forall i :: 0 <= i < |paths| ==> paths[i] !in existing) &&
    (forall i, j :: 0 <= i < j < |paths| ==> paths[i] != paths[j])
  }

  /** Placing the next group at its first free path keeps `GroupsPlaced`. */
  lemma GroupStep(directory: string, groups: seq<string>, existing: set<string>,
                  isIdentifierPart: char -> bool, paths: seq<string>, filePath: string)
    requires |paths| < |groups|
    requires GroupsPlaced(directory, groups, existing, isIdentifierPart, paths)
    requires FirstFree(filePath, directory, SafeName(Some(groups[|paths|]), isIdentifierPart), XmlExtension,
                       Occupied(existing, paths))
    ensures GroupsPlaced(directory, groups, existing, isIdentifierPart, paths + [filePath])
  {
    FirstFreeStep(directory, groups, existing, isIdentifierPart, paths, filePath);
    FreshStep(existing, paths, filePath);
  }

  /** The path one group of a save is written to: its converted name at the first free number. */
  method GroupFilePath(directory: string, group: string, written: set<string>, isIdentifierPart: char -> bool)
    returns (filePath: string)
    ensures FirstFree(filePath, directory, SafeName(Some(group), isIdentifierPart), XmlExtension, written)
  {
    var fileName := ConvertName(Some(group), isIdentifierPart);
    filePath := FindFirstNotExistingFile(directory, fileName, XmlExtension, written);
  }

  /** The paths the groups of a save are written to (`saveTemplates`): each group's converted name
      under `directory`, at the first number free of the files that existed and of those the same
      save has written before it. */
  method GroupFilePaths(directory: string, groups: seq<string>, existing: set<string>, isIdentifierPart: char -> bool)
    returns (paths: seq<string>)
    ensures |paths| == |groups|
    ensures forall g :: 0 <= g < |paths| ==>
      FirstFree(paths[g], directory, SafeName(Some(groups[g]), isIdentifierPart), XmlExtension,
                Occupied(existing, paths[..g]))
    ensures forall i :: 0 <= i < |paths| ==> paths[i] !in existing
    ensures forall i, j :: 0 <= i < j < |paths| ==> paths[i] != paths[j]
  {
    var written := existing;
    paths := [];
    for g := 0 to |groups|
      invariant |paths| == g
      invariant written == Occupied(existing, paths)
      invariant GroupsPlaced(directory, groups, existing, isIdentifierPart, paths)
    {
      var filePath := GroupFilePath(directory, groups[g], written, isIdentifierPart);
      GroupStep(directory, groups, existing, isIdentifierPart, paths, filePath);
      paths := paths + [filePath];
      written := written + {filePath};
    }
    assert paths[..|paths|] == paths;
  }

  // ---------------------------------------------------------------------------------------------
  // What a save and a bulk replacement compute.

  /** The key map after putting `templates` in order into an empty map: a later template with the
      same key replaces an earlier one. */
  function KeyMap(templates: seq<Template>): map<string, Template>
  {
    if |templates| == 0 then map[]
    else KeyMap(templates[..|templates| - 1])[templates[|templates| - 1].key := templates[|templates| - 1]]
  }

  /** The keys of `KeyMap` are exactly the templates' keys, and each template sits under its own key. */
  lemma {:induction false} KeyMapKeys(templates: seq<Template>)
    ensures forall k :: k in KeyMap(templates) <==> exists i :: 0 <= i < |templates| && templates[i].key == k
    ensures forall k :: k in KeyMap(templates) ==> KeyMap(templates)[k].key == k
    decreases |templates|
  {
    if |templates| > 0 {
      var init := templates[..|templates| - 1];
      KeyMapKeys(init);
      forall k ensures k in KeyMap(templates) <==> exists i :: 0 <= i < |templates| && templates[i].key == k {
        if k in KeyMap(init) {
          var i :| 0 <= i < |init| && init[i].key == k;
          assert templates[i].key == k;
        }
        if exists i :: 0 <= i < |templates| && templates[i].key == k {
          var i :| 0 <= i < |templates| && templates[i].key == k;
          if i < |init| {
            assert init[i].key == k;
          }
        }
      }
    }
  }

  /** A key maps to the last template carrying it: a later template with the same key wins. */
  lemma {:induction false} KeyMapLastWins(templates: seq<Template>, i: nat)
    requires i < |templates|
    requires forall j :: i < j < |templates| ==> templates[j].key != templates[i].key
    ensures templates[i].key in KeyMap(templates) && KeyMap(templates)[templates[i].key] == templates[i]
    decreases |templates|
  {
    var init := templates[..|templates| - 1];
    if i < |init| {
      assert init[i] == templates[i];
      assert forall j :: i < j < |init| ==> init[j] == templates[j];
      KeyMapLastWins(init, i);
    }
  }

  /** The longest key among `templates`, 0 when there are none. */
  function MaxKeyLength(templates: seq<Template>): nat
  {
    if |templates| == 0 then 0
    else
      var m := MaxKeyLength(templates[..|templates| - 1]);
      var n := |templates[|templates| - 1].key|;
      if m < n then n else m
  }

  /** `MaxKeyLength` bounds every key and, for a non-empty list, is the length of one of them. */
  lemma {:induction false} MaxKeyLengthIsMax(templates: seq<Template>)
    ensures forall i :: 0 <= i < |templates| ==> |templates[i].key| <= MaxKeyLength(templates)
    ensures |templates| == 0 ==> MaxKeyLength(templates) == 0
    ensures |templates| > 0 ==> exists i :: 0 <= i < |templates| && |templates[i].key| == MaxKeyLength(templates)
    decreases |templates|
  {
    if |templates| > 0 {
      var init := templates[..|templates| - 1];
      MaxKeyLengthIsMax(init);
      assert forall i :: 0 <= i < |init| ==> init[i] == templates[i];
      if |init| > 0 && MaxKeyLength(templates) == MaxKeyLength(init) {
        var i :| 0 <= i < |init| && |init[i].key| == MaxKeyLength(init);
        assert |templates[i].key| == MaxKeyLength(templates);
      }
    }
  }

  /** The id map after `addTemplateWithId` for each of `templates` in order: templates with an id
      are stored under it, the others leave the map alone. */
  function AddIds(byId: map<string, Template>, templates: seq<Template>): map<string, Template>
  {
    if |templates| == 0 then byId
    else
      var m := AddIds(byId, templates[..|templates| - 1]);
      var t := templates[|templates| - 1];
      if t.id.Some? then m[t.id.value := t] else m
  }

  /** Adding ids keeps every earlier id and adds exactly the ids the templates carry, each mapped to
      a template with that id when the map started out that way. */
  lemma {:induction false} AddIdsExact(byId: map<string, Template>, templates: seq<Template>)
    ensures forall id :: id in AddIds(byId, templates) <==>
      id in byId || exists i :: 0 <= i < |templates| && templates[i].id == Some(id)
    ensures (forall id :: id in byId ==> byId[id].id == Some(id)) ==>
      forall id :: id in AddIds(byId, templates) ==> AddIds(byId, templates)[id].id == Some(id)
    decreases |templates|
  {
    if |templates| > 0 {
      var init := templates[..|templates| - 1];
      AddIdsExact(byId, init);
      forall id ensures id in AddIds(byId, templates) <==> id in byId || exists i :: 0 <= i < |templates| && templates[i].id == Some(id) {
        if exists i :: 0 <= i < |init| && init[i].id == Some(id) {
          var i :| 0 <= i < |init| && init[i].id == Some(id);
          assert templates[i].id == Some(id);
        }
        if exists i :: 0 <= i < |templates| && templates[i].id == Some(id) {
          var i :| 0 <= i < |templates| && templates[i].id == Some(id);
          if i < |init| {
            assert init[i].id == Some(id);
          }
        }
      }
    }
  }

  /** The default-template keys, in order, that are not among `names`. */
  function DeletedDefaults(defaultKeys: seq<string>, names: set<string>): seq<string>
  {
    if |defaultKeys| == 0 then []
    else
      DeletedDefaults(defaultKeys[..|defaultKeys| - 1], names)
        + (if defaultKeys[|defaultKeys| - 1] in names then [] else [defaultKeys[|defaultKeys| - 1]])
  }

  /** A key is listed as deleted exactly when it is a default key missing from `names`; the list
      keeps the default keys' order and has no repeats when they have none. */
  lemma {:induction false} DeletedDefaultsExact(defaultKeys: seq<string>, names: set<string>)
    ensures forall k :: k in DeletedDefaults(defaultKeys, names) <==> k in defaultKeys && k !in names
    ensures (forall i, j :: 0 <= i < j < |defaultKeys| ==> defaultKeys[i] != defaultKeys[j]) ==>
      forall i, j :: 0 <= i < j < |DeletedDefaults(defaultKeys, names)| ==>
        DeletedDefaults(defaultKeys, names)[i] != DeletedDefaults(defaultKeys, names)[j]
    decreases |defaultKeys|
  {
    if |defaultKeys| > 0 {
      var init := defaultKeys[..|defaultKeys| - 1];
      DeletedDefaultsExact(init, names);
      assert defaultKeys == init + [defaultKeys[|defaultKeys| - 1]];
    }
  }

  /** The deleted list of a concatenation of key lists is the concatenation of their deleted lists:
      the list follows the default keys' insertion order. */
  lemma {:induction false} DeletedDefaultsAppend(a: seq<string>, b: seq<string>, names: set<string>)
    ensures DeletedDefaults(a + b, names) == DeletedDefaults(a, names) + DeletedDefaults(b, names)
    decreases |b|
  {
    if |b| == 0 {
      assert a + b == a;
    } else {
      assert (a + b)[..|a + b| - 1] == a + b[..|b| - 1];
      DeletedDefaultsAppend(a, b[..|b| - 1], names);
    }
  }

  /** The keys of `templates`. */
  function KeysOf(templates: seq<Template>): set<string>
  {
    set i | 0 <= i < |templates| :: templates[i].key
  }

  // ---------------------------------------------------------------------------------------------
  // The registry.

  /** Every template sits under its own key, and no key is longer than `maxKeyLength`. */
  ghost predicate KeyedWithin(templates: map<string, Template>, maxKeyLength: nat)
  {
    forall k :: k in templates ==> templates[k].key == k && |k| <= maxKeyLength
  }

  /** Putting a template under its key, with the bound raised to its key's length, keeps every
      template under its own key within the bound. */
  lemma KeyedWithinPut(templates: map<string, Template>, maxKeyLength: nat, template: Template)
    requires KeyedWithin(templates, maxKeyLength)
    ensures KeyedWithin(templates[template.key := template],
                        if maxKeyLength < |template.key| then |template.key| else maxKeyLength)
  {
  }

  /** Every template sits under its own id. */
  ghost predicate IdsKeyed(templatesById: map<string, Template>)
  {
    forall id :: id in templatesById ==> templatesById[id].id == Some(id)
  }

  /** Every default template sits under its own key, and `keys` lists the default keys once each. */
  ghost predicate DefaultsListed(keys: seq<string>, defaults: map<string, Template>)
  {
    (forall k :: k in defaults ==> defaults[k].key == k) &&
    (forall i, j :: 0 <= i < j < |keys| ==> keys[i] != keys[j]) &&
    (forall k :: k in keys <==> k in defaults)
  }

  class TemplateSettings {
    /** `myTemplates`: the templates in use, by key. */
    var templates: map<string, Template>
    /** `myTemplatesById`. */
    var templatesById: map<string, Template>
    /** The keys of `myDefaultTemplates`, in insertion order. */
    var defaultKeys: seq<string>
    /** `myDefaultTemplates`: the default templates read so far, by key. */
    var defaultTemplates: map<string, Template>
    /** `myMaxKeyLength`. */
    var maxKeyLength: nat
    /** `myDefaultShortcutChar`. */
    var defaultShortcutChar: char
    /** `myDeletedTemplates`: default templates the user removed. */
    var deletedTemplates: seq<string>

    /** Templates sit under their own key (and id), no key is longer than `maxKeyLength`, and the
        default keys are listed once each. */
    ghost predicate Valid()
      reads this
    {
      KeyedWithin(templates, maxKeyLength) && IdsKeyed(templatesById) && DefaultsListed(defaultKeys, defaultTemplates)
    }

    /** A registry before any template file was read. */
    constructor ()
      ensures Valid()
      ensures templates == map[] && templatesById == map[] && defaultKeys == [] && defaultTemplates == map[]
      ensures maxKeyLength == 0 && defaultShortcutChar == TabChar && deletedTemplates == []
    {
      templates, templatesById := map[], map[];
      defaultKeys, defaultTemplates := [], map[];
      maxKeyLength := 0;
      defaultShortcutChar := TabChar;
      deletedTemplates := [];
    }

    /** `getMaxKeyLength`: no template key is longer. */
    function GetMaxKeyLength(): (n: nat)
      requires Valid()
      reads this
      ensures forall k :: k in templates ==> |k| <= n
    {
      maxKeyLength
    }

    /** `getTemplates`: every template in use, once each (the map's order is not modelled). */
    method GetTemplates() returns (ts: seq<Template>)
      requires Valid()
      ensures |ts| == |templates|
      ensures forall i :: 0 <= i < |ts| ==> ts[i].key in templates && templates[ts[i].key] == ts[i]
      ensures KeysOf(ts) == templates.Keys
    {
      ts := [];
      var rest := templates.Keys;
      while rest != {}
        invariant rest <= templates.Keys
        invariant |ts| + |rest| == |templates|
        invariant forall i :: 0 <= i < |ts| ==> ts[i].key in templates && templates[ts[i].key] == ts[i]
        invariant KeysOf(ts) == templates.Keys - rest
        decreases |rest|
      {
        var k :| k in rest;
        ghost var before := ts;
        ts := ts + [templates[k]];
        rest := rest - {k};
        forall x ensures x in KeysOf(ts) <==> x in KeysOf(before) || x == k {
          if x in KeysOf(ts) {
            var i :| 0 <= i < |ts| && ts[i].key == x;
            if i < |before| {
              assert before[i].key == x;
            }
          }
          if x in KeysOf(before) {
            var i :| 0 <= i < |before| && before[i].key == x;
            assert ts[i].key == x;
          }
          if x == k {
            assert ts[|before|].key == x;
          }
        }
      }
      assert |templates.Keys| == |templates|;
    }

    /** `addTemplateWithId`: stores the template under its id, when it has one. */
    method AddTemplateWithId(template: Template)
      requires Valid()
      modifies this
      ensures Valid()
      ensures templatesById == if template.id.Some? then old(templatesById)[template.id.value := template] else old(templatesById)
      ensures templates == old(templates) && defaultKeys == old(defaultKeys) && defaultTemplates == old(defaultTemplates)
      ensures maxKeyLength == old(maxKeyLength) && deletedTemplates == old(deletedTemplates)
      ensures defaultShortcutChar == old(defaultShortcutChar)
    {
      if template.id.Some? {
        templatesById := templatesById[template.id.value := template];
      }
    }

    /** The deleted-list part of `saveTemplates`: the default keys, in insertion order, that are not
        among the saved templates' keys. */
    method SaveTemplates(saved: seq<Template>)
      requires Valid()
      modifies this
      ensures Valid()
      ensures deletedTemplates == DeletedDefaults(defaultKeys, KeysOf(saved))
      ensures templates == old(templates) && templatesById == old(templatesById)
      ensures defaultKeys == old(defaultKeys) && defaultTemplates == old(defaultTemplates)
      ensures maxKeyLength == old(maxKeyLength) && defaultShortcutChar == old(defaultShortcutChar)
    {
      var templateNames: seq<string> := [];
      for i := 0 to |saved|
        invariant |templateNames| == i
        invariant forall k :: 0 <= k < i ==> templateNames[k] == saved[k].key
      {
        templateNames := templateNames + [saved[i].key];
      }
      assert forall n :: n in templateNames <==> n in KeysOf(saved);
      var deleted: seq<string> := [];
      for i := 0 to |defaultKeys|
        invariant deleted == DeletedDefaults(defaultKeys[..i], KeysOf(saved))
      {
        assert defaultKeys[..i + 1][..i] == defaultKeys[..i];
        var defTemplateName := defaultKeys[i];
        if defTemplateName !in templateNames {
          deleted := deleted + [defTemplateName];
        }
      }
      assert defaultKeys[..|defaultKeys|] == defaultKeys;
      deletedTemplates := deleted;
    }

    /** `setTemplates`: the key map becomes exactly the new templates (a later one wins a key), the
        longest key is theirs (0 for none), their ids are added, and the deleted list is recomputed. */
    method SetTemplates(newTemplates: seq<Template>)
      requires Valid()
      modifies this
      ensures Valid()
      ensures templates == KeyMap(newTemplates)
      ensures maxKeyLength == MaxKeyLength(newTemplates)
      ensures templatesById == AddIds(old(templatesById), newTemplates)
      ensures deletedTemplates == DeletedDefaults(defaultKeys, KeysOf(newTemplates))
      ensures defaultKeys == old(defaultKeys) && defaultTemplates == old(defaultTemplates)
      ensures defaultShortcutChar == old(defaultShortcutChar)
    {
      templates := map[];
      maxKeyLength := 0;
      for i := 0 to |newTemplates|
        invariant Valid()
        invariant templates == KeyMap(newTemplates[..i])
        invariant maxKeyLength == MaxKeyLength(newTemplates[..i])
        invariant templatesById == AddIds(old(templatesById), newTemplates[..i])
        invariant defaultKeys == old(defaultKeys) && defaultTemplates == old(defaultTemplates)
        invariant defaultShortcutChar == old(defaultShortcutChar)
      {
        assert newTemplates[..i + 1][..i] == newTemplates[..i];
        var template := newTemplates[i];
        KeyedWithinPut(templates, maxKeyLength, template);
        templates := templates[template.key := template];
        maxKeyLength := if maxKeyLength < |template.key| then |template.key| else maxKeyLength;
        AddTemplateWithId(template);
      }
      assert newTemplates[..|newTemplates|] == newTemplates;
      SaveTemplates(newTemplates);
    }

    /** `addTemplate(Template)`: stores the template under its key (and id), raises the longest key
        to at least its key's length, and recomputes the deleted list. */
    method AddTemplate(template: Template)
      requires Valid()
      modifies this
      ensures Valid()
      ensures templates == old(templates)[template.key := template]
      ensures templatesById == if template.id.Some? then old(templatesById)[template.id.value := template] else old(templatesById)
      ensures maxKeyLength == if old(maxKeyLength) < |template.key| then |template.key| else old(maxKeyLength)
      ensures deletedTemplates == DeletedDefaults(defaultKeys, templates.Keys)
      ensures defaultKeys == old(defaultKeys) && defaultTemplates == old(defaultTemplates)
      ensures defaultShortcutChar == old(defaultShortcutChar)
    {
      KeyedWithinPut(templates, maxKeyLength, template);
      templates := templates[template.key := template];
      maxKeyLength := if maxKeyLength < |template.key| then |template.key| else maxKeyLength;
      AddTemplateWithId(template);
      SaveCurrentTemplates();
    }

    /** `saveTemplates(getTemplates())`: the deleted list becomes the default keys no template in
        use has; nothing else changes. */
    method SaveCurrentTemplates()
      requires Valid()
      modifies this
      ensures Valid()
      ensures deletedTemplates == DeletedDefaults(defaultKeys, templates.Keys)
      ensures templates == old(templates) && templatesById == old(templatesById)
      ensures defaultKeys == old(defaultKeys) && defaultTemplates == old(defaultTemplates)
      ensures maxKeyLength == old(maxKeyLength) && defaultShortcutChar == old(defaultShortcutChar)
    {
      var all := GetTemplates();
      SaveTemplates(all);
    }

    /** `removeTemplate`: drops the entries for the template's key and id; the longest key stays. */
    method RemoveTemplate(template: Template)
      requires Valid()
      modifies this
      ensures Valid()
      ensures templates == old(templates) - {template.key}
      ensures templatesById == if template.id.Some? then old(templatesById) - {template.id.value} else old(templatesById)
      ensures maxKeyLength == old(maxKeyLength)
      ensures deletedTemplates == DeletedDefaults(defaultKeys, templates.Keys)
      ensures defaultKeys == old(defaultKeys) && defaultTemplates == old(defaultTemplates)
      ensures defaultShortcutChar == old(defaultShortcutChar)
    {
      templates := templates - {template.key};
      if template.id.Some? {
        templatesById := templatesById - {template.id.value};
      }
      SaveCurrentTemplates();
    }

    /** `myDefaultTemplates.put`: the default template under its key, a new key going last. */
    method RecordDefault(template: Template)
      requires Valid()
      modifies this
      ensures Valid()
      ensures defaultTemplates == old(defaultTemplates)[template.key := template]
      ensures defaultKeys == if template.key in old(defaultTemplates) then old(defaultKeys) else old(defaultKeys) + [template.key]
      ensures templates == old(templates) && templatesById == old(templatesById) && maxKeyLength == old(maxKeyLength)
      ensures deletedTemplates == old(deletedTemplates) && defaultShortcutChar == old(defaultShortcutChar)
    {
      if template.key !in defaultTemplates {
        assert forall i :: 0 <= i < |defaultKeys| ==> defaultKeys[i] != template.key;
        defaultKeys := defaultKeys + [template.key];
      }
      defaultTemplates := defaultTemplates[template.key := template];
    }

    /** The private `addTemplate` used while reading template files: builds the template, records a
        default one among the defaults, and stores it unless it is a default whose key is taken. */
    method AddTemplateFromFile(key: string, text: string, group: string, description: Option<string>,
                               shortcut: Option<string>, isDefault: bool, id: Option<string>)
      returns (template: Template)
      requires Valid()
      modifies this
      ensures Valid()
      ensures template == Template(key, id, text, group, description, ShortcutChar(shortcut))
      ensures isDefault ==> defaultTemplates == old(defaultTemplates)[key := template]
      ensures isDefault ==> defaultKeys == if key in old(defaultTemplates) then old(defaultKeys) else old(defaultKeys) + [key]
      ensures !isDefault ==> defaultTemplates == old(defaultTemplates) && defaultKeys == old(defaultKeys)
      ensures isDefault && key in old(templates) ==>
        templates == old(templates) && templatesById == old(templatesById) && maxKeyLength == old(maxKeyLength)
      ensures !(isDefault && key in old(templates)) ==>
        templates == old(templates)[key := template] &&
        templatesById == (if id.Some? then old(templatesById)[id.value := template] else old(templatesById)) &&
        maxKeyLength == (if old(maxKeyLength) < |key| then |key| else old(maxKeyLength))
      ensures deletedTemplates == old(deletedTemplates) && defaultShortcutChar == old(defaultShortcutChar)
    {
      template := Template(key, id, text, group, description, ShortcutChar(shortcut));
      if isDefault {
        RecordDefault(template);
        if key in templates {
          return;
        }
      }
      KeyedWithinPut(templates, maxKeyLength, template);
      templates := templates[key := template];
      maxKeyLength := if maxKeyLength < |key| then |key| else maxKeyLength;
      AddTemplateWithId(template);
    }

    /** The shortcut and deleted-list part of `readExternal`: a `defaultShortcut` element (outer
        option) with its `shortcut` attribute (inner option) sets the default shortcut character,
        and the names under a `deleted_templates` element are appended to the deleted list. */
    method ReadExternal(shortcutElement: Option<Option<string>>, deletedNames: Option<seq<string>>)
      requires Valid()
      modifies this
      ensures Valid()
      ensures defaultShortcutChar == if shortcutElement.Some? then ReadDefaultShortcut(shortcutElement.value) else old(defaultShortcutChar)
      ensures deletedTemplates == old(deletedTemplates) + if deletedNames.Some? then deletedNames.value else []
      ensures templates == old(templates) && templatesById == old(templatesById) && maxKeyLength == old(maxKeyLength)
      ensures defaultKeys == old(defaultKeys) && defaultTemplates == old(defaultTemplates)
    {
      if shortcutElement.Some? {
        var shortcut := shortcutElement.value;
        if shortcut == Some(TabName) {
          defaultShortcutChar := TabChar;
        } else if shortcut == Some(EnterName) {
          defaultShortcutChar := EnterChar;
        } else {
          defaultShortcutChar := SpaceChar;
        }
      }
      if deletedNames.Some? {
        var children := deletedNames.value;
        var deleted := deletedTemplates;
        for i := 0 to |children|
          invariant deleted == old(deletedTemplates) + children[..i]
        {
          assert children[..i + 1] == children[..i] + [children[i]];
          deleted := deleted + [children[i]];
        }
        assert children[..|children|] == children;
        deletedTemplates := deleted;
      }
    }

    /** The shortcut and deleted-list part of `writeExternal`: the name of the default shortcut
        character, and the deleted list when it is not empty. */
    method WriteExternal() returns (shortcut: string, deletedNames: Option<seq<string>>)
      ensures shortcut == WriteDefaultShortcut(defaultShortcutChar)
      ensures |deletedTemplates| > 0 ==> deletedNames == Some(deletedTemplates)
      ensures |deletedTemplates| == 0 ==> deletedNames == None
    {
      if defaultShortcutChar == TabChar {
        shortcut := TabName;
      } else if defaultShortcutChar == EnterChar {
        shortcut := EnterName;
      } else {
        shortcut := SpaceName;
      }
      deletedNames := None;
      if |deletedTemplates| > 0 {
        var names: seq<string> := [];
        for i := 0 to |deletedTemplates|
          invariant names == deletedTemplates[..i]
        {
          assert deletedTemplates[..i + 1] == deletedTemplates[..i] + [deletedTemplates[i]];
          names := names + [deletedTemplates[i]];
        }
        assert deletedTemplates[..|deletedTemplates|] == deletedTemplates;
        deletedNames := Some(names);
      }
    }
  }
}
