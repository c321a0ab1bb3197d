/**
 * The watch-root path filter of the local file watcher (`CanonicalPathMap`).
 *
 * A native watcher reports changed paths, often in symlink-resolved ("canonical") form. The map
 * rewrites a reported path through a list of (canonical prefix, requested prefix) rules and keeps
 * the candidates that fall under a flat root (the root and its immediate children) or a recursive
 * root (the whole subtree), in the form the roots were requested in.
 *
 * Paths are strings with '/' as separator, assumed normalized (no doubled or trailing separator).
 */
module CanonicalPaths {
  import opened Common

  const Separator: char := '/'

  /** `FileUtil.namesEqual` on a case-sensitive file system. */
  predicate NamesEqual(a: string, b: string)
  {
    a == b
  }

  /** `FileUtil.startsWith(path, prefix)`: `path` is `prefix` or lies beneath it. The empty prefix
      matches every path; a prefix ending in a separator is a plain text prefix; otherwise the
      prefix must end the path or be followed by a separator. */
  predicate StartsWith(path: string, prefix: string)
  {
    |prefix| == 0 ||
    (|prefix| <= |path| && path[..|prefix|] == prefix &&
     (|prefix| == |path| || prefix[|prefix| - 1] == Separator || path[|prefix|] == Separator))
  }

  /** `java.io.File.getParent()` for a Unix path: everything before the last separator, the root
      "/" for a top-level absolute path, and nothing for "/" or a single relative name. */
  function Parent(path: string): (r: Option<string>)
    ensures r.Some? ==> |r.value| < |path| && r.value == path[..|r.value|]
    ensures r.Some? ==> r.value == [Separator] || path[|r.value|] == Separator
    ensures r.None? <==> (LastIndexOf(path, Separator) == -1 || path == [Separator])
  {
    var i := LastIndexOf(path, Separator);
    var prefixLength := if |path| > 0 && path[0] == Separator then 1 else 0;
    if i < prefixLength then
      if prefixLength > 0 && |path| > prefixLength then Some(path[..prefixLength]) else None
    else Some(path[..i])
  }

  /** A rewrite rule: a path under `canonical` is also reported under `requested`, and the other
      way round. */
  datatype Rule = Rule(canonical: string, requested: string)

  // ---------------------------------------------------------------------------------------------
  // Construction: canonicalizing the roots.

  /** Whether resolving `path` gives a path different from it (a null result counts as no). */
  predicate Resolves(resolve: string -> Option<string>, path: string)
  {
    resolve(path).Some? && resolve(path).value != path
  }

  /** The canonical form `mapPaths` stores for `path`. */
  function Canonical(resolve: string -> Option<string>, path: string): string
  {
    if Resolves(resolve, path) then resolve(path).value else path
  }

  /** The rules `mapPaths` appends for `paths`, one per resolved entry, in input order. */
  function RulesFor(resolve: string -> Option<string>, paths: seq<string>): seq<Rule>
  {
    if |paths| == 0 then []
    else
      var last := paths[|paths| - 1];
      RulesFor(resolve, paths[..|paths| - 1])
        + (if Resolves(resolve, last) then [Rule(resolve(last).value, last)] else [])
  }

  /** The number of entries of `paths` that resolve to a different path. */
  function ResolvedCount(resolve: string -> Option<string>, paths: seq<string>): nat
  {
    if |paths| == 0 then 0
    else ResolvedCount(resolve, paths[..|paths| - 1]) + (if Resolves(resolve, paths[|paths| - 1]) then 1 else 0)
  }

  /** `RulesFor` holds one rule per resolved entry, and the rule for entry `i` sits after the rules
      for the resolved entries before `i`: exactly one pair per changed entry, in input order. */
  lemma {:induction false} RulesForExact(resolve: string -> Option<string>, paths: seq<string>)
    ensures |RulesFor(resolve, paths)| == ResolvedCount(resolve, paths) <= |paths|
    ensures forall i :: 0 <= i < |paths| && Resolves(resolve, paths[i]) ==>
      ResolvedCount(resolve, paths[..i]) < |RulesFor(resolve, paths)| &&
      RulesFor(resolve, paths)[ResolvedCount(resolve, paths[..i])] == Rule(resolve(paths[i]).value, paths[i])
    decreases |paths|
  {
    if |paths| > 0 {
      var init := paths[..|paths| - 1];
      RulesForExact(resolve, init);
      assert paths[..|paths| - 1] == init;
      forall i | 0 <= i < |paths| && Resolves(resolve, paths[i])
        ensures ResolvedCount(resolve, paths[..i]) < |RulesFor(resolve, paths)|
        ensures RulesFor(resolve, paths)[ResolvedCount(resolve, paths[..i])] == Rule(resolve(paths[i]).value, paths[i])
      {
        if i < |paths| - 1 {
          assert init[i] == paths[i] && init[..i] == paths[..i];
        } else {
          assert paths[..i] == init;
        }
      }
    }
  }

  /** Every rule of `RulesFor` comes from a resolved entry of `paths`. */
  lemma {:induction false} RulesForSound(resolve: string -> Option<string>, paths: seq<string>, rule: Rule)
    requires rule in RulesFor(resolve, paths)
    ensures rule.requested in paths && Resolves(resolve, rule.requested)
    ensures rule.canonical == resolve(rule.requested).value != rule.requested
    decreases |paths|
  {
    var init := paths[..|paths| - 1];
    var last := paths[|paths| - 1];
    if rule in RulesFor(resolve, init) {
      RulesForSound(resolve, init, rule);
      assert forall p :: p in init ==> p in paths;
    }
  }

  /** `mapPaths`: the canonical form of every entry of `paths`, and `mapping` extended with one rule
      per entry whose canonical form differs. */
  method MapPaths(paths: seq<string>, mapping: seq<Rule>, resolve: string -> Option<string>)
    returns (canonicalPaths: seq<string>, newMapping: seq<Rule>)
    ensures |canonicalPaths| == |paths|
    ensures forall i :: 0 <= i < |paths| ==>
      canonicalPaths[i] == (if Resolves(resolve, paths[i]) then resolve(paths[i]).value else paths[i])
    ensures newMapping == mapping + RulesFor(resolve, paths)
  {
    canonicalPaths := paths;
    newMapping := mapping;
    for i := 0 to |paths|
      invariant |canonicalPaths| == |paths|
      invariant forall k :: 0 <= k < i ==> canonicalPaths[k] == Canonical(resolve, paths[k])
      invariant forall k :: i <= k < |paths| ==> canonicalPaths[k] == paths[k]
      invariant newMapping == mapping + RulesFor(resolve, paths[..i])
    {
      assert paths[..i + 1][..i] == paths[..i];
      var path := paths[i];
      var canonicalPath := resolve(path);
      if canonicalPath.Some? && path != canonicalPath.value {
        canonicalPaths := canonicalPaths[i := canonicalPath.value];
        newMapping := newMapping + [Rule(canonicalPath.value, path)];
      }
    }
    assert paths[..|paths|] == paths;
  }

  // ---------------------------------------------------------------------------------------------
  // Rewriting a reported path into its candidates.

  /** The candidate one rule adds for `reported`: canonical to requested when the canonical prefix
      matches, otherwise requested to canonical when the requested prefix matches. */
  function Rewrite(reported: string, rule: Rule): Option<string>
  {
    if StartsWith(reported, rule.canonical) then Some(rule.requested + reported[|rule.canonical|..])
    else if StartsWith(reported, rule.requested) then Some(rule.canonical + reported[|rule.requested|..])
    else None
  }

  /** `applyMapping`: the reported path, then one candidate per matching rule, in rule order. */
  function Candidates(reported: string, rules: seq<Rule>): (r: seq<string>)
    ensures 1 <= |r| <= 1 + |rules|
    ensures r[0] == reported
  {
    if |rules| == 0 then [reported]
    else Candidates(reported, rules[..|rules| - 1]) + OptionToSeq(Rewrite(reported, rules[|rules| - 1]))
  }

  /** A rewrite swaps the matched prefix for the other one and keeps what follows it: a path under
      the canonical prefix is rewritten to the same relative path under the requested prefix, and
      only when the canonical prefix does not match is the requested-to-canonical direction tried. */
  lemma RewriteKeepsSuffix(reported: string, rule: Rule)
    ensures StartsWith(reported, rule.canonical) ==>
      Rewrite(reported, rule) == Some(rule.requested + reported[|rule.canonical|..]) &&
      reported == rule.canonical + reported[|rule.canonical|..]
    ensures !StartsWith(reported, rule.canonical) && StartsWith(reported, rule.requested) ==>
      Rewrite(reported, rule) == Some(rule.canonical + reported[|rule.requested|..]) &&
      reported == rule.requested + reported[|rule.requested|..]
    ensures Rewrite(reported, rule).None? <==>
      !StartsWith(reported, rule.canonical) && !StartsWith(reported, rule.requested)
  {
  }

  /** When the canonical prefix is a non-empty path not ending in a separator, a path under it is
      rewritten to a path under the requested prefix with the same remainder. */
  lemma RewriteStaysUnder(reported: string, rule: Rule)
    requires StartsWith(reported, rule.canonical)
    requires |rule.canonical| > 0 && rule.canonical[|rule.canonical| - 1] != Separator
    ensures Rewrite(reported, rule).Some?
    ensures StartsWith(Rewrite(reported, rule).value, rule.requested)
    ensures Rewrite(reported, rule).value[|rule.requested|..] == reported[|rule.canonical|..]
  {
    var x := Rewrite(reported, rule).value;
    assert x == rule.requested + reported[|rule.canonical|..];
    assert x[..|rule.requested|] == rule.requested;
    if |x| > |rule.requested| {
      assert x[|rule.requested|] == reported[|rule.canonical|];
    }
  }

  /** The prefix swap is textual: when the canonical prefix ends in the separator and the requested
      one does not, the separator is swapped away with it (`/var/x` under the rule from `/var/` to
      `/home` becomes `/homex`). */
  lemma RewriteDropsSeparator(directory: string, requested: string, name: string)
    ensures Rewrite(directory + [Separator] + name, Rule(directory + [Separator], requested)) == Some(requested + name)
  {
    var reported := directory + [Separator] + name;
    assert reported[..|directory| + 1] == directory + [Separator];
    assert reported[|directory| + 1..] == name;
  }

  /** A path other than the first entry is a candidate exactly when some rule rewrites the reported
      path to it. */
  lemma {:induction false} CandidatesFromRules(reported: string, rules: seq<Rule>, x: string)
    ensures x in Candidates(reported, rules)[1..] <==> exists rule :: rule in rules && Rewrite(reported, rule) == Some(x)
    decreases |rules|
  {
    if |rules| > 0 {
      var init, last := rules[..|rules| - 1], rules[|rules| - 1];
      CandidatesFromRules(reported, init, x);
      var c := Candidates(reported, init);
      assert Candidates(reported, rules)[1..] == c[1..] + OptionToSeq(Rewrite(reported, last));
      assert rules == init + [last];
      assert x in OptionToSeq(Rewrite(reported, last)) <==> Rewrite(reported, last) == Some(x);
      assert forall rule :: rule in rules <==> rule in init || rule == last;
    }
  }

  /** Dropping the head of `b` commutes with appending `c`. */
  lemma ShiftConcat<T>(a: seq<T>, b: seq<T>, c: seq<T>)
    requires |b| >= 1
    ensures (a + b[1..]) + c == a + (b + c)[1..]
  {
    assert (b + c)[1..] == b[1..] + c;
  }

  /** One more rule adds at most its own rewrite at the end. */
  lemma CandidatesSnoc(reported: string, rules: seq<Rule>, rule: Rule)
    ensures Candidates(reported, rules + [rule]) == Candidates(reported, rules) + OptionToSeq(Rewrite(reported, rule))
  {
    assert (rules + [rule])[..|rules|] == rules;
  }

  /** Candidates for a longer rule list extend those for a shorter one: appending rules never
      disturbs the candidates the earlier rules produced. */
  lemma {:induction false} CandidatesAppend(reported: string, rules: seq<Rule>, more: seq<Rule>)
    ensures Candidates(reported, rules + more) == Candidates(reported, rules) + Candidates(reported, more)[1..]
    decreases |more|
  {
    if |more| == 0 {
      assert rules + more == rules;
    } else {
      var init, last := more[..|more| - 1], more[|more| - 1];
      assert more == init + [last];
      assert rules + more == (rules + init) + [last];
      CandidatesSnoc(reported, rules + init, last);
      CandidatesSnoc(reported, init, last);
      CandidatesAppend(reported, rules, init);
      ShiftConcat(Candidates(reported, rules), Candidates(reported, init), OptionToSeq(Rewrite(reported, last)));
    }
  }

  // ---------------------------------------------------------------------------------------------
  // Filtering candidates against the roots.

  /** A flat root covers `path` when it is the path itself or, for an exact report, its parent. */
  predicate FlatHit(path: string, root: string, isExact: bool)
  {
    NamesEqual(path, root) || (isExact && Parent(path).Some? && NamesEqual(Parent(path).value, root))
  }

  /** Some flat root covers `path`. */
  predicate AnyFlatHit(path: string, flatRoots: seq<string>, isExact: bool)
  {
    exists k :: 0 <= k < |flatRoots| && FlatHit(path, flatRoots[k], isExact)
  }

  /** What a recursive root reports for `path`: the path when it lies under the root; the root
      itself when the report is not exact and the path is the root's parent; otherwise nothing. */
  function RecursiveHit(path: string, root: string, isExact: bool): Option<string>
  {
    if StartsWith(path, root) then Some(path)
    else if !isExact && Parent(root).Some? && NamesEqual(path, Parent(root).value) then Some(root)
    else None
  }

  /** The report of the first recursive root that reports anything for `path`. */
  function MatchRecursive(path: string, roots: seq<string>, isExact: bool): Option<string>
  {
    if |roots| == 0 then None
    else if RecursiveHit(path, roots[0], isExact).Some? then RecursiveHit(path, roots[0], isExact)
    else MatchRecursive(path, roots[1..], isExact)
  }

  /** The entry one candidate contributes: flat roots are tried before recursive roots, and the first
      matching root decides. */
  function Match(path: string, flatRoots: seq<string>, recursiveRoots: seq<string>, isExact: bool): Option<string>
  {
    if AnyFlatHit(path, flatRoots, isExact) then Some(path) else MatchRecursive(path, recursiveRoots, isExact)
  }

  /** The entries collected from `candidates`, in order; in fast-path mode collection stops after the
      first entry. */
  function Collect(candidates: seq<string>, flatRoots: seq<string>, recursiveRoots: seq<string>,
                   isExact: bool, fastPath: bool): seq<string>
  {
    if |candidates| == 0 then []
    else
      var before := Collect(candidates[..|candidates| - 1], flatRoots, recursiveRoots, isExact, fastPath);
      if fastPath && |before| != 0 then before
      else before + OptionToSeq(Match(candidates[|candidates| - 1], flatRoots, recursiveRoots, isExact))
  }

  /** The first recursive root that reports anything decides `MatchRecursive`; when none does, the
      result is absent. */
  lemma {:induction false} MatchRecursiveFirst(path: string, roots: seq<string>, isExact: bool, k: int)
    requires 0 <= k <= |roots|
    requires forall j :: 0 <= j < k ==> RecursiveHit(path, roots[j], isExact).None?
    requires k < |roots| ==> RecursiveHit(path, roots[k], isExact).Some?
    ensures MatchRecursive(path, roots, isExact) == if k < |roots| then RecursiveHit(path, roots[k], isExact) else None
    decreases k
  {
    if k > 0 {
      assert RecursiveHit(path, roots[0], isExact).None?;
      MatchRecursiveFirst(path, roots[1..], isExact, k - 1);
    }
  }

  /** Every entry a candidate contributes is justified by a root: the candidate equals a flat root,
      or (exact report) its parent does, or it lies under a recursive root; or (inexact report) the
      entry is a recursive root whose parent is the candidate. No root covering the candidate means
      no entry. */
  lemma MatchCases(path: string, flatRoots: seq<string>, recursiveRoots: seq<string>, isExact: bool, x: string)
    ensures Match(path, flatRoots, recursiveRoots, isExact) == Some(x) ==>
      (x == path && exists r :: r in flatRoots && NamesEqual(path, r)) ||
      (x == path && isExact && exists r :: r in flatRoots && Parent(path) == Some(r)) ||
      (x == path && exists r :: r in recursiveRoots && StartsWith(path, r)) ||
      (!isExact && x in recursiveRoots && Parent(x) == Some(path))
    ensures Match(path, flatRoots, recursiveRoots, isExact).None? <==>
      (forall r :: r in flatRoots ==> !FlatHit(path, r, isExact)) &&
      (forall r :: r in recursiveRoots ==> RecursiveHit(path, r, isExact).None?)
  {
    MatchRecursiveSound(path, recursiveRoots, isExact);
    if AnyFlatHit(path, flatRoots, isExact) {
      var k :| 0 <= k < |flatRoots| && FlatHit(path, flatRoots[k], isExact);
      assert flatRoots[k] in flatRoots;
    } else {
      assert forall r :: r in flatRoots ==> !FlatHit(path, r, isExact);
    }
  }

  lemma {:induction false} MatchRecursiveSound(path: string, roots: seq<string>, isExact: bool)
    ensures MatchRecursive(path, roots, isExact).Some? ==>
      exists r :: r in roots && MatchRecursive(path, roots, isExact) == RecursiveHit(path, r, isExact)
    ensures MatchRecursive(path, roots, isExact).None? <==> forall r :: r in roots ==> RecursiveHit(path, r, isExact).None?
    decreases |roots|
  {
    if |roots| > 0 {
      MatchRecursiveSound(path, roots[1..], isExact);
      assert roots == [roots[0]] + roots[1..];
    }
  }

  /** A flat root matching the candidate decides the entry even when a recursive root matches too. */
  lemma FlatBeforeRecursive(path: string, flatRoots: seq<string>, recursiveRoots: seq<string>, isExact: bool, k: int)
    requires 0 <= k < |flatRoots| && FlatHit(path, flatRoots[k], isExact)
    ensures Match(path, flatRoots, recursiveRoots, isExact) == Some(path)
  {
  }

  /** Each candidate contributes at most one entry, so the result is no longer than the candidate
      list; in fast-path mode it holds at most one entry. */
  lemma {:induction false} CollectBounds(candidates: seq<string>, flatRoots: seq<string>, recursiveRoots: seq<string>,
                                         isExact: bool, fastPath: bool)
    ensures |Collect(candidates, flatRoots, recursiveRoots, isExact, fastPath)| <= |candidates|
    ensures fastPath ==> |Collect(candidates, flatRoots, recursiveRoots, isExact, fastPath)| <= 1
    decreases |candidates|
  {
    if |candidates| > 0 {
      CollectBounds(candidates[..|candidates| - 1], flatRoots, recursiveRoots, isExact, fastPath);
    }
  }

  /** Without the fast path, collection distributes over concatenation: the result follows the
      candidates' order, each contributing its own entry. */
  lemma {:induction false} CollectAppend(a: seq<string>, b: seq<string>, flatRoots: seq<string>,
                                         recursiveRoots: seq<string>, isExact: bool)
    ensures Collect(a + b, flatRoots, recursiveRoots, isExact, false)
         == Collect(a, flatRoots, recursiveRoots, isExact, false) + Collect(b, flatRoots, recursiveRoots, isExact, false)
    decreases |b|
  {
    if |b| == 0 {
      assert a + b == a;
    } else {
      assert (a + b)[..|a + b| - 1] == a + b[..|b| - 1];
      CollectAppend(a, b[..|b| - 1], flatRoots, recursiveRoots, isExact);
    }
  }

  /** The fast path returns exactly the first entry of the full result, or nothing when the full
      result is empty. */
  lemma {:induction false} FastPathIsFirstEntry(candidates: seq<string>, flatRoots: seq<string>,
                                                recursiveRoots: seq<string>, isExact: bool)
    ensures var full := Collect(candidates, flatRoots, recursiveRoots, isExact, false);
      Collect(candidates, flatRoots, recursiveRoots, isExact, true) == if |full| == 0 then [] else [full[0]]
    decreases |candidates|
  {
    if |candidates| > 0 {
      FastPathIsFirstEntry(candidates[..|candidates| - 1], flatRoots, recursiveRoots, isExact);
    }
  }

  /** One more candidate adds its own entry unless the fast path already has one. */
  lemma CollectStep(candidates: seq<string>, i: nat, flatRoots: seq<string>, recursiveRoots: seq<string>,
                    isExact: bool, fastPath: bool)
    requires i < |candidates|
    requires !(fastPath && |Collect(candidates[..i], flatRoots, recursiveRoots, isExact, fastPath)| != 0)
    ensures Collect(candidates[..i + 1], flatRoots, recursiveRoots, isExact, fastPath)
         == Collect(candidates[..i], flatRoots, recursiveRoots, isExact, fastPath)
            + OptionToSeq(Match(candidates[i], flatRoots, recursiveRoots, isExact))
  {
    assert candidates[..i + 1][..i] == candidates[..i];
  }

  /** Once the fast path has an entry, further candidates change nothing. */
  lemma {:induction false} FastPathStops(candidates: seq<string>, n: nat, flatRoots: seq<string>,
                                         recursiveRoots: seq<string>, isExact: bool)
    requires n <= |candidates|
    requires |Collect(candidates[..n], flatRoots, recursiveRoots, isExact, true)| != 0
    ensures Collect(candidates, flatRoots, recursiveRoots, isExact, true)
         == Collect(candidates[..n], flatRoots, recursiveRoots, isExact, true)
    decreases |candidates| - n
  {
    if n < |candidates| {
      var m := |candidates| - 1;
      assert candidates[..m][..n] == candidates[..n];
      FastPathStops(candidates[..m], n, flatRoots, recursiveRoots, isExact);
    } else {
      assert candidates[..n] == candidates;
    }
  }

  /** With no roots at all no candidate yields an entry, so the early return is an optimisation. */
  lemma {:induction false} NoRootsCollectNothing(candidates: seq<string>, isExact: bool, fastPath: bool)
    ensures Collect(candidates, [], [], isExact, fastPath) == []
    decreases |candidates|
  {
    if |candidates| > 0 {
      NoRootsCollectNothing(candidates[..|candidates| - 1], isExact, fastPath);
    }
  }

  /** Every returned entry is justified by one of the candidates and a root, as in `MatchCases`. */
  lemma {:induction false} CollectJustified(candidates: seq<string>, flatRoots: seq<string>, recursiveRoots: seq<string>,
                                            isExact: bool, fastPath: bool, x: string)
    requires x in Collect(candidates, flatRoots, recursiveRoots, isExact, fastPath)
    ensures exists c :: c in candidates && Match(c, flatRoots, recursiveRoots, isExact) == Some(x)
    decreases |candidates|
  {
    var init := candidates[..|candidates| - 1];
    var last := candidates[|candidates| - 1];
    if x in Collect(init, flatRoots, recursiveRoots, isExact, fastPath) {
      CollectJustified(init, flatRoots, recursiveRoots, isExact, fastPath, x);
      var c :| c in init && Match(c, flatRoots, recursiveRoots, isExact) == Some(x);
      assert c in candidates;
    } else {
      assert last in candidates;
    }
  }

  /** Without the fast path the converse holds too: every entry some candidate contributes is
      returned. */
  lemma {:induction false} CollectComplete(candidates: seq<string>, flatRoots: seq<string>, recursiveRoots: seq<string>,
                                           isExact: bool, c: string, x: string)
    requires c in candidates && Match(c, flatRoots, recursiveRoots, isExact) == Some(x)
    ensures x in Collect(candidates, flatRoots, recursiveRoots, isExact, false)
    decreases |candidates|
  {
    var init := candidates[..|candidates| - 1];
    if c != candidates[|candidates| - 1] {
      assert candidates == init + [candidates[|candidates| - 1]];
      assert c in init;
      CollectComplete(init, flatRoots, recursiveRoots, isExact, c, x);
    }
  }

  /** The last separator of `a + "/" + b` is the one added, when `b` holds none. */
  lemma {:induction false} LastIndexOfJoined(a: string, b: string)
    requires Separator !in b
    ensures LastIndexOf(a + [Separator] + b, Separator) == |a|
    decreases |b|
  {
    if |b| > 0 {
      var init := b[..|b| - 1];
      assert (a + [Separator] + b)[..|a + [Separator] + b| - 1] == a + [Separator] + init;
      assert b[|b| - 1] in b;
      LastIndexOfJoined(a, init);
    } else {
      assert a + [Separator] + b == a + [Separator];
    }
  }

  /** The parent of `root + "/" + name` is `root`, for a non-empty root and a single-component name. */
  lemma ParentOfChild(root: string, name: string)
    requires |root| > 0 && Separator !in name
    ensures Parent(root + [Separator] + name) == Some(root)
  {
    var path := root + [Separator] + name;
    LastIndexOfJoined(root, name);
    assert path[..|root|] == root;
  }

  /** With a single flat root, an exact report of one of its children yields exactly that child,
      while an inexact report of it yields nothing (a flat root covers a child only through the
      parent test, which exact reports alone get). */
  lemma FlatChildReported(root: string, name: string, fastPath: bool)
    requires |root| > 0 && Separator !in name
    ensures Collect([root + [Separator] + name], [root], [], true, fastPath) == [root + [Separator] + name]
    ensures Collect([root + [Separator] + name], [root], [], false, fastPath) == []
  {
    var path := root + [Separator] + name;
    ParentOfChild(root, name);
    assert FlatHit(path, [root][0], true);
    assert |path| > |root|;
    assert !FlatHit(path, [root][0], false);
    assert [path][..0] == [];
  }

  /** A path under a recursive root is reported as itself, unless an inexact report names the parent
      of a root listed before that one. */
  lemma RecursiveDescendantReported(path: string, flatRoots: seq<string>, recursiveRoots: seq<string>,
                                    isExact: bool, k: int)
    requires 0 <= k < |recursiveRoots| && StartsWith(path, recursiveRoots[k])
    requires !isExact ==> forall j :: 0 <= j < k ==> Parent(recursiveRoots[j]) != Some(path)
    ensures Match(path, flatRoots, recursiveRoots, isExact) == Some(path)
  {
    var i := 0;
    while i < k && RecursiveHit(path, recursiveRoots[i], isExact).None?
      invariant 0 <= i <= k
      invariant forall j :: 0 <= j < i ==> RecursiveHit(path, recursiveRoots[j], isExact).None?
    {
      i := i + 1;
    }
    MatchRecursiveFirst(path, recursiveRoots, isExact, i);
  }

  /** A report under the canonical prefix of a rule is surfaced under the rule's requested prefix
      when that prefix is a recursive root, even though the report never names it. */
  lemma RewrittenIntoRequestedRoot(reported: string, rules: seq<Rule>, rule: Rule, isExact: bool)
    requires rule in rules && StartsWith(reported, rule.canonical)
    requires |rule.canonical| > 0 && rule.canonical[|rule.canonical| - 1] != Separator
    ensures rule.requested + reported[|rule.canonical|..]
            in Collect(Candidates(reported, rules), [], [rule.requested], isExact, false)
  {
    var x := rule.requested + reported[|rule.canonical|..];
    RewriteStaysUnder(reported, rule);
    CandidatesFromRules(reported, rules, x);
    var candidates := Candidates(reported, rules);
    assert x in candidates[1..];
    assert x in candidates;
    assert Match(x, [], [rule.requested], isExact) == Some(x);
    CollectComplete(candidates, [], [rule.requested], isExact, x, x);
  }

  /** A report none of whose candidates any root covers yields nothing, with or without the fast
      path. */
  lemma UncoveredReportNothing(candidates: seq<string>, flatRoots: seq<string>, recursiveRoots: seq<string>,
                               isExact: bool, fastPath: bool)
    requires forall c :: c in candidates ==>
      (forall r :: r in flatRoots ==> !FlatHit(c, r, isExact)) &&
      (forall r :: r in recursiveRoots ==> RecursiveHit(c, r, isExact).None?)
    ensures Collect(candidates, flatRoots, recursiveRoots, isExact, fastPath) == []
  {
    var result := Collect(candidates, flatRoots, recursiveRoots, isExact, fastPath);
    if |result| > 0 {
      var x := result[0];
      CollectJustified(candidates, flatRoots, recursiveRoots, isExact, fastPath, x);
      var c :| c in candidates && Match(c, flatRoots, recursiveRoots, isExact) == Some(x);
      MatchCases(c, flatRoots, recursiveRoots, isExact, x);
      assert false;
    }
  }

  // ---------------------------------------------------------------------------------------------
  // The map itself.

  /** The body of `getWatchedPaths`' loop over one candidate: the flat roots are scanned first,
      then the recursive roots, and the first root that covers the candidate gives the entry. */
  method FirstCoveringEntry(path: string, flatRoots: seq<string>, recursiveRoots: seq<string>, isExact: bool)
    returns (entry: Option<string>)
    ensures entry == Match(path, flatRoots, recursiveRoots, isExact)
  {
    for j := 0 to |flatRoots|
      invariant forall k :: 0 <= k < j ==> !FlatHit(path, flatRoots[k], isExact)
    {
      var root := flatRoots[j];
      if NamesEqual(path, root) {
        assert FlatHit(path, flatRoots[j], isExact);
        return Some(path);
      }
      if isExact {
        var parentPath := Parent(path);
        if parentPath.Some? && NamesEqual(parentPath.value, root) {
          assert FlatHit(path, flatRoots[j], isExact);
          return Some(path);
        }
      }
    }
    for j := 0 to |recursiveRoots|
      invariant forall k :: 0 <= k < j ==> RecursiveHit(path, recursiveRoots[k], isExact).None?
    {
      var root := recursiveRoots[j];
      if StartsWith(path, root) {
        MatchRecursiveFirst(path, recursiveRoots, isExact, j);
        return Some(path);
      }
      if !isExact {
        var parentPath := Parent(root);
        if parentPath.Some? && NamesEqual(path, parentPath.value) {
          MatchRecursiveFirst(path, recursiveRoots, isExact, j);
          return Some(root);
        }
      }
    }
    MatchRecursiveFirst(path, recursiveRoots, isExact, |recursiveRoots|);
    return None;
  }

  class CanonicalPathMap {
    const recursiveWatchRoots: seq<string>
    const flatWatchRoots: seq<string>
    const canonicalRecursiveWatchRoots: seq<string>
    const canonicalFlatWatchRoots: seq<string>
    /** The rewrite rules; only ever appended to. */
    var mapping: seq<Rule>
    /** Whether the rule list is the immutable empty list of the no-argument constructor, which
        refuses every addition. */
    const fixedMapping: bool

    /** Symlink resolution as it was when the map was built. */
    ghost const resolve: string -> Option<string>
    /** The rules recorded by the constructor. */
    ghost const initialMapping: seq<Rule>

    /** The canonical roots are the roots' canonical forms, the constructor's rules come from them,
        and every later rule was appended after those. */
    ghost predicate Valid()
      reads this
    {
      |canonicalRecursiveWatchRoots| == |recursiveWatchRoots| &&
      (forall i :: 0 <= i < |recursiveWatchRoots| ==>
        canonicalRecursiveWatchRoots[i] == Canonical(resolve, recursiveWatchRoots[i])) &&
      |canonicalFlatWatchRoots| == |flatWatchRoots| &&
      (forall i :: 0 <= i < |flatWatchRoots| ==>
        canonicalFlatWatchRoots[i] == Canonical(resolve, flatWatchRoots[i])) &&
      initialMapping == RulesFor(resolve, recursiveWatchRoots) + RulesFor(resolve, flatWatchRoots) &&
      initialMapping <= mapping
    }

    /** The map with no roots and no rules. */
    constructor Empty()
      ensures Valid()
      ensures recursiveWatchRoots == [] && flatWatchRoots == []
      ensures canonicalRecursiveWatchRoots == [] && canonicalFlatWatchRoots == []
      ensures mapping == [] && fixedMapping
    {
      recursiveWatchRoots, flatWatchRoots := [], [];
      canonicalRecursiveWatchRoots, canonicalFlatWatchRoots := [], [];
      mapping := [];
      fixedMapping := true;
      resolve := _ => None;
      initialMapping := [];
    }

    /** The map for the given roots: each root's canonical form, and one rule per root whose
        resolution differs, the recursive roots' rules first. */
    constructor (recursive: seq<string>, flat: seq<string>, resolve: string -> Option<string>)
      ensures Valid()
      ensures recursiveWatchRoots == recursive && flatWatchRoots == flat
      ensures this.resolve == resolve
      ensures mapping == RulesFor(resolve, recursive) + RulesFor(resolve, flat) && !fixedMapping
    {
      var rules: seq<Rule> := [];
      var canonicalRecursive, canonicalFlat;
      canonicalRecursive, rules := MapPaths(recursive, rules, resolve);
      canonicalFlat, rules := MapPaths(flat, rules, resolve);
      recursiveWatchRoots, flatWatchRoots := recursive, flat;
      canonicalRecursiveWatchRoots, canonicalFlatWatchRoots := canonicalRecursive, canonicalFlat;
      this.resolve := resolve;
      initialMapping := rules;
      mapping := rules;
      fixedMapping := false;
    }

    /** `getCanonicalRecursiveWatchRoots`: the recursive roots in resolved form, in order. */
    function CanonicalRecursiveWatchRoots(): (r: seq<string>)
      requires Valid()
      reads this
      ensures |r| == |recursiveWatchRoots|
      ensures forall i :: 0 <= i < |r| ==> r[i] == Canonical(resolve, recursiveWatchRoots[i])
    {
      canonicalRecursiveWatchRoots
    }

    /** `getCanonicalFlatWatchRoots`: the flat roots in resolved form, in order. */
    function CanonicalFlatWatchRoots(): (r: seq<string>)
      requires Valid()
      reads this
      ensures |r| == |flatWatchRoots|
      ensures forall i :: 0 <= i < |r| ==> r[i] == Canonical(resolve, flatWatchRoots[i])
    {
      canonicalFlatWatchRoots
    }

    /** `addMapping`: appends rules; the existing rules and the roots stay as they are. On the map
        built without roots the addition of any rule fails (`ok` false) and nothing changes. */
    method AddMapping(rules: seq<Rule>) returns (ok: bool)
      requires Valid()
      modifies this
      ensures Valid()
      ensures ok <==> !fixedMapping || |rules| == 0
      ensures ok ==> mapping == old(mapping) + rules
      ensures !ok ==> mapping == old(mapping)
    {
      if fixedMapping && |rules| > 0 {
        return false;
      }
      mapping := mapping + rules;
      return true;
    }

    /** The paths `getWatchedPaths` returns for a report. */
    ghost function WatchedPaths(reportedPath: string, isExact: bool, fastPath: bool): seq<string>
      reads this
    {
      if |flatWatchRoots| == 0 && |recursiveWatchRoots| == 0 then []
      else Collect(Candidates(reportedPath, mapping), flatWatchRoots, recursiveWatchRoots, isExact, fastPath)
    }

    /** `applyMapping`: the reported path followed by its rewrites under the current rules. */
    method ApplyMapping(reportedPath: string) returns (affectedPaths: seq<string>)
      ensures |affectedPaths| >= 1 && affectedPaths[0] == reportedPath
      ensures affectedPaths == Candidates(reportedPath, mapping)
    {
      affectedPaths := [reportedPath];
      for i := 0 to |mapping|
        invariant affectedPaths == Candidates(reportedPath, mapping[..i])
      {
        assert mapping[..i + 1][..i] == mapping[..i];
        var rule := mapping[i];
        if StartsWith(reportedPath, rule.canonical) {
          affectedPaths := affectedPaths + [rule.requested + reportedPath[|rule.canonical|..]];
        } else if StartsWith(reportedPath, rule.requested) {
          affectedPaths := affectedPaths + [rule.canonical + reportedPath[|rule.requested|..]];
        }
      }
      assert mapping[..|mapping|] == mapping;
    }

    /** `getWatchedPaths`: maps the reported path through the rules, then keeps, candidate by
        candidate, the entry of the first flat root and otherwise the first recursive root that
        covers it; in fast-path mode it stops after the first entry. */
    method GetWatchedPaths(reportedPath: string, isExact: bool, fastPath: bool) returns (changedPaths: seq<string>)
      ensures changedPaths == WatchedPaths(reportedPath, isExact, fastPath)
    {
      if |flatWatchRoots| == 0 && |recursiveWatchRoots| == 0 {
        return [];
      }
      var affectedPaths := ApplyMapping(reportedPath);
      changedPaths := [];

      for i := 0 to |affectedPaths|
        invariant changedPaths == Collect(affectedPaths[..i], flatWatchRoots, recursiveWatchRoots, isExact, fastPath)
      {
        if fastPath && |changedPaths| != 0 {
          FastPathStops(affectedPaths, i, flatWatchRoots, recursiveWatchRoots, isExact);
          assert affectedPaths[..|affectedPaths|] == affectedPaths;
          break;
        }
        CollectStep(affectedPaths, i, flatWatchRoots, recursiveWatchRoots, isExact, fastPath);
        var entry := FirstCoveringEntry(affectedPaths[i], flatWatchRoots, recursiveWatchRoots, isExact);
        if entry.Some? {
          changedPaths := changedPaths + [entry.value];
        }
      }
      assert affectedPaths[..|affectedPaths|] == affectedPaths;
    }

    /** A map over one recursive root that resolves through a symlink surfaces a report made in
        resolved form under the root as it was requested, however many rules were added since. */
    lemma SymlinkedRootReported(reported: string, isExact: bool)
      requires Valid() && |recursiveWatchRoots| == 1 && |flatWatchRoots| == 0
      requires Resolves(resolve, recursiveWatchRoots[0])
      requires var canonical := resolve(recursiveWatchRoots[0]).value;
        |canonical| > 0 && canonical[|canonical| - 1] != Separator && StartsWith(reported, canonical)
      ensures var canonical := resolve(recursiveWatchRoots[0]).value;
        recursiveWatchRoots[0] + reported[|canonical|..] in WatchedPaths(reported, isExact, false)
    {
      var root := recursiveWatchRoots[0];
      var rule := Rule(resolve(root).value, root);
      assert recursiveWatchRoots[..0] == [];
      assert initialMapping == [rule];
      assert mapping[0] == initialMapping[0] == rule;
      assert rule in mapping;
      assert recursiveWatchRoots == [root];
      RewrittenIntoRequestedRoot(reported, mapping, rule, isExact);
    }

    /** A map without roots, such as the one `Empty` builds, reports nothing for any path, and the
        early return agrees with what the candidate loop would have found. */
    lemma NoRootsNothingWatched(reportedPath: string, isExact: bool, fastPath: bool)
      requires |flatWatchRoots| == 0 && |recursiveWatchRoots| == 0
      ensures WatchedPaths(reportedPath, isExact, fastPath) == []
      ensures Collect(Candidates(reportedPath, mapping), flatWatchRoots, recursiveWatchRoots, isExact, fastPath) == []
    {
      NoRootsCollectNothing(Candidates(reportedPath, mapping), isExact, fastPath);
    }
  }
}
