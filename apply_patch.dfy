/**
 * Stripping leading directories from the file names of a patch before it is applied
 * (`ApplyPatchAction.applySkipDirs` and `skipN`), as `patch -pN` does.
 */
module ApplyPatch {
  import opened Common

  const Slash: char := '/'

  // ---------------------------------------------------------------------------------------------
  // Java's `String.split("/")`.

  /** All pieces of `s` between slashes, empty ones included: one more than there are slashes. */
  function RawPieces(s: string): (pieces: seq<string>)
    ensures |pieces| == Count(s, Slash) + 1
    ensures forall i :: 0 <= i < |pieces| ==> Slash !in pieces[i]
  {
    if |s| == 0 then [""]
    else
      var before := RawPieces(s[..|s| - 1]);
      var c := s[|s| - 1];
      if c == Slash then before + [""] else before[..|before| - 1] + [before[|before| - 1] + [c]]
  }

  /** The pieces joined back together with a slash between each two. */
  function Join(pieces: seq<string>): string
    requires |pieces| > 0
  {
    if |pieces| == 1 then pieces[0] else Join(pieces[..|pieces| - 1]) + [Slash] + pieces[|pieces| - 1]
  }

  lemma {:induction false} JoinAppendChar(pieces: seq<string>, c: char)
    requires |pieces| > 0
    ensures Join(pieces[..|pieces| - 1] + [pieces[|pieces| - 1] + [c]]) == Join(pieces) + [c]
  {
    var n := |pieces|;
    var q := pieces[..n - 1] + [pieces[n - 1] + [c]];
    if n > 1 {
      assert q[..n - 1] == pieces[..n - 1];
    }
  }

  /** Splitting loses nothing: the raw pieces joined with slashes give back the string. */
  lemma {:induction false} JoinRawPieces(s: string)
    ensures Join(RawPieces(s)) == s
    decreases |s|
  {
    if |s| > 0 {
      var init := s[..|s| - 1];
      var c := s[|s| - 1];
      assert s == init + [c];
      JoinRawPieces(init);
      RawPiecesSnoc(init, c);
      var before := RawPieces(init);
      if c == Slash {
        JoinAppendPiece(before, "");
      } else {
        JoinAppendChar(before, c);
      }
    }
  }

  lemma JoinAppendPiece(pieces: seq<string>, piece: string)
    requires |pieces| > 0
    ensures Join(pieces + [piece]) == Join(pieces) + [Slash] + piece
  {
    assert (pieces + [piece])[..|pieces|] == pieces;
  }

  /** `pieces` without its trailing empty pieces. */
  function DropTrailingEmpty(pieces: seq<string>): (r: seq<string>)
    ensures r <= pieces
    ensures |r| > 0 ==> r[|r| - 1] != ""
    ensures forall i :: |r| <= i < |pieces| ==> pieces[i] == ""
  {
    if |pieces| > 0 && pieces[|pieces| - 1] == "" then DropTrailingEmpty(pieces[..|pieces| - 1]) else pieces
  }

  /** `path.split("/")`: without a slash the string itself; otherwise the raw pieces minus the
      trailing empty ones (a leading slash gives an empty first piece). */
  function Split(path: string): (pieces: seq<string>)
    ensures forall i :: 0 <= i < |pieces| ==> Slash !in pieces[i]
  {
    if Slash !in path then [path] else DropTrailingEmpty(RawPieces(path))
  }

  // ---------------------------------------------------------------------------------------------
  // skipN.

  /** Each of `pieces` preceded by a slash, concatenated. */
  function SlashPrefixed(pieces: seq<string>): string
  {
    if |pieces| == 0 then "" else SlashPrefixed(pieces[..|pieces| - 1]) + [Slash] + pieces[|pieces| - 1]
  }

  /** What `skipN(path, num)` returns. */
  function SkippedPath(path: string, num: nat): string
  {
    var pieces := Split(path);
    if num < |pieces| then SlashPrefixed(pieces[num..]) else ""
  }

  /** `skipN`: splits the path at slashes and concatenates '/' and each piece from index `num` on. */
  method SkipN(path: string, num: nat) returns (r: string)
    ensures r == SkippedPath(path, num)
  {
    var pieces := Split(path);
    r := SlashJoinFrom(pieces, num);
  }

  /** The loop of `skipN`: '/' and each piece from index `num` on, nothing when there are no more
      than `num` pieces. */
  method SlashJoinFrom(pieces: seq<string>, num: nat) returns (sb: string)
    ensures sb == if num < |pieces| then SlashPrefixed(pieces[num..]) else ""
  {
    sb := "";
    var i := num;
    while i < |pieces|
      invariant num <= i
      invariant num < |pieces| ==> i <= |pieces| && sb == SlashPrefixed(pieces[num..i])
      invariant num >= |pieces| ==> sb == ""
    {
      var piece := pieces[i];
      assert pieces[num..i + 1][..i - num] == pieces[num..i];
      sb := sb + [Slash] + piece;
      i := i + 1;
    }
    if num < |pieces| {
      assert pieces[num..i] == pieces[num..];
    }
  }

  /** A slash-prefixed concatenation of slash-free pieces has one slash per piece. */
  lemma {:induction false} SlashPrefixedCount(pieces: seq<string>)
    requires forall i :: 0 <= i < |pieces| ==> Slash !in pieces[i]
    ensures Count(SlashPrefixed(pieces), Slash) == |pieces|
    ensures |pieces| > 0 ==> |SlashPrefixed(pieces)| > 0 && SlashPrefixed(pieces)[0] == Slash
    decreases |pieces|
  {
    if |pieces| > 0 {
      var init := pieces[..|pieces| - 1];
      var last := pieces[|pieces| - 1];
      SlashPrefixedCount(init);
      CountAppend(SlashPrefixed(init), [Slash], Slash);
      CountAppend(SlashPrefixed(init) + [Slash], last, Slash);
      CountAbsent(last, Slash);
      assert [Slash][..0] == [];
    }
  }

  /** Skipping at least as many pieces as the path has gives the empty string; otherwise the
      result starts with a slash and has one slash per kept piece. */
  lemma SkippedPathShape(path: string, num: nat)
    ensures num >= |Split(path)| ==> SkippedPath(path, num) == ""
    ensures num < |Split(path)| ==>
      |SkippedPath(path, num)| > 0 && SkippedPath(path, num)[0] == Slash &&
      Count(SkippedPath(path, num), Slash) == |Split(path)| - num
  {
    var pieces := Split(path);
    if num < |pieces| {
      SlashPrefixedCount(pieces[num..]);
    }
  }

  /** One more character either opens a new piece (a slash) or extends the last one. */
  lemma RawPiecesSnoc(s: string, c: char)
    ensures RawPieces(s + [c]) ==
      var before := RawPieces(s);
      if c == Slash then before + [""] else before[..|before| - 1] + [before[|before| - 1] + [c]]
  {
    assert (s + [c])[..|s|] == s;
  }

  /** A string without a slash is a single piece. */
  lemma {:induction false} RawPiecesPlain(t: string)
    requires Slash !in t
    ensures RawPieces(t) == [t]
  {
    if |t| > 0 {
      var init := t[..|t| - 1];
      assert t == init + [t[|t| - 1]];
      assert Slash !in init by {
        forall k | 0 <= k < |init| ensures init[k] != Slash {
          assert init[k] == t[k];
        }
      }
      RawPiecesPlain(init);
      RawPiecesSnoc(init, t[|t| - 1]);
    }
  }

  /** A slash followed by slash-free text adds exactly that text as one more piece. */
  lemma {:induction false} RawPiecesAfterSlash(s: string, t: string)
    requires Slash !in t
    ensures RawPieces(s + [Slash] + t) == RawPieces(s) + [t]
    decreases |t|
  {
    if |t| == 0 {
      assert s + [Slash] + t == s + [Slash];
      RawPiecesSnoc(s, Slash);
    } else {
      var init := t[..|t| - 1];
      var c := t[|t| - 1];
      assert t == init + [c];
      assert Slash !in init by {
        forall k | 0 <= k < |init| ensures init[k] != Slash {
          assert init[k] == t[k];
        }
      }
      RawPiecesAfterSlash(s, init);
      assert s + [Slash] + t == (s + [Slash] + init) + [c];
      RawPiecesSnoc(s + [Slash] + init, c);
      var before := RawPieces(s) + [init];
      assert before[..|before| - 1] == RawPieces(s);
    }
  }

  lemma SlashPrefixedTwo(x: string, y: string)
    ensures SlashPrefixed([x, y]) == [Slash] + x + [Slash] + y
  {
    assert [x][..0] == [];
    assert SlashPrefixed([x]) == "" + [Slash] + x;
    assert "" + [Slash] + x == [Slash] + x;
    assert [x, y][..1] == [x];
  }

  /** A relative path `x/y/z` loses its first directory: `skipN(x/y/z, 1)` is `/y/z`. */
  lemma SkipRelative(x: string, y: string, z: string)
    requires Slash !in x && Slash !in y && Slash !in z && z != ""
    ensures SkippedPath(x + [Slash] + y + [Slash] + z, 1) == [Slash] + y + [Slash] + z
  {
    var path := x + [Slash] + y + [Slash] + z;
    RawPiecesPlain(x);
    RawPiecesAfterSlash(x, y);
    RawPiecesAfterSlash(x + [Slash] + y, z);
    assert path[|x|] == Slash;
    assert Split(path) == [x, y, z];
    assert [x, y, z][1..] == [y, z];
    SlashPrefixedTwo(y, z);
  }

  /** An absolute path `/x/y` only loses the empty piece before its leading slash. */
  lemma SkipAbsolute(x: string, y: string)
    requires Slash !in x && Slash !in y && y != ""
    ensures SkippedPath([Slash] + x + [Slash] + y, 1) == [Slash] + x + [Slash] + y
  {
    var path := [Slash] + x + [Slash] + y;
    RawPiecesPlain("");
    RawPiecesAfterSlash("", x);
    assert "" + [Slash] + x == [Slash] + x;
    RawPiecesAfterSlash([Slash] + x, y);
    assert path[0] == Slash;
    assert Split(path) == ["", x, y];
    assert ["", x, y][1..] == [x, y];
    SlashPrefixedTwo(x, y);
  }

  /** A trailing slash adds no piece, so skipping two directories of `x/y/` leaves nothing. */
  lemma SkipTrailing(x: string, y: string)
    requires Slash !in x && Slash !in y
    ensures SkippedPath(x + [Slash] + y + [Slash], 2) == ""
  {
    var path := x + [Slash] + y + [Slash];
    RawPiecesPlain(x);
    RawPiecesAfterSlash(x, y);
    RawPiecesAfterSlash(x + [Slash] + y, "");
    assert path == x + [Slash] + y + [Slash] + "";
    assert path[|x|] == Slash;
    assert RawPieces(path) == [x, y, ""];
  }

  // ---------------------------------------------------------------------------------------------
  // applySkipDirs.

  /** The names of one file in a patch; `applySkipDirs` rewrites them in place. */
  class FilePatch {
    var beforeName: string
    var afterName: string

    constructor (beforeName: string, afterName: string)
      ensures this.beforeName == beforeName && this.afterName == afterName
    {
      this.beforeName := beforeName;
      this.afterName := afterName;
    }
  }

  /** `name` after `skipN(_, num)` has been applied to it `times` times. */
  function SkippedTimes(name: string, num: nat, times: nat): string
  {
    if times == 0 then name else SkippedPath(SkippedTimes(name, num, times - 1), num)
  }

  /** `applySkipDirs`: with a count below 1 nothing changes; otherwise every patch in the list has
      `skipN` applied to its before and its after name, once for each time it occurs in the list. */
  method ApplySkipDirs(patches: seq<FilePatch>, skipDirs: int)
    modifies set p | p in patches
    ensures skipDirs < 1 ==> forall p :: p in patches ==> p.beforeName == old(p.beforeName) && p.afterName == old(p.afterName)
    ensures skipDirs >= 1 ==> forall p :: p in patches ==>
      p.beforeName == SkippedTimes(old(p.beforeName), skipDirs, multiset(patches)[p]) &&
      p.afterName == SkippedTimes(old(p.afterName), skipDirs, multiset(patches)[p])
  {
    if skipDirs < 1 {
      return;
    }
    var num: nat := skipDirs;
    ghost var befores := map p | p in patches :: p.beforeName;
    ghost var afters := map p | p in patches :: p.afterName;
    for i := 0 to |patches|
      invariant forall p :: p in patches ==>
        p.beforeName == SkippedTimes(befores[p], num, multiset(patches[..i])[p]) &&
        p.afterName == SkippedTimes(afters[p], num, multiset(patches[..i])[p])
    {
      StripNext(patches, i, num, befores, afters);
    }
    assert patches[..|patches|] == patches;
  }

  /** The loop body of `applySkipDirs`: `skipN` applied to both names of the `i`-th patch, which
      keeps every patch stripped as often as it has occurred in the list so far. */
  method StripNext(patches: seq<FilePatch>, i: nat, num: nat, ghost befores: map<FilePatch, string>, ghost afters: map<FilePatch, string>)
    requires i < |patches|
    requires forall p :: p in patches ==> p in befores && p in afters
    requires forall p :: p in patches ==>
      p.beforeName == SkippedTimes(befores[p], num, multiset(patches[..i])[p]) &&
      p.afterName == SkippedTimes(afters[p], num, multiset(patches[..i])[p])
    modifies patches[i]
    ensures forall p :: p in patches ==>
      p.beforeName == SkippedTimes(befores[p], num, multiset(patches[..i + 1])[p]) &&
      p.afterName == SkippedTimes(afters[p], num, multiset(patches[..i + 1])[p])
  {
    var patch := patches[i];
    var beforeName := SkipN(patch.beforeName, num);
    patch.beforeName := beforeName;
    var afterName := SkipN(patch.afterName, num);
    patch.afterName := afterName;
    forall p | p in patches
      ensures p.beforeName == SkippedTimes(befores[p], num, multiset(patches[..i + 1])[p])
      ensures p.afterName == SkippedTimes(afters[p], num, multiset(patches[..i + 1])[p])
    {
      CountStep(patches, i, p);
      var before, after := multiset(patches[..i])[p], multiset(patches[..i + 1])[p];
      NameStep(befores[p], old(p.beforeName), p.beforeName, num, before, after, p == patch);
      NameStep(afters[p], old(p.afterName), p.afterName, num, before, after, p == patch);
    }
  }

  /** Stripping a name once more, or leaving it alone, keeps it stripped as often as its patch
      has occurred so far. */
  lemma NameStep(original: string, current: string, next: string, num: nat, before: nat, after: nat, hit: bool)
    requires current == SkippedTimes(original, num, before)
    requires hit ==> next == SkippedPath(current, num) && after == before + 1
    requires !hit ==> next == current && after == before
    ensures next == SkippedTimes(original, num, after)
  {
    if hit {
      assert SkippedTimes(original, num, before + 1) == SkippedPath(SkippedTimes(original, num, before), num);
    }
  }

  /** One more element of the list adds one occurrence of that element and of no other. */
  lemma CountStep(patches: seq<FilePatch>, i: nat, p: FilePatch)
    requires i < |patches|
    ensures multiset(patches[..i + 1])[p] == multiset(patches[..i])[p] + (if p == patches[i] then 1 else 0)
  {
    assert patches[..i + 1] == patches[..i] + [patches[i]];
  }

  /** In a list that holds each patch once, every name is stripped exactly once. */
  lemma OnceEach(patches: seq<FilePatch>, k: nat)
    requires k < |patches|
    requires forall i, j :: 0 <= i < j < |patches| ==> patches[i] != patches[j]
    ensures multiset(patches)[patches[k]] == 1
  {
    var p := patches[k];
    assert patches == patches[..k] + [p] + patches[k + 1..];
    forall j | 0 <= j < k ensures patches[j] != p {}
    forall j | k + 1 <= j < |patches| ensures patches[j] != p {}
    assert p !in patches[..k] && p !in patches[k + 1..];
    assert multiset(patches[..k])[p] == 0 && multiset(patches[k + 1..])[p] == 0;
  }
}
