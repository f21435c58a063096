/** Splitting an entry path over the `name` and `prefix` fields of a ustar header. */
module UstarPath {
  import opened Bytes

  const NAME_MAX: nat := 99
  const PREFIX_LEN: nat := 155

  datatype SplitResult = Split(name: seq<Byte>, prefix: seq<Byte>) | EmptyPath | ContainsNul | TooLong

  /** What a reader of the format makes of the two fields. */
  function Rejoin(name: seq<Byte>, prefix: seq<Byte>): seq<Byte> {
    if prefix == [] then name else prefix + [47] + name  // a slash
  }

  /** A way to store `path`: the fields rejoin to it and both fit, leaving room for a NUL
      after the name. */
  ghost predicate Stores(path: seq<Byte>, name: seq<Byte>, prefix: seq<Byte>) {
    Rejoin(name, prefix) == path && 1 <= |name| <= 99 && |prefix| <= 155
  }

  predicate LegalCut(path: seq<Byte>, i: nat) {
    && i < |path| && path[i] == SLASH
    && 1 <= |path| - (i + 1) <= NAME_MAX
    && 1 <= i <= PREFIX_LEN
  }

  /** The first legal cut at or after `i`, or the length when there is none. */
  function FirstCut(path: seq<Byte>, i: nat): (c: nat)
    requires i <= |path|
    ensures i <= c <= |path| && (c < |path| ==> LegalCut(path, c))
    ensures forall j :: i <= j < c ==> !LegalCut(path, j)
    decreases |path| - i
  {
    if i == |path| || LegalCut(path, i) then i else FirstCut(path, i + 1)
  }

  function SplitOf(path: seq<Byte>): SplitResult {
    if path == [] then EmptyPath
    else if NUL in path then ContainsNul
    else if |path| <= NAME_MAX then Split(path, [])
    else
      var c := FirstCut(path, 0);
      if c < |path| then Split(path[c + 1..], path[..c]) else TooLong
  }

  /** A successful split stores the path, has the longest name of all ways to store it, and keeps
      a directory's trailing slash in the name. */
  lemma SplitIsBest(path: seq<Byte>, name: seq<Byte>, prefix: seq<Byte>)
    requires SplitOf(path) == Split(name, prefix)
    ensures Stores(path, name, prefix) && NUL !in name && NUL !in prefix
    ensures forall n, p :: Stores(path, n, p) ==> |n| <= |name|
    ensures path[|path| - 1] == SLASH <==> name[|name| - 1] == SLASH
  {
    if |path| > NAME_MAX {
      var c := FirstCut(path, 0);
      assert path == path[..c] + [SLASH] + path[c + 1..];
      forall n, p | Stores(path, n, p) ensures |n| <= |name| {
        StoringIsCutting(path, n, p);
      }
    }
  }

  lemma StoringIsCutting(path: seq<Byte>, n: seq<Byte>, p: seq<Byte>)
    requires Stores(path, n, p) && |path| > NAME_MAX
    ensures LegalCut(path, |p|) && n == path[|p| + 1..] && p == path[..|p|]
  {
    assert p != [];
  }

  /** Each refusal has its own reason. */
  lemma SplitRefusals(path: seq<Byte>)
    ensures SplitOf(path).EmptyPath? <==> |path| == 0
    ensures SplitOf(path).ContainsNul? <==> 0 in path
    ensures SplitOf(path).TooLong? <==> path != [] && 0 !in path && !exists n, p :: Stores(path, n, p)
  {
    if path != [] && NUL !in path {
      SplitFailsOnlyWhenImpossible(path);
    }
  }

  /** A nonempty path without NUL is refused only when there is no way at all to store it. */
  lemma SplitFailsOnlyWhenImpossible(path: seq<Byte>)
    requires path != [] && NUL !in path
    ensures SplitOf(path).Split? <==> exists n, p :: Stores(path, n, p)
  {
    if n, p :| Stores(path, n, p) {
      if |path| > NAME_MAX {
        StoringIsCutting(path, n, p);
      }
    }
    if SplitOf(path).Split? {
      SplitIsBest(path, SplitOf(path).name, SplitOf(path).prefix);
    }
  }

  /** The splitting loop: every slash is tried and the longest name so far is kept. */
  method SplitUstarPath(path: seq<Byte>) returns (r: SplitResult)
    ensures r == SplitOf(path)
  {
    if |path| == 0 {
      return EmptyPath;
    }
    if NUL in path {
      return ContainsNul;
    }
    if |path| <= NAME_MAX {
      return Split(path, []);
    }
    var searchEnd := if path[|path| - 1] == SLASH then |path| - 1 else |path|;
    var found, bestName, bestPrefix := false, 0, 0;
    for i := 0 to searchEnd
      invariant found ==> bestPrefix == FirstCut(path, 0) < i && bestName == |path| - (bestPrefix + 1)
      invariant !found ==> FirstCut(path, 0) >= i
    {
      if path[i] != SLASH {
        continue;
      }
      var nameLen := |path| - (i + 1);
      if !(1 <= nameLen <= NAME_MAX) || !(1 <= i <= PREFIX_LEN) {
        continue;
      }
      assert LegalCut(path, i);
      if !found || nameLen > bestName {
        found, bestName, bestPrefix := true, nameLen, i;
      }
    }
    if !found {
      assert FirstCut(path, 0) == |path|;
      return TooLong;
    }
    r := Split(path[bestPrefix + 1..], path[..bestPrefix]);
  }
}
