/** Copying one source to a target path: target checks, ancestors, the source itself, and the
    finished archive. */
module CopyTo {
  import opened Bytes
  import opened UstarArchive
  import opened HostCopy
  import opened UstarField

  datatype Source = HostPath(node: Node) | InMemory(data: seq<Byte>)

  const DOTDOT: seq<Byte> := [DOT, DOT]

  function FirstSlash(s: seq<Byte>): (p: nat)
    ensures p <= |s| && (p < |s| ==> s[p] == SLASH) && SLASH !in s[..p]
  {
    if s == [] || s[0] == SLASH then 0
    else
      assert forall i :: 0 <= i <= |s| - 1 ==> s[..i + 1] == [s[0]] + s[1..][..i];
      1 + FirstSlash(s[1..])
  }

  /** The pieces between slashes, empty ones included. */
  function Segments(s: seq<Byte>): (parts: seq<seq<Byte>>)
    ensures |parts| > 0
    ensures forall i :: 0 <= i < |parts| ==> SLASH !in parts[i]
    decreases |s|
  {
    var p := FirstSlash(s);
    if p == |s| then
      assert s[..p] == s;
      [s]
    else [s[..p]] + Segments(s[p + 1..])
  }

  /** The pieces joined by single slashes, empty ones left out. */
  function Joined(parts: seq<seq<Byte>>): seq<Byte> {
    if parts == [] then []
    else
      var front, last := Joined(parts[..|parts| - 1]), parts[|parts| - 1];
      if last == [] then front else if front == [] then last else Under(front, last)
  }

  predicate DoubleSlashIn(s: seq<Byte>) {
    exists i :: 0 <= i < |s| - 1 && s[i] == SLASH && s[i + 1] == SLASH
  }

  /** What the target path is refused for, in the order it is looked at. */
  function TargetRefusal(target: seq<Byte>): CopyResult {
    if target == [] || target[0] != SLASH then NotAbsolute
    else if target[|target| - 1] == SLASH then TrailingSlash
    else if |target| >= 2 && target[|target| - 2..] == [SLASH, DOT] then TrailingDot
    else if DoubleSlashIn(target) then DoubleSlash
    else if Segments(target)[|Segments(target)| - 1] == DOTDOT then NoFileName
    else if DOTDOT in Segments(target) then ParentComponent
    else Copied
  }

  /** `x` stands in `s` between slashes or the ends. */
  ghost predicate StandsAt(s: seq<Byte>, x: seq<Byte>, i: nat) {
    Between(s, x, 47, i)
  }

  ghost predicate Between<T>(s: seq<T>, x: seq<T>, mark: T, i: nat) {
    && i + |x| <= |s| && s[i..i + |x|] == x
    && (i == 0 || s[i - 1] == mark) && (i + |x| == |s| || s[i + |x|] == mark)
  }

  lemma BetweenBehind<T>(s: seq<T>, x: seq<T>, mark: T, p: nat, i: nat)
    requires p < |s| && s[p] == mark
    ensures Between(s[p + 1..], x, mark, i) <==> Between(s, x, mark, p + 1 + i)
  {
    if p + 1 + i + |x| <= |s| {
      RestAt(s, p + 1, i, |x|);
    }
  }

  ghost predicate Stands(s: seq<Byte>, x: seq<Byte>) {
    exists i :: StandsAt(s, x, i)
  }

  lemma FirstSlashOf(s: seq<Byte>, p: nat)
    requires p <= |s| && (p < |s| ==> s[p] == SLASH) && SLASH !in s[..p]
    ensures FirstSlash(s) == p
  {
  }

  lemma FirstSlashNotAfter(s: seq<Byte>, k: nat)
    requires k < |s| && s[k] == SLASH
    ensures FirstSlash(s) <= k
  {
  }

  lemma RestAt<T>(s: seq<T>, p: nat, i: nat, n: nat)
    requires p + i + n <= |s|
    ensures s[p..][i..i + n] == s[p + i..p + i + n]
  {
  }

  /** In front of the first slash stands the first piece, and behind it stand the others. */
  lemma StandsBehind(s: seq<Byte>, x: seq<Byte>, i: nat)
    requires FirstSlash(s) < |s|
    ensures StandsAt(s[FirstSlash(s) + 1..], x, i) <==> StandsAt(s, x, FirstSlash(s) + 1 + i)
  {
    hide FirstSlash;
    BetweenBehind(s, x, SLASH, FirstSlash(s), i);
  }

  lemma StandsFirst(s: seq<Byte>, x: seq<Byte>)
    requires SLASH !in x
    ensures StandsAt(s, x, 0) <==> x == s[..FirstSlash(s)]
  {
    if StandsAt(s, x, 0) {
      FirstSlashOf(s, |x|);
    }
    hide FirstSlash;
  }

  lemma StandsLater(s: seq<Byte>, x: seq<Byte>, i: nat)
    requires StandsAt(s, x, i)
    ensures i > 0 ==> FirstSlash(s) < i <= |s|
  {
    if i > 0 {
      FirstSlashNotAfter(s, i - 1);
    }
  }

  /** The pieces are what stands between slashes. */
  lemma {:induction false} SegmentIff(s: seq<Byte>, x: seq<Byte>)
    requires SLASH !in x
    ensures x in Segments(s) <==> Stands(s, x)
    decreases |s|
  {
    var p := FirstSlash(s);
    StandsFirst(s, x);
    if p < |s| {
      SegmentIff(s[p + 1..], x);
      hide FirstSlash, StandsAt, Stands;
      assert x in Segments(s) <==> x == s[..p] || x in Segments(s[p + 1..]);
      hide Segments;
      StandsIff(s, x);
    } else {
      assert s[..p] == s;
      hide FirstSlash, StandsAt;
      if Stands(s, x) {
        var i: nat :| StandsAt(s, x, i);
        StandsLater(s, x, i);
      }
    }
  }

  lemma StandsIff(s: seq<Byte>, x: seq<Byte>)
    requires FirstSlash(s) < |s| && SLASH !in x
    ensures Stands(s, x) <==> x == s[..FirstSlash(s)] || Stands(s[FirstSlash(s) + 1..], x)
  {
    hide FirstSlash, StandsAt;
    var p := FirstSlash(s);
    StandsFirst(s, x);
    if Stands(s[p + 1..], x) {
      var i: nat :| StandsAt(s[p + 1..], x, i);
      StandsBehind(s, x, i);
    }
    if Stands(s, x) {
      var i: nat :| StandsAt(s, x, i);
      StandsLater(s, x, i);
      if i > 0 {
        StandsBehind(s, x, i - p - 1);
      }
    }
  }

  /** The last piece is what follows the last slash. */
  lemma {:induction false} LastSegmentIff(s: seq<Byte>, x: seq<Byte>)
    requires SLASH !in x
    ensures Segments(s)[|Segments(s)| - 1] == x <==> |x| <= |s| && StandsAt(s, x, |s| - |x|)
    decreases |s|
  {
    hide FirstSlash, Segments, StandsAt;
    var p := FirstSlash(s);
    if p == |s| {
      AloneLast(s, x);
    } else {
      var rest := s[p + 1..];
      LastSegmentIff(rest, x);
      SegmentsUnfold(s);
      LastOfCons(s[..p], Segments(rest));
      if |x| <= |rest| {
        StandsBehind(s, x, |rest| - |x|);
      } else if |x| <= |s| {
        ShortRest(s, x);
      }
    }
  }

  lemma SegmentsUnfold(s: seq<Byte>)
    requires FirstSlash(s) < |s|
    ensures Segments(s) == [s[..FirstSlash(s)]] + Segments(s[FirstSlash(s) + 1..])
  {
    hide FirstSlash;
  }

  lemma LastOfCons<T>(x: T, s: seq<T>)
    requires s != []
    ensures ([x] + s)[|s|] == s[|s| - 1]
  {
  }

  lemma AloneLast(s: seq<Byte>, x: seq<Byte>)
    requires FirstSlash(s) == |s|
    ensures Segments(s) == [s] && (s == x <==> |x| <= |s| && StandsAt(s, x, |s| - |x|))
  {
    if |x| <= |s| && StandsAt(s, x, |s| - |x|) {
      StandsLater(s, x, |s| - |x|);
    }
  }

  lemma ShortRest(s: seq<Byte>, x: seq<Byte>)
    requires FirstSlash(s) < |s| && SLASH !in x && |s| - FirstSlash(s) - 1 < |x| <= |s|
    ensures !StandsAt(s, x, |s| - |x|)
  {
    var p, i := FirstSlash(s), |s| - |x|;
    assert s[i..][p - i] == s[p] == SLASH;
  }

  /** Each refusal of a target has its own reason, in this order: not absolute, a trailing slash, a
      final `/.`, a doubled slash, a final `/..`, and `/../` anywhere. */
  lemma TargetRefusals(target: seq<Byte>)
    ensures var r, n := TargetRefusal(target), |target|;
            && (r == NotAbsolute <==> n == 0 || target[0] != 47)
            && (n > 0 && target[0] == 47 ==>
                  && (r == TrailingSlash <==> target[n - 1] == 47)
                  && (r == TrailingDot <==> n >= 2 && target[n - 2..] == [47, 46])
                  && (r == DoubleSlash <==>
                        target[n - 1] != 47 && !(n >= 2 && target[n - 2..] == [47, 46])
                        && exists i :: 0 <= i < n - 1 && target[i] == 47 && target[i + 1] == 47)
                  && (r == NoFileName ==> n >= 3 && target[n - 3..] == [47, 46, 46])
                  && (r == ParentComponent ==> Stands(target, [46, 46])))
            && (r == Copied ==> !Stands(target, [46, 46]))
            && (n >= 3 && target[0] == 47 && target[n - 3..] == [47, 46, 46] ==> r == DoubleSlash || r == NoFileName)
            && (r == NotAbsolute || r == TrailingSlash || r == TrailingDot || r == DoubleSlash || r == NoFileName
                || r == ParentComponent || r == Copied)
  {
    SegmentIff(target, DOTDOT);
    LastSegmentIff(target, DOTDOT);
    if target == [] || target[0] == 47 {
      EndsInDotDot(target);
    }
    LastTwo(target);
    hide Segments, Stands, StandsAt;
  }

  lemma LastTwo(target: seq<Byte>)
    ensures var n := |target|; n >= 2 && target[n - 2..] == [47, 46] ==> target[n - 1] == 46
    ensures var n := |target|; n >= 3 && target[n - 3..] == [47, 46, 46] ==>
              target[n - 1] == 46 && target[n - 2..] == [46, 46]
  {
    var n := |target|;
    if n >= 3 {
      TailThree(target, 47, 46, 46);
    }
    if n >= 2 {
      TailTwo(target, 47, 46);
      TailTwo(target, 46, 46);
    }
  }

  lemma EndsInDotDot(target: seq<Byte>)
    requires target == [] || target[0] == 47
    ensures var n := |target|;
            (n >= 2 && StandsAt(target, DOTDOT, n - 2)) <==> n >= 3 && target[n - 3..] == [47, 46, 46]
  {
    var n := |target|;
    hide Between;
    if n >= 2 {
      BetweenTail(target, 46, 46, 47);
      assert DOTDOT == [46, 46];
    }
    if n >= 3 {
      TailThree(target, 47, 46, 46);
    }
  }

  lemma BetweenTail<T>(t: seq<T>, b: T, c: T, mark: T)
    requires |t| >= 2
    ensures var n := |t|;
            Between(t, [b, c], mark, n - 2) <==> t[n - 2] == b && t[n - 1] == c && (n == 2 || t[n - 3] == mark)
  {
    TailTwo(t, b, c);
  }

  lemma TailTwo<T>(t: seq<T>, b: T, c: T)
    requires |t| >= 2
    ensures t[|t| - 2..] == [b, c] <==> t[|t| - 2] == b && t[|t| - 1] == c
    ensures t[|t| - 2..|t| - 2 + 2] == t[|t| - 2..]
  {
  }

  lemma TailThree<T>(t: seq<T>, a: T, b: T, c: T)
    requires |t| >= 3
    ensures t[|t| - 3..] == [a, b, c] <==> t[|t| - 3] == a && t[|t| - 2] == b && t[|t| - 1] == c
  {
  }

  function TrimSlashes(s: seq<Byte>): seq<Byte> {
    if s != [] && s[0] == SLASH then TrimSlashes(s[1..]) else s
  }

  ghost predicate PlainRelative(s: seq<Byte>) {
    && s != [] && s[0] != SLASH && s[|s| - 1] != SLASH && !DoubleSlashIn(s)
    && DOTDOT !in Segments(s)
  }

  lemma LeadingSlash(target: seq<Byte>)
    requires |target| >= 2 && target[0] == SLASH && target[1] != SLASH
    ensures Segments(target) == [[]] + Segments(target[1..]) && TrimSlashes(target) == target[1..]
    ensures DoubleSlashIn(target) <==> DoubleSlashIn(target[1..])
  {
    var rest := target[1..];
    assert FirstSlash(target) == 0 && target[..0] == [];
    assert TrimSlashes(target) == TrimSlashes(rest);
    if DoubleSlashIn(target) {
      var i :| 0 <= i < |target| - 1 && target[i] == SLASH && target[i + 1] == SLASH;
      assert rest[i - 1] == SLASH && rest[i] == SLASH;
    }
    if DoubleSlashIn(rest) {
      var i :| 0 <= i < |rest| - 1 && rest[i] == SLASH && rest[i + 1] == SLASH;
      assert target[i + 1] == SLASH && target[i + 2] == SLASH;
    }
  }

  lemma EmptyInFront(all: seq<seq<Byte>>, parts: seq<seq<Byte>>)
    requires all == [[]] + parts && parts != []
    ensures all[|all| - 1] == parts[|parts| - 1] && (DOTDOT in all <==> DOTDOT in parts)
  {
    assert all[0] == [] != DOTDOT;
  }

  lemma LastOfRest(target: seq<Byte>)
    requires |target| >= 2
    ensures var rest := target[1..]; rest != [] && rest[0] == target[1] && rest[|rest| - 1] == target[|target| - 1]
  {
  }

  /** Accepted are exactly the absolute, plain paths that do not end in `/.`: no trailing or
      doubled slash and no step upwards. */
  lemma TargetAcceptedIff(target: seq<Byte>)
    ensures TargetRefusal(target) == Copied <==>
              && |target| >= 2 && target[0] == SLASH && PlainRelative(target[1..])
              && target[|target| - 2..] != [SLASH, DOT]
    ensures TargetRefusal(target) == Copied ==> TrimSlashes(target) == target[1..]
  {
    if |target| >= 2 && target[0] == SLASH && target[1] != SLASH {
      AcceptedIfPlain(target);
    } else {
      RefusedAtFront(target);
    }
  }

  lemma AcceptedIfPlain(target: seq<Byte>)
    requires |target| >= 2 && target[0] == SLASH && target[1] != SLASH
    ensures TargetRefusal(target) == Copied <==>
              PlainRelative(target[1..]) && target[|target| - 2..] != [SLASH, DOT]
    ensures TrimSlashes(target) == target[1..]
  {
    LeadingSlash(target);
    EmptyInFront(Segments(target), Segments(target[1..]));
    LastOfRest(target);
    hide Segments, DoubleSlashIn, TrimSlashes;
  }

  lemma RefusedAtFront(target: seq<Byte>)
    requires !(|target| >= 2 && target[0] == SLASH && target[1] != SLASH)
    ensures TargetRefusal(target) != Copied
    ensures |target| >= 2 && target[0] == SLASH ==> !PlainRelative(target[1..])
  {
    hide Segments;
    if |target| >= 2 && target[0] == SLASH {
      assert target[1..][0] == SLASH;
      assert DoubleSlashIn(target);
    }
  }

  lemma {:induction false} PlainHasNoEmptySegment(s: seq<Byte>)
    requires s != [] && s[0] != SLASH && s[|s| - 1] != SLASH && !DoubleSlashIn(s)
    ensures [] !in Segments(s)
    decreases |s|
  {
    var p := FirstSlash(s);
    if p < |s| {
      var rest := s[p + 1..];
      assert s[p] == SLASH && p < |s| - 1;
      assert rest[0] == s[p + 1];
      assert forall i :: 0 <= i < |rest| ==> rest[i] == s[p + 1 + i];
      PlainHasNoEmptySegment(rest);
    }
  }

  lemma {:induction false} JoinedCons(first: seq<Byte>, parts: seq<seq<Byte>>)
    requires first != [] && parts != [] && [] !in parts
    ensures Joined([first] + parts) == Under(first, Joined(parts)) && Joined(parts) != []
    decreases |parts|
  {
    var all, n := [first] + parts, |parts|;
    assert all[..n] == [first] + parts[..n - 1] && all[n] == parts[n - 1];
    if n == 1 {
      assert all[..1] == [first] && [first][..0] == [] && parts[..0] == [];
      assert Joined([first]) == first;
    } else {
      assert forall i :: 0 <= i < n - 1 ==> parts[..n - 1][i] == parts[i];
      JoinedCons(first, parts[..n - 1]);
      var tail := Joined(parts[..n - 1]);
      assert Under(Under(first, tail), parts[n - 1]) == Under(first, Under(tail, parts[n - 1]));
    }
  }

  lemma {:induction false} JoiningUndoesSplitting(s: seq<Byte>)
    requires [] !in Segments(s)
    ensures Joined(Segments(s)) == s
    decreases |s|
  {
    hide FirstSlash;
    var p := FirstSlash(s);
    if p == |s| {
      assert [s][..0] == [];
    } else {
      var rest := Segments(s[p + 1..]);
      assert Segments(s)[0] == s[..p];
      assert forall i :: 0 <= i < |rest| ==> rest[i] == Segments(s)[i + 1];
      JoiningUndoesSplitting(s[p + 1..]);
      JoinedCons(s[..p], rest);
      assert s == Under(s[..p], s[p + 1..]);
    }
  }

  /** The target's ancestor directories, outermost first: one for each proper prefix. */
  function AncestorVisits(parts: seq<seq<Byte>>): seq<Visit> {
    if parts == [] then []
    else
      AncestorVisits(parts[..|parts| - 1])
      + if parts[|parts| - 1] == [] then [] else [Visit(Joined(parts), true, true, Directory([]))]
  }

  function AncestorEntries(parts: seq<seq<Byte>>, o: Owner): seq<Entry> {
    if parts == [] then []
    else
      AncestorEntries(parts[..|parts| - 1], o)
      + if parts[|parts| - 1] == [] then [] else [DirEntry(Joined(parts), o)]
  }

  lemma AncestorSnoc(parts: seq<seq<Byte>>, part: seq<Byte>, o: Owner)
    ensures var acc := Joined(parts + [part]);
            && acc == (if part == [] then Joined(parts)
                       else if Joined(parts) == [] then part else Under(Joined(parts), part))
            && AncestorVisits(parts + [part])
               == AncestorVisits(parts) + (if part == [] then [] else [Visit(acc, true, true, Directory([]))])
            && AncestorEntries(parts + [part], o)
               == AncestorEntries(parts, o) + (if part == [] then [] else [DirEntry(acc, o)])
  {
    assert (parts + [part])[..|parts|] == parts;
  }

  /** The ancestors are directories without further ado. */
  lemma {:induction false} AncestorsAre(parts: seq<seq<Byte>>, o: Owner)
    ensures EntriesOf(AncestorVisits(parts), o) == AncestorEntries(parts, o)
    ensures AllClean(AncestorVisits(parts)) && WellNamed(AncestorVisits(parts))
    decreases |parts|
  {
    if parts != [] {
      var front, part := parts[..|parts| - 1], parts[|parts| - 1];
      AncestorsAre(front, o);
      assert parts == front + [part];
      AncestorSnoc(front, part, o);
      var v := Visit(Joined(parts), true, true, Directory([]));
      var own := if part == [] then [] else [v];
      EntriesOfOne(v, o);
      assert AllClean(own) && WellNamed(own);
      assert EntriesOf(own, o) == if part == [] then [] else [DirEntry(Joined(parts), o)];
      hide Joined, AncestorVisits, AncestorEntries, EntriesOf, AllClean, WellNamed;
      EntriesOfAppend(AncestorVisits(front), own, o);
      AllCleanAppend(AncestorVisits(front), own);
      WellNamedAppend(AncestorVisits(front), own);
    }
  }

  /** Every ancestor comes after its own parent, and the last one is there. */
  lemma {:induction false} AncestorsInOrder(parts: seq<seq<Byte>>, o: Owner)
    requires forall i :: 0 <= i < |parts| ==> SLASH !in parts[i]
    ensures var es := AncestorEntries(parts, o);
            ParentsFirst(es) && (Joined(parts) == [] || HasDir(es, Joined(parts)))
    decreases |parts|
  {
    if parts != [] {
      var front, part := parts[..|parts| - 1], parts[|parts| - 1];
      AncestorsInOrder(front, o);
      assert parts == front + [part];
      AncestorSnoc(front, part, o);
      hide Joined, AncestorEntries, ParentsFirst, HasDir;
      if part == [] {
        assert AncestorEntries(front, o) + [] == AncestorEntries(front, o);
      } else {
        AncestorAfterParent(AncestorEntries(front, o), Joined(front), part, Joined(parts), o);
      }
    }
  }

  lemma AncestorAfterParent(es: seq<Entry>, up: seq<Byte>, part: seq<Byte>, acc: seq<Byte>, o: Owner)
    requires ParentsFirst(es) && SLASH !in part && (up == [] || HasDir(es, up))
    requires acc == if up == [] then part else Under(up, part)
    ensures ParentsFirst(es + [DirEntry(acc, o)]) && HasDir(es + [DirEntry(acc, o)], acc)
  {
    var e := DirEntry(acc, o);
    assert Stem(e) == acc;
    if up != [] {
      ChildHasParent(es, up, part, e);
    }
    ParentsFirstSnoc(es, e);
    assert (es + [e])[|es|] == e;
  }

  /** Appends an entry for every ancestor directory of `relative`, up to the first that is
      refused. */
  method AppendAncestorDirectories(builder: UstarBuilder, relative: seq<Byte>, o: Owner) returns (r: CopyResult)
    requires builder.Valid()
    modifies builder
    ensures var parts := Segments(relative);
            var out := Visited(old(builder.entries), AncestorVisits(parts[..|parts| - 1]), o);
            builder.Valid() && r == out.result && (r == Copied ==> builder.entries == out.entries)
  {
    hide EncodeAll, AncestorVisits, Joined, Segments, Visited, AddResult;
    var acc: seq<Byte> := [];
    var parts := Segments(relative);
    ghost var es0 := builder.entries;
    NoAncestors(es0, o);
    assert parts[..0] == [];
    for i := 0 to |parts| - 1
      invariant builder.Valid() && acc == Joined(parts[..i])
      invariant Visited(es0, AncestorVisits(parts[..i]), o) == Outcome(Copied, builder.entries)
    {
      var part := parts[i];
      AncestorStep(es0, parts, i, builder.entries, o);
      if |part| == 0 {
        continue;
      }
      if |acc| > 0 {
        acc := acc + [SLASH];
      }
      acc := acc + part;
      assert acc == Joined(parts[..i + 1]);
      var built := AddDirectoryEntry(builder, acc, o);
      if built != Built {
        return TarRefused(built);
      }
    }
    r := Copied;
  }

  /** What adding one more ancestor after the entries `es` results in. */
  lemma AncestorStep(es0: seq<Entry>, parts: seq<seq<Byte>>, i: nat, es: seq<Entry>, o: Owner)
    requires i < |parts| - 1 && Visited(es0, AncestorVisits(parts[..i]), o) == Outcome(Copied, es)
    ensures var part, up, acc := parts[i], Joined(parts[..i]), Joined(parts[..i + 1]);
            && acc == (if part == [] then up else if up == [] then part else Under(up, part))
            && (part == [] ==> Visited(es0, AncestorVisits(parts[..i + 1]), o) == Outcome(Copied, es))
            && (part != [] ==>
                  var e := DirEntry(acc, o);
                  if AddResult(es, e).Built? then
                    Visited(es0, AncestorVisits(parts[..i + 1]), o) == Outcome(Copied, es + [e])
                  else
                    Visited(es0, AncestorVisits(parts[..|parts| - 1]), o) == Outcome(TarRefused(AddResult(es, e)), es))
  {
    hide AncestorVisits, Joined, Visited, AddResult;
    var part, acc := parts[i], Joined(parts[..i + 1]);
    assert parts[..i + 1] == parts[..i] + [part];
    AncestorSnoc(parts[..i], part, o);
    if part == [] {
      assert AncestorVisits(parts[..i]) + [] == AncestorVisits(parts[..i]);
    } else {
      var v := Visit(acc, true, true, Directory([]));
      VisitedAppend(es0, AncestorVisits(parts[..i]), [v], o);
      VisitedOne(es, v, o);
      if VisitResult(es, v, o) != Copied {
        AncestorRefused(es0, parts, i + 1, o);
      }
    }
  }

  lemma NoAncestors(es: seq<Entry>, o: Owner)
    ensures AncestorVisits([]) == [] && Joined([]) == [] && Visited(es, [], o) == Outcome(Copied, es)
  {
  }

  lemma VisitedOne(es: seq<Entry>, v: Visit, o: Owner)
    ensures Visited(es, [v], o)
         == if VisitResult(es, v, o) == Copied then Outcome(Copied, es + [EntryFor(v, o)])
            else Outcome(VisitResult(es, v, o), es)
  {
    hide VisitResult;
    assert [v][1..] == [];
    NoAncestors(es + [EntryFor(v, o)], o);
  }

  /** A refusal among the first ancestors is that of all of them. */
  lemma AncestorRefused(es: seq<Entry>, parts: seq<seq<Byte>>, i: nat, o: Owner)
    requires i < |parts| && Visited(es, AncestorVisits(parts[..i]), o).result != Copied
    ensures Visited(es, AncestorVisits(parts[..|parts| - 1]), o) == Visited(es, AncestorVisits(parts[..i]), o)
  {
    hide Visited;
    var up := parts[..|parts| - 1];
    assert up[..i] == parts[..i];
    var more := AncestorsGrow(up, i);
    VisitedAppend(es, AncestorVisits(up[..i]), more, o);
  }

  lemma {:induction false} AncestorsGrow(up: seq<seq<Byte>>, i: nat) returns (more: seq<Visit>)
    requires i <= |up|
    ensures AncestorVisits(up) == AncestorVisits(up[..i]) + more
    decreases |up|
  {
    if i < |up| {
      var front := up[..|up| - 1];
      var rest := AncestorsGrow(front, i);
      assert front[..i] == up[..i];
      var last := if up[|up| - 1] == [] then [] else [Visit(Joined(up), true, true, Directory([]))];
      Assoc(AncestorVisits(up[..i]), rest, last);
      more := rest + last;
    } else {
      assert up[..i] == up;
      more := [];
    }
  }

  /** The relative path sits right under its last ancestor, if it has one. */
  lemma TargetHasParent(relative: seq<Byte>, es: seq<Entry>, e: Entry)
    requires PlainRelative(relative) && Stem(e) == relative
    requires var parts := Segments(relative); var up := Joined(parts[..|parts| - 1]); up == [] || HasDir(es, up)
    ensures SLASH !in Stem(e) || HasDir(es, ParentOf(Stem(e)))
  {
    var parts := Segments(relative);
    PlainHasNoEmptySegment(relative);
    JoiningUndoesSplitting(relative);
    var up, last := Joined(parts[..|parts| - 1]), parts[|parts| - 1];
    assert last != [] && relative == if up == [] then last else Under(up, last);
    if up != [] {
      ChildHasParent(es, up, last, e);
    }
  }

  function SourceNode(source: Source): Node {
    if source.HostPath? then source.node else Regular(source.data)
  }

  /** The source itself, and for a directory everything below it in walk order. */
  function SourceVisits(relative: seq<Byte>, source: Source): seq<Visit> {
    var node := SourceNode(source);
    [Visit(relative, true, source.HostPath?, node)] + if node.Directory? then Visits(relative, node.children) else []
  }

  /** All visits of one copy: the ancestors of the target, then the source. */
  function CopyVisits(relative: seq<Byte>, source: Source): seq<Visit> {
    var parts := Segments(relative);
    AncestorVisits(parts[..|parts| - 1]) + SourceVisits(relative, source)
  }

  function CopyEntries(relative: seq<Byte>, source: Source, o: Owner): seq<Entry> {
    EntriesOf(CopyVisits(relative, source), o)
  }

  /** The result of filling an empty builder. */
  function FillOutcome(relative: seq<Byte>, source: Source, o: Owner): Outcome {
    if source.HostPath? && source.node.Symlink? then Outcome(SymlinkFound, [])
    else if source.HostPath? && source.node.Special? then Outcome(NotRegular, [])
    else Visited([], CopyVisits(relative, source), o)
  }

  /** The result of the whole copy, up to the upload. */
  function CopyOutcome(target: seq<Byte>, source: Source, o: Owner): CopyResult {
    if TargetRefusal(target) != Copied then TargetRefusal(target)
    else
      var out := FillOutcome(TrimSlashes(target), source, o);
      if out.result == Copied && TotalSize(out.entries) + 2 * BLOCK_SIZE > LIMIT then TarRefused(TooBig) else out.result
  }

  ghost predicate SourceNamed(source: Source) {
    source.HostPath? && source.node.Directory? ==> Named(source.node.children)
  }

  predicate CleanSource(source: Source) {
    source.HostPath? ==> CleanNode(source.node)
  }

  /** The reference: the ancestors, and one entry for every node of the source. */
  ghost function ExpectedEntries(relative: seq<Byte>, source: Source, o: Owner): multiset<Entry> {
    var parts := Segments(relative);
    multiset(AncestorEntries(parts[..|parts| - 1], o)) + multiset(NodeEntries(relative, SourceNode(source), o))
  }

  /** Fills an empty builder from one source. */
  method FillBuilder(builder: UstarBuilder, relative: seq<Byte>, source: Source, o: Owner) returns (r: CopyResult)
    requires builder.Valid() && builder.entries == []
    modifies builder
    ensures var out := FillOutcome(relative, source, o);
            builder.Valid() && r == out.result && (r == Copied ==> builder.entries == out.entries)
  {
    hide EncodeAll, AncestorVisits, Visits, Segments, Visited, AddResult;
    if source.HostPath? && source.node.Symlink? {
      return SymlinkFound;
    }
    if source.HostPath? && source.node.Special? {
      return NotRegular;
    }
    ghost var parts := Segments(relative);
    VisitedAppend([], AncestorVisits(parts[..|parts| - 1]), SourceVisits(relative, source), o);
    r := AppendAncestorDirectories(builder, relative, o);
    if r != Copied {
      return;
    }
    if source.HostPath? && source.node.Directory? {
      r := AddTree(builder, relative, source.node.children, o);
      return;
    }
    ghost var v := Visit(relative, true, source.HostPath?, SourceNode(source));
    assert SourceVisits(relative, source) == [v];
    VisitedOne(builder.entries, v, o);
    var data := if source.HostPath? then source.node.data else source.data;
    if source.HostPath? && |data| > LIMIT {
      return FileTooBig;
    }
    var built := AddFileEntry(builder, relative, data, o);
    r := if built == Built then Copied else TarRefused(built);
  }

  /** The entry of the source directory and then everything below it. */
  method AddTree(builder: UstarBuilder, relative: seq<Byte>, children: seq<Child>, o: Owner) returns (r: CopyResult)
    requires builder.Valid()
    modifies builder
    ensures var out := Visited(old(builder.entries), SourceVisits(relative, HostPath(Directory(children))), o);
            builder.Valid() && r == out.result && (r == Copied ==> builder.entries == out.entries)
  {
    hide EncodeAll, Visits, Visited, AddResult;
    ghost var v := Visit(relative, true, true, Directory(children));
    VisitedAppend(builder.entries, [v], Visits(relative, children), o);
    VisitedOne(builder.entries, v, o);
    var built := AddDirectoryEntry(builder, relative, o);
    if built != Built {
      return TarRefused(built);
    }
    r := AppendHostDirectory(builder, relative, children, o);
  }

  lemma FilledEntries(relative: seq<Byte>, source: Source, o: Owner)
    ensures var out := FillOutcome(relative, source, o);
            out.result == Copied ==> out.entries == CopyEntries(relative, source, o)
  {
    hide CopyVisits, Visited, EntriesOf, AllClean, AllWritable, Overfull;
    VisitedIff([], CopyVisits(relative, source), o);
    assert [] + CopyEntries(relative, source, o) == CopyEntries(relative, source, o);
  }

  /** One source, one archive: the result is that of the visits in order, and on success the
      archive holds exactly their entries in that order and reads back as them. */
  method CopyToSource(target: seq<Byte>, source: Source, o: Owner)
    returns (r: CopyResult, archive: seq<Byte>, ghost es: seq<Entry>)
    ensures r == CopyOutcome(target, source, o)
    ensures r == Copied ==>
              && es == CopyEntries(TrimSlashes(target), source, o)
              && AllStorable(es) && archive == Archive(es) && ReadArchive(archive) == Entries(AllStored(es))
              && |archive| == TotalSize(es) + 2 * BLOCK_SIZE <= LIMIT
  {
    hide EncodeAll, ReadArchive, CopyEntries, FillOutcome, TrimSlashes, TargetRefusal, PlainRelative, AllStorable;
    archive, es := [], [];
    r := TargetRefusal(target);
    if r != Copied {
      return;
    }
    TargetAcceptedIff(target);
    var relative := TrimSlashes(target);
    assert relative != [];  // so the refusal of a bare root is never reached
    var builder := new UstarBuilder();
    r := FillBuilder(builder, relative, source, o);
    if r != Copied {
      return;
    }
    es := builder.entries;
    EncodedSize(es);
    FilledEntries(relative, source, o);
    var ok;
    ok, archive := builder.Finish();
    if !ok {
      r := TarRefused(TooBig);
    }
  }

  /* ---- What a copy means ---- */

  lemma SourceVisitsClean(relative: seq<Byte>, source: Source, o: Owner)
    ensures AllClean(SourceVisits(relative, source)) <==> CleanSource(source)
    ensures multiset(EntriesOf(SourceVisits(relative, source), o))
         == multiset(NodeEntries(relative, SourceNode(source), o))
  {
    var node := SourceNode(source);
    var v := Visit(relative, true, source.HostPath?, node);
    var below := if node.Directory? then Visits(relative, node.children) else [];
    if node.Directory? {
      VisitsCoverTree(relative, node.children, o);
    }
    AllCleanAppend([v], below);
    EntriesOfAppend([v], below, o);
    EntriesOfOne(v, o);
    assert AllClean([v]) <==> TreeRefusal([v][0]) == Copied;
    NodeCovered(v.(onHost := true), below, o);
    hide Visits, NodeEntries;
    assert multiset(OwnEntries(v, o) + EntriesOf(below, o))
        == multiset(OwnEntries(v, o)) + multiset(EntriesOf(below, o));
  }

  lemma CopyVisitsAre(relative: seq<Byte>, source: Source, o: Owner)
    ensures AllClean(CopyVisits(relative, source)) <==> CleanSource(source)
    ensures multiset(CopyEntries(relative, source, o)) == ExpectedEntries(relative, source, o)
  {
    hide AncestorVisits, AncestorEntries, SourceVisits, EntriesOf, AllClean, NodeEntries, Segments;
    var parts := Segments(relative);
    var up := parts[..|parts| - 1];
    AncestorsAre(up, o);
    SourceVisitsClean(relative, source, o);
    AllCleanAppend(AncestorVisits(up), SourceVisits(relative, source));
    EntriesOfAppend(AncestorVisits(up), SourceVisits(relative, source), o);
    assert multiset(AncestorEntries(up, o) + EntriesOf(SourceVisits(relative, source), o))
        == multiset(AncestorEntries(up, o)) + multiset(EntriesOf(SourceVisits(relative, source), o));
  }

  /** In a copy every entry comes after the entry of its parent directory. */
  lemma CopyParentsFirst(relative: seq<Byte>, source: Source, o: Owner)
    requires PlainRelative(relative) && SourceNamed(source)
    ensures ParentsFirst(CopyEntries(relative, source, o))
  {
    var parts := Segments(relative);
    var up, node := parts[..|parts| - 1], SourceNode(source);
    var v := Visit(relative, true, source.HostPath?, node);
    var below := if node.Directory? then Visits(relative, node.children) else [];
    var es := AncestorEntries(up, o);
    AncestorsAre(up, o);
    AncestorsInOrder(up, o);
    RootAfterParent(relative, es, v, o);
    EntriesOfAppend(AncestorVisits(up), SourceVisits(relative, source), o);
    EntriesOfAppend([v], below, o);
    EntriesOfOne(v, o);
    hide AncestorVisits, AncestorEntries, EntriesOf, OwnEntries, ParentsFirst, HasDir;
    hide Segments, Joined, PlainRelative, Named;
    if node.Directory? {
      VisitsAfterParents(es + OwnEntries(v, o), relative, node.children, o);
    } else {
      NoEntries(es + OwnEntries(v, o), o);
    }
    Assoc(es, OwnEntries(v, o), EntriesOf(below, o));
  }

  lemma RootAfterParent(relative: seq<Byte>, es: seq<Entry>, v: Visit, o: Owner)
    requires PlainRelative(relative) && ParentsFirst(es) && v.path == relative
    requires var parts := Segments(relative); var up := Joined(parts[..|parts| - 1]); up == [] || HasDir(es, up)
    ensures ParentsFirst(es + OwnEntries(v, o)) && (v.node.Directory? ==> HasDir(es + OwnEntries(v, o), relative))
  {
    var e := EntryFor(v, o);
    assert Stem(e) == relative;
    TargetHasParent(relative, es, e);
    hide Segments, Joined, PlainRelative;
    ParentsFirstSnoc(es, e);
    assert es + [] == es;
    assert (es + [e])[|es|] == e;
  }

  lemma CopyWellNamed(relative: seq<Byte>, source: Source, o: Owner)
    requires PlainRelative(relative) && SourceNamed(source)
    ensures WellNamed(CopyVisits(relative, source))
  {
    assert !EndsWithSlash(relative);
    var parts, node := Segments(relative), SourceNode(source);
    AncestorsAre(parts[..|parts| - 1], o);
    hide AncestorVisits, Segments, PlainRelative;
    if node.Directory? {
      VisitsWellNamed(relative, node.children);
    }
    hide Visits;
    WellNamedAppend(AncestorVisits(parts[..|parts| - 1]), SourceVisits(relative, source));
  }

  lemma AcceptedIsPlain(target: seq<Byte>)
    requires TargetRefusal(target) == Copied
    ensures PlainRelative(TrimSlashes(target))
  {
    TargetAcceptedIff(target);
  }

  /** Exactly when a copy succeeds: the target is accepted, the source holds nothing but regular
      files and directories with readable names and no oversized file, every entry can be stored,
      and the whole archive with its trailer is within the limit. */
  lemma CopiedIff(target: seq<Byte>, source: Source, o: Owner)
    requires SourceNamed(source)
    ensures var es := CopyEntries(TrimSlashes(target), source, o);
            CopyOutcome(target, source, o) == Copied <==>
              && TargetRefusal(target) == Copied && CleanSource(source)
              && AllStorable(es) && TotalSize(es) + 2 * BLOCK_SIZE <= LIMIT
  {
    hide TargetRefusal, TrimSlashes, CopyVisits, Visited, EntriesOf, AllStorable, AllWritable, AllClean;
    hide PlainRelative, TotalSize;
    var relative := TrimSlashes(target);
    var vs, es := CopyVisits(relative, source), CopyEntries(relative, source, o);
    if TargetRefusal(target) == Copied {
      AcceptedIsPlain(target);
      CopyWellNamed(relative, source, o);
      OnlyHeadersRefused(vs, o);
      VisitedIff([], vs, o);
      assert [] + es == es;
      CopyVisitsAre(relative, source, o);
    }
  }

  /** Why a copy fails: a refusal about the tree means the tree is not clean; one by the archive
      that some entry's header is refused for just that, or that the archive is too big. */
  lemma RefusedCopy(target: seq<Byte>, source: Source, o: Owner)
    requires SourceNamed(source) && TargetRefusal(target) == Copied
    ensures var r, es := CopyOutcome(target, source, o), CopyEntries(TrimSlashes(target), source, o);
            && (r == Copied || AboutTree(r) || r.TarRefused?)
            && (AboutTree(r) ==> !CleanSource(source))
            && (r.TarRefused? ==>
                  if r.why.TooBig? then TotalSize(es) + 2 * BLOCK_SIZE > LIMIT
                  else !r.why.Built? && exists e :: e in es && HeaderRefusal(e.Meta()) == r.why)
  {
    hide TargetRefusal, TrimSlashes, CopyVisits, Visited, EntriesOf, AllStorable, AllWritable, PlainRelative, TotalSize;
    hide HeaderRefusal, EntryRefusal, TreeRefusal;
    var relative := TrimSlashes(target);
    var vs, es := CopyVisits(relative, source), CopyEntries(relative, source, o);
    AcceptedIsPlain(target);
    CopyWellNamed(relative, source, o);
    OnlyHeadersRefused(vs, o);
    RefusalHasCause([], vs, o);
    VisitedIff([], vs, o);
    assert [] + es == es;
    CopyVisitsAre(relative, source, o);
  }
}
