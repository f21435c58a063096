/** What the archive of one copy holds, file by file: the ancestors of the target and, for every
    node of the source, one entry with that node's own path, data and owner. Paths and entries are
    written out here, independently of how the copy computes them. */
module CopyContents {
  import opened Bytes
  import opened UstarArchive
  import opened HostCopy
  import opened CopyTo
  import opened UstarField

  /** Following `names` from `node` downwards leads to `target`. */
  ghost predicate Reaches(node: Node, names: seq<seq<Byte>>, target: Node)
    decreases |names|
  {
    if names == [] then target == node
    else
      node.Directory? && exists i ::
        0 <= i < |node.children| && node.children[i].name == names[0]
        && Reaches(node.children[i].node, names[1..], target)
  }

  /** `root/name/name/...` */
  function PathOf(root: seq<Byte>, names: seq<seq<Byte>>): seq<Byte>
    decreases |names|
  {
    if names == [] then root else PathOf(root + [47] + names[0], names[1..])
  }

  /** `e` is the entry of the node `target` at `path`: a file with its data and the owner's mode, or
      a directory with mode 0o755 and a trailing slash. */
  ghost predicate Holds(e: Entry, path: seq<Byte>, target: Node, o: Owner) {
    || (target.Regular? && e == Entry(path, false, target.data, o.mode, o.uid, o.gid))
    || (target.Directory? && e == Entry(path + [47], true, [], 493, o.uid, o.gid))
  }

  ghost predicate HoldsBelow(e: Entry, root: seq<Byte>, node: Node, o: Owner) {
    exists names, target :: Reaches(node, names, target) && Holds(e, PathOf(root, names), target, o)
  }

  lemma ChildListed(dir: seq<Byte>, children: seq<Child>, i: nat, o: Owner, e: Entry)
    requires i < |children| && e in NodeEntries(dir + [47] + children[i].name, children[i].node, o)
    ensures e in ChildEntries(dir, children, o)
    decreases |children|
  {
    hide NodeEntries;
    var front := children[..|children| - 1];
    if i < |front| {
      assert front[i] == children[i];
      ChildListed(dir, front, i, o, e);
    }
  }

  lemma {:induction false} ReachedIsListed(root: seq<Byte>, node: Node, names: seq<seq<Byte>>, target: Node, o: Owner,
                                           e: Entry)
    requires Reaches(node, names, target) && Holds(e, PathOf(root, names), target, o)
    ensures e in NodeEntries(root, node, o)
    decreases |names|
  {
    if names != [] {
      var i :| 0 <= i < |node.children| && node.children[i].name == names[0]
               && Reaches(node.children[i].node, names[1..], target);
      ReachedIsListed(root + [47] + names[0], node.children[i].node, names[1..], target, o, e);
      ChildListed(root, node.children, i, o, e);
    }
  }

  lemma {:induction false} ListedIsReached(root: seq<Byte>, node: Node, o: Owner, e: Entry)
    returns (names: seq<seq<Byte>>, target: Node)
    requires e in NodeEntries(root, node, o)
    ensures Reaches(node, names, target) && Holds(e, PathOf(root, names), target, o)
    decreases node, 1
  {
    if node.Directory? && e != DirEntry(root, o) {
      var i, more, t := ChildIsReached(root, node.children, o, e);
      names, target := [node.children[i].name] + more, t;
      assert names[1..] == more && names[0] == node.children[i].name;
    } else {
      names, target := [], node;
    }
  }

  lemma {:induction false} ChildIsReached(dir: seq<Byte>, children: seq<Child>, o: Owner, e: Entry)
    returns (i: nat, names: seq<seq<Byte>>, target: Node)
    requires e in ChildEntries(dir, children, o)
    ensures i < |children| && Reaches(children[i].node, names, target)
    ensures Holds(e, PathOf(dir + [47] + children[i].name, names), target, o)
    decreases children, 0
  {
    var front, last := children[..|children| - 1], children[|children| - 1];
    if e in ChildEntries(dir, front, o) {
      i, names, target := ChildIsReached(dir, front, o, e);
      assert front[i] == children[i];
    } else {
      i := |children| - 1;
      names, target := ListedIsReached(Under(dir, last.name), last.node, o, e);
    }
  }

  /** The entries of a node are exactly those of the files and directories at and below it. */
  lemma ListedIff(root: seq<Byte>, node: Node, o: Owner, e: Entry)
    ensures e in NodeEntries(root, node, o) <==> HoldsBelow(e, root, node, o)
  {
    if e in NodeEntries(root, node, o) {
      var names, target := ListedIsReached(root, node, o, e);
    }
    if HoldsBelow(e, root, node, o) {
      var names, target :| Reaches(node, names, target) && Holds(e, PathOf(root, names), target, o);
      ReachedIsListed(root, node, names, target, o, e);
    }
  }

  /* ---- One entry for each path ---- */

  /** No two files of one directory have the same name. */
  ghost predicate DistinctNames(children: seq<Child>) {
    && (forall i, j :: 0 <= i < j < |children| ==> children[i].name != children[j].name)
    && (forall i :: 0 <= i < |children| && children[i].node.Directory? ==> DistinctNames(children[i].node.children))
  }

  ghost predicate TreeNode(node: Node) {
    node.Directory? ==> Named(node.children) && DistinctNames(node.children)
  }

  ghost predicate OnePerPath(es: seq<Entry>) {
    forall i, j :: 0 <= i < j < |es| ==> es[i].path != es[j].path
  }

  /** No entry twice, and no two entries with one path. */
  ghost predicate Once(m: multiset<Entry>) {
    && (forall e :: e in m ==> m[e] == 1)
    && (forall e, f :: e in m && f in m && e.path == f.path ==> e == f)
  }

  lemma OnceSum(a: multiset<Entry>, b: multiset<Entry>)
    requires Once(a) && Once(b) && forall e, f :: e in a && f in b ==> e.path != f.path
    ensures Once(a + b)
  {
    forall e | e in a + b ensures (a + b)[e] == 1 {
      assert (a + b)[e] == a[e] + b[e];
      assert !(e in a && e in b);
    }
  }

  lemma OnceMeans(es: seq<Entry>)
    requires Once(multiset(es))
    ensures OnePerPath(es)
  {
    forall i, j | 0 <= i < j < |es| ensures es[i].path != es[j].path {
      assert es[i] in multiset(es) && es[j] in multiset(es);
      if es[i].path == es[j].path {
        CountedTwice(es, i, j);
      }
    }
  }

  lemma CountedTwice(es: seq<Entry>, i: nat, j: nat)
    requires i < j < |es| && es[i] == es[j]
    ensures multiset(es)[es[i]] >= 2
  {
    var a, b := es[..j], es[j..];
    assert es == a + b;
    assert multiset(es) == multiset(a) + multiset(b);
    assert a[i] in multiset(a) && b[0] in multiset(b);
  }

  /** `p` is `root` or lies below it. */
  predicate AtOrBelow(p: seq<Byte>, root: seq<Byte>) {
    root <= p && (|p| == |root| || p[|root|] == 47)
  }

  lemma BelowTransitive(p: seq<Byte>, root: seq<Byte>, name: seq<Byte>)
    requires AtOrBelow(p, root + [47] + name)
    ensures AtOrBelow(p, root) && |p| >= |root| + 1 + |name|
  {
    var q := root + [47] + name;
    assert root <= q && q[|root|] == 47;
    assert p[..|q|] == q && p[|root|] == q[|root|];
    assert p[..|root|] == q[..|root|];
  }

  lemma OneName(p: seq<Byte>, root: seq<Byte>, a: seq<Byte>, b: seq<Byte>)
    requires AtOrBelow(p, root + [47] + a) && AtOrBelow(p, root + [47] + b) && 47 !in a && 47 !in b
    ensures a == b
  {
    NameOf(p, root, a);
    NameOf(p, root, b);
    hide AtOrBelow;
    NotLonger(p, |root| + 1, a, b);
    NotLonger(p, |root| + 1, b, a);
  }

  lemma NotLonger(p: seq<Byte>, n: nat, a: seq<Byte>, b: seq<Byte>)
    requires n + |a| <= |p| && n + |b| <= |p| && p[n..n + |b|] == b
    requires n + |a| == |p| || p[n + |a|] == 47
    ensures |b| <= |a| || 47 in b
  {
    var m := |a|;
    assert m < |b| ==> p[n..n + |b|][m] == p[n + m];
  }

  lemma NameOf(p: seq<Byte>, root: seq<Byte>, a: seq<Byte>)
    requires AtOrBelow(p, root + [47] + a)
    ensures var n := |root| + 1;
            && n + |a| <= |p| && p[n..n + |a|] == a
            && (n + |a| == |p| || p[n + |a|] == 47)
  {
    var q := root + [47] + a;
    assert p[..|q|] == q && q[|root| + 1..] == a;
    assert forall k :: 0 <= k < |q| ==> p[k] == q[k];
  }

  lemma {:induction false} PathOfIsBelow(root: seq<Byte>, names: seq<seq<Byte>>)
    ensures AtOrBelow(PathOf(root, names), root)
    decreases |names|
  {
    if names != [] {
      PathOfIsBelow(root + [47] + names[0], names[1..]);
      BelowTransitive(PathOf(root, names), root, names[0]);
    }
  }

  lemma EntryIsBelow(root: seq<Byte>, node: Node, o: Owner, e: Entry)
    requires e in NodeEntries(root, node, o)
    ensures AtOrBelow(e.path, root)
  {
    var names, target := ListedIsReached(root, node, o, e);
    PathOfIsBelow(root, names);
    SlashAfter(PathOf(root, names), root);
  }

  lemma SlashAfter(p: seq<Byte>, root: seq<Byte>)
    requires AtOrBelow(p, root)
    ensures AtOrBelow(p + [47], root)
  {
    assert (p + [47])[..|root|] == p[..|root|];
  }

  lemma ChildEntryIsBelow(dir: seq<Byte>, children: seq<Child>, o: Owner, e: Entry) returns (i: nat)
    requires e in ChildEntries(dir, children, o)
    ensures i < |children| && AtOrBelow(e.path, dir + [47] + children[i].name)
  {
    var names, target;
    i, names, target := ChildIsReached(dir, children, o, e);
    PathOfIsBelow(dir + [47] + children[i].name, names);
    SlashAfter(PathOf(dir + [47] + children[i].name, names), dir + [47] + children[i].name);
  }

  lemma {:induction false} NodeOnce(root: seq<Byte>, node: Node, o: Owner)
    requires TreeNode(node)
    ensures Once(multiset(NodeEntries(root, node, o)))
    decreases node, 1
  {
    if node.Directory? {
      var own, below := DirEntry(root, o), ChildEntries(root, node.children, o);
      ChildrenOnce(root, node.children, o);
      forall f: Entry | f in multiset(below) ensures own.path != f.path {
        var i := ChildEntryIsBelow(root, node.children, o, f);
        BelowTransitive(f.path, root, node.children[i].name);
        assert node.children[i].name != [];
      }
      OnceSum(multiset{own}, multiset(below));
      assert multiset([own] + below) == multiset{own} + multiset(below);
    }
  }

  lemma NamesOfFront(children: seq<Child>)
    requires children != [] && Named(children) && DistinctNames(children)
    ensures Named(children[..|children| - 1]) && DistinctNames(children[..|children| - 1])
    ensures TreeNode(children[|children| - 1].node)
  {
    NamedFront(children);
  }

  lemma {:induction false} ChildrenOnce(dir: seq<Byte>, children: seq<Child>, o: Owner)
    requires Named(children) && DistinctNames(children)
    ensures Once(multiset(ChildEntries(dir, children, o)))
    decreases children, 0
  {
    if children != [] {
      var front, last := children[..|children| - 1], children[|children| - 1];
      var a, b := ChildEntries(dir, front, o), NodeEntries(Under(dir, last.name), last.node, o);
      NamesOfFront(children);
      ChildrenOnce(dir, front, o);
      NodeOnce(Under(dir, last.name), last.node, o);
      forall e: Entry, f: Entry | e in multiset(a) && f in multiset(b) ensures e.path != f.path {
        ApartFromLast(dir, children, o, e, f);
      }
      hide NodeEntries, Once;
      OnceSum(multiset(a), multiset(b));
      assert multiset(a + b) == multiset(a) + multiset(b);
    }
  }

  lemma ApartFromLast(dir: seq<Byte>, children: seq<Child>, o: Owner, e: Entry, f: Entry)
    requires children != [] && Named(children) && DistinctNames(children)
    requires e in ChildEntries(dir, children[..|children| - 1], o)
    requires var last := children[|children| - 1]; f in NodeEntries(Under(dir, last.name), last.node, o)
    ensures e.path != f.path
  {
    var last := children[|children| - 1];
    var i := ChildEntryIsBelow(dir, children[..|children| - 1], o, e);
    EntryIsBelow(Under(dir, last.name), last.node, o, f);
    hide AtOrBelow, NodeEntries, ChildEntries;
    if e.path == f.path {
      OneName(e.path, dir, children[i].name, last.name);
    }
  }

  /* ---- The ancestors of the target ---- */

  /** `e` is the entry of a proper ancestor directory of `relative`. */
  ghost predicate IsAncestor(e: Entry, relative: seq<Byte>, o: Owner) {
    exists k :: 0 <= k < |relative| && relative[k] == 47 && e == Entry(relative[..k + 1], true, [], 493, o.uid, o.gid)
  }

  lemma CutInside<T>(s: seq<T>, p: nat, k: nat)
    requires p < k <= |s|
    ensures s[..k][..p] == s[..p] && s[..k][p] == s[p] && s[..k][p + 1..] == s[p + 1..][..k - p - 1]
  {
  }

  lemma SegmentsStep(s: seq<Byte>, k: nat)
    requires k < |s| && s[k] == SLASH && FirstSlash(s) < k
    ensures var p := FirstSlash(s);
            Segments(s[..k]) == [s[..p]] + Segments(s[p + 1..][..k - p - 1])
  {
    var p := FirstSlash(s);
    hide Segments, FirstSlash;
    CutInside(s, p, k);
    FirstSlashOf(s[..k], p);
    SegmentsUnfold(s[..k]);
  }

  lemma SegmentsAlone(s: seq<Byte>, k: nat)
    requires k <= |s| && FirstSlash(s) == k
    ensures Segments(s[..k]) == [s[..k]]
  {
    assert s[..k][..k] == s[..k];
    FirstSlashOf(s[..k], k);
  }

  /** Cutting at a slash cuts the segments. */
  lemma {:induction false} SegmentsCut(s: seq<Byte>, k: nat)
    requires k < |s| && s[k] == SLASH
    ensures var n := |Segments(s[..k])|; n < |Segments(s)| && Segments(s)[..n] == Segments(s[..k])
    decreases |s|
  {
    hide FirstSlash;
    FirstSlashNotAfter(s, k);
    var p := FirstSlash(s);
    if p == k {
      SegmentsAlone(s, k);
      PrefixCons(s[..p], Segments(s[p + 1..]), 0);
    } else {
      var rest := s[p + 1..];
      SegmentsStep(s, k);
      SegmentsCut(rest, k - p - 1);
      PrefixCons(s[..p], Segments(rest), |Segments(rest[..k - p - 1])|);
    }
  }

  lemma PrefixCons<T>(x: T, s: seq<T>, n: nat)
    requires n <= |s|
    ensures ([x] + s)[..n + 1] == [x] + s[..n] && ([x] + s)[..1] == [x]
  {
  }

  /** Every proper front part of the segments ends at a slash. */
  lemma {:induction false} SlashOf(s: seq<Byte>, i: nat) returns (k: nat)
    requires 1 <= i < |Segments(s)|
    ensures k < |s| && s[k] == SLASH && Segments(s[..k]) == Segments(s)[..i]
    decreases |s|
  {
    hide FirstSlash;
    var p := FirstSlash(s);
    if i == 1 {
      k := p;
      SegmentsAlone(s, k);
      PrefixCons(s[..p], Segments(s[p + 1..]), 0);
    } else {
      var rest := s[p + 1..];
      var j := SlashOf(rest, i - 1);
      k := p + 1 + j;
      SegmentsStep(s, k);
      PrefixCons(s[..p], Segments(rest), i - 1);
    }
  }

  /** `e` is the directory entry of one of the first `n` front parts. */
  ghost predicate AtPrefix(e: Entry, parts: seq<seq<Byte>>, n: nat, o: Owner)
    requires n <= |parts|
  {
    exists i :: 1 <= i <= n && e == DirEntry(Joined(parts[..i]), o)
  }

  lemma {:induction false} AncestorListed(parts: seq<seq<Byte>>, n: nat, o: Owner, e: Entry)
    requires [] !in parts && n <= |parts|
    ensures e in AncestorEntries(parts[..n], o) <==> AtPrefix(e, parts, n, o)
    decreases n
  {
    if n > 0 {
      AncestorListed(parts, n - 1, o, e);
      assert parts[..n][..n - 1] == parts[..n - 1];
      assert parts[..n][n - 1] == parts[n - 1] != [];
      hide Joined, DirEntry;
      assert AncestorEntries(parts[..n], o) == AncestorEntries(parts[..n - 1], o) + [DirEntry(Joined(parts[..n]), o)];
      hide AncestorEntries;
    }
  }

  lemma PlainSegments(relative: seq<Byte>)
    requires PlainRelative(relative)
    ensures [] !in Segments(relative)
    ensures var parts := Segments(relative); var up := Joined(parts[..|parts| - 1]);
            relative == (if up == [] then parts[|parts| - 1] else Under(up, parts[|parts| - 1]))
    ensures var parts := Segments(relative); [] !in parts[..|parts| - 1] && parts[|parts| - 1] != []
  {
    PlainHasNoEmptySegment(relative);
    JoiningUndoesSplitting(relative);
    hide Segments;
  }

  lemma AncestorIff(relative: seq<Byte>, o: Owner, e: Entry)
    requires PlainRelative(relative)
    ensures var parts := Segments(relative);
            e in AncestorEntries(parts[..|parts| - 1], o) <==> IsAncestor(e, relative, o)
  {
    var parts := Segments(relative);
    PlainSegments(relative);
    hide Segments, Joined, PlainRelative, AncestorEntries, IsAncestor, AtPrefix;
    AncestorListed(parts, |parts| - 1, o, e);
    if AtPrefix(e, parts, |parts| - 1, o) {
      PrefixIsAncestor(relative, o, e);
    }
    if IsAncestor(e, relative, o) {
      AncestorIsPrefix(relative, o, e);
    }
  }

  lemma PrefixIsAncestor(relative: seq<Byte>, o: Owner, e: Entry)
    requires [] !in Segments(relative) && AtPrefix(e, Segments(relative), |Segments(relative)| - 1, o)
    ensures IsAncestor(e, relative, o)
  {
    hide Segments, Joined, IsAncestor;
    var i :| 1 <= i <= |Segments(relative)| - 1 && e == DirEntry(Joined(Segments(relative)[..i]), o);
    SegmentIsSlash(relative, i, o);
  }

  lemma AncestorIsPrefix(relative: seq<Byte>, o: Owner, e: Entry)
    requires [] !in Segments(relative) && IsAncestor(e, relative, o)
    ensures AtPrefix(e, Segments(relative), |Segments(relative)| - 1, o)
  {
    hide Segments, Joined, IsAncestor;
    var i := AncestorIsSegment(relative, o, e);
  }

  lemma AncestorIsSegment(relative: seq<Byte>, o: Owner, e: Entry) returns (i: nat)
    requires IsAncestor(e, relative, o) && [] !in Segments(relative)
    ensures 1 <= i < |Segments(relative)| && e == DirEntry(Joined(Segments(relative)[..i]), o)
  {
    hide Segments, Joined;
    var k :| 0 <= k < |relative| && relative[k] == 47 && e == Entry(relative[..k + 1], true, [], 493, o.uid, o.gid);
    i := SlashIsSegment(relative, k, o);
  }

  lemma SegmentIsSlash(relative: seq<Byte>, i: nat, o: Owner)
    requires 1 <= i < |Segments(relative)| && [] !in Segments(relative)
    ensures IsAncestor(DirEntry(Joined(Segments(relative)[..i]), o), relative, o)
  {
    var k := SlashOf(relative, i);
    hide Segments, Joined;
    assert [] !in Segments(relative)[..i];
    CutPath(relative, k, Segments(relative)[..i]);
    assert relative[k] == 47;
  }

  lemma SlashIsSegment(relative: seq<Byte>, k: nat, o: Owner) returns (i: nat)
    requires k < |relative| && relative[k] == 47 && [] !in Segments(relative)
    ensures 1 <= i < |Segments(relative)|
    ensures DirEntry(Joined(Segments(relative)[..i]), o) == Entry(relative[..k + 1], true, [], 493, o.uid, o.gid)
  {
    SegmentsCut(relative, k);
    i := |Segments(relative[..k])|;
    hide Segments, Joined;
    assert [] !in Segments(relative)[..i];
    CutPath(relative, k, Segments(relative)[..i]);
  }

  lemma CutPath(relative: seq<Byte>, k: nat, front: seq<seq<Byte>>)
    requires k < |relative| && relative[k] == 47 && front == Segments(relative[..k]) && [] !in front
    ensures Joined(front) == relative[..k] && relative[..k] + [47] == relative[..k + 1]
  {
    JoiningUndoesSplitting(relative[..k]);
  }

  lemma OnePerPathAppend(a: seq<Entry>, b: seq<Entry>)
    requires OnePerPath(a) && OnePerPath(b)
    requires forall i, j :: 0 <= i < |a| && 0 <= j < |b| ==> a[i].path != b[j].path
    ensures OnePerPath(a + b)
  {
  }

  lemma {:induction false} AncestorsOnce(up: seq<seq<Byte>>, o: Owner)
    requires [] !in up
    ensures OnePerPath(AncestorEntries(up, o))
    ensures forall i :: 0 <= i < |AncestorEntries(up, o)| ==> |AncestorEntries(up, o)[i].path| <= |Joined(up)| + 1
    decreases |up|
  {
    if up != [] {
      var front := up[..|up| - 1];
      AncestorsOnce(front, o);
      OnePerPathAppend(AncestorEntries(front, o), [DirEntry(Joined(up), o)]);
    }
  }

  /* ---- The whole copy ---- */

  ghost predicate TreeSource(source: Source) {
    source.HostPath? ==> TreeNode(source.node)
  }

  ghost predicate OfSource(e: Entry, relative: seq<Byte>, source: Source, o: Owner) {
    if source.HostPath? then HoldsBelow(e, relative, source.node, o)
    else e == Entry(relative, false, source.data, o.mode, o.uid, o.gid)
  }

  /** `e` belongs into the archive of a copy of `source` to `relative`. */
  ghost predicate Belongs(e: Entry, relative: seq<Byte>, source: Source, o: Owner) {
    IsAncestor(e, relative, o) || OfSource(e, relative, source, o)
  }

  lemma SourceListed(relative: seq<Byte>, source: Source, o: Owner, e: Entry)
    ensures e in NodeEntries(relative, SourceNode(source), o) <==> OfSource(e, relative, source, o)
  {
    if source.HostPath? {
      ListedIff(relative, source.node, o, e);
    }
  }

  lemma CopyListed(relative: seq<Byte>, source: Source, o: Owner, e: Entry)
    ensures var parts := Segments(relative);
            e in CopyEntries(relative, source, o) <==>
              e in AncestorEntries(parts[..|parts| - 1], o) || e in NodeEntries(relative, SourceNode(source), o)
  {
    hide CopyEntries, AncestorEntries, NodeEntries, Segments, SourceNode, CleanSource, AllClean;
    CopyVisitsAre(relative, source, o);
    assert e in CopyEntries(relative, source, o) <==> e in multiset(CopyEntries(relative, source, o));
  }

  /** The entries are the ancestors and then those of the source. */
  lemma CopyParts(relative: seq<Byte>, source: Source, o: Owner) returns (own: seq<Entry>)
    ensures var parts := Segments(relative);
            CopyEntries(relative, source, o) == AncestorEntries(parts[..|parts| - 1], o) + own
    ensures multiset(own) == multiset(NodeEntries(relative, SourceNode(source), o))
    ensures SourceNode(source).Regular? ==> own == NodeEntries(relative, SourceNode(source), o)
  {
    hide AncestorVisits, AncestorEntries, SourceVisits, EntriesOf, NodeEntries, Segments;
    hide AllClean, CleanSource, WellNamed;
    var parts := Segments(relative);
    own := EntriesOf(SourceVisits(relative, source), o);
    AncestorsAre(parts[..|parts| - 1], o);
    SourceVisitsClean(relative, source, o);
    EntriesOfAppend(AncestorVisits(parts[..|parts| - 1]), SourceVisits(relative, source), o);
    if SourceNode(source).Regular? {
      RegularOwn(relative, source, o);
    }
  }

  lemma RegularOwn(relative: seq<Byte>, source: Source, o: Owner)
    requires SourceNode(source).Regular?
    ensures EntriesOf(SourceVisits(relative, source), o) == NodeEntries(relative, SourceNode(source), o)
  {
    var v := Visit(relative, true, source.HostPath?, SourceNode(source));
    assert SourceVisits(relative, source) == [v];
    EntriesOfOne(v, o);
  }

  lemma AncestorsShorter(relative: seq<Byte>, source: Source, o: Owner, own: seq<Entry>)
    requires PlainRelative(relative) && multiset(own) == multiset(NodeEntries(relative, SourceNode(source), o))
    ensures var parts := Segments(relative); var a := AncestorEntries(parts[..|parts| - 1], o);
            OnePerPath(a) && forall i, j :: 0 <= i < |a| && 0 <= j < |own| ==> a[i].path != own[j].path
  {
    var parts := Segments(relative);
    PlainSegments(relative);
    AncestorsOnce(parts[..|parts| - 1], o);
    var a := AncestorEntries(parts[..|parts| - 1], o);
    ShortPaths(relative, o);
    hide Segments, Joined, PlainRelative, AncestorEntries, NodeEntries, OnePerPath;
    forall i, j | 0 <= i < |a| && 0 <= j < |own| ensures a[i].path != own[j].path {
      assert own[j] in multiset(own);
      EntryIsBelow(relative, SourceNode(source), o, own[j]);
      assert |a[i].path| < |relative| <= |own[j].path|;
    }
  }

  lemma ShortPaths(relative: seq<Byte>, o: Owner)
    requires PlainRelative(relative)
    ensures var parts := Segments(relative); var a := AncestorEntries(parts[..|parts| - 1], o);
            forall i :: 0 <= i < |a| ==> |a[i].path| < |relative|
  {
    var parts := Segments(relative);
    var up := parts[..|parts| - 1];
    PlainSegments(relative);
    AncestorsOnce(up, o);
    hide Segments, PlainRelative, AncestorEntries, Joined;
    NoAncestorsAtTop(up, o);
  }

  lemma NoAncestorsAtTop(up: seq<seq<Byte>>, o: Owner)
    requires [] !in up
    ensures Joined(up) == [] ==> AncestorEntries(up, o) == []
  {
    if up != [] {
      assert up[|up| - 1] != [];
    }
  }

  /** A copy holds exactly what belongs into it, each path once: every ancestor of the target, and
      for every file and directory at or below the source one entry with its own path, data,
      mode and owner. */
  lemma CopyHolds(relative: seq<Byte>, source: Source, o: Owner)
    requires PlainRelative(relative) && TreeSource(source)
    ensures OnePerPath(CopyEntries(relative, source, o))
    ensures forall e :: e in CopyEntries(relative, source, o) <==> Belongs(e, relative, source, o)
  {
    hide PlainRelative, TreeNode, CopyEntries, AncestorEntries, Segments, IsAncestor, HoldsBelow;
    forall e ensures e in CopyEntries(relative, source, o) <==> Belongs(e, relative, source, o) {
      CopyListed(relative, source, o, e);
      AncestorIff(relative, o, e);
      SourceListed(relative, source, o, e);
    }
    var own := CopyParts(relative, source, o);
    AncestorsShorter(relative, source, o, own);
    SourceOnce(relative, source, o);
    OnceMeans(own);
    var parts := Segments(relative);
    OnePerPathAppend(AncestorEntries(parts[..|parts| - 1], o), own);
  }

  lemma SourceOnce(relative: seq<Byte>, source: Source, o: Owner)
    requires TreeSource(source)
    ensures Once(multiset(NodeEntries(relative, SourceNode(source), o)))
  {
    NodeOnce(relative, SourceNode(source), o);
  }

  /** A single file is the last entry: at the target's path, with its bytes, mode and owner. */
  lemma FileCopied(relative: seq<Byte>, source: Source, data: seq<Byte>, o: Owner)
    requires source == InMemory(data) || source == HostPath(Regular(data))
    ensures var es := CopyEntries(relative, source, o);
            es != [] && es[|es| - 1] == Entry(relative, false, data, o.mode, o.uid, o.gid)
  {
    var own := CopyParts(relative, source, o);
    assert own == [Entry(relative, false, data, o.mode, o.uid, o.gid)];
  }

  /** An accepted target is a slash and the relative path of the copy. */
  lemma RelativeIs(target: seq<Byte>)
    requires TargetRefusal(target) == Copied
    ensures target == [47] + TrimSlashes(target) && PlainRelative(TrimSlashes(target))
  {
    TargetAcceptedIff(target);
  }

  /* ---- Refusals about the source ---- */

  /** Every visit below `dir` is that of a child of a directory that is reached. */
  lemma {:induction false} VisitIsReached(dir: seq<Byte>, children: seq<Child>, v: Visit)
    returns (names: seq<seq<Byte>>, parent: Node, i: nat)
    requires v in Visits(dir, children)
    ensures Reaches(Directory(children), names, parent) && parent.Directory? && i < |parent.children|
    ensures v == VisitOf(PathOf(dir, names), parent.children[i])
    decreases children, 1
  {
    if v in Listed(dir, children) {
      i := ListedVisit(dir, children, v);
      names, parent := [], Directory(children);
    } else {
      var k, more;
      k, more, parent, i := DeeperVisit(dir, children, v);
      names := [children[k].name] + more;
      assert names[0] == children[k].name && names[1..] == more;
    }
  }

  lemma {:induction false} ListedVisit(dir: seq<Byte>, children: seq<Child>, v: Visit) returns (i: nat)
    requires v in Listed(dir, children)
    ensures i < |children| && v == VisitOf(dir, children[i])
    decreases |children|
  {
    var n := |children| - 1;
    if v in Listed(dir, children[..n]) {
      i := ListedVisit(dir, children[..n], v);
    } else {
      i := n;
    }
  }

  lemma {:induction false} DeeperVisit(dir: seq<Byte>, children: seq<Child>, v: Visit)
    returns (k: nat, names: seq<seq<Byte>>, parent: Node, i: nat)
    requires v in Deeper(dir, children)
    ensures k < |children| && Reaches(children[k].node, names, parent) && parent.Directory? && i < |parent.children|
    ensures v == VisitOf(PathOf(dir + [47] + children[k].name, names), parent.children[i])
    decreases children, 0
  {
    var n := |children| - 1;
    if v in Deeper(dir, children[..n]) {
      k, names, parent, i := DeeperVisit(dir, children[..n], v);
    } else {
      k := n;
      names, parent, i := VisitIsReached(Under(dir, children[n].name), children[n].node.children, v);
      assert children[n].node == Directory(children[n].node.children);
    }
  }

  /** Somewhere at or below `node` is a node that is refused with `r`, or, for an unreadable name, a
      directory with such a name in it. */
  ghost predicate Contains(node: Node, r: CopyResult) {
    || (r == SymlinkFound && exists names :: Reaches(node, names, Symlink))
    || (r == NotRegular && exists names :: Reaches(node, names, Special))
    || (r == FileTooBig && exists names, data: seq<Byte> :: Reaches(node, names, Regular(data)) && |data| > 67108864)
    || (r == NameNotUtf8 && exists names, children: seq<Child>, i ::
          Reaches(node, names, Directory(children)) && 0 <= i < |children| && !children[i].utf8)
  }

  lemma {:induction false} ReachesChild(node: Node, names: seq<seq<Byte>>, parent: Node, i: nat)
    requires Reaches(node, names, parent) && parent.Directory? && i < |parent.children|
    ensures Reaches(node, names + [parent.children[i].name], parent.children[i].node)
    decreases |names|
  {
    var more := names + [parent.children[i].name];
    assert more[0] == if names == [] then parent.children[i].name else names[0];
    if names == [] {
      assert more[1..] == [];
    } else {
      assert more[1..] == names[1..] + [parent.children[i].name];
      var k :| 0 <= k < |node.children| && node.children[k].name == names[0]
               && Reaches(node.children[k].node, names[1..], parent);
      ReachesChild(node.children[k].node, names[1..], parent, i);
    }
  }

  lemma RefusedVisitFound(dir: seq<Byte>, children: seq<Child>, v: Visit)
    requires v in Visits(dir, children) && TreeRefusal(v) != Copied
    ensures Contains(Directory(children), TreeRefusal(v))
  {
    var names, parent, i := VisitIsReached(dir, children, v);
    ReachesChild(Directory(children), names, parent, i);
    assert parent == Directory(parent.children);
    if v.node.Regular? {
      assert v.node == Regular(v.node.data);
    }
    hide Visits, Reaches;
  }

  lemma RefusedRootFound(node: Node, v: Visit)
    requires v.utf8 && v.node == node && TreeRefusal(v) != Copied
    ensures Contains(node, TreeRefusal(v))
  {
    assert Reaches(node, [], node);
    if node.Regular? {
      assert node == Regular(node.data);
    }
  }

  /** A refusal about the source names what is there. */
  lemma RefusedSource(target: seq<Byte>, source: Source, o: Owner)
    requires TargetRefusal(target) == Copied && AboutTree(CopyOutcome(target, source, o))
    ensures source.HostPath? && Contains(source.node, CopyOutcome(target, source, o))
  {
    var r := CopyOutcome(target, source, o);
    if source.HostPath? && (source.node.Symlink? || source.node.Special?) {
      assert Reaches(source.node, [], source.node);
    } else {
      var relative := TrimSlashes(target);
      var vs := CopyVisits(relative, source);
      RefusalHasCause([], vs, o);
      var i :| 0 <= i < |vs| && TreeRefusal(vs[i]) == r;
      RefusedVisit(relative, source, vs[i], o);
    }
  }

  lemma RefusedVisit(relative: seq<Byte>, source: Source, v: Visit, o: Owner)
    requires v in CopyVisits(relative, source) && TreeRefusal(v) != Copied
    ensures source.HostPath? && Contains(source.node, TreeRefusal(v))
  {
    var parts, node := Segments(relative), SourceNode(source);
    AncestorsAre(parts[..|parts| - 1], o);
    hide AncestorVisits, Segments, Contains, Visits;
    assert v !in AncestorVisits(parts[..|parts| - 1]);
    if v == Visit(relative, true, source.HostPath?, node) {
      RefusedRootFound(node, v);
    } else {
      RefusedVisitFound(relative, node.children, v);
    }
  }

  /* ---- Clean sources and parents, spelled out ---- */

  /** A tree is clean exactly when nothing in it is refused. */
  lemma CleanIff(node: Node)
    ensures CleanNode(node) <==> !exists r :: Contains(node, r)
  {
    if CleanNode(node) {
      forall r ensures !Contains(node, r) {
        CleanContainsNothing(node, r);
      }
    } else {
      var r := UncleanContains(node);
    }
  }

  lemma {:induction false} ReachedIsClean(node: Node, names: seq<seq<Byte>>, target: Node)
    requires CleanNode(node) && Reaches(node, names, target)
    ensures CleanNode(target)
    decreases |names|
  {
    if names != [] {
      var i :| 0 <= i < |node.children| && node.children[i].name == names[0]
               && Reaches(node.children[i].node, names[1..], target);
      ReachedIsClean(node.children[i].node, names[1..], target);
    }
  }

  lemma CleanContainsNothing(node: Node, r: CopyResult)
    requires CleanNode(node)
    ensures !Contains(node, r)
  {
    hide CleanNode, Reaches;
    forall names, target | Reaches(node, names, target)
      ensures target != Symlink && target != Special
      ensures target.Regular? ==> |target.data| <= 67108864
      ensures target.Directory? ==> forall i :: 0 <= i < |target.children| ==> target.children[i].utf8
    {
      ReachedIsClean(node, names, target);
      CleanMeans(target);
    }
  }

  lemma CleanMeans(node: Node)
    ensures CleanNode(node) ==> node != Symlink && node != Special
    ensures CleanNode(node) && node.Regular? ==> |node.data| <= 67108864
    ensures CleanNode(node) && node.Directory? ==> forall i :: 0 <= i < |node.children| ==> node.children[i].utf8
  {
    if node.Directory? {
      assert CleanNode(node) <==> CleanChildren(node.children);
    }
  }

  lemma UncleanContains(node: Node) returns (r: CopyResult)
    requires !CleanNode(node)
    ensures Contains(node, r)
  {
    if node.Directory? {
      var o := Owner(0, 0, 0);
      VisitsCoverTree([], node.children, o);
      var vs := Visits([], node.children);
      hide CleanNode, Contains, Visits;
      var i :| 0 <= i < |vs| && TreeRefusal(vs[i]) != Copied;
      RefusedVisitFound([], node.children, vs[i]);
      r := TreeRefusal(vs[i]);
      assert node == Directory(node.children);
    } else {
      assert Reaches(node, [], node);
      r := if node.Symlink? then SymlinkFound else if node.Special? then NotRegular else FileTooBig;
    }
  }

  /** The path up to and including the last slash that is not at its end. */
  predicate ParentPath(path: seq<Byte>, parent: seq<Byte>) {
    && parent <= path && 0 < |parent| < |path| && parent[|parent| - 1] == 47
    && forall i :: |parent| <= i < |path| - 1 ==> path[i] != 47
  }

  lemma ParentIs(e: Entry, parent: seq<Byte>)
    requires ParentPath(e.path, parent) && (e.isDir <==> e.path[|e.path| - 1] == 47)
    ensures SLASH in Stem(e) && ParentOf(Stem(e)) + [47] == parent
  {
    var stem, n := Stem(e), |parent| - 1;
    assert stem[n] == parent[n] == 47;
    LastSlashIs(stem, n);
    assert stem[..n] + [47] == parent;
  }

  lemma {:induction false} LastSlashIs(stem: seq<Byte>, n: nat)
    requires n < |stem| && stem[n] == 47 && forall i :: n < i < |stem| ==> stem[i] != 47
    ensures ParentOf(stem) == stem[..n]
    decreases |stem|
  {
    if n < |stem| - 1 {
      LastSlashIs(stem[..|stem| - 1], n);
      assert stem[..|stem| - 1][..n] == stem[..n];
    }
  }

  /** In the archive of a copy, whatever lies in a directory comes after the entry of that
      directory. */
  lemma ParentsComeFirst(relative: seq<Byte>, source: Source, o: Owner, k: nat, parent: seq<Byte>)
    requires PlainRelative(relative) && SourceNamed(source) && k < |CopyEntries(relative, source, o)|
    requires ParentPath(CopyEntries(relative, source, o)[k].path, parent)
    ensures exists j :: 0 <= j < k && CopyEntries(relative, source, o)[j].isDir
                        && CopyEntries(relative, source, o)[j].path == parent
  {
    var es := CopyEntries(relative, source, o);
    CopyParentsFirst(relative, source, o);
    CopyWellNamed(relative, source, o);
    EntriesShaped(CopyVisits(relative, source), o, es[k]);
    hide CopyEntries, CopyVisits, PlainRelative, SourceNamed, WellNamed;
    FirstMeans(es, k, parent);
  }

  lemma FirstMeans(es: seq<Entry>, k: nat, parent: seq<Byte>)
    requires ParentsFirst(es) && k < |es| && ParentPath(es[k].path, parent)
    requires es[k].isDir <==> EndsWithSlash(es[k].path)
    ensures exists j :: 0 <= j < k && es[j].isDir && es[j].path == parent
  {
    ParentIs(es[k], parent);
    assert SLASH !in Stem(es[k]) || HasDir(es[..k], ParentOf(Stem(es[k])));
    hide ParentPath, Stem, ParentOf;
    var j :| 0 <= j < |es[..k]| && es[..k][j].isDir && es[..k][j].path == ParentOf(Stem(es[k])) + [SLASH];
    assert es[..k][j] == es[j];
  }

  lemma {:induction false} EntriesShaped(vs: seq<Visit>, o: Owner, e: Entry)
    requires WellNamed(vs) && e in EntriesOf(vs, o)
    ensures e.isDir <==> EndsWithSlash(e.path)
    decreases |vs|
  {
    if e in EntriesOf(vs[1..], o) {
      EntriesShaped(vs[1..], o, e);
    } else {
      assert e in OwnEntries(vs[0], o);
    }
  }
}
