/** Adding host files to an archive: what is refused, and the stack-driven walk of a host
    directory with the exact order of the entries it adds. */
module HostCopy {
  import opened Bytes
  import opened UstarArchive
  import opened UstarField

  const DIR_MODE: nat := 493  // 0o755

  /** A host file as the walk finds it; the children of a directory are sorted by name. */
  datatype Node = Regular(data: seq<Byte>) | Directory(children: seq<Child>) | Symlink | Special

  /** A directory entry; `utf8` says whether the name is valid UTF-8. */
  datatype Child = Child(name: seq<Byte>, utf8: bool, node: Node)

  datatype Owner = Owner(mode: nat, uid: nat, gid: nat)

  function Under(dir: seq<Byte>, name: seq<Byte>): seq<Byte> {
    dir + [SLASH] + name
  }

  function DirEntry(path: seq<Byte>, o: Owner): Entry {
    Entry(path + [SLASH], true, [], DIR_MODE, o.uid, o.gid)
  }

  function FileEntry(path: seq<Byte>, data: seq<Byte>, o: Owner): Entry {
    Entry(path, false, data, o.mode, o.uid, o.gid)
  }

  /** The reference: one entry for the node itself and one for everything below it. */
  function NodeEntries(path: seq<Byte>, node: Node, o: Owner): seq<Entry>
    decreases node
  {
    match node
    case Regular(data) => [FileEntry(path, data, o)]
    case Directory(children) => [DirEntry(path, o)] + ChildEntries(path, children, o)
    case Symlink => []
    case Special => []
  }

  function ChildEntries(dir: seq<Byte>, children: seq<Child>, o: Owner): seq<Entry>
    decreases children
  {
    if children == [] then []
    else
      ChildEntries(dir, children[..|children| - 1], o)
      + NodeEntries(Under(dir, children[|children| - 1].name), children[|children| - 1].node, o)
  }

  /** No symbolic links, no special files, no unreadable names and no oversized files below. */
  predicate CleanNode(node: Node) {
    match node
    case Regular(data) => |data| <= LIMIT
    case Directory(children) => CleanChildren(children)
    case Symlink => false
    case Special => false
  }

  predicate CleanChildren(children: seq<Child>) {
    forall i :: 0 <= i < |children| ==> children[i].utf8 && CleanNode(children[i].node)
  }

  /** What every file system guarantees about names. */
  ghost predicate Named(children: seq<Child>) {
    forall i :: 0 <= i < |children| ==>
      && children[i].name != [] && SLASH !in children[i].name
      && (children[i].node.Directory? ==> Named(children[i].node.children))
  }

  /* ---- Parents come first ---- */

  /** The path without a directory's trailing slash. */
  function Stem(e: Entry): seq<Byte> {
    if e.isDir && e.path != [] then e.path[..|e.path| - 1] else e.path
  }

  /** Everything before the last slash; nothing when there is no slash. */
  function ParentOf(stem: seq<Byte>): seq<Byte> {
    if stem == [] then []
    else if stem[|stem| - 1] == SLASH then stem[..|stem| - 1]
    else ParentOf(stem[..|stem| - 1])
  }

  lemma {:induction false} ParentOfUnder(dir: seq<Byte>, name: seq<Byte>)
    requires SLASH !in name
    ensures ParentOf(Under(dir, name)) == dir && SLASH in Under(dir, name)
    decreases |name|
  {
    var stem := Under(dir, name);
    assert stem[|dir|] == SLASH;
    if name == [] {
      assert stem[..|stem| - 1] == dir;
    } else {
      ParentOfUnder(dir, name[..|name| - 1]);
      assert stem[..|stem| - 1] == Under(dir, name[..|name| - 1]);
    }
  }

  ghost predicate HasDir(es: seq<Entry>, dir: seq<Byte>) {
    exists j :: 0 <= j < |es| && es[j].isDir && es[j].path == dir + [SLASH]
  }

  /** Every entry is at the top level or comes after the entry of its parent directory. */
  ghost predicate ParentsFirst(es: seq<Entry>) {
    forall k :: 0 <= k < |es| ==> SLASH !in Stem(es[k]) || HasDir(es[..k], ParentOf(Stem(es[k])))
  }

  lemma HasDirLonger(es: seq<Entry>, more: seq<Entry>, dir: seq<Byte>)
    requires HasDir(es, dir)
    ensures HasDir(es + more, dir)
  {
    var j :| 0 <= j < |es| && es[j].isDir && es[j].path == dir + [SLASH];
    assert (es + more)[j] == es[j];
  }

  lemma ParentsFirstSnoc(es: seq<Entry>, e: Entry)
    requires ParentsFirst(es)
    requires SLASH !in Stem(e) || HasDir(es, ParentOf(Stem(e)))
    ensures ParentsFirst(es + [e])
  {
    forall k | 0 <= k < |es + [e]|
      ensures SLASH !in Stem((es + [e])[k]) || HasDir((es + [e])[..k], ParentOf(Stem((es + [e])[k])))
    {
      assert (es + [e])[..k] == es[..k];
      assert k == |es| ==> es[..k] == es;
    }
  }

  lemma ChildHasParent(es: seq<Entry>, dir: seq<Byte>, name: seq<Byte>, e: Entry)
    requires HasDir(es, dir) && SLASH !in name && Stem(e) == Under(dir, name)
    ensures SLASH !in Stem(e) || HasDir(es, ParentOf(Stem(e)))
  {
    ParentOfUnder(dir, name);
  }

  /* ---- When an archive refuses ---- */

  /** What an entry takes up in an archive. */
  function EntrySize(e: Entry): nat {
    BLOCK_SIZE + |e.data| + Pad(|e.data|)
  }

  function TotalSize(es: seq<Entry>): nat {
    if es == [] then 0 else TotalSize(es[..|es| - 1]) + EntrySize(es[|es| - 1])
  }

  lemma TotalSizeSnoc(es: seq<Entry>, e: Entry)
    ensures TotalSize(es + [e]) == TotalSize(es) + EntrySize(e)
  {
    assert (es + [e])[..|es|] == es;
  }

  lemma {:induction false} EncodedSize(es: seq<Entry>)
    requires AllStorable(es)
    ensures |EncodeAll(es)| == TotalSize(es)
    decreases |es|
  {
    if es != [] {
      var front, last := es[..|es| - 1], es[|es| - 1];
      assert es == front + [last];
      StorableParts(front, last);
      EncodedSize(front);
      hide EncodeAll, Encode, TotalSize, AllStorable;
      EncodeAllSnoc(front, last);
      TotalSizeSnoc(front, last);
      assert |Encode(last)| == EntrySize(last);
    }
  }

  lemma StorableParts(front: seq<Entry>, last: Entry)
    requires AllStorable(front + [last])
    ensures AllStorable(front) && last.Storable()
  {
    assert (front + [last])[|front|] == last;
    assert forall k :: 0 <= k < |front| ==> (front + [last])[k] == front[k];
  }

  lemma {:induction false} TotalSizeGrows(es: seq<Entry>, more: seq<Entry>)
    ensures TotalSize(es) <= TotalSize(es + more)
    decreases |more|
  {
    if more == [] {
      assert es + more == es;
    } else {
      var front, last := more[..|more| - 1], more[|more| - 1];
      TotalSizeGrows(es, front);
      assert es + more == (es + front) + [last];
      TotalSizeSnoc(es + front, last);
    }
  }

  /** What refuses the entry itself, whatever is in the archive. */
  function EntryRefusal(e: Entry): BuildResult {
    if e.isDir && !EndsWithSlash(e.path) then MissingSlash
    else if !e.isDir && EndsWithSlash(e.path) then UnexpectedSlash
    else HeaderRefusal(e.Meta())
  }

  predicate Overfull(es: seq<Entry>) {
    TotalSize(es) > LIMIT
  }

  /** What adding `e` after the entries `es` results in. The size is looked at last for a
      directory and before the header for a file. */
  function AddResult(es: seq<Entry>, e: Entry): BuildResult {
    if e.isDir then
      if EntryRefusal(e).Built? && Overfull(es + [e]) then TooBig else EntryRefusal(e)
    else
      if EndsWithSlash(e.path) then UnexpectedSlash else if Overfull(es + [e]) then TooBig else EntryRefusal(e)
  }

  lemma HeaderIsNeverTooBig(e: Entry)
    ensures EntryRefusal(e) != TooBig
  {
  }

  lemma AddResultMeans(es: seq<Entry>, e: Entry)
    ensures AddResult(es, e).Built? <==> EntryRefusal(e).Built? && !Overfull(es + [e])
    ensures AddResult(es, e).TooBig? ==> Overfull(es + [e])
    ensures !AddResult(es, e).Built? && !AddResult(es, e).TooBig? ==> AddResult(es, e) == EntryRefusal(e)
  {
    HeaderIsNeverTooBig(e);
    hide HeaderRefusal, TotalSize;
  }

  /** The order of the two looks: a directory's header is refused before its size, a file's size
      before its header. */
  lemma AddResultOrder(es: seq<Entry>, e: Entry)
    requires e.isDir <==> EndsWithSlash(e.path)
    ensures e.isDir && !HeaderRefusal(e.Meta()).Built? ==> AddResult(es, e) == HeaderRefusal(e.Meta())
    ensures !e.isDir && TotalSize(es + [e]) > 67108864 ==> AddResult(es, e) == TooBig
    ensures HeaderRefusal(e.Meta()).Built? ==>
              AddResult(es, e) == if TotalSize(es + [e]) > 67108864 then TooBig else Built
  {
    hide TotalSize, HeaderRefusal;
  }

  /** Sizes: each entry takes a header block and its data, filled up to whole blocks of 512. */
  lemma EntrySizeIs(e: Entry)
    ensures EntrySize(e) == 512 + (|e.data| + 511) / 512 * 512
  {
  }

  method AddDirectoryEntry(builder: UstarBuilder, path: seq<Byte>, o: Owner) returns (built: BuildResult)
    requires builder.Valid()
    modifies builder
    ensures builder.Valid() && built == AddResult(old(builder.entries), DirEntry(path, o))
    ensures built == Built ==> builder.entries == old(builder.entries) + [DirEntry(path, o)]
  {
    hide EncodeAll, HeaderRefusal;
    HeaderIsNeverTooBig(DirEntry(path, o));
    built := builder.AppendDirectory(path + [SLASH], DIR_MODE, o.uid, o.gid);
    EncodedSize(builder.entries);
  }

  method AddFileEntry(builder: UstarBuilder, path: seq<Byte>, data: seq<Byte>, o: Owner) returns (built: BuildResult)
    requires builder.Valid()
    modifies builder
    ensures builder.Valid() && built == AddResult(old(builder.entries), FileEntry(path, data, o))
    ensures built == Built ==> builder.entries == old(builder.entries) + [FileEntry(path, data, o)]
  {
    hide EncodeAll, HeaderRefusal;
    EncodedSize(builder.entries);
    TotalSizeSnoc(builder.entries, FileEntry(path, data, o));
    HeaderIsNeverTooBig(FileEntry(path, data, o));
    built := builder.AppendFile(path, data, o.mode, o.uid, o.gid);
  }

  datatype CopyResult =
    | Copied
    | NotAbsolute | TrailingSlash | TrailingDot | DoubleSlash | NoFileName | ParentComponent
    | NameNotUtf8 | SymlinkFound | NotRegular | FileTooBig
    | TarRefused(why: BuildResult)

  /** Refusals that are about the host tree and not about the archive. */
  predicate AboutTree(r: CopyResult) {
    r.NameNotUtf8? || r.SymlinkFound? || r.NotRegular? || r.FileTooBig?
  }

  /* ---- Visits: one per node, in the order they are made ---- */

  /** One node and the path it gets; `onHost` is false for data that is in memory already, which
      has no size limit of its own. */
  datatype Visit = Visit(path: seq<Byte>, utf8: bool, onHost: bool, node: Node)

  function TreeRefusal(v: Visit): CopyResult {
    if !v.utf8 then NameNotUtf8
    else
      match v.node
      case Symlink => SymlinkFound
      case Directory(_) => Copied
      case Special => NotRegular
      case Regular(data) => if v.onHost && |data| > LIMIT then FileTooBig else Copied
  }

  /** Each refusal of a node has its own reason. */
  lemma TreeRefusals(v: Visit)
    ensures TreeRefusal(v) == NameNotUtf8 <==> !v.utf8
    ensures TreeRefusal(v) == SymlinkFound <==> v.utf8 && v.node == Symlink
    ensures TreeRefusal(v) == NotRegular <==> v.utf8 && v.node == Special
    ensures TreeRefusal(v) == FileTooBig <==> v.utf8 && v.node.Regular? && v.onHost && |v.node.data| > 67108864
    ensures TreeRefusal(v) == Copied || AboutTree(TreeRefusal(v))
  {
  }

  function EntryFor(v: Visit, o: Owner): Entry {
    if v.node.Regular? then FileEntry(v.path, v.node.data, o) else DirEntry(v.path, o)
  }

  function OwnEntries(v: Visit, o: Owner): seq<Entry> {
    if v.node.Regular? || v.node.Directory? then [EntryFor(v, o)] else []
  }

  function EntriesOf(vs: seq<Visit>, o: Owner): seq<Entry> {
    if vs == [] then [] else OwnEntries(vs[0], o) + EntriesOf(vs[1..], o)
  }

  /** What one visit results in after the entries `es`. */
  function VisitResult(es: seq<Entry>, v: Visit, o: Owner): CopyResult {
    if TreeRefusal(v) != Copied then TreeRefusal(v)
    else
      match AddResult(es, EntryFor(v, o))
      case Built => Copied
      case why => TarRefused(why)
  }

  datatype Outcome = Outcome(result: CopyResult, entries: seq<Entry>)

  /** The visits one after the other, up to the first that is refused. */
  function Visited(es: seq<Entry>, vs: seq<Visit>, o: Owner): Outcome
    decreases |vs|
  {
    if vs == [] then Outcome(Copied, es)
    else if VisitResult(es, vs[0], o) != Copied then Outcome(VisitResult(es, vs[0], o), es)
    else Visited(es + [EntryFor(vs[0], o)], vs[1..], o)
  }

  lemma {:induction false} VisitedAppend(es: seq<Entry>, a: seq<Visit>, b: seq<Visit>, o: Owner)
    ensures Visited(es, a + b, o)
         == if Visited(es, a, o).result == Copied then Visited(Visited(es, a, o).entries, b, o) else Visited(es, a, o)
    decreases |a|
  {
    hide VisitResult;
    if a == [] {
      assert a + b == b;
    } else {
      assert (a + b)[0] == a[0] && (a + b)[1..] == a[1..] + b;
      VisitedAppend(es + [EntryFor(a[0], o)], a[1..], b, o);
    }
  }

  ghost predicate AllClean(vs: seq<Visit>) {
    forall i :: 0 <= i < |vs| ==> TreeRefusal(vs[i]) == Copied
  }

  ghost predicate AllWritable(es: seq<Entry>) {
    forall i :: 0 <= i < |es| ==> EntryRefusal(es[i]).Built?
  }

  /** The visits succeed exactly when every node is clean, every entry can be written, and the
      archive with all entries is not too big. Then it has gained exactly their entries. */
  lemma {:induction false} VisitedIff(es: seq<Entry>, vs: seq<Visit>, o: Owner)
    ensures Visited(es, vs, o).result == Copied <==>
              && AllClean(vs) && AllWritable(EntriesOf(vs, o))
              && (vs == [] || !Overfull(es + EntriesOf(vs, o)))
    ensures Visited(es, vs, o).result == Copied ==> Visited(es, vs, o).entries == es + EntriesOf(vs, o)
    decreases |vs|
  {
    if vs == [] {
      assert es + [] == es;
    } else {
      var v, rest := vs[0], vs[1..];
      FirstVisit(vs, o);
      hide EntriesOf, AllClean, AllWritable, Overfull, EntryRefusal, TreeRefusal;
      if TreeRefusal(v) == Copied {
        var e, below := EntryFor(v, o), EntriesOf(rest, o);
        AddResultMeans(es, e);
        hide AddResult;
        Assoc(es, [e], below);
        OverfullStays(es + [e], below);
        VisitedIff(es + [e], rest, o);
        NothingToVisit(es + [e], rest, o);
      }
    }
  }

  lemma NothingToVisit(es: seq<Entry>, vs: seq<Visit>, o: Owner)
    ensures vs == [] ==> es + EntriesOf(vs, o) == es
  {
  }

  lemma OverfullStays(es: seq<Entry>, more: seq<Entry>)
    ensures Overfull(es) ==> Overfull(es + more)
  {
    TotalSizeGrows(es, more);
  }

  lemma FirstVisit(vs: seq<Visit>, o: Owner)
    requires vs != []
    ensures AllClean(vs) <==> TreeRefusal(vs[0]) == Copied && AllClean(vs[1..])
    ensures TreeRefusal(vs[0]) == Copied ==>
              && EntriesOf(vs, o) == [EntryFor(vs[0], o)] + EntriesOf(vs[1..], o)
              && (AllWritable(EntriesOf(vs, o)) <==>
                    EntryRefusal(EntryFor(vs[0], o)).Built? && AllWritable(EntriesOf(vs[1..], o)))
  {
    hide EntryRefusal;
    assert AllClean(vs) <==> TreeRefusal(vs[0]) == Copied && AllClean(vs[1..]) by {
      hide TreeRefusal;
      assert forall i :: 0 <= i < |vs[1..]| ==> vs[1..][i] == vs[i + 1];
      assert forall i :: 0 < i < |vs| ==> vs[i] == vs[1..][i - 1];
    }
    if TreeRefusal(vs[0]) == Copied {
      WritableCons(EntryFor(vs[0], o), EntriesOf(vs[1..], o));
    }
  }

  lemma WritableCons(e: Entry, es: seq<Entry>)
    ensures AllWritable([e] + es) <==> EntryRefusal(e).Built? && AllWritable(es)
  {
    hide EntryRefusal;
    assert ([e] + es)[0] == e;
    assert forall i :: 0 <= i < |es| ==> ([e] + es)[i + 1] == es[i];
  }

  /** Every refusal has its cause among the nodes: a node refused for just that, an entry that
      cannot be written for just that, or entries that are too big. */
  lemma {:induction false} RefusalHasCause(es: seq<Entry>, vs: seq<Visit>, o: Owner)
    ensures var r := Visited(es, vs, o).result;
            && (r == Copied || AboutTree(r) || r.TarRefused?)
            && (AboutTree(r) ==> exists i :: 0 <= i < |vs| && TreeRefusal(vs[i]) == r)
            && (r.TarRefused? && r.why.TooBig? ==> Overfull(es + EntriesOf(vs, o)))
            && (r.TarRefused? && !r.why.TooBig? ==>
                  !r.why.Built? && exists e :: e in EntriesOf(vs, o) && EntryRefusal(e) == r.why)
    decreases |vs|
  {
    if vs != [] {
      var v, rest := vs[0], vs[1..];
      assert forall i :: 0 <= i < |rest| ==> rest[i] == vs[i + 1];
      FirstVisit(vs, o);
      hide EntriesOf, AllClean, AllWritable, Overfull, EntryRefusal;
      if TreeRefusal(v) == Copied {
        hide TreeRefusal;
        var e, below := EntryFor(v, o), EntriesOf(rest, o);
        AddResultMeans(es, e);
        hide AddResult;
        Assoc(es, [e], below);
        OverfullStays(es + [e], below);
        RefusalHasCause(es + [e], rest, o);
      }
    }
  }

  /* ---- The order of the walk ---- */

  function VisitOf(dir: seq<Byte>, child: Child): Visit {
    Visit(Under(dir, child.name), child.utf8, true, child.node)
  }

  /** The children of one directory, last to first. */
  function Listed(dir: seq<Byte>, children: seq<Child>): (vs: seq<Visit>)
    ensures |vs| == |children|
  {
    if children == [] then []
    else [VisitOf(dir, children[|children| - 1])] + Listed(dir, children[..|children| - 1])
  }

  /** What is below the directories among the children, first to last. */
  function Deeper(dir: seq<Byte>, children: seq<Child>): seq<Visit>
    decreases children, 0
  {
    if children == [] then []
    else
      Deeper(dir, children[..|children| - 1])
      + var last := children[|children| - 1];
        if last.node.Directory? then Visits(Under(dir, last.name), last.node.children) else []
  }

  /** Everything below `dir`: all its children come before anything deeper. */
  function Visits(dir: seq<Byte>, children: seq<Child>): seq<Visit>
    decreases children, 1
  {
    Listed(dir, children) + Deeper(dir, children)
  }

  /** The order in full: visit number `k` of a listing is the child number `k` from the end, at the
      directory's path, a slash and its name. */
  lemma {:induction false} ListedIs(dir: seq<Byte>, children: seq<Child>, k: nat)
    requires k < |children|
    ensures var c := children[|children| - 1 - k];
            Listed(dir, children)[k] == Visit(dir + [47] + c.name, c.utf8, true, c.node)
    decreases |children|
  {
    if k > 0 {
      ListedIs(dir, children[..|children| - 1], k - 1);
    }
  }

  /** What is below an earlier child comes before what is below a later one. */
  lemma {:induction false} DeeperAppend(dir: seq<Byte>, a: seq<Child>, b: seq<Child>)
    ensures Deeper(dir, a + b) == Deeper(dir, a) + Deeper(dir, b)
    decreases |b|
  {
    if b == [] {
      assert a + b == a;
    } else {
      var front, last := b[..|b| - 1], b[|b| - 1];
      DeeperAppend(dir, a, front);
      assert (a + b)[..|a + b| - 1] == a + front && (a + b)[|a + b| - 1] == last;
      hide Visits;
      var below := if last.node.Directory? then Visits(Under(dir, last.name), last.node.children) else [];
      Assoc(Deeper(dir, a), Deeper(dir, front), below);
    }
  }

  lemma VisitsAre(dir: seq<Byte>, child: Child)
    ensures Visits(dir, []) == []
    ensures Deeper(dir, [child])
         == if child.node.Directory? then Visits(dir + [47] + child.name, child.node.children) else []
  {
    hide Visits;
    NoVisits(dir);
    assert [child][..0] == [];
  }

  /** A directory still to be listed. */
  datatype Todo = Todo(path: seq<Byte>, children: seq<Child>)

  ghost function StackVisits(stack: seq<Todo>): seq<Visit> {
    if stack == [] then []
    else
      var top := stack[|stack| - 1];
      Visits(top.path, top.children) + StackVisits(stack[..|stack| - 1])
  }

  /** The visits still to be made with `left` the children of `dir` not looked at yet. */
  ghost function Remaining(stack: seq<Todo>, dir: seq<Byte>, left: seq<Child>): seq<Visit> {
    Visits(dir, left) + StackVisits(stack)
  }

  function Stacked(stack: seq<Todo>, dir: seq<Byte>, child: Child): seq<Todo> {
    if child.node.Directory? then stack + [Todo(Under(dir, child.name), child.node.children)] else stack
  }

  /** Looking at one child makes its visit and leaves the others. */
  lemma RemainingChild(stack: seq<Todo>, dir: seq<Byte>, left: seq<Child>)
    requires left != []
    ensures var front, child := left[..|left| - 1], left[|left| - 1];
            Remaining(stack, dir, left) == [VisitOf(dir, child)] + Remaining(Stacked(stack, dir, child), dir, front)
  {
    var front, child := left[..|left| - 1], left[|left| - 1];
    var below := if child.node.Directory? then Visits(Under(dir, child.name), child.node.children) else [];
    StackedVisits(stack, dir, child);
    assert Listed(dir, left) == [VisitOf(dir, child)] + Listed(dir, front);
    assert Deeper(dir, left) == Deeper(dir, front) + below;
    hide Listed, Deeper, StackVisits;
    Regroup([VisitOf(dir, child)], Listed(dir, front), Deeper(dir, front), below, StackVisits(stack));
  }

  lemma StackedVisits(stack: seq<Todo>, dir: seq<Byte>, child: Child)
    ensures StackVisits(Stacked(stack, dir, child))
         == (if child.node.Directory? then Visits(Under(dir, child.name), child.node.children) else [])
            + StackVisits(stack)
  {
    hide Visits;
    var stack' := Stacked(stack, dir, child);
    assert stack' != stack ==> stack'[..|stack|] == stack;
    assert [] + StackVisits(stack) == StackVisits(stack);
  }

  lemma Regroup<T>(v: seq<T>, l: seq<T>, d: seq<T>, b: seq<T>, s: seq<T>)
    ensures ((v + l) + (d + b)) + s == v + ((l + d) + (b + s))
  {
  }

  lemma RemainingPop(stack: seq<Todo>, dir: seq<Byte>)
    requires stack != []
    ensures var top, rest := stack[|stack| - 1], stack[..|stack| - 1];
            Remaining(stack, dir, []) == Remaining(rest, top.path, top.children)
  {
    assert [] + StackVisits(stack) == StackVisits(stack);
  }

  /** One child: its entry goes into the archive and, for a directory, the directory onto the
      stack. */
  method AddChild(builder: UstarBuilder, stack: seq<Todo>, dir: seq<Byte>, child: Child, o: Owner)
    returns (r: CopyResult, stack': seq<Todo>)
    requires builder.Valid()
    modifies builder
    ensures builder.Valid() && r == VisitResult(old(builder.entries), VisitOf(dir, child), o)
    ensures r == Copied ==>
              && builder.entries == old(builder.entries) + [EntryFor(VisitOf(dir, child), o)]
              && stack' == Stacked(stack, dir, child)
  {
    hide EncodeAll, AddResult;
    stack' := stack;
    var path := Under(dir, child.name);
    if !child.utf8 {
      return NameNotUtf8, stack;
    }
    if child.node.Symlink? {
      return SymlinkFound, stack;
    }
    if child.node.Directory? {
      var built := AddDirectoryEntry(builder, path, o);
      if built != Built {
        return TarRefused(built), stack;
      }
      return Copied, stack + [Todo(path, child.node.children)];
    }
    if !child.node.Regular? {
      return NotRegular, stack;
    }
    if |child.node.data| > LIMIT {
      return FileTooBig, stack;
    }
    var built := AddFileEntry(builder, path, child.node.data, o);
    if built != Built {
      return TarRefused(built), stack;
    }
    r := Copied;
  }

  /** The depth-first walk below `root`. It terminates, and its result and the entries it adds
      are those of the visits in walk order, up to the first that is refused. */
  method AppendHostDirectory(builder: UstarBuilder, root: seq<Byte>, tree: seq<Child>, o: Owner) returns (r: CopyResult)
    requires builder.Valid()
    modifies builder
    ensures var out := Visited(old(builder.entries), Visits(root, tree), o);
            builder.Valid() && r == out.result && (r == Copied ==> builder.entries == out.entries)
  {
    hide Remaining, EncodeAll, VisitResult;
    ghost var out := Visited(builder.entries, Visits(root, tree), o);
    var stack := [Todo(root, tree)];
    ghost var dir := root;
    WalkStarts(root, tree);
    while |stack| > 0
      invariant builder.Valid() && out == Visited(builder.entries, Remaining(stack, dir, []), o)
      decreases |Remaining(stack, dir, [])| + |stack|
    {
      var top := stack[|stack| - 1];
      ghost var left := |Remaining(stack, dir, [])| + |stack|;
      RemainingPop(stack, dir);
      stack, dir := stack[..|stack| - 1], top.path;
      var n := |top.children|;
      assert top.children[..n] == top.children;
      while n > 0
        invariant 0 <= n <= |top.children| && builder.Valid()
        invariant out == Visited(builder.entries, Remaining(stack, dir, top.children[..n]), o)
        invariant |Remaining(stack, dir, top.children[..n])| + |stack| < left
      {
        assert top.children[..n][..n - 1] == top.children[..n - 1];
        RemainingChild(stack, dir, top.children[..n]);
        r, stack := AddChild(builder, stack, top.path, top.children[n - 1], o);
        if r != Copied {
          return;
        }
        n := n - 1;
      }
    }
    WalkEnds(dir);
    r := Copied;
  }

  lemma WalkStarts(root: seq<Byte>, tree: seq<Child>)
    ensures Remaining([Todo(root, tree)], root, []) == Visits(root, tree)
  {
    hide Visits;
    var stack := [Todo(root, tree)];
    NoVisits(root);
    assert stack[..0] == [] && StackVisits(stack[..0]) == [];
    assert StackVisits(stack) == Visits(root, tree) + [] == Visits(root, tree);
    assert [] + Visits(root, tree) == Visits(root, tree);
  }

  lemma NoVisits(dir: seq<Byte>)
    ensures Visits(dir, []) == []
  {
  }

  lemma WalkEnds(dir: seq<Byte>)
    ensures Remaining([], dir, []) == []
  {
  }

  /* ---- What the visits of a tree are ---- */

  lemma {:induction false} EntriesOfAppend(a: seq<Visit>, b: seq<Visit>, o: Owner)
    ensures EntriesOf(a + b, o) == EntriesOf(a, o) + EntriesOf(b, o)
    decreases |a|
  {
    hide OwnEntries;
    if a == [] {
      assert a + b == b;
    } else {
      assert (a + b)[0] == a[0] && (a + b)[1..] == a[1..] + b;
      EntriesOfAppend(a[1..], b, o);
      Assoc(OwnEntries(a[0], o), EntriesOf(a[1..], o), EntriesOf(b, o));
    }
  }

  lemma EntriesOfOne(v: Visit, o: Owner)
    ensures EntriesOf([v], o) == OwnEntries(v, o)
  {
  }

  lemma AllCleanAppend(a: seq<Visit>, b: seq<Visit>)
    ensures AllClean(a + b) <==> AllClean(a) && AllClean(b)
  {
    hide TreeRefusal;
    assert forall i :: 0 <= i < |a| ==> (a + b)[i] == a[i];
    assert forall i :: 0 <= i < |b| ==> (a + b)[|a| + i] == b[i];
  }

  /** The walk meets exactly the nodes of the tree: it adds the entries of the reference, in its
      own order, and all its visits are clean exactly when the tree is. */
  lemma {:induction false} VisitsCoverTree(dir: seq<Byte>, children: seq<Child>, o: Owner)
    ensures multiset(EntriesOf(Visits(dir, children), o)) == multiset(ChildEntries(dir, children, o))
    ensures AllClean(Visits(dir, children)) <==> CleanChildren(children)
    decreases children
  {
    hide OwnEntries, EntriesOf, AllClean, CleanNode, CleanChildren, NodeEntries, ChildEntries, Visits;
    if children == [] {
      NothingBelow(dir, o);
    } else {
      var front, child := children[..|children| - 1], children[|children| - 1];
      var v, path := VisitOf(dir, child), Under(dir, child.name);
      var below := if child.node.Directory? then Visits(path, child.node.children) else [];
      VisitsCoverTree(dir, front, o);
      if child.node.Directory? {
        VisitsCoverTree(path, child.node.children, o);
      }
      NodeCovered(v, below, o);
      LastVisits(dir, children);
      SplitEntries(v, Listed(dir, front), Deeper(dir, front), below, o);
      LastNode(dir, children, o);
    }
  }

  lemma NothingBelow(dir: seq<Byte>, o: Owner)
    ensures EntriesOf(Visits(dir, []), o) == [] == ChildEntries(dir, [], o)
    ensures AllClean(Visits(dir, [])) && CleanChildren([])
  {
  }

  lemma LastVisits(dir: seq<Byte>, children: seq<Child>)
    requires children != []
    ensures var front, child := children[..|children| - 1], children[|children| - 1];
            && Visits(dir, children)
               == ([VisitOf(dir, child)] + Listed(dir, front))
                  + (Deeper(dir, front)
                     + if child.node.Directory? then Visits(Under(dir, child.name), child.node.children) else [])
            && Visits(dir, front) == Listed(dir, front) + Deeper(dir, front)
  {
  }

  lemma LastNode(dir: seq<Byte>, children: seq<Child>, o: Owner)
    requires children != []
    ensures var front, child := children[..|children| - 1], children[|children| - 1];
            && multiset(ChildEntries(dir, children, o))
               == multiset(ChildEntries(dir, front, o)) + multiset(NodeEntries(Under(dir, child.name), child.node, o))
            && (CleanChildren(children) <==> CleanChildren(front) && child.utf8 && CleanNode(child.node))
  {
    hide CleanNode, NodeEntries;
    var front := children[..|children| - 1];
    assert forall i :: 0 <= i < |front| ==> front[i] == children[i];
  }

  /** A node's own visit and those below it. */
  lemma NodeCovered(v: Visit, below: seq<Visit>, o: Owner)
    requires v.onHost
    requires if v.node.Directory? then
               && multiset(EntriesOf(below, o)) == multiset(ChildEntries(v.path, v.node.children, o))
               && (AllClean(below) <==> CleanChildren(v.node.children))
             else below == []
    ensures multiset(OwnEntries(v, o)) + multiset(EntriesOf(below, o)) == multiset(NodeEntries(v.path, v.node, o))
    ensures TreeRefusal(v) == Copied && AllClean(below) <==> v.utf8 && CleanNode(v.node)
  {
    if v.node.Directory? {
      hide ChildEntries, EntriesOf, AllClean, CleanChildren;
      assert multiset([DirEntry(v.path, o)] + ChildEntries(v.path, v.node.children, o))
          == multiset([DirEntry(v.path, o)]) + multiset(ChildEntries(v.path, v.node.children, o));
    }
  }

  lemma SplitEntries(v: Visit, l: seq<Visit>, d: seq<Visit>, b: seq<Visit>, o: Owner)
    ensures multiset(EntriesOf(([v] + l) + (d + b), o))
         == multiset(EntriesOf(l + d, o)) + (multiset(OwnEntries(v, o)) + multiset(EntriesOf(b, o)))
    ensures AllClean(([v] + l) + (d + b)) <==> AllClean(l + d) && TreeRefusal(v) == Copied && AllClean(b)
  {
    EntriesOfAppend([v] + l, d + b, o);
    EntriesOfAppend([v], l, o);
    EntriesOfOne(v, o);
    EntriesOfAppend(d, b, o);
    EntriesOfAppend(l, d, o);
    AllCleanAppend([v] + l, d + b);
    AllCleanAppend([v], l);
    AllCleanAppend(d, b);
    AllCleanAppend(l, d);
    assert AllClean([v]) <==> TreeRefusal([v][0]) == Copied;
    hide OwnEntries, EntriesOf, AllClean;
    FourBags(OwnEntries(v, o), EntriesOf(l, o), EntriesOf(d, o), EntriesOf(b, o));
  }

  lemma FourBags(v: seq<Entry>, l: seq<Entry>, d: seq<Entry>, b: seq<Entry>)
    ensures multiset((v + l) + (d + b)) == multiset(l + d) + (multiset(v) + multiset(b))
  {
    assert multiset((v + l) + (d + b)) == multiset(v + l) + multiset(d + b);
  }

  /** No path of a regular file ends in a slash. */
  ghost predicate WellNamed(vs: seq<Visit>) {
    forall i :: 0 <= i < |vs| && vs[i].node.Regular? ==> !EndsWithSlash(vs[i].path)
  }

  lemma WellNamedAppend(a: seq<Visit>, b: seq<Visit>)
    requires WellNamed(a) && WellNamed(b)
    ensures WellNamed(a + b)
  {
  }

  lemma UnderHasNoTrailingSlash(dir: seq<Byte>, name: seq<Byte>)
    requires name != [] && SLASH !in name
    ensures !EndsWithSlash(Under(dir, name))
  {
    assert Under(dir, name)[|Under(dir, name)| - 1] == name[|name| - 1];
  }

  lemma {:induction false} ListedWellNamed(dir: seq<Byte>, children: seq<Child>)
    requires Named(children)
    ensures WellNamed(Listed(dir, children))
    decreases |children|
  {
    if children != [] {
      var front, child := children[..|children| - 1], children[|children| - 1];
      NamedFront(children);
      ListedWellNamed(dir, front);
      UnderHasNoTrailingSlash(dir, child.name);
      hide Under;
      WellNamedAppend([VisitOf(dir, child)], Listed(dir, front));
    }
  }

  lemma {:induction false} DeeperWellNamed(dir: seq<Byte>, children: seq<Child>)
    requires Named(children)
    ensures WellNamed(Deeper(dir, children))
    decreases children, 0
  {
    if children != [] {
      var front, child := children[..|children| - 1], children[|children| - 1];
      NamedFront(children);
      DeeperWellNamed(dir, front);
      if child.node.Directory? {
        VisitsWellNamed(Under(dir, child.name), child.node.children);
        WellNamedAppend(Deeper(dir, front), Visits(Under(dir, child.name), child.node.children));
      }
    }
  }

  lemma {:induction false} VisitsWellNamed(dir: seq<Byte>, children: seq<Child>)
    requires Named(children)
    ensures WellNamed(Visits(dir, children))
    decreases children, 1
  {
    ListedWellNamed(dir, children);
    DeeperWellNamed(dir, children);
    WellNamedAppend(Listed(dir, children), Deeper(dir, children));
  }

  /** Of entries with such paths only the header can be refused. */
  lemma {:induction false} OnlyHeadersRefused(vs: seq<Visit>, o: Owner)
    requires WellNamed(vs)
    ensures forall e :: e in EntriesOf(vs, o) ==> EntryRefusal(e) == HeaderRefusal(e.Meta())
    ensures AllWritable(EntriesOf(vs, o)) <==> AllStorable(EntriesOf(vs, o))
    decreases |vs|
  {
    if vs != [] {
      var v, rest := vs[0], vs[1..];
      OnlyHeadersRefused(rest, o);
      OwnEntryShaped(v, o);
      hide HeaderRefusal, EntryRefusal;
      assert EntriesOf(vs, o) == OwnEntries(v, o) + EntriesOf(rest, o);
      hide EntriesOf, OwnEntries;
      PartsOf(OwnEntries(v, o), EntriesOf(rest, o));
    }
  }

  lemma OwnEntryShaped(v: Visit, o: Owner)
    requires v.node.Regular? ==> !EndsWithSlash(v.path)
    ensures forall e :: e in OwnEntries(v, o) ==> EntryRefusal(e) == HeaderRefusal(e.Meta())
    ensures AllWritable(OwnEntries(v, o)) <==> AllStorable(OwnEntries(v, o))
  {
    var e := EntryFor(v, o);
    assert EntryRefusal(e).Built? <==> e.Storable() || (v.node.Regular? && EndsWithSlash(v.path));
  }

  lemma PartsOf(a: seq<Entry>, b: seq<Entry>)
    ensures AllWritable(a + b) <==> AllWritable(a) && AllWritable(b)
    ensures AllStorable(a + b) <==> AllStorable(a) && AllStorable(b)
    ensures forall e :: e in a + b <==> e in a || e in b
  {
    hide EntryRefusal;
    assert forall i :: 0 <= i < |a| ==> (a + b)[i] == a[i];
    assert forall i :: 0 <= i < |b| ==> (a + b)[|a| + i] == b[i];
  }

  /* ---- Parents come first in the walk ---- */

  /** Every directory among the children has its entry. */
  ghost predicate HasDirs(es: seq<Entry>, dir: seq<Byte>, children: seq<Child>) {
    forall i :: 0 <= i < |children| && children[i].node.Directory? ==> HasDir(es, Under(dir, children[i].name))
  }

  lemma EntryAfterParent(es: seq<Entry>, dir: seq<Byte>, child: Child, o: Owner)
    requires ParentsFirst(es) && HasDir(es, dir) && SLASH !in child.name
    ensures var es' := es + OwnEntries(VisitOf(dir, child), o);
            && ParentsFirst(es') && HasDir(es', dir) && (child.node.Directory? ==> HasDir(es', Under(dir, child.name)))
  {
    var v := VisitOf(dir, child);
    if OwnEntries(v, o) == [] {
      assert es + [] == es;
    } else {
      var e := EntryFor(v, o);
      assert Stem(e) == v.path;
      ChildHasParent(es, dir, child.name, e);
      ParentsFirstSnoc(es, e);
      HasDirLonger(es, [e], dir);
      assert (es + [e])[|es|] == e;
    }
  }

  lemma {:induction false} ListedAfterParents(es: seq<Entry>, dir: seq<Byte>, children: seq<Child>, o: Owner)
    requires ParentsFirst(es) && HasDir(es, dir) && Named(children)
    ensures var es' := es + EntriesOf(Listed(dir, children), o);
            ParentsFirst(es') && HasDirs(es', dir, children)
    decreases |children|
  {
    hide ParentsFirst, HasDir, OwnEntries, EntriesOf;
    if children == [] {
      NoEntries(es, o);
    } else {
      var front, child := children[..|children| - 1], children[|children| - 1];
      var own, more := OwnEntries(VisitOf(dir, child), o), EntriesOf(Listed(dir, front), o);
      NamedFront(children);
      EntryAfterParent(es, dir, child, o);
      ListedAfterParents(es + own, dir, front, o);
      ListedEntries(dir, children, o);
      hide Listed, Under, HasDirs;
      Assoc(es, own, more);
      if child.node.Directory? {
        HasDirLonger(es + own, more, Under(dir, child.name));
      }
      HasDirsLast(es + own + more, dir, children);
    }
  }

  lemma ListedEntries(dir: seq<Byte>, children: seq<Child>, o: Owner)
    requires children != []
    ensures var front, child := children[..|children| - 1], children[|children| - 1];
            EntriesOf(Listed(dir, children), o) == OwnEntries(VisitOf(dir, child), o) + EntriesOf(Listed(dir, front), o)
  {
    hide EntriesOf, OwnEntries;
    var front, v := children[..|children| - 1], VisitOf(dir, children[|children| - 1]);
    EntriesOfAppend([v], Listed(dir, front), o);
    EntriesOfOne(v, o);
  }

  lemma HasDirsLast(es: seq<Entry>, dir: seq<Byte>, children: seq<Child>)
    requires children != [] && HasDirs(es, dir, children[..|children| - 1])
    requires var child := children[|children| - 1]; child.node.Directory? ==> HasDir(es, Under(dir, child.name))
    ensures HasDirs(es, dir, children)
  {
    hide HasDir, Under;
    var front := children[..|children| - 1];
    assert forall i :: 0 <= i < |front| ==> front[i] == children[i];
  }

  lemma NoEntries(es: seq<Entry>, o: Owner)
    ensures es + EntriesOf([], o) == es
  {
  }

  lemma NamedFront(children: seq<Child>)
    requires Named(children) && children != []
    ensures Named(children[..|children| - 1]) && SLASH !in children[|children| - 1].name
    ensures var node := children[|children| - 1].node; node.Directory? ==> Named(node.children)
  {
  }

  lemma HasDirsLonger(es: seq<Entry>, more: seq<Entry>, dir: seq<Byte>, children: seq<Child>)
    requires HasDirs(es, dir, children)
    ensures HasDirs(es + more, dir, children)
  {
    forall i | 0 <= i < |children| && children[i].node.Directory?
      ensures HasDir(es + more, Under(dir, children[i].name))
    {
      HasDirLonger(es, more, Under(dir, children[i].name));
    }
  }

  lemma {:induction false} DeeperAfterParents(es: seq<Entry>, dir: seq<Byte>, children: seq<Child>, o: Owner)
    requires ParentsFirst(es) && HasDirs(es, dir, children) && Named(children)
    ensures ParentsFirst(es + EntriesOf(Deeper(dir, children), o))
    decreases children, 0
  {
    hide ParentsFirst, HasDir, EntriesOf;
    if children == [] {
      NoEntries(es, o);
    } else {
      var front, child := children[..|children| - 1], children[|children| - 1];
      var more := EntriesOf(Deeper(dir, front), o);
      NamedFront(children);
      assert forall i :: 0 <= i < |front| ==> front[i] == children[i];
      DeeperAfterParents(es, dir, front, o);
      if child.node.Directory? {
        var path, below := Under(dir, child.name), Visits(Under(dir, child.name), child.node.children);
        HasDirLonger(es, more, path);
        VisitsAfterParents(es + more, path, child.node.children, o);
        EntriesOfAppend(Deeper(dir, front), below, o);
        Assoc(es, more, EntriesOf(below, o));
      } else {
        assert Deeper(dir, front) + [] == Deeper(dir, front);
      }
    }
  }

  /** The walk adds every entry after the entry of its parent directory. */
  lemma {:induction false} VisitsAfterParents(es: seq<Entry>, dir: seq<Byte>, children: seq<Child>, o: Owner)
    requires ParentsFirst(es) && HasDir(es, dir) && Named(children)
    ensures ParentsFirst(es + EntriesOf(Visits(dir, children), o))
    decreases children, 1
  {
    hide ParentsFirst, HasDir, HasDirs, EntriesOf, Listed, Deeper, Named;
    var first := EntriesOf(Listed(dir, children), o);
    ListedAfterParents(es, dir, children, o);
    DeeperAfterParents(es + first, dir, children, o);
    EntriesOfAppend(Listed(dir, children), Deeper(dir, children), o);
    Assoc(es, first, EntriesOf(Deeper(dir, children), o));
  }
}
