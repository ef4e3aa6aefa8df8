/** The zip under construction, and the copies of local and remote directory trees into it. */
module Archive {
  import opened Text
  import opened FileTree

  datatype Body = Data(content: string) | LinkTo(target: string)

  datatype ZipEntry = ZipEntry(name: string, body: Body)

  /** How adding one file may go wrong. `CopyFails` leaves the entry with what was written so far. */
  datatype WriteFault = NoFault | OpenFails | CreateFails | CopyFails(written: string)

  // ---------- the handler ----------

  class Handler {
    var isOpen: bool
    var entries: seq<ZipEntry>

    /** Whether the file on disk holds the entries. */
    var stored: bool

    constructor ()
      ensures isOpen && entries == [] && !stored
    {
      isOpen := true;
      entries := [];
      stored := false;
    }

    /** Closing writes what is still buffered and the central directory, and closes the file. That may
        fail, but nobody is told. */
    method Close(flushFails: bool)
      modifies this
      ensures !isOpen && entries == old(entries)
      ensures stored == if old(isOpen) then !flushFails else old(stored)
    {
      if isOpen {
        isOpen := false;
        stored := !flushFails;
      }
    }

    /** Starts an entry; its bytes are written afterwards. */
    method FileWriter(dest: string, createFails: bool) returns (ok: bool)
      modifies this`entries
      ensures ok <==> isOpen && !createFails
      ensures entries == if ok then old(entries) + [ZipEntry(dest, Data(""))] else old(entries)
    {
      ok := isOpen && !createFails;
      if ok {
        entries := entries + [ZipEntry(dest, Data(""))];
      }
    }

    /** The bytes written to the entry started last. */
    method Fill(content: string)
      requires entries != []
      modifies this`entries
      ensures entries == old(entries)[..|old(entries)| - 1]
                         + [ZipEntry(old(entries)[|old(entries)| - 1].name, Data(content))]
    {
      entries := entries[..|entries| - 1] + [ZipEntry(entries[|entries| - 1].name, Data(content))];
    }

    method WriteFile(content: string, dest: string, fault: WriteFault) returns (ok: bool)
      modifies this`entries
      ensures ok <==> isOpen && !fault.CreateFails? && !fault.CopyFails?
      ensures ok ==> entries == old(entries) + [ZipEntry(dest, Data(content))]
      ensures !ok ==> entries == if isOpen && fault.CopyFails? then old(entries) + [ZipEntry(dest, Data(fault.written))]
                                 else old(entries)
    {
      ok := FileWriter(dest, fault.CreateFails?);
      if !ok {
        return false;
      }
      Fill(if fault.CopyFails? then fault.written else content);
      ok := !fault.CopyFails?;
    }

    method AddFile(content: string, dest: string, fault: WriteFault) returns (ok: bool)
      modifies this`entries
      ensures ok <==> isOpen && fault.NoFault?
      ensures ok ==> entries == old(entries) + [ZipEntry(dest, Data(content))]
      ensures !ok ==> entries == if isOpen && fault.CopyFails? then old(entries) + [ZipEntry(dest, Data(fault.written))]
                                 else old(entries)
    {
      if !isOpen || fault.OpenFails? {
        return false;
      }
      ok := WriteFile(content, dest, fault);
    }

    /** Unlike the others this does not check that the handler is open: on a closed one it may report
        success, but nothing reaches the archive. It opens what the link leads to first, although it only
        stores the target: `leads` says whether there is anything. Reading the target or writing it may
        fail after the entry was started, which then stays. */
    method AddSymlink(target: string, leads: bool, dest: string, fault: WriteFault) returns (ok: bool)
      modifies this`entries
      ensures ok <==> leads && fault.NoFault?
      ensures ok && isOpen ==> entries == old(entries) + [ZipEntry(dest, LinkTo(target))]
      ensures !(ok && isOpen) ==>
                entries == if isOpen && leads && fault.CopyFails? then
                             old(entries) + [ZipEntry(dest, LinkTo(fault.written))]
                           else old(entries)
    {
      if !leads {
        return false;
      }
      ok := fault.NoFault?;
      if isOpen && (ok || fault.CopyFails?) {
        entries := entries + [ZipEntry(dest, LinkTo(if ok then target else fault.written))];
      }
    }
  }

  // ---------- entry names ----------

  /** `filepath.Base` of a clean path: its last component, `/` for the root. */
  function BaseOf(path: Path): string {
    if path == [] then "/" else path[|path| - 1]
  }

  /** `filepath.Join(base, relative path)` for a base name and clean components. */
  function EntryName(base: string, rel: Path): string {
    if rel == [] then base
    else if base == "." then Join(rel, '/')
    else if base == "/" then "/" + Join(rel, '/')
    else Join([base] + rel, '/')
  }

  /** A directory of the profile: its path and which paths its exclude patterns match. */
  datatype BackupPath = BackupPath(path: Path, excluded: Path -> bool)

  /** The exclusions in terms of places below `root`, the directory actually walked. */
  function Below(dir: BackupPath, root: Path): Path -> bool {
    (rel: Path) => dir.excluded(root + rel)
  }

  /** A local copy stores the target of a symbolic link. */
  function LocalBody(l: Leaf): Body {
    if l.node.Link? then LinkTo(l.node.target) else if l.node.File? then Data(l.node.content) else Data("")
  }

  /** Where a symbolic link leads: nowhere when it is dangling. */
  datatype Leads = Nowhere | ToDirectory | ToFile(content: string)

  /** The symbolic links by their places. */
  type Follow = Path -> Leads

  /** What opening a link reads. */
  function LinkContent(to: Leads): string {
    if to.ToFile? then to.content else ""
  }

  /** A remote copy opens whatever is there: for a symbolic link, the file it leads to. */
  function RemoteBody(follow: Follow, l: Leaf): Body {
    if l.node.File? then Data(l.node.content) else Data(LinkContent(follow(l.rel)))
  }

  function EntryOf(base: string, body: Leaf -> Body, l: Leaf): ZipEntry {
    ZipEntry(EntryName(base, l.rel), body(l))
  }

  function EntriesOf(base: string, body: Leaf -> Body, leaves: seq<Leaf>): (es: seq<ZipEntry>)
    ensures |es| == |leaves| && forall i :: 0 <= i < |es| ==> es[i] == EntryOf(base, body, leaves[i])
  {
    seq(|leaves|, i requires 0 <= i < |leaves| => EntryOf(base, body, leaves[i]))
  }

  lemma EntriesConcat(base: string, body: Leaf -> Body, a: seq<Leaf>, b: seq<Leaf>)
    ensures EntriesOf(base, body, a + b) == EntriesOf(base, body, a) + EntriesOf(base, body, b)
  {
  }

  /** What a complete local copy of `dir` adds, where `root` and `node` are the directory walked:
      `dir.path` itself, or what it leads to when it is a symbolic link. */
  function LocalEntries(dir: BackupPath, root: Path, node: Node): seq<ZipEntry> {
    EntriesOf(BaseOf(dir.path), LocalBody, Leaves(node, [], Below(dir, root)))
  }

  function RemoteEntries(dir: BackupPath, node: Node, follow: Follow): seq<ZipEntry> {
    EntriesOf(BaseOf(dir.path), l => RemoteBody(follow, l), Leaves(node, [], Below(dir, dir.path)))
  }

  // ---------- the local copy ----------

  /** What `Lstat` and, for a symbolic link, `EvalSymlinks` find at the directory's path. */
  datatype RootState = Unreadable | Plain(node: Node) | Symlink(actual: Option<(Path, Node)>)

  /** Errors at a place of the tree: reading it, or adding it to the archive. */
  datatype CopyFaults = CopyFaults(readFails: Path -> bool, write: Path -> WriteFault)

  ghost predicate NoFaults(faults: CopyFaults) {
    (forall rel: Path :: !faults.readFails(rel)) && (forall rel: Path :: faults.write(rel).NoFault?)
  }

  /** A local copy opens a link before storing its target. */
  function LocalLeafOk(faults: CopyFaults, follow: Follow): Leaf -> bool {
    (l: Leaf) => faults.write(l.rel).NoFault? && (l.node.Link? ==> !follow(l.rel).Nowhere?)
  }

  /** A remote copy reads what the link leads to. */
  function RemoteLeafOk(faults: CopyFaults, follow: Follow): Leaf -> bool {
    (l: Leaf) => faults.write(l.rel).NoFault? && (l.node.Link? ==> follow(l.rel).ToFile?)
  }

  /** Nothing goes wrong below a node: every place can be read and every leaf not excluded added. */
  predicate Smooth(d: Node, rel: Path, excluded: Path -> bool, faults: CopyFaults, leafOk: Leaf -> bool)
    decreases d, 1
  {
    && !faults.readFails(rel)
    && if d.Dir? then SmoothAll(d.children, rel, excluded, faults, leafOk)
       else excluded(rel) || leafOk(Leaf(rel, d))
  }

  predicate SmoothAll(children: seq<Node>, rel: Path, excluded: Path -> bool, faults: CopyFaults, leafOk: Leaf -> bool)
    decreases children, 0
  {
    children != [] ==>
      && Smooth(children[0], rel + [children[0].name], excluded, faults, leafOk)
      && SmoothAll(children[1..], rel, excluded, faults, leafOk)
  }

  /** When every place can be read, what decides is the leaves that are not excluded. */
  lemma {:induction false} SmoothLeaves(d: Node, rel: Path, excluded: Path -> bool, faults: CopyFaults,
                                        leafOk: Leaf -> bool)
    requires forall place: Path :: !faults.readFails(place)
    ensures Smooth(d, rel, excluded, faults, leafOk) <==> forall l :: l in Leaves(d, rel, excluded) ==> leafOk(l)
    decreases d, 1
  {
    if d.Dir? {
      SmoothLeavesAll(d.children, rel, excluded, faults, leafOk);
    } else {
      assert excluded(rel) || Leaf(rel, d) in Leaves(d, rel, excluded);
    }
  }

  lemma {:induction false} SmoothLeavesAll(children: seq<Node>, rel: Path, excluded: Path -> bool,
                                           faults: CopyFaults, leafOk: Leaf -> bool)
    requires forall place: Path :: !faults.readFails(place)
    ensures SmoothAll(children, rel, excluded, faults, leafOk)
            <==> forall l :: l in LeavesAll(children, rel, excluded) ==> leafOk(l)
    decreases children, 0
  {
    if children != [] {
      var c := children[0];
      SmoothLeaves(c, rel + [c.name], excluded, faults, leafOk);
      SmoothLeavesAll(children[1..], rel, excluded, faults, leafOk);
      assert forall l :: l in LeavesAll(children, rel, excluded) <==>
        l in Leaves(c, rel + [c.name], excluded) || l in LeavesAll(children[1..], rel, excluded);
    }
  }

  /** Every place in the tree can be read. */
  ghost predicate Readable(d: Node, rel: Path, faults: CopyFaults) {
    forall place: Path :: At(d, place).Some? ==> !faults.readFails(rel + place)
  }

  lemma ReadableChild(d: Node, rel: Path, faults: CopyFaults, i: nat)
    requires d.Dir? && WellNamed(d) && i < |d.children| && Readable(d, rel, faults)
    ensures Readable(d.children[i], rel + [d.children[i].name], faults)
  {
    var c := d.children[i];
    ChildLookup(d.children, i);
    forall place: Path | At(c, place).Some?
      ensures !faults.readFails(rel + [c.name] + place)
    {
      var longer := [c.name] + place;
      assert longer[1..] == place && At(d, longer) == At(c, place);
      assert rel + longer == rel + [c.name] + place;
    }
  }

  /** When a walk goes through: exactly when every place of the tree can be read and every leaf that is
      not excluded can be added. */
  lemma {:induction false} SmoothExactly(d: Node, rel: Path, excluded: Path -> bool, faults: CopyFaults,
                                         leafOk: Leaf -> bool)
    requires WellNamed(d)
    ensures Smooth(d, rel, excluded, faults, leafOk)
            <==> Readable(d, rel, faults) && forall l :: l in Leaves(d, rel, excluded) ==> leafOk(l)
    decreases d, 1
  {
    assert At(d, []).Some? && rel + [] == rel;
    if d.Dir? {
      SmoothExactlyAll(d.children, rel, excluded, faults, leafOk);
      if Readable(d, rel, faults) {
        forall i | 0 <= i < |d.children|
          ensures Readable(d.children[i], rel + [d.children[i].name], faults)
        {
          ReadableChild(d, rel, faults, i);
        }
      }
      if AllReadable(d.children, rel, faults) && !faults.readFails(rel) {
        forall place: Path | At(d, place).Some?
          ensures !faults.readFails(rel + place)
        {
          if place != [] {
            var c := ChildNamed(d.children, place[0]).value;
            assert Readable(c, rel + [c.name], faults) && At(c, place[1..]).Some?;
            assert rel + [c.name] + place[1..] == rel + place;
          }
        }
      }
    } else {
      assert forall place: Path :: At(d, place).Some? ==> place == [];
      assert excluded(rel) || Leaf(rel, d) in Leaves(d, rel, excluded);
    }
  }

  ghost predicate AllReadable(children: seq<Node>, rel: Path, faults: CopyFaults) {
    forall i :: 0 <= i < |children| ==> Readable(children[i], rel + [children[i].name], faults)
  }

  lemma {:induction false} SmoothExactlyAll(children: seq<Node>, rel: Path, excluded: Path -> bool,
                                            faults: CopyFaults, leafOk: Leaf -> bool)
    requires WellNamedAll(children)
    ensures SmoothAll(children, rel, excluded, faults, leafOk)
            <==> AllReadable(children, rel, faults)
                 && forall l :: l in LeavesAll(children, rel, excluded) ==> leafOk(l)
    decreases children, 0
  {
    if children != [] {
      var c, rest := children[0], children[1..];
      SmoothExactly(c, rel + [c.name], excluded, faults, leafOk);
      SmoothExactlyAll(rest, rel, excluded, faults, leafOk);
      assert AllReadable(children, rel, faults)
          <==> Readable(c, rel + [c.name], faults) && AllReadable(rest, rel, faults) by {
        assert forall i :: 1 <= i < |children| ==> children[i] == rest[i - 1];
        assert forall i :: 0 <= i < |rest| ==> rest[i] == children[i + 1];
      }
      assert forall l :: l in LeavesAll(children, rel, excluded) <==>
        l in Leaves(c, rel + [c.name], excluded) || l in LeavesAll(rest, rel, excluded);
    }
  }

  /** The archive grows by the first part of what is still to come. */
  lemma Advance(before: seq<ZipEntry>, after: seq<ZipEntry>, part: seq<ZipEntry>,
                rest: seq<ZipEntry>, all: seq<ZipEntry>)
    requires before + (part + rest) == all && after == before + part
    ensures after + rest == all
  {
  }

  /** The archive got as far as the first `k` of the entries `todo`, and perhaps started the next. */
  ghost predicate StoppedAt(before: seq<ZipEntry>, after: seq<ZipEntry>, todo: seq<ZipEntry>, k: nat) {
    && k <= |todo|
    && (after == before + todo[..k] ||
        (k < |todo| && exists body :: after == before + todo[..k] + [ZipEntry(todo[k].name, body)]))
  }

  ghost predicate Stopped(before: seq<ZipEntry>, after: seq<ZipEntry>, todo: seq<ZipEntry>) {
    exists k: nat :: StoppedAt(before, after, todo, k)
  }

  lemma StoppedFirst(before: seq<ZipEntry>, after: seq<ZipEntry>, e: ZipEntry, body: Body)
    requires after == before || after == before + [ZipEntry(e.name, body)]
    ensures Stopped(before, after, [e])
  {
    assert before + [e][..0] == before;
    assert StoppedAt(before, after, [e], 0);
  }

  /** Stopping within a later part of the work is stopping within all of it. */
  lemma StoppedLater(start: seq<ZipEntry>, before: seq<ZipEntry>, after: seq<ZipEntry>,
                     part: seq<ZipEntry>, rest: seq<ZipEntry>, todo: seq<ZipEntry>)
    requires start <= before && before + (part + rest) == start + todo
    requires Stopped(before, after, part)
    ensures Stopped(start, after, todo)
  {
    var k: nat :| StoppedAt(before, after, part, k);
    var n := |before| - |start| + k;
    assert start + todo[..n] == (start + todo)[..|before| + k] == before + part[..k];
    if k < |part| {
      assert todo[n] == (start + todo)[|before| + k] == part[k];
    }
    assert StoppedAt(start, after, todo, n);
  }

  /** `filepath.Walk` with the function that adds every file and link. */
  method WalkLocal(h: Handler, base: string, d: Node, rel: Path, excluded: Path -> bool, follow: Follow,
                   faults: CopyFaults)
    returns (ok: bool)
    modifies h`entries
    ensures old(h.entries) <= h.entries
    ensures h.isOpen ==> (ok <==> Smooth(d, rel, excluded, faults, LocalLeafOk(faults, follow)))
    ensures h.isOpen && ok ==> h.entries == old(h.entries) + EntriesOf(base, LocalBody, Leaves(d, rel, excluded))
    ensures h.isOpen && !ok ==> Stopped(old(h.entries), h.entries, EntriesOf(base, LocalBody, Leaves(d, rel, excluded)))
    decreases d, 1
  {
    ghost var todo := EntriesOf(base, LocalBody, Leaves(d, rel, excluded));
    if faults.readFails(rel) {
      assert StoppedAt(h.entries, h.entries, todo, 0);
      return false;
    }
    match d {
      case Dir(_, children) =>
        ok := WalkListing(h, base, children, rel, excluded, follow, faults);
      case Link(_, target) =>
        if excluded(rel) {
          return true;
        }
        ok := h.AddSymlink(target, !follow(rel).Nowhere?, EntryName(base, rel), faults.write(rel));
        if !ok {
          StoppedFirst(old(h.entries), h.entries, todo[0], LinkTo(FaultText(faults.write(rel))));
          assert todo == [todo[0]];
        }
      case File(_, content) =>
        if excluded(rel) {
          return true;
        }
        ok := h.AddFile(content, EntryName(base, rel), faults.write(rel));
        if !ok {
          StoppedFirst(old(h.entries), h.entries, todo[0], Data(FaultText(faults.write(rel))));
          assert todo == [todo[0]];
        }
    }
  }

  /** What a failed write left behind. */
  function FaultText(fault: WriteFault): string {
    if fault.CopyFails? then fault.written else ""
  }

  /** The loop of the walk over one directory. */
  method WalkListing(h: Handler, base: string, children: seq<Node>, rel: Path, excluded: Path -> bool, follow: Follow,
                     faults: CopyFaults)
    returns (ok: bool)
    modifies h`entries
    ensures old(h.entries) <= h.entries
    ensures h.isOpen ==> (ok <==> SmoothAll(children, rel, excluded, faults, LocalLeafOk(faults, follow)))
    ensures var todo := EntriesOf(base, LocalBody, LeavesAll(children, rel, excluded));
            && (h.isOpen && ok ==> h.entries == old(h.entries) + todo)
            && (h.isOpen && !ok ==> Stopped(old(h.entries), h.entries, todo))
    decreases children, 0
  {
    ghost var todo := EntriesOf(base, LocalBody, LeavesAll(children, rel, excluded));
    ghost var leafOk := LocalLeafOk(faults, follow);
    for i := 0 to |children|
      invariant old(h.entries) <= h.entries
      invariant h.isOpen ==> SmoothAll(children, rel, excluded, faults, leafOk)
                             == SmoothAll(children[i..], rel, excluded, faults, leafOk)
      invariant h.isOpen ==>
                  h.entries + EntriesOf(base, LocalBody, LeavesAll(children[i..], rel, excluded))
                  == old(h.entries) + todo
    {
      var c := children[i];
      ghost var before := h.entries;
      ghost var part := EntriesOf(base, LocalBody, Leaves(c, rel + [c.name], excluded));
      ghost var rest := EntriesOf(base, LocalBody, LeavesAll(children[i + 1..], rel, excluded));
      ListingStep(base, children, i, rel, excluded);
      assert children[i..][0] == c && children[i..][1..] == children[i + 1..];
      ok := WalkLocal(h, base, c, rel + [c.name], excluded, follow, faults);
      if !ok {
        if h.isOpen {
          StoppedLater(old(h.entries), before, h.entries, part, rest, todo);
        }
        return false;
      }
      if h.isOpen {
        Advance(before, h.entries, part, rest, old(h.entries) + todo);
      }
    }
    ok := true;
  }

  lemma ListingStep(base: string, children: seq<Node>, i: nat, rel: Path, excluded: Path -> bool)
    requires i < |children|
    ensures var c := children[i];
            EntriesOf(base, LocalBody, LeavesAll(children[i..], rel, excluded))
            == EntriesOf(base, LocalBody, Leaves(c, rel + [c.name], excluded))
               + EntriesOf(base, LocalBody, LeavesAll(children[i + 1..], rel, excluded))
  {
    assert children[i..][0] == children[i] && children[i..][1..] == children[i + 1..];
  }

  /** The directory a local copy walks, with its path: the directory itself, or what the symbolic
      link at its path leads to. */
  function WalkedRoot(path: Path, root: RootState): Option<(Path, Node)> {
    match root
    case Unreadable => None
    case Plain(node) => if node.Dir? then Some((path, node)) else None
    case Symlink(actual) => if actual.Some? && actual.value.1.Dir? then actual else None
  }

  /** A local copy goes through: there is a directory to walk and nothing goes wrong below it. */
  predicate CopySucceeds(dir: BackupPath, root: RootState, follow: Follow, faults: CopyFaults) {
    var walked := WalkedRoot(dir.path, root);
    walked.Some? && Smooth(walked.value.1, [], Below(dir, walked.value.0), faults, LocalLeafOk(faults, follow))
  }

  /** When nothing fails, a local copy goes through exactly if it walks a directory in which every
      symbolic link that is not excluded leads somewhere, although only their targets are stored. */
  lemma DanglingLinkFails(dir: BackupPath, root: RootState, follow: Follow, faults: CopyFaults)
    requires NoFaults(faults)
    ensures CopySucceeds(dir, root, follow, faults)
            <==> var walked := WalkedRoot(dir.path, root);
                 walked.Some? && forall l :: l in Leaves(walked.value.1, [], Below(dir, walked.value.0)) ==>
                                   l.node.Link? ==> !follow(l.rel).Nowhere?
  {
    var walked := WalkedRoot(dir.path, root);
    if walked.Some? {
      SmoothLeaves(walked.value.1, [], Below(dir, walked.value.0), faults, LocalLeafOk(faults, follow));
    }
  }

  method CopyLocalFiles(h: Handler, dir: BackupPath, root: RootState, follow: Follow, faults: CopyFaults)
    returns (ok: bool)
    modifies h`entries
    ensures old(h.entries) <= h.entries
    ensures WalkedRoot(dir.path, root).None? ==> !ok && h.entries == old(h.entries)
    ensures h.isOpen ==> (ok <==> CopySucceeds(dir, root, follow, faults))
    ensures var walked := WalkedRoot(dir.path, root);
            h.isOpen && walked.Some? ==>
              var todo := LocalEntries(dir, walked.value.0, walked.value.1);
              if ok then h.entries == old(h.entries) + todo else Stopped(old(h.entries), h.entries, todo)
  {
    if root.Unreadable? {
      return false;
    }
    var rootDir, node;
    if root.Symlink? {
      if root.actual.None? {
        return false;
      }
      rootDir, node := root.actual.value.0, root.actual.value.1;
    } else {
      rootDir, node := dir.path, root.node;
    }
    if !node.Dir? {
      return false;
    }
    ok := WalkLocal(h, BaseOf(dir.path), node, [], Below(dir, rootDir), follow, faults);
  }

  // ---------- the remote copy ----------

  function Weight(d: Node): (n: nat)
    ensures n >= 1
    decreases d, 1
  {
    if d.Dir? then 1 + WeightAll(d.children) else 1
  }

  function WeightAll(children: seq<Node>): nat
    decreases children, 0
  {
    if children == [] then 0 else Weight(children[0]) + WeightAll(children[1..])
  }

  /** The leaves still to come from the walker's stack, whose top is its last item. */
  function StackLeaves(stack: seq<Leaf>, excluded: Path -> bool): seq<Leaf> {
    if stack == [] then []
    else
      var top := stack[|stack| - 1];
      Leaves(top.node, top.rel, excluded) + StackLeaves(stack[..|stack| - 1], excluded)
  }

  function StackWeight(stack: seq<Leaf>): nat {
    if stack == [] then 0 else Weight(stack[|stack| - 1].node) + StackWeight(stack[..|stack| - 1])
  }

  /** Nothing goes wrong with anything on the stack. */
  predicate StackSmooth(stack: seq<Leaf>, excluded: Path -> bool, faults: CopyFaults, leafOk: Leaf -> bool) {
    forall i :: 0 <= i < |stack| ==> Smooth(stack[i].node, stack[i].rel, excluded, faults, leafOk)
  }

  /** The stack with the children of a directory on top of it, the first child uppermost. */
  function Pushed(stack: seq<Leaf>, rel: Path, children: seq<Node>): seq<Leaf> {
    if children == [] then stack
    else Pushed(stack, rel, children[1..]) + [Leaf(rel + [children[0].name], children[0])]
  }

  /** Expanding a directory: its children go on the stack in reverse. */
  method PushChildren(stack: seq<Leaf>, rel: Path, children: seq<Node>) returns (pushed: seq<Leaf>)
    ensures pushed == Pushed(stack, rel, children)
  {
    pushed := stack;
    var i := |children|;
    while i > 0
      invariant 0 <= i <= |children|
      invariant pushed == Pushed(stack, rel, children[i..])
    {
      i := i - 1;
      assert children[i..][0] == children[i] && children[i..][1..] == children[i + 1..];
      pushed := pushed + [Leaf(rel + [children[i].name], children[i])];
    }
    assert children[0..] == children;
  }

  /** The children come before the rest of the stack, in their own order. */
  lemma {:induction false} PushedLeaves(stack: seq<Leaf>, rel: Path, children: seq<Node>, excluded: Path -> bool)
    ensures StackLeaves(Pushed(stack, rel, children), excluded)
            == LeavesAll(children, rel, excluded) + StackLeaves(stack, excluded)
  {
    if children != [] {
      var below := Pushed(stack, rel, children[1..]);
      PushedLeaves(stack, rel, children[1..], excluded);
      assert Pushed(stack, rel, children)[..|below|] == below;
    }
  }

  lemma {:induction false} PushedWeight(stack: seq<Leaf>, rel: Path, children: seq<Node>)
    ensures StackWeight(Pushed(stack, rel, children)) == WeightAll(children) + StackWeight(stack)
  {
    if children != [] {
      var below := Pushed(stack, rel, children[1..]);
      PushedWeight(stack, rel, children[1..]);
      assert Pushed(stack, rel, children)[..|below|] == below;
    }
  }

  lemma {:induction false} PushedSmooth(stack: seq<Leaf>, rel: Path, children: seq<Node>, excluded: Path -> bool,
                                        faults: CopyFaults, leafOk: Leaf -> bool)
    ensures StackSmooth(Pushed(stack, rel, children), excluded, faults, leafOk)
            <==> SmoothAll(children, rel, excluded, faults, leafOk) && StackSmooth(stack, excluded, faults, leafOk)
  {
    if children != [] {
      PushedSmooth(stack, rel, children[1..], excluded, faults, leafOk);
      var first := Leaf(rel + [children[0].name], children[0]);
      TopSmooth(Pushed(stack, rel, children[1..]), first, excluded, faults, leafOk);
    }
  }

  lemma TopSmooth(stack: seq<Leaf>, top: Leaf, excluded: Path -> bool, faults: CopyFaults, leafOk: Leaf -> bool)
    ensures StackSmooth(stack + [top], excluded, faults, leafOk)
            <==> Smooth(top.node, top.rel, excluded, faults, leafOk) && StackSmooth(stack, excluded, faults, leafOk)
  {
    var all := stack + [top];
    assert forall i :: 0 <= i < |stack| ==> all[i] == stack[i];
    assert all[|stack|] == top;
  }

  lemma PopStack(stack: seq<Leaf>, base: string, body: Leaf -> Body, excluded: Path -> bool, faults: CopyFaults,
                 leafOk: Leaf -> bool)
    requires stack != []
    ensures var top, below := stack[|stack| - 1], stack[..|stack| - 1];
            && EntriesOf(base, body, StackLeaves(stack, excluded))
               == EntriesOf(base, body, Leaves(top.node, top.rel, excluded))
                  + EntriesOf(base, body, StackLeaves(below, excluded))
            && (StackSmooth(stack, excluded, faults, leafOk)
                <==> Smooth(top.node, top.rel, excluded, faults, leafOk)
                     && StackSmooth(below, excluded, faults, leafOk))
  {
    var top, below := stack[|stack| - 1], stack[..|stack| - 1];
    EntriesConcat(base, body, Leaves(top.node, top.rel, excluded), StackLeaves(below, excluded));
    assert stack == below + [top];
    TopSmooth(below, top, excluded, faults, leafOk);
  }

  /** Expanding a directory changes neither the entries to come nor whether they go through. */
  lemma ExpandStack(below: seq<Leaf>, top: Leaf, base: string, body: Leaf -> Body, excluded: Path -> bool,
                    faults: CopyFaults, leafOk: Leaf -> bool)
    requires top.node.Dir? && !faults.readFails(top.rel)
    ensures var pushed := Pushed(below, top.rel, top.node.children);
            && EntriesOf(base, body, StackLeaves(pushed, excluded))
               == EntriesOf(base, body, Leaves(top.node, top.rel, excluded))
                  + EntriesOf(base, body, StackLeaves(below, excluded))
            && StackWeight(pushed) < Weight(top.node) + StackWeight(below)
            && (StackSmooth(pushed, excluded, faults, leafOk)
                <==> Smooth(top.node, top.rel, excluded, faults, leafOk)
                     && StackSmooth(below, excluded, faults, leafOk))
  {
    PushedLeaves(below, top.rel, top.node.children, excluded);
    PushedWeight(below, top.rel, top.node.children);
    PushedSmooth(below, top.rel, top.node.children, excluded, faults, leafOk);
    EntriesConcat(base, body, LeavesAll(top.node.children, top.rel, excluded), StackLeaves(below, excluded));
  }

  /** `copyRemoteFiles`: the stack walk of the sftp client, stepped by a loop. `isDir` is what `Stat`
      says of the root and `node` what `Lstat` says. */
  method CopyRemoteFiles(h: Handler, dir: BackupPath, isDir: bool, node: Node, follow: Follow, faults: CopyFaults)
    returns (ok: bool)
    modifies h`entries
    ensures old(h.entries) <= h.entries
    ensures !isDir ==> !ok && h.entries == old(h.entries)
    ensures ok ==> h.entries == old(h.entries) + RemoteEntries(dir, node, follow)
    ensures isDir && !ok ==> Stopped(old(h.entries), h.entries, RemoteEntries(dir, node, follow))
    ensures h.isOpen && isDir ==>
              (ok <==> Smooth(node, [], Below(dir, dir.path), faults, RemoteLeafOk(faults, follow)))
  {
    if !isDir {
      return false;
    }
    var base, excluded := BaseOf(dir.path), Below(dir, dir.path);
    ghost var body, leafOk := l => RemoteBody(follow, l), RemoteLeafOk(faults, follow);
    ghost var todo := RemoteEntries(dir, node, follow);
    var stack := [Leaf([], node)];
    assert stack[..0] == [];
    assert EntriesOf(base, body, StackLeaves(stack, excluded)) == todo by {
      PopStack(stack, base, body, excluded, faults, leafOk);
    }
    while stack != []
      invariant old(h.entries) <= h.entries
      invariant h.entries + EntriesOf(base, body, StackLeaves(stack, excluded)) == old(h.entries) + todo
      invariant Smooth(node, [], excluded, faults, leafOk) <==> StackSmooth(stack, excluded, faults, leafOk)
      decreases StackWeight(stack)
    {
      var cur, below := stack[|stack| - 1], stack[..|stack| - 1];
      ghost var part := EntriesOf(base, body, Leaves(cur.node, cur.rel, excluded));
      ghost var rest := EntriesOf(base, body, StackLeaves(below, excluded));
      ghost var before := h.entries;
      PopStack(stack, base, body, excluded, faults, leafOk);
      if faults.readFails(cur.rel) {
        StoppedBefore(old(h.entries), before, part, rest, todo);
        return false;
      }
      if cur.node.Dir? {
        stack := PushChildren(below, cur.rel, cur.node.children);
        ExpandStack(below, cur, base, body, excluded, faults, leafOk);
        continue;
      }
      stack := below;
      if excluded(cur.rel) {
        assert part + rest == rest;
        continue;
      }
      assert part == [EntryOf(base, body, cur)] && cur == Leaf(cur.rel, cur.node);
      ok := AddOpened(h, cur, follow, EntryName(base, cur.rel), faults.write(cur.rel));
      if !ok {
        StoppedLater(old(h.entries), before, h.entries, part, rest, todo);
        return false;
      }
      Advance(before, h.entries, part, rest, old(h.entries) + todo);
    }
    ok := true;
  }

  lemma StoppedBefore(start: seq<ZipEntry>, before: seq<ZipEntry>, part: seq<ZipEntry>, rest: seq<ZipEntry>,
                      todo: seq<ZipEntry>)
    requires start <= before && before + (part + rest) == start + todo
    ensures Stopped(start, before, todo)
  {
    assert StoppedAt(before, before, part, 0);
    StoppedLater(start, before, before, part, rest, todo);
  }

  /** Open the remote file, then copy it into the archive. What cannot be read to the end leaves the
      entry with what was read. */
  method AddOpened(h: Handler, l: Leaf, follow: Follow, dest: string, fault: WriteFault) returns (ok: bool)
    requires !l.node.Dir?
    modifies h`entries
    ensures ok <==> h.isOpen && fault.NoFault? && (l.node.Link? ==> follow(l.rel).ToFile?)
    ensures ok ==> h.entries == old(h.entries) + [ZipEntry(dest, RemoteBody(follow, l))]
    ensures !ok ==> Stopped(old(h.entries), h.entries, [ZipEntry(dest, RemoteBody(follow, l))])
    ensures old(h.entries) <= h.entries
  {
    var whole := ZipEntry(dest, RemoteBody(follow, l));
    if fault.OpenFails? {
      StoppedFirst(h.entries, h.entries, whole, Data(""));
      return false;
    }
    var broken := fault.NoFault? && l.node.Link? && !follow(l.rel).ToFile?;
    var content := if l.node.File? then l.node.content else LinkContent(follow(l.rel));
    ok := h.WriteFile(content, dest, if broken then CopyFails("") else fault);
    if !ok {
      StoppedFirst(old(h.entries), h.entries, whole, Data(if broken then "" else FaultText(fault)));
    }
  }

  // ---------- completeness ----------

  /** Names of the kind `BaseOf` gives: no separator inside, or the root. */
  predicate BaseLike(base: string) {
    base == "/" || '/' !in base
  }

  lemma JoinInjective(p: Path, q: Path)
    requires p != [] && q != []
    requires (forall i :: 0 <= i < |p| ==> '/' !in p[i]) && (forall i :: 0 <= i < |q| ==> '/' !in q[i])
    requires Join(p, '/') == Join(q, '/')
    ensures p == q
  {
    SplitJoin(p, '/');
    SplitJoin(q, '/');
  }

  lemma EntryNameInjective(base: string, p: Path, q: Path)
    requires BaseLike(base) && GoodPath(p) && GoodPath(q) && p != [] && q != []
    requires EntryName(base, p) == EntryName(base, q)
    ensures p == q
  {
    if base == "." {
      JoinInjective(p, q);
    } else if base == "/" {
      assert ("/" + Join(p, '/'))[1..] == ("/" + Join(q, '/'))[1..];
      JoinInjective(p, q);
    } else {
      JoinInjective([base] + p, [base] + q);
      assert ([base] + p)[1..] == ([base] + q)[1..];
    }
  }

  ghost predicate NamesDistinct(es: seq<ZipEntry>) {
    forall i, j :: 0 <= i < j < |es| ==> es[i].name != es[j].name
  }

  /** A copied tree adds exactly its leaves that are not excluded, each once, in walk order, under
      the base of the profile's path, also when that path is a symbolic link elsewhere. */
  lemma LocalCopyComplete(dir: BackupPath, root: Path, node: Node)
    requires WellNamed(node) && node.Dir? && BaseLike(BaseOf(dir.path))
    ensures var leaves, es := Leaves(node, [], Below(dir, root)), LocalEntries(dir, root, node);
            && |es| == |leaves|
            && (forall i :: 0 <= i < |es| ==>
                  es[i] == ZipEntry(EntryName(BaseOf(dir.path), leaves[i].rel), LocalBody(leaves[i])))
            && (forall l: Leaf :: l in leaves <==>
                  At(node, l.rel) == Some(l.node) && !l.node.Dir? && !dir.excluded(root + l.rel))
            && Apart(leaves, NameOrdered(node))
            && NamesDistinct(es)
  {
    WalkMeetsLeavesOnce(node, Below(dir, root));
    LeafNamesDistinct(node, Below(dir, root), BaseOf(dir.path), LocalBody);
  }

  /** What a local copy stores of a node: a file's content, a link's target. */
  ghost predicate StoredLocally(node: Node, body: Body) {
    match node
    case File(_, content) => body == Data(content)
    case Link(_, target) => body == LinkTo(target)
    case Dir(_, _) => false
  }

  /** What a remote copy stores: a file's content, and of a link that of the file it leads to. */
  ghost predicate StoredRemotely(node: Node, to: Leads, body: Body) {
    match node
    case File(_, content) => body == Data(content)
    case Link(_, _) => to.ToFile? ==> body == Data(to.content)
    case Dir(_, _) => false
  }

  /** An entry stands for the place `rel` of the directory called `name`. */
  ghost predicate Names(e: ZipEntry, name: string, rel: Path) {
    Split(e.name, '/') == [name] + rel
  }

  lemma NamedBelow(parent: Path, name: string, rel: Path)
    requires '/' !in name && name != "." && GoodPath(rel)
    ensures Split(EntryName(BaseOf(parent + [name]), rel), '/') == [name] + rel
  {
    assert (parent + [name])[|parent + [name]| - 1] == name;
    if rel == [] {
      SplitAtom(name, '/');
    } else {
      SplitJoin([name] + rel, '/');
    }
  }

  /** The root directory has no name of its own, and a copy of `.` needs none. */
  lemma NamedWithoutBase(rel: Path)
    requires GoodPath(rel) && rel != []
    ensures Split(EntryName(BaseOf([]), rel), '/') == [""] + rel
    ensures Split(EntryName(BaseOf(["."]), rel), '/') == rel
  {
    SplitJoin(rel, '/');
    assert ["", Join(rel, '/')] == [""] + [Join(rel, '/')];
    SplitConcat("", Join(rel, '/'), '/');
    assert "" + ['/'] + Join(rel, '/') == "/" + Join(rel, '/');
  }

  /** The entries of a local copy of a directory called `name`, wherever it is: one for each file and
      link below it that is not excluded, with its place as its name and what it holds as its body. The
      directory walked, `root`, is another one when a link is followed; exclusion goes by its paths. */
  lemma LocalEntriesAre(dir: BackupPath, parent: Path, name: string, root: Path, node: Node, rel: Path, there: Node)
    requires dir.path == parent + [name] && GoodName(name) && WellNamed(node) && node.Dir?
    requires At(node, rel) == Some(there) && !there.Dir?
    ensures !dir.excluded(root + rel)
            <==> exists e :: e in LocalEntries(dir, root, node) && Names(e, name, rel) && StoredLocally(there, e.body)
    ensures dir.excluded(root + rel) ==> forall e :: e in LocalEntries(dir, root, node) ==> !Names(e, name, rel)
  {
    var leaves, es := Leaves(node, [], Below(dir, root)), LocalEntries(dir, root, node);
    WalkMeetsLeavesOnce(node, Below(dir, root));
    if !dir.excluded(root + rel) {
      assert Leaf(rel, there) in leaves;
      var i :| 0 <= i < |leaves| && leaves[i] == Leaf(rel, there);
      LeafPlace(node, Below(dir, root), leaves[i]);
      NamedBelow(parent, name, rel);
      assert es[i] in es;
    }
    forall e | e in es && Names(e, name, rel)
      ensures !dir.excluded(root + rel)
    {
      var i := LocalEntryPlace(dir, parent, name, root, node, e);
      assert ([name] + rel)[1..] == rel && ([name] + leaves[i].rel)[1..] == leaves[i].rel;
    }
  }

  lemma LocalEntryPlace(dir: BackupPath, parent: Path, name: string, root: Path, node: Node, e: ZipEntry)
    returns (i: nat)
    requires dir.path == parent + [name] && GoodName(name) && WellNamed(node) && node.Dir?
    requires e in LocalEntries(dir, root, node)
    ensures var leaves := Leaves(node, [], Below(dir, root));
            && i < |leaves| && Names(e, name, leaves[i].rel) && StoredLocally(leaves[i].node, e.body)
            && At(node, leaves[i].rel) == Some(leaves[i].node) && !dir.excluded(root + leaves[i].rel)
  {
    var leaves := Leaves(node, [], Below(dir, root));
    i :| 0 <= i < |leaves| && LocalEntries(dir, root, node)[i] == e;
    WalkMeetsLeavesOnce(node, Below(dir, root));
    assert leaves[i] in leaves;
    LeafPlace(node, Below(dir, root), leaves[i]);
    NamedBelow(parent, name, leaves[i].rel);
  }

  /** The same for a remote copy, which reads the files that links lead to. */
  lemma RemoteEntriesAre(dir: BackupPath, parent: Path, name: string, node: Node, follow: Follow, rel: Path,
                         there: Node)
    requires dir.path == parent + [name] && GoodName(name) && WellNamed(node) && node.Dir?
    requires At(node, rel) == Some(there) && !there.Dir? && !dir.excluded(dir.path + rel)
    ensures exists e :: e in RemoteEntries(dir, node, follow) && Names(e, name, rel)
                        && StoredRemotely(there, follow(rel), e.body)
  {
    var leaves, es := Leaves(node, [], Below(dir, dir.path)), RemoteEntries(dir, node, follow);
    WalkMeetsLeavesOnce(node, Below(dir, dir.path));
    assert Leaf(rel, there) in leaves;
    var i :| 0 <= i < |leaves| && leaves[i] == Leaf(rel, there);
    LeafPlace(node, Below(dir, dir.path), leaves[i]);
    NamedBelow(parent, name, rel);
    assert es[i] in es;
  }

  /** Which directory a local copy walks: the one at its path, or the one a symbolic link there leads
      to, and nothing else. */
  lemma RootsWalked(path: Path, actual: Path, node: Node)
    ensures WalkedRoot(path, Plain(node)) == if node.Dir? then Some((path, node)) else None
    ensures WalkedRoot(path, Symlink(Some((actual, node)))) == if node.Dir? then Some((actual, node)) else None
    ensures WalkedRoot(path, Symlink(None)).None? && WalkedRoot(path, Unreadable).None?
  {
  }

  lemma LeafNamesDistinct(node: Node, excluded: Path -> bool, base: string, body: Leaf -> Body)
    requires WellNamed(node) && node.Dir? && BaseLike(base)
    ensures NamesDistinct(EntriesOf(base, body, Leaves(node, [], excluded)))
  {
    var leaves := Leaves(node, [], excluded);
    WalkMeetsLeavesOnce(node, excluded);
    forall i, j | 0 <= i < j < |leaves|
      ensures EntryName(base, leaves[i].rel) != EntryName(base, leaves[j].rel)
    {
      LeafPlace(node, excluded, leaves[i]);
      LeafPlace(node, excluded, leaves[j]);
      if EntryName(base, leaves[i].rel) == EntryName(base, leaves[j].rel) {
        EntryNameInjective(base, leaves[i].rel, leaves[j].rel);
      }
    }
  }

  lemma LeafPlace(node: Node, excluded: Path -> bool, l: Leaf)
    requires WellNamed(node) && node.Dir? && l in Leaves(node, [], excluded)
    ensures GoodPath(l.rel) && l.rel != []
  {
    WalkMeetsLeavesOnce(node, excluded);
    PlaceIsGood(node, l.rel);
  }

  // ---------- local and remote copies ----------

  /** Some symbolic link of the tree is not excluded. */
  ghost predicate CopiesLink(node: Node, excluded: Path -> bool) {
    exists l :: l in Leaves(node, [], excluded) && l.node.Link?
  }

  lemma {:induction false} DistinctMultiplicity(es: seq<ZipEntry>, e: ZipEntry)
    requires NamesDistinct(es)
    ensures multiset(es)[e] == if e in es then 1 else 0
  {
    if es != [] {
      var front, last := es[..|es| - 1], es[|es| - 1];
      DistinctMultiplicity(front, e);
      assert es == front + [last];
      assert forall i :: 0 <= i < |front| ==> front[i].name == es[i].name != last.name;
    }
  }

  lemma SameEntries(a: seq<ZipEntry>, b: seq<ZipEntry>)
    requires NamesDistinct(a) && NamesDistinct(b)
    requires forall e :: e in a <==> e in b
    ensures multiset(a) == multiset(b)
  {
    forall e: ZipEntry
      ensures multiset(a)[e] == multiset(b)[e]
    {
      DistinctMultiplicity(a, e);
      DistinctMultiplicity(b, e);
    }
  }

  lemma SameLeaves(a: Node, b: Node, excluded: Path -> bool, l: Leaf)
    requires WellNamed(a) && WellNamed(b) && SameTree(a, b)
    ensures l in Leaves(a, [], excluded) <==> l in Leaves(b, [], excluded)
  {
    WalkMeetsLeavesOnce(a, excluded);
    WalkMeetsLeavesOnce(b, excluded);
    if !l.node.Dir? {
      SameLeafAt(a, b, l.rel, l.node);
    }
  }

  lemma LinkIsLocalOnly(base: string, la: seq<Leaf>, lb: seq<Leaf>, follow: Follow, l: Leaf)
    requires l in la && l.node.Link?
    ensures multiset(EntriesOf(base, LocalBody, la)) != multiset(EntriesOf(base, l => RemoteBody(follow, l), lb))
  {
    var local, remote := EntriesOf(base, LocalBody, la), EntriesOf(base, l => RemoteBody(follow, l), lb);
    var i :| 0 <= i < |la| && la[i] == l;
    assert local[i] == ZipEntry(EntryName(base, l.rel), LinkTo(l.node.target));
    assert local[i] in multiset(local) && local[i] !in remote;
    assert local[i] !in multiset(remote);
  }

  /** A local and a remote copy of the same directory, listed in any order, put the same entries into
      the archive exactly when no symbolic link below it is copied. */
  lemma LocalAndRemoteAgree(dir: BackupPath, a: Node, b: Node, follow: Follow)
    requires WellNamed(a) && WellNamed(b) && SameTree(a, b) && a.Dir? && BaseLike(BaseOf(dir.path))
    ensures multiset(LocalEntries(dir, dir.path, a)) == multiset(RemoteEntries(dir, b, follow))
            <==> !CopiesLink(a, Below(dir, dir.path))
  {
    var base, excluded := BaseOf(dir.path), Below(dir, dir.path);
    var local, remote := LocalEntries(dir, dir.path, a), RemoteEntries(dir, b, follow);
    var la, lb := Leaves(a, [], excluded), Leaves(b, [], excluded);
    if CopiesLink(a, excluded) {
      var l :| l in la && l.node.Link?;
      LinkIsLocalOnly(base, la, lb, follow, l);
    } else {
      LeafNamesDistinct(a, excluded, base, LocalBody);
      LeafNamesDistinct(b, excluded, base, l => RemoteBody(follow, l));
      forall e
        ensures e in local <==> e in remote
      {
        CopiedAlike(dir, a, b, follow, e);
      }
      SameEntries(local, remote);
    }
  }

  /** A root that is itself a symbolic link to a directory is followed by a local copy only. The remote
      copy meets it as a single leaf, and, as a directory cannot be read as a file, goes through only
      when the root path is excluded, adding nothing. */
  lemma RemoteRootLink(dir: BackupPath, name: string, target: string, follow: Follow, faults: CopyFaults)
    requires follow([]).ToDirectory?
    ensures var link, excluded := Link(name, target), Below(dir, dir.path);
            && (Smooth(link, [], excluded, faults, RemoteLeafOk(faults, follow))
                <==> !faults.readFails([]) && dir.excluded(dir.path))
            && (dir.excluded(dir.path) ==> RemoteEntries(dir, link, follow) == [])
  {
    assert dir.path + [] == dir.path;
  }

  lemma CopiedAlike(dir: BackupPath, a: Node, b: Node, follow: Follow, e: ZipEntry)
    requires WellNamed(a) && WellNamed(b) && SameTree(a, b) && !CopiesLink(a, Below(dir, dir.path))
    ensures e in LocalEntries(dir, dir.path, a) <==> e in RemoteEntries(dir, b, follow)
  {
    var base, excluded := BaseOf(dir.path), Below(dir, dir.path);
    var local, remote := LocalEntries(dir, dir.path, a), RemoteEntries(dir, b, follow);
    var la, lb := Leaves(a, [], excluded), Leaves(b, [], excluded);
    forall l: Leaf
      ensures l in la <==> l in lb
    {
      SameLeaves(a, b, excluded, l);
    }
    WalkMeetsLeavesOnce(a, excluded);
    assert forall l :: l in la ==> l.node.File?;
    var body := l => RemoteBody(follow, l);
    if e in local {
      EntryCarriesOver(base, LocalBody, body, la, lb, e);
    }
    if e in remote {
      EntryCarriesOver(base, body, LocalBody, lb, la, e);
    }
  }

  lemma EntryCarriesOver(base: string, f: Leaf -> Body, g: Leaf -> Body, from: seq<Leaf>, to: seq<Leaf>, e: ZipEntry)
    requires e in EntriesOf(base, f, from)
    requires forall l :: l in from ==> l in to && f(l) == g(l)
    ensures e in EntriesOf(base, g, to)
  {
    var i :| 0 <= i < |from| && EntriesOf(base, f, from)[i] == e;
    var j :| 0 <= j < |to| && to[j] == from[i];
    assert EntriesOf(base, g, to)[j] == e;
  }
}
