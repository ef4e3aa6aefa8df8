/** `WalkDir` over ssh: a recursive walk driven by a user callback that may ask to skip or to stop,
    and that is called a second time when listing a directory fails. */
module SshWalk {
  import opened Text

  /** What the remote side shows. Listing a directory may give entries together with an error. */
  datatype Node =
    | FileNode(name: string)
    | DirNode(name: string, listed: seq<Node>, listError: Option<string>)

  /** Paths as their components; joining a name adds one. */
  type Path = seq<string>

  /** One call of the user's function. `isDir` is `None` when there is no file info. */
  datatype Call = Call(path: Path, isDir: Option<bool>, error: Option<string>)

  datatype Signal = Continue | Skip | Abort(error: string)

  /** A callback with memory: what it answers may depend on all calls before. */
  type Callback = (seq<Call>, Call) -> Signal

  datatype Outcome = Outcome(calls: seq<Call>, signal: Signal)

  // ---------- the recursive walk ----------

  function VisitCall(path: Path, d: Node): Call {
    Call(path, Some(d.DirNode?), None)
  }

  function ErrorCall(path: Path, d: Node): Call
    requires d.DirNode?
  {
    Call(path, Some(true), d.listError)
  }

  function Walk(fn: Callback, calls: seq<Call>, path: Path, d: Node): Outcome
    decreases d, 1
  {
    var s := fn(calls, VisitCall(path, d));
    var calls' := calls + [VisitCall(path, d)];
    if d.FileNode? then Outcome(calls', s)
    else if s.Skip? then Outcome(calls', Continue)
    else if s.Abort? then Outcome(calls', s)
    else if d.listError.Some? then
      var s' := fn(calls', ErrorCall(path, d));
      var calls'' := calls' + [ErrorCall(path, d)];
      if !s'.Continue? then Outcome(calls'', s') else WalkAll(fn, calls'', path, d.listed)
    else WalkAll(fn, calls', path, d.listed)
  }

  function WalkAll(fn: Callback, calls: seq<Call>, path: Path, nodes: seq<Node>): Outcome
    decreases nodes, 0
  {
    if nodes == [] then Outcome(calls, Continue)
    else
      var out := Walk(fn, calls, path + [nodes[0].name], nodes[0]);
      match out.signal
      case Skip => Outcome(out.calls, Continue)
      case Abort(_) => out
      case Continue => WalkAll(fn, out.calls, path, nodes[1..])
  }

  /** The whole walk: the skip signal never leaves it. */
  function WalkDirSpec(fn: Callback, root: Path, stat: Result<Node, string>): Outcome {
    var out := match stat
      case Err(e) => Outcome([Call(root, None, Some(e))], fn([], Call(root, None, Some(e))))
      case Ok(d) => Walk(fn, [], root, d);
    if out.signal.Skip? then out.(signal := Continue) else out
  }

  class Walker {
    const fn: Callback
    var calls: seq<Call>

    constructor (fn: Callback)
      ensures this.fn == fn && calls == []
    {
      this.fn := fn;
      calls := [];
    }

    method UserFn(call: Call) returns (s: Signal)
      modifies this
      ensures s == fn(old(calls), call) && calls == old(calls) + [call]
    {
      s := fn(calls, call);
      calls := calls + [call];
    }

    method WalkNode(path: Path, d: Node) returns (err: Signal)
      modifies this
      ensures Outcome(calls, err) == Walk(fn, old(calls), path, d)
      decreases d
    {
      err := UserFn(VisitCall(path, d));
      if !err.Continue? || d.FileNode? {
        if err.Skip? && d.DirNode? {
          err := Continue;
        }
        return err;
      }
      if d.listError.Some? {
        err := UserFn(ErrorCall(path, d));
        if !err.Continue? {
          return err;
        }
      }
      ghost var before := calls;
      for i := 0 to |d.listed|
        invariant WalkAll(fn, before, path, d.listed) == WalkAll(fn, calls, path, d.listed[i..])
      {
        var d1 := d.listed[i];
        assert d.listed[i..][0] == d1 && d.listed[i..][1..] == d.listed[i + 1..];
        err := WalkNode(path + [d1.name], d1);
        if !err.Continue? {
          if err.Skip? {
            err := Continue;
            break;
          }
          return err;
        }
      }
      err := Continue;
    }

    method WalkDir(root: Path, stat: Result<Node, string>) returns (err: Signal)
      requires calls == []
      modifies this
      ensures Outcome(calls, err) == WalkDirSpec(fn, root, stat)
      ensures !err.Skip?
    {
      match stat {
        case Err(e) =>
          err := UserFn(Call(root, None, Some(e)));
        case Ok(d) =>
          err := WalkNode(root, d);
      }
      if err.Skip? {
        err := Continue;
      }
    }
  }

  // ---------- the pruned preorder ----------

  /** One possible call, and where the walk resumes when the callback answers `Skip`. */
  datatype Step = Step(call: Call, skipTo: nat)

  function Size(d: Node): (n: nat)
    ensures n >= 1
    decreases d, 1
  {
    match d
    case FileNode(_) => 1
    case DirNode(_, listed, listError) => (if listError.Some? then 2 else 1) + SizeAll(listed)
  }

  function SizeAll(nodes: seq<Node>): nat
    decreases nodes, 0
  {
    if nodes == [] then 0 else Size(nodes[0]) + SizeAll(nodes[1..])
  }

  /** All possible calls below a node in preorder, the first at position `at`. Skipping from a
      directory's first call resumes after its subtree; skipping from a file, or from the call that
      reports a listing error, resumes at `end`, after all remaining siblings. */
  function Preorder(path: Path, d: Node, at: nat, end: nat): (steps: seq<Step>)
    ensures |steps| == Size(d)
    decreases d, 1
  {
    match d
    case FileNode(_) => [Step(VisitCall(path, d), end)]
    case DirNode(_, listed, listError) =>
      var after := at + Size(d);
      if listError.Some? then
        [Step(VisitCall(path, d), after), Step(ErrorCall(path, d), end)] + PreorderAll(path, listed, at + 2, after)
      else
        [Step(VisitCall(path, d), after)] + PreorderAll(path, listed, at + 1, after)
  }

  function PreorderAll(path: Path, nodes: seq<Node>, at: nat, end: nat): (steps: seq<Step>)
    ensures |steps| == SizeAll(nodes)
    decreases nodes, 0
  {
    if nodes == [] then []
    else Preorder(path + [nodes[0].name], nodes[0], at, end) + PreorderAll(path, nodes[1..], at + Size(nodes[0]), end)
  }

  function RootPreorder(root: Path, stat: Result<Node, string>): seq<Step> {
    match stat
    case Err(e) => [Step(Call(root, None, Some(e)), 1)]
    case Ok(d) => Preorder(root, d, 0, Size(d))
  }

  /** Run along a list of steps: no recursion over the tree, only jumps forward. */
  function Follow(fn: Callback, calls: seq<Call>, steps: seq<Step>, at: nat): Outcome
    decreases if at < |steps| then |steps| - at else 0
  {
    if at >= |steps| then Outcome(calls, Continue)
    else
      var call := steps[at].call;
      match fn(calls, call)
      case Continue => Follow(fn, calls + [call], steps, at + 1)
      case Skip =>
        if steps[at].skipTo <= at then Outcome(calls + [call], Continue)
        else Follow(fn, calls + [call], steps, steps[at].skipTo)
      case Abort(e) => Outcome(calls + [call], Abort(e))
  }

  ghost predicate Holds(steps: seq<Step>, part: seq<Step>, at: nat) {
    at + |part| <= |steps| && steps[at..at + |part|] == part
  }

  lemma HoldsParts(steps: seq<Step>, a: seq<Step>, b: seq<Step>, at: nat)
    requires Holds(steps, a + b, at)
    ensures Holds(steps, a, at) && Holds(steps, b, at + |a|)
  {
    assert steps[at..at + |a|] == (a + b)[..|a|] == a;
    assert steps[at + |a|..at + |a| + |b|] == (a + b)[|a|..] == b;
  }

  /** Where following the steps goes on after the walk of a node or of a listing has ended. */
  function Resume(fn: Callback, out: Outcome, steps: seq<Step>, next: nat, end: nat): Outcome {
    match out.signal
    case Continue => Follow(fn, out.calls, steps, next)
    case Skip => Follow(fn, out.calls, steps, end)
    case Abort(_) => out
  }

  lemma HoldsFirst(steps: seq<Step>, first: Step, rest: seq<Step>, at: nat)
    requires Holds(steps, [first] + rest, at)
    ensures steps[at] == first && Holds(steps, rest, at + 1)
  {
    HoldsParts(steps, [first], rest, at);
    assert steps[at] == steps[at..at + 1][0];
  }

  lemma FileFollows(fn: Callback, calls: seq<Call>, path: Path, d: Node, steps: seq<Step>, at: nat, end: nat)
    requires d.FileNode? && at < end && at < |steps| && steps[at] == Step(VisitCall(path, d), end)
    ensures Follow(fn, calls, steps, at) == Resume(fn, Walk(fn, calls, path, d), steps, at + 1, end)
  {
  }

  /** A directory that lists without error: its call, then its listing. */
  lemma ListingFollows(fn: Callback, calls: seq<Call>, path: Path, d: Node, steps: seq<Step>, at: nat, end: nat)
    requires d.DirNode? && d.listError.None? && at < |steps| && at + Size(d) <= end
    requires steps[at] == Step(VisitCall(path, d), at + Size(d))
    requires var out, after := WalkAll(fn, calls + [VisitCall(path, d)], path, d.listed), at + Size(d);
             !out.signal.Skip?
             && Follow(fn, calls + [VisitCall(path, d)], steps, at + 1) == Resume(fn, out, steps, after, after)
    ensures Follow(fn, calls, steps, at) == Resume(fn, Walk(fn, calls, path, d), steps, at + Size(d), end)
  {
  }

  /** A directory that lists with an error: its two calls, then what was listed. */
  lemma ErrorFollows(fn: Callback, calls: seq<Call>, path: Path, d: Node, steps: seq<Step>, at: nat, end: nat)
    requires d.DirNode? && d.listError.Some? && at + 1 < |steps| && at + Size(d) <= end
    requires steps[at] == Step(VisitCall(path, d), at + Size(d)) && steps[at + 1] == Step(ErrorCall(path, d), end)
    requires var calls' := calls + [VisitCall(path, d)] + [ErrorCall(path, d)];
             var out, after := WalkAll(fn, calls', path, d.listed), at + Size(d);
             !out.signal.Skip? && Follow(fn, calls', steps, at + 2) == Resume(fn, out, steps, after, after)
    ensures Follow(fn, calls, steps, at) == Resume(fn, Walk(fn, calls, path, d), steps, at + Size(d), end)
  {
    var calls', s := calls + [VisitCall(path, d)], fn(calls, VisitCall(path, d));
    if s.Continue? {
      assert Follow(fn, calls, steps, at) == Follow(fn, calls', steps, at + 1);
    }
  }

  lemma {:induction false} WalkFollows(fn: Callback, calls: seq<Call>, path: Path, d: Node,
                                       steps: seq<Step>, at: nat, end: nat)
    requires at + Size(d) <= end && Holds(steps, Preorder(path, d, at, end), at)
    ensures Follow(fn, calls, steps, at) == Resume(fn, Walk(fn, calls, path, d), steps, at + Size(d), end)
    decreases d, 1
  {
    var calls', after := calls + [VisitCall(path, d)], at + Size(d);
    if d.FileNode? {
      HoldsFirst(steps, Step(VisitCall(path, d), end), [], at);
      FileFollows(fn, calls, path, d, steps, at, end);
    } else if d.listError.Some? {
      var below := PreorderAll(path, d.listed, at + 2, after);
      var first, second := Step(VisitCall(path, d), after), Step(ErrorCall(path, d), end);
      assert [first, second] + below == [first] + ([second] + below);
      HoldsFirst(steps, first, [second] + below, at);
      HoldsFirst(steps, second, below, at + 1);
      WalkAllFollows(fn, calls' + [ErrorCall(path, d)], path, d.listed, steps, at + 2, after);
      ErrorFollows(fn, calls, path, d, steps, at, end);
    } else {
      HoldsFirst(steps, Step(VisitCall(path, d), after), PreorderAll(path, d.listed, at + 1, after), at);
      WalkAllFollows(fn, calls', path, d.listed, steps, at + 1, after);
      ListingFollows(fn, calls, path, d, steps, at, end);
    }
  }

  lemma {:induction false} WalkAllFollows(fn: Callback, calls: seq<Call>, path: Path, nodes: seq<Node>,
                                          steps: seq<Step>, at: nat, end: nat)
    requires at + SizeAll(nodes) == end && Holds(steps, PreorderAll(path, nodes, at, end), at)
    ensures !WalkAll(fn, calls, path, nodes).signal.Skip?
    ensures Follow(fn, calls, steps, at) == Resume(fn, WalkAll(fn, calls, path, nodes), steps, end, end)
    decreases nodes, 0
  {
    if nodes != [] {
      var d, at' := nodes[0], at + Size(nodes[0]);
      var out := Walk(fn, calls, path + [d.name], d);
      HoldsParts(steps, Preorder(path + [d.name], d, at, end), PreorderAll(path, nodes[1..], at', end), at);
      WalkFollows(fn, calls, path + [d.name], d, steps, at, end);
      if out.signal.Continue? {
        WalkAllFollows(fn, out.calls, path, nodes[1..], steps, at', end);
      }
    }
  }

  /** The recursive walk makes the calls, in the order and with the answers, of following the
      preorder with its skip targets; and it never returns the skip signal. */
  lemma WalkIsPrunedPreorder(fn: Callback, root: Path, stat: Result<Node, string>)
    ensures WalkDirSpec(fn, root, stat) == Follow(fn, [], RootPreorder(root, stat), 0)
    ensures !WalkDirSpec(fn, root, stat).signal.Skip?
  {
    var steps := RootPreorder(root, stat);
    match stat
    case Err(e) =>
      assert [] + [Call(root, None, Some(e))] == [Call(root, None, Some(e))];
    case Ok(d) =>
      assert Holds(steps, Preorder(root, d, 0, Size(d)), 0);
      WalkFollows(fn, [], root, d, steps, 0, Size(d));
  }

  // ---------- what the skip targets mean ----------

  /** Names within a listing are distinct. */
  predicate WellNamed(d: Node)
    decreases d, 1
  {
    d.DirNode? ==> WellNamedAll(d.listed)
  }

  predicate WellNamedAll(nodes: seq<Node>)
    decreases nodes, 0
  {
    nodes != [] ==>
      && WellNamed(nodes[0]) && WellNamedAll(nodes[1..])
      && forall i :: 1 <= i < |nodes| ==> nodes[i].name != nodes[0].name
  }

  /** The first of possibly two calls on a directory. */
  predicate OpensDir(call: Call) {
    call.isDir == Some(true) && call.error == None
  }

  /** The path whose subtree a skip at this call gives up: its own for a directory's first call,
      its parent's for a file and for the call that reports a listing error. */
  function Pruned(call: Call): Path
    requires call.path != []
  {
    if OpensDir(call) then call.path else call.path[..|call.path| - 1]
  }

  /** Of the positions after `p`, a skip at `p` jumps over exactly those whose path lies in the
      subtree given up. */
  ghost predicate PrunesSubtree(steps: seq<Step>, at: nat, p: nat, q: nat)
    requires p < |steps| && q < |steps|
  {
    && steps[p].call.path != []
    && (at + q < steps[p].skipTo <==> Pruned(steps[p].call) <= steps[q].call.path)
  }

  /** A skip at this step gives up the siblings of the node at `path` as well. */
  predicate Reaches(s: Step, path: Path) {
    s.call.path == path && !OpensDir(s.call)
  }

  ghost predicate NodeSteps(steps: seq<Step>, path: Path, at: nat, end: nat) {
    && (forall p :: 0 <= p < |steps| ==> path <= steps[p].call.path)
    && (forall p :: 0 <= p < |steps| && Reaches(steps[p], path) ==> steps[p].skipTo == end)
    && (forall p :: 0 <= p < |steps| && !Reaches(steps[p], path) ==> at + p < steps[p].skipTo <= at + |steps|)
    && (forall p, q :: 0 <= p < q < |steps| ==> PrunesSubtree(steps, at, p, q))
  }

  ghost predicate ListSteps(steps: seq<Step>, path: Path, nodes: seq<Node>, at: nat) {
    && (forall p :: 0 <= p < |steps| ==>
          path <= steps[p].call.path && |steps[p].call.path| > |path| && Listed(nodes, steps[p].call.path[|path|]))
    && (forall p :: 0 <= p < |steps| ==> at + p < steps[p].skipTo <= at + |steps|)
    && (forall p, q :: 0 <= p < q < |steps| ==> PrunesSubtree(steps, at, p, q))
  }

  predicate Listed(nodes: seq<Node>, name: string) {
    exists i :: 0 <= i < |nodes| && nodes[i].name == name
  }

  lemma FileSteps(path: Path, d: Node, at: nat, end: nat)
    requires d.FileNode?
    ensures NodeSteps([Step(VisitCall(path, d), end)], path, at, end)
  {
  }

  lemma {:induction false} NodeStepsHold(path: Path, d: Node, at: nat, end: nat)
    requires path != [] && WellNamed(d) && at + Size(d) <= end
    ensures NodeSteps(Preorder(path, d, at, end), path, at, end)
    decreases d, 1
  {
    if d.FileNode? {
      FileSteps(path, d, at, end);
    } else {
      var n := if d.listError.Some? then 2 else 1;
      ListStepsHold(path, d.listed, at + n, at + Size(d));
      DirSteps(path, d, n, at, end);
    }
  }

  lemma DirSteps(path: Path, d: Node, n: nat, at: nat, end: nat)
    requires path != [] && d.DirNode? && n == (if d.listError.Some? then 2 else 1) && at + Size(d) <= end
    requires ListSteps(PreorderAll(path, d.listed, at + n, at + Size(d)), path, d.listed, at + n)
    ensures NodeSteps(Preorder(path, d, at, end), path, at, end)
  {
    var own, below := OwnSteps(path, d, at, end), PreorderAll(path, d.listed, at + n, at + Size(d));
    assert Preorder(path, d, at, end) == own + below;
    NodeStepsJoin(own, below, path, d.listed, at, end);
  }

  /** The steps of a directory's own one or two calls. */
  function OwnSteps(path: Path, d: Node, at: nat, end: nat): (own: seq<Step>)
    requires d.DirNode?
    ensures |own| == if d.listError.Some? then 2 else 1
    ensures forall p :: 0 <= p < |own| ==> own[p].call.path == path && (OpensDir(own[p].call) <==> p == 0)
    ensures own[0].skipTo == at + Size(d) && (|own| == 2 ==> own[1].skipTo == end)
  {
    var open := Step(VisitCall(path, d), at + Size(d));
    if d.listError.Some? then [open, Step(ErrorCall(path, d), end)] else [open]
  }

  /** A directory's own calls in front of those of its listing. */
  lemma NodeStepsJoin(own: seq<Step>, below: seq<Step>, path: Path, nodes: seq<Node>, at: nat, end: nat)
    requires path != [] && 1 <= |own| <= 2 && ListSteps(below, path, nodes, at + |own|)
    requires forall p :: 0 <= p < |own| ==> own[p].call.path == path && (OpensDir(own[p].call) <==> p == 0)
    requires own[0].skipTo == at + |own| + |below| <= end && (|own| == 2 ==> own[1].skipTo == end)
    ensures NodeSteps(own + below, path, at, end)
  {
    var steps, n := own + below, |own|;
    forall p, q | 0 <= p < q < |steps|
      ensures PrunesSubtree(steps, at, p, q)
    {
      if p >= n {
        assert PrunesSubtree(below, at + n, p - n, q - n);
      } else {
        assert path <= steps[q].call.path;
      }
    }
  }

  lemma {:induction false} ListStepsHold(path: Path, nodes: seq<Node>, at: nat, end: nat)
    requires path != [] && WellNamedAll(nodes) && at + SizeAll(nodes) == end
    ensures ListSteps(PreorderAll(path, nodes, at, end), path, nodes, at)
    decreases nodes, 0
  {
    if nodes != [] {
      var first := path + [nodes[0].name];
      var a := Preorder(first, nodes[0], at, end);
      var b := PreorderAll(path, nodes[1..], at + |a|, end);
      NodeStepsHold(first, nodes[0], at, end);
      ListStepsHold(path, nodes[1..], at + |a|, end);
      ListStepsJoin(a, b, path, nodes, at, end);
    }
  }

  lemma ListStepsJoin(a: seq<Step>, b: seq<Step>, path: Path, nodes: seq<Node>, at: nat, end: nat)
    requires path != [] && nodes != [] && WellNamedAll(nodes)
    requires NodeSteps(a, path + [nodes[0].name], at, end) && ListSteps(b, path, nodes[1..], at + |a|)
    requires end == at + |a| + |b|
    ensures ListSteps(a + b, path, nodes, at)
  {
    var steps, first := a + b, path + [nodes[0].name];
    forall p | 0 <= p < |steps|
      ensures path <= steps[p].call.path && |steps[p].call.path| > |path| && Listed(nodes, steps[p].call.path[|path|])
    {
      if p < |a| {
        assert first <= steps[p].call.path;
        assert steps[p].call.path[|path|] == nodes[0].name;
      } else {
        assert steps[p] == b[p - |a|];
        var i :| 0 <= i < |nodes[1..]| && nodes[1..][i].name == steps[p].call.path[|path|];
        assert nodes[i + 1].name == steps[p].call.path[|path|];
      }
    }
    forall p, q | 0 <= p < q < |steps|
      ensures PrunesSubtree(steps, at, p, q)
    {
      if q < |a| {
        assert PrunesSubtree(a, at, p, q);
      } else if p >= |a| {
        assert PrunesSubtree(b, at + |a|, p - |a|, q - |a|);
      } else {
        PruneAcross(a[p], b[q - |a|], path, nodes);
      }
    }
  }

  /** A skip below one sibling reaches the next ones only from that sibling's own file or
      listing-error call. */
  lemma PruneAcross(s: Step, t: Step, path: Path, nodes: seq<Node>)
    requires nodes != [] && WellNamedAll(nodes)
    requires path + [nodes[0].name] <= s.call.path
    requires path <= t.call.path && |t.call.path| > |path| && Listed(nodes[1..], t.call.path[|path|])
    ensures Pruned(s.call) <= t.call.path <==> Reaches(s, path + [nodes[0].name])
  {
  }

  /** In the preorder of a whole tree, a skip from a directory's first call jumps over exactly the
      later calls inside that directory; a skip from a file or from a listing-error call jumps over
      exactly the later calls inside the parent directory. */
  lemma SkipsPruneSubtrees(root: Path, d: Node, p: nat, q: nat)
    requires root != [] && WellNamed(d) && p < q < Size(d)
    ensures var steps := RootPreorder(root, Ok(d));
            && steps[p].call.path != []
            && (q < steps[p].skipTo <==> Pruned(steps[p].call) <= steps[q].call.path)
  {
    NodeStepsHold(root, d, 0, Size(d));
    assert PrunesSubtree(RootPreorder(root, Ok(d)), 0, p, q);
  }

  // ---------- what the callback is told ----------

  /** `there` is the node at the place `rel` of the tree below `d`. */
  ghost predicate IsAt(d: Node, rel: Path, there: Node)
    decreases |rel|
  {
    if rel == [] then there == d
    else d.DirNode? && exists i :: 0 <= i < |d.listed| && d.listed[i].name == rel[0]
                                   && IsAt(d.listed[i], rel[1..], there)
  }

  /** A call tells of the node at its place: of a file that it is one; of a directory that it is one,
      and, when it is the second call on a directory that could not be listed properly, why. */
  ghost predicate Tells(call: Call, there: Node) {
    match there
    case FileNode(_) => call.isDir == Some(false) && call.error == None
    case DirNode(_, _, listError) => call.isDir == Some(true) && (call.error == None || call.error == listError)
  }

  ghost predicate TellsBelow(call: Call, path: Path, d: Node, rel: Path, there: Node) {
    call.path == path + rel && IsAt(d, rel, there) && Tells(call, there)
  }

  lemma {:induction false} StepTells(path: Path, d: Node, at: nat, end: nat, p: nat) returns (rel: Path, there: Node)
    requires p < Size(d)
    ensures TellsBelow(Preorder(path, d, at, end)[p].call, path, d, rel, there)
    decreases d, 1
  {
    var n := if d.FileNode? then 0 else if d.listError.Some? then 2 else 1;
    if p < n || d.FileNode? {
      rel, there := [], d;
      assert path + [] == path;
    } else {
      var below := PreorderAll(path, d.listed, at + n, at + Size(d));
      assert Preorder(path, d, at, end)[p] == below[p - n];
      var i, rel' := 0, [];
      i, rel', there := ListStepTells(path, d.listed, at + n, at + Size(d), p - n);
      rel := [d.listed[i].name] + rel';
      assert rel[1..] == rel';
      assert path + [d.listed[i].name] + rel' == path + rel;
    }
  }

  lemma {:induction false} ListStepTells(path: Path, nodes: seq<Node>, at: nat, end: nat, p: nat)
    returns (i: nat, rel: Path, there: Node)
    requires p < SizeAll(nodes)
    ensures i < |nodes|
    ensures TellsBelow(PreorderAll(path, nodes, at, end)[p].call, path + [nodes[i].name], nodes[i], rel, there)
    decreases nodes, 0
  {
    var first := Size(nodes[0]);
    if p < first {
      i := 0;
      rel, there := StepTells(path + [nodes[0].name], nodes[0], at, end, p);
    } else {
      i, rel, there := ListStepTells(path, nodes[1..], at + first, end, p - first);
      i := i + 1;
    }
  }

  /** Every call a walk makes tells the truth about a node of the tree. */
  lemma CallsTell(fn: Callback, root: Path, d: Node, k: nat) returns (rel: Path, there: Node)
    requires root != [] && WellNamed(d) && k < |WalkDirSpec(fn, root, Ok(d)).calls|
    ensures TellsBelow(WalkDirSpec(fn, root, Ok(d)).calls[k], root, d, rel, there)
  {
    var trail := WalkTrail(fn, root, d);
    rel, there := StepTells(root, d, 0, Size(d), trail[k]);
  }

  /** The calls on a single node: a file is told of once, a directory before anything below it, and a
      listing error right after that; a root that cannot be read is told of with its error alone. */
  lemma OwnCalls(path: Path, d: Node, at: nat, end: nat, root: Path, error: string)
    ensures Preorder(path, d, at, end)[0].call == Call(path, Some(d.DirNode?), None)
    ensures d.DirNode? && d.listError.Some? ==>
              Preorder(path, d, at, end)[1].call == Call(path, Some(true), d.listError)
    ensures RootPreorder(root, Err(error)) == [Step(Call(root, None, Some(error)), 1)]
  {
  }

  /** The positions at which following the steps makes its calls. */
  ghost predicate Trail(fn: Callback, steps: seq<Step>, at: seq<nat>, out: Outcome) {
    && |at| == |out.calls|
    && (forall k :: 0 <= k < |at| ==> at[k] < |steps| && out.calls[k] == steps[at[k]].call)
    && (at != [] ==> at[0] == 0)
    && (forall k :: 0 <= k < |at| - 1 ==> LeadsTo(fn, steps, out.calls[..k], out.calls[k], at[k], at[k + 1]))
  }

  /** The answer to a call made at one position leads to the next one. */
  ghost predicate LeadsTo(fn: Callback, steps: seq<Step>, before: seq<Call>, call: Call, from: nat, to: nat)
    requires from < |steps|
  {
    match fn(before, call)
    case Continue => to == from + 1
    case Skip => to == steps[from].skipTo
    case Abort(_) => false
  }

  ghost predicate Ends(fn: Callback, steps: seq<Step>, at: seq<nat>, out: Outcome)
    requires |at| == |out.calls| && forall k :: 0 <= k < |at| ==> at[k] < |steps|
  {
    if at == [] then steps == [] && out.signal == Continue
    else
      var k := |at| - 1;
      match fn(out.calls[..k], out.calls[k])
      case Continue => at[k] + 1 == |steps| && out.signal == Continue
      case Skip => steps[at[k]].skipTo >= |steps| && out.signal == Continue
      case Abort(e) => out.signal == Abort(e)
  }

  /** `next` is where the steps continue after the last call. */
  ghost predicate ContinuesAt(fn: Callback, steps: seq<Step>, at: seq<nat>, calls: seq<Call>, next: nat)
    requires |at| == |calls| && forall k :: 0 <= k < |at| ==> at[k] < |steps|
  {
    if at == [] then next == 0
    else LeadsTo(fn, steps, calls[..|calls| - 1], calls[|calls| - 1], at[|at| - 1], next)
  }

  lemma TrailExtends(fn: Callback, steps: seq<Step>, at: seq<nat>, calls: seq<Call>, next: nat, s: Signal)
    requires Trail(fn, steps, at, Outcome(calls, Continue)) && next < |steps|
    requires ContinuesAt(fn, steps, at, calls, next)
    ensures Trail(fn, steps, at + [next], Outcome(calls + [steps[next].call], s))
  {
    var calls', at' := calls + [steps[next].call], at + [next];
    forall k | 0 <= k < |at'| - 1
      ensures LeadsTo(fn, steps, calls'[..k], calls'[k], at'[k], at'[k + 1])
    {
      assert calls'[..k] == calls[..k] && calls'[k] == calls[k] && at'[k] == at[k];
      if k + 1 < |at| {
        assert LeadsTo(fn, steps, calls[..k], calls[k], at[k], at[k + 1]);
      }
    }
  }

  lemma {:induction false} FollowTrail(fn: Callback, steps: seq<Step>, calls: seq<Call>, at: seq<nat>, next: nat)
    returns (trail: seq<nat>)
    requires Trail(fn, steps, at, Outcome(calls, Continue)) && ContinuesAt(fn, steps, at, calls, next)
    requires next <= |steps| && forall p :: 0 <= p < |steps| ==> p < steps[p].skipTo <= |steps|
    ensures Trail(fn, steps, trail, Follow(fn, calls, steps, next))
    ensures Ends(fn, steps, trail, Follow(fn, calls, steps, next))
    decreases |steps| - next
  {
    if next >= |steps| {
      trail := at;
    } else {
      var call := steps[next].call;
      var calls', at' := calls + [call], at + [next];
      assert calls'[..|calls|] == calls;
      match fn(calls, call) {
        case Continue =>
          TrailExtends(fn, steps, at, calls, next, Continue);
          trail := FollowTrail(fn, steps, calls', at', next + 1);
        case Skip =>
          TrailExtends(fn, steps, at, calls, next, Continue);
          trail := FollowTrail(fn, steps, calls', at', steps[next].skipTo);
        case Abort(e) =>
          TrailExtends(fn, steps, at, calls, next, Abort(e));
          trail := at';
      }
    }
  }

  /** Every walk is a forward trail through the preorder: on `Continue` it makes the very next
      possible call, on `Skip` it resumes after what is given up, and any other answer ends it with
      no further call and is its result. */
  lemma WalkTrail(fn: Callback, root: Path, d: Node) returns (trail: seq<nat>)
    requires root != [] && WellNamed(d)
    ensures var steps, out := RootPreorder(root, Ok(d)), WalkDirSpec(fn, root, Ok(d));
            Trail(fn, steps, trail, out) && Ends(fn, steps, trail, out)
  {
    var steps := RootPreorder(root, Ok(d));
    WalkIsPrunedPreorder(fn, root, Ok(d));
    NodeStepsHold(root, d, 0, Size(d));
    trail := FollowTrail(fn, steps, [], [], 0);
  }
}
