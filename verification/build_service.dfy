/**
  The build service's bookkeeping: the file-dependency graph it keeps while
  reacting to file-watcher events, the builds it starts, and the messages it
  sends to the notes service. Compiling, writing fragments and the watcher
  itself are oracles.
 */
module BuildService {
  import opened Wrappers
  import opened Digraph
  import opened Paths
  import opened Typst
  import opened Uuids
  import opened Html
  import opened Extraction
  import SystemWorld
  import Utf8
  import NotesService

  // ---------------------------------------------------------------------------
  // One build

  /** What typst produces for a main file: the exported HTML and its headings. */
  datatype Page = Page(html: seq<Html>, headings: seq<Heading>)

  /** One compilation of a main file: the accesses it makes after the main source, and its outcome. */
  datatype Compilation = Compilation(accesses: seq<SystemWorld.Access>, result: Compiled<Page>)

  /** Everything outside the build service that a build consults. */
  datatype Oracles = Oracles(
    compile: FileId -> Compilation,
    read: FileId -> SystemWorld.FileResult<seq<Utf8.Byte>>,
    hash: SystemWorld.Hasher,
    parse: UuidParser,
    pick: Pick,
    writeOk: Path -> bool)

  ghost predicate Sound(o: Oracles) {
    Chooses(o.pick)
  }

  /** `build`'s outcome: `Ok(Ok(..))`, `Ok(Err(..))`, `Err(io::Error)`, or a panic in the blocking task. */
  datatype BuildOutcome =
    | Built(output: Warned<seq<NotesService.NoteData>>, dependencies: set<FileId>)
    | Failed(errors: seq<Diagnostic>)
    | WriteFailed
    | Panicked

  /** Where a note's fragment is written: `build/<uuid>.html`. */
  function FragmentFile(buildDir: Path, id: Uuid): Path {
    Join(buildDir, Relative(Hyphenated(id) + ".html"))
  }

  /** The note data of an extracted fragment: its title, UUID and outgoing links. */
  function DataOf(n: NoteFragment, parse: UuidParser): (d: NotesService.NoteData) {
    NotesService.NoteData(n.title, n.id, FindLinks(n.fragment, parse))
  }

  /** Whether every fragment file was written. */
  predicate AllWritten(notes: seq<NoteFragment>, buildDir: Path, writeOk: Path -> bool) {
    forall k :: 0 <= k < |notes| ==> writeOk(FragmentFile(buildDir, notes[k].id))
  }

  /** The accesses of one build: the main source first, then what the compiler asks for. */
  function Reads(i: FileId, o: Oracles): seq<SystemWorld.Access> {
    [SystemWorld.ReadSource(i)] + o.compile(i).accesses
  }

  /** Whether the compilation of `i` read the file `f` (other than as its main source). */
  predicate Accessed(i: FileId, o: Oracles, f: FileId) {
    exists k :: 0 <= k < |o.compile(i).accesses| && SystemWorld.AccessedId(o.compile(i).accesses[k]) == f
  }

  /**
    `compile` through a fresh `SystemWorld`: the slots afterwards and the
    dependencies `into_dependencies` hands back.
   */
  function Track(slots: map<FileId, SystemWorld.FileSlot>, i: FileId, o: Oracles)
    : (r: (map<FileId, SystemWorld.FileSlot>, set<FileId>))
    ensures forall f :: f in r.0 <==> f in slots || f == i || Accessed(i, o, f)
    ensures forall f :: f in r.1 <==> f != i && Accessed(i, o, f)
  {
    var accesses := Reads(i, o);
    var world := SystemWorld.Compile(SystemWorld.NewWorld(i, slots), accesses, o.read, o.hash);
    CompileReads(slots, i, o);
    (world.slots, SystemWorld.IntoDependencies(world).1)
  }

  /** A file is among the reads of a build exactly when it is the main file or the compiler asked for it. */
  lemma ReadsAccessed(i: FileId, o: Oracles, f: FileId)
    ensures (exists k :: 0 <= k < |Reads(i, o)| && SystemWorld.AccessedId(Reads(i, o)[k]) == f)
            <==> f == i || Accessed(i, o, f)
  {
    var accesses := Reads(i, o);
    if f == i {
      assert SystemWorld.AccessedId(accesses[0]) == f;
    } else if Accessed(i, o, f) {
      var k :| 0 <= k < |o.compile(i).accesses| && SystemWorld.AccessedId(o.compile(i).accesses[k]) == f;
      assert accesses[k + 1] == o.compile(i).accesses[k];
    }
    if exists k :: 0 <= k < |accesses| && SystemWorld.AccessedId(accesses[k]) == f {
      var k :| 0 <= k < |accesses| && SystemWorld.AccessedId(accesses[k]) == f;
      if k > 0 {
        assert accesses[k] == o.compile(i).accesses[k - 1];
      }
    }
  }

  /** The slots and the recorded dependencies after compiling `i` through a fresh world. */
  lemma CompileReads(slots: map<FileId, SystemWorld.FileSlot>, i: FileId, o: Oracles)
    ensures var world := SystemWorld.Compile(SystemWorld.NewWorld(i, slots), Reads(i, o), o.read, o.hash);
      && (forall f :: f in world.slots <==> f in slots || f == i || Accessed(i, o, f))
      && (forall f :: f in world.dependencies <==> f != i && Accessed(i, o, f))
  {
    var w := SystemWorld.NewWorld(i, slots);
    var world := SystemWorld.Compile(w, Reads(i, o), o.read, o.hash);
    SystemWorld.CompileDependencies(w, Reads(i, o), o.read, o.hash);
    forall f ensures (f in world.slots <==> f in slots || f == i || Accessed(i, o, f))
                  && (f in world.dependencies <==> f != i && Accessed(i, o, f))
    {
      ReadsAccessed(i, o, f);
    }
  }

  /** The notes of a page: its fragments, each with its links. */
  function NoteDataOf(notes: seq<NoteFragment>, parse: UuidParser): (r: seq<NotesService.NoteData>)
    ensures |r| == |notes|
    ensures forall k :: 0 <= k < |r| ==> r[k] == DataOf(notes[k], parse)
  {
    seq(|notes|, k requires 0 <= k < |notes| => DataOf(notes[k], parse))
  }

  /** What `build` does with a compiled page: extract, then write every fragment. */
  function Publish(page: Page, warnings: seq<Diagnostic>, dependencies: set<FileId>, buildDir: Path, o: Oracles)
    : (r: BuildOutcome)
    requires Sound(o)
    ensures !r.Failed?
    ensures r.Panicked? <==> ExtractNoteFragments(page.html, page.headings, o.parse, o.pick).None?
    ensures r.Built? <==> (var notes := ExtractNoteFragments(page.html, page.headings, o.parse, o.pick);
                           notes.Some? && AllWritten(notes.value, buildDir, o.writeOk))
    ensures r.Built? ==> (r.dependencies == dependencies && r.output.warnings == warnings)
    ensures r.Built? ==> r.output.output == NoteDataOf(ExtractNoteFragments(page.html, page.headings, o.parse, o.pick).value, o.parse)
  {
    match ExtractNoteFragments(page.html, page.headings, o.parse, o.pick)
    case None => Panicked
    case Some(notes) =>
      if !AllWritten(notes, buildDir, o.writeOk) then WriteFailed
      else Built(Warned(NoteDataOf(notes, o.parse), warnings), dependencies)
  }

  /**
    `build(main_id)`: compile through a fresh `SystemWorld` over the shared
    slots, extract the note fragments, derive each note's links and write
    its fragment. Returns the slots afterwards and the outcome.
   */
  function Build(slots: map<FileId, SystemWorld.FileSlot>, buildDir: Path, i: FileId, o: Oracles)
    : (r: (map<FileId, SystemWorld.FileSlot>, BuildOutcome))
    requires Sound(o)
    ensures r.0 == Track(slots, i, o).0
    ensures r.1.Failed? <==> o.compile(i).result.Err?
    ensures r.1.Failed? ==> r.1.errors == o.compile(i).result.error
    ensures o.compile(i).result.Ok? ==> r.1 == Publish(o.compile(i).result.value.output,
      o.compile(i).result.value.warnings, Track(slots, i, o).1, buildDir, o)
  {
    var (after, dependencies) := Track(slots, i, o);
    match o.compile(i).result
    case Err(errors) => (after, Failed(errors))
    case Ok(Warned(page, warnings)) => (after, Publish(page, warnings, dependencies, buildDir, o))
  }

  // ---------------------------------------------------------------------------
  // The service's state and its handlers

  /**
    `BuildService`'s mutable part: the dependency graph, the `is_source`
    set, the shared file slots, and whether the application was told to
    shut down (`cancelled`) or the service task panicked (`crashed`).
   */
  datatype BuildState = BuildState(
    graph: Graph<FileId>,
    isSource: set<FileId>,
    slots: map<FileId, SystemWorld.FileSlot>,
    cancelled: bool,
    crashed: bool)

  /** The state after `try_build`: no graph, no sources, no slots. */
  function Initial(): (s: BuildState)
    ensures s.isSource == {} && s.graph.nodes == {} && s.slots == map[] && !s.crashed && !s.cancelled
  {
    BuildState(Empty(), {}, map[], false, false)
  }

  /** What every reachable state keeps: a well-formed graph whose every node has a slot. */
  ghost predicate Valid(s: BuildState) {
    Digraph.Valid(s.graph) && s.graph.nodes <= s.slots.Keys
  }

  /** A handler's effect: the new state and the messages sent to the notes service, in order. */
  datatype Effect = Effect(state: BuildState, sent: seq<NotesService.Message>)

  /**
    What `handle_create` does once the build of `i` has returned `slots`
    and `outcome`: on a good build `i` becomes a node with an edge to each
    dependency and the notes are created; a failed compilation only
    reports its errors; a failed write cancels the application and a panic
    ends the service task, neither sending anything.
   */
  ghost predicate CreateEffect(s: BuildState, i: FileId, slots: map<FileId, SystemWorld.FileSlot>, outcome: BuildOutcome, r: Effect) {
    && r.state.isSource == s.isSource
    && r.state.slots == slots
    && (outcome.Built? ==>
          && (forall m :: m in r.state.graph.nodes <==> m in s.graph.nodes || m == i || m in outcome.dependencies)
          && (forall e :: e in r.state.graph.edges <==> e in s.graph.edges || (e.0 == i && e.1 in outcome.dependencies))
          && r.sent == [NotesService.Created(i, Ok(outcome.output))])
    && (!outcome.Built? ==> r.state.graph == s.graph)
    && (outcome.Failed? ==> r.sent == [NotesService.Created(i, Err(outcome.errors))])
    && (r.state.cancelled <==> s.cancelled || outcome.WriteFailed?)
    && (outcome.WriteFailed? || outcome.Panicked? ==> r.sent == [])
    && (r.state.crashed <==> s.crashed || outcome.Panicked?)
  }

  /** The state change of `handle_create` for a given build result. */
  function ApplyCreate(s: BuildState, i: FileId, slots: map<FileId, SystemWorld.FileSlot>, outcome: BuildOutcome): (r: Effect)
    requires Digraph.Valid(s.graph)
    ensures Digraph.Valid(r.state.graph) && CreateEffect(s, i, slots, outcome, r)
  {
    var t := s.(slots := slots);
    match outcome
    case Built(warned, deps) =>
      Effect(t.(graph := AddEdgesOut(AddNode(s.graph, i), i, deps)), [NotesService.Created(i, Ok(warned))])
    case Failed(errors) => Effect(t, [NotesService.Created(i, Err(errors))])
    case WriteFailed => Effect(t.(cancelled := true), [])
    case Panicked => Effect(t.(crashed := true), [])
  }

  /** `handle_create(i)`: build `i` over the shared slots, then apply the outcome. */
  function HandleCreate(s: BuildState, buildDir: Path, i: FileId, o: Oracles): (r: Effect)
    requires Sound(o) && Digraph.Valid(s.graph)
    ensures Digraph.Valid(r.state.graph)
    ensures CreateEffect(s, i, Build(s.slots, buildDir, i, o).0, Build(s.slots, buildDir, i, o).1, r)
  {
    var b := Build(s.slots, buildDir, i, o);
    ApplyCreate(s, i, b.0, b.1)
  }

  /** `handle_create` keeps the invariant: a good build read `i` and every dependency, so all have slots. */
  lemma HandleCreateValid(s: BuildState, buildDir: Path, i: FileId, o: Oracles)
    requires Sound(o) && Valid(s)
    ensures Valid(HandleCreate(s, buildDir, i, o).state)
  {
  }

  /**
    The BFS part of `handle_modify`: reset the slot of every node visited
    (`slots.get_mut(&j).unwrap().reset()`); `None` is the panic of a visited
    node without a slot.
   */
  function ResetAll(slots: map<FileId, SystemWorld.FileSlot>, visited: seq<FileId>)
    : (r: Option<map<FileId, SystemWorld.FileSlot>>)
    ensures r.Some? <==> forall k :: 0 <= k < |visited| ==> visited[k] in slots
    ensures r.Some? ==> r.value.Keys == slots.Keys
    ensures r.Some? ==> forall f :: f in slots && f in visited ==> r.value[f] == SystemWorld.ResetSlot(slots[f])
    ensures r.Some? ==> forall f :: f in slots && f !in visited ==> r.value[f] == slots[f]
    decreases |visited|
  {
    if visited == [] then Some(slots)
    else
      var n := |visited| - 1;
      var j := visited[n];
      assert forall k :: 0 <= k < n ==> visited[..n][k] == visited[k];
      assert forall f :: f in visited <==> f in visited[..n] || f == j;
      match ResetAll(slots, visited[..n])
      case None => None
      case Some(reset) =>
        if j in reset then Some(reset[j := SystemWorld.ResetSlot(reset[j])]) else None
  }

  /** The visited nodes `is_source` names, in visiting order. */
  function Sources(visited: seq<FileId>, isSource: set<FileId>): (r: seq<FileId>)
    ensures forall f :: f in r <==> f in visited && f in isSource
    ensures forall k :: 0 <= k < |r| ==> r[k] in isSource
    ensures isSource == {} ==> r == []
    decreases |visited|
  {
    if visited == [] then []
    else
      var n := |visited| - 1;
      var r := Sources(visited[..n], isSource) + (if visited[n] in isSource then [visited[n]] else []);
      assert forall f :: f in visited <==> f in visited[..n] || f == visited[n];
      r
  }

  /** The dependencies that get an edge into a rebuilt file: those outside packages. */
  function Local(deps: set<FileId>): (r: set<FileId>)
    ensures forall f :: f in r <==> f in deps && f.package.None?
  {
    set f | f in deps && f.package.None?
  }

  /**
    The graph edit after a good rebuild of `j`: the edges into `j` are
    replaced by one from each local dependency; no other edge changes.
   */
  function Reattach(g: Graph<FileId>, j: FileId, deps: set<FileId>): (r: Graph<FileId>)
    requires Digraph.Valid(g)
    ensures Digraph.Valid(r)
    ensures Predecessors(r, j) == Local(deps)
    ensures forall e :: e in r.edges && e.1 != j <==> e in g.edges && e.1 != j
    ensures g.nodes <= r.nodes
  {
    var r := AddEdgesIn(RemoveIncoming(g, j), Local(deps), j);
    assert Predecessors(r, j) == Local(deps) by {
      assert forall k :: k in Predecessors(r, j) <==> (k, j) in r.edges;
    }
    r
  }

  /**
    What one iteration of `handle_modify`'s rebuild loop does once the build
    of `j` has returned `slots` and `outcome`: on a good build the edges
    into `j` are replaced by one from each local dependency and the output
    joins the batch; a failed compilation adds its errors to the batch; a
    failed write cancels the application and a panic ends the service task.
   */
  ghost predicate RebuildEffect(s: BuildState, j: FileId, slots: map<FileId, SystemWorld.FileSlot>, outcome: BuildOutcome,
                                r: (BuildState, Option<(FileId, Compiled<seq<NotesService.NoteData>>)>)) {
    && r.0.isSource == s.isSource
    && r.0.slots == slots
    && (outcome.Built? ==>
          && Predecessors(r.0.graph, j) == Local(outcome.dependencies)
          && (forall e :: e in r.0.graph.edges && e.1 != j <==> e in s.graph.edges && e.1 != j)
          && r.1 == Some((j, Ok(outcome.output))))
    && (!outcome.Built? ==> r.0.graph == s.graph)
    && (outcome.Failed? ==> r.1 == Some((j, Err(outcome.errors))))
    && (outcome.WriteFailed? || outcome.Panicked? ==> r.1 == None)
    && (r.0.cancelled <==> s.cancelled || outcome.WriteFailed?)
    && (r.0.crashed <==> s.crashed || outcome.Panicked?)
  }

  /** The state change of one rebuild for a given build result. */
  function ApplyRebuild(s: BuildState, j: FileId, slots: map<FileId, SystemWorld.FileSlot>, outcome: BuildOutcome)
    : (r: (BuildState, Option<(FileId, Compiled<seq<NotesService.NoteData>>)>))
    requires Digraph.Valid(s.graph)
    ensures Digraph.Valid(r.0.graph) && RebuildEffect(s, j, slots, outcome, r)
  {
    var t := s.(slots := slots);
    match outcome
    case Built(warned, deps) =>
      (t.(graph := Reattach(s.graph, j, deps)), Some((j, Ok(warned))))
    case Failed(errors) => (t, Some((j, Err(errors))))
    case WriteFailed => (t.(cancelled := true), None)
    case Panicked => (t.(crashed := true), None)
  }

  /** One iteration of `handle_modify`'s rebuild loop for `j`: build it, then apply the outcome. */
  function Rebuild(s: BuildState, buildDir: Path, j: FileId, o: Oracles)
    : (r: (BuildState, Option<(FileId, Compiled<seq<NotesService.NoteData>>)>))
    requires Sound(o) && Digraph.Valid(s.graph)
    ensures Digraph.Valid(r.0.graph) && r.0.isSource == s.isSource
    ensures s.crashed ==> r.0.crashed
    ensures r.1.Some? ==> r.1.value.0 == j
    ensures RebuildEffect(s, j, Build(s.slots, buildDir, j, o).0, Build(s.slots, buildDir, j, o).1, r)
  {
    var b := Build(s.slots, buildDir, j, o);
    ApplyRebuild(s, j, b.0, b.1)
  }

  /**
    The rebuild loop over `dependents`, in order, collecting the batch for
    `update_notes`. It stops at a panic, which ends the service task.
   */
  function RebuildAll(s: BuildState, buildDir: Path, dependents: seq<FileId>, o: Oracles)
    : (r: (BuildState, NotesService.Batch))
    requires Sound(o) && Digraph.Valid(s.graph)
    ensures Digraph.Valid(r.0.graph) && r.0.isSource == s.isSource
    ensures s.crashed ==> r.0.crashed
    ensures |r.1| <= |dependents|
    ensures forall k :: 0 <= k < |r.1| ==> r.1[k].0 in dependents
    decreases |dependents|
  {
    if dependents == [] then (s, [])
    else
      var n := |dependents| - 1;
      var p := RebuildAll(s, buildDir, dependents[..n], o);
      assert forall f :: f in dependents[..n] ==> f in dependents;
      if p.0.crashed then p
      else
        var q := Rebuild(p.0, buildDir, dependents[n], o);
        (q.0, p.1 + (if q.1.Some? then [q.1.value] else []))
  }

  /** A rebuild keeps the invariant: the rebuilt file and its local dependencies all have slots. */
  lemma RebuildValid(s: BuildState, buildDir: Path, j: FileId, o: Oracles)
    requires Sound(o) && Valid(s)
    ensures Valid(Rebuild(s, buildDir, j, o).0)
  {
  }

  lemma {:induction false} RebuildAllValid(s: BuildState, buildDir: Path, dependents: seq<FileId>, o: Oracles)
    requires Sound(o) && Valid(s)
    ensures Valid(RebuildAll(s, buildDir, dependents, o).0)
    decreases |dependents|
  {
    if dependents != [] {
      var n := |dependents| - 1;
      RebuildAllValid(s, buildDir, dependents[..n], o);
      var t := RebuildAll(s, buildDir, dependents[..n], o).0;
      if !t.crashed {
        RebuildValid(t, buildDir, dependents[n], o);
      }
    }
  }

  /**
    `handle_modify(i)`: walk the graph breadth-first from `i`, resetting the
    slot of every file visited; rebuild `i` and every visited file in
    `is_source`; send the results to the notes service in one batch. A
    panic (a visited file without a slot, or in a build) ends the service
    and nothing is sent.
   */
  method HandleModify(s: BuildState, buildDir: Path, i: FileId, o: Oracles) returns (r: Effect, visited: seq<FileId>)
    requires Sound(o) && Digraph.Valid(s.graph)
    ensures forall f :: f in visited <==> Reachable(s.graph, i, f)
    ensures r == AfterVisit(s, buildDir, i, visited, o)
    ensures Digraph.Valid(r.state.graph) && r.state.isSource == s.isSource
    ensures Valid(s) ==> Valid(r.state)
    ensures Valid(s) && i in s.slots ==> ResetAll(s.slots, visited).Some?
    ensures s.isSource == {} && r.sent != [] ==>
      r.sent[0].Updated? && |r.sent[0].batch| <= 1 && forall k :: 0 <= k < |r.sent[0].batch| ==> r.sent[0].batch[k].0 == i
  {
    visited := Bfs(s.graph, i);
    forall f | f in visited
      ensures f == i || f in s.graph.nodes
    {
      ReachableNodes(s.graph, i, f);
    }
    r := AfterVisit(s, buildDir, i, visited, o);
    if Valid(s) {
      AfterVisitValid(s, buildDir, i, visited, o);
    }
    if s.isSource == {} {
      OnlyTargetRebuilt(s, buildDir, i, visited, o);
    }
  }

  /**
    What `handle_modify` does once the BFS has visited `visited`: reset their
    slots (a missing slot panics), rebuild `i` and the visited sources, and
    send the batch unless a build panicked.
   */
  function AfterVisit(s: BuildState, buildDir: Path, i: FileId, visited: seq<FileId>, o: Oracles): (r: Effect)
    requires Sound(o) && Digraph.Valid(s.graph)
    ensures Digraph.Valid(r.state.graph) && r.state.isSource == s.isSource
    ensures ResetAll(s.slots, visited).None? ==> r.state == s.(crashed := true) && r.sent == []
    ensures ResetAll(s.slots, visited).Some? ==> r.state.crashed || |r.sent| == 1
  {
    match ResetAll(s.slots, visited)
    case None => Effect(s.(crashed := true), [])
    case Some(reset) =>
      var (t, batch) := RebuildAll(s.(slots := reset), buildDir, [i] + Sources(visited, s.isSource), o);
      if t.crashed then Effect(t, []) else Effect(t, [NotesService.Updated(batch)])
  }

  lemma AfterVisitValid(s: BuildState, buildDir: Path, i: FileId, visited: seq<FileId>, o: Oracles)
    requires Sound(o) && Valid(s)
    requires forall f :: f in visited ==> f == i || f in s.graph.nodes
    ensures Valid(AfterVisit(s, buildDir, i, visited, o).state)
    ensures i in s.slots ==> ResetAll(s.slots, visited).Some?
  {
    var reset := ResetAll(s.slots, visited);
    if i in s.slots {
      assert forall k :: 0 <= k < |visited| ==> visited[k] in visited;
    }
    if reset.Some? {
      RebuildAllValid(s.(slots := reset.value), buildDir, [i] + Sources(visited, s.isSource), o);
    }
  }

  /**
    With `is_source` empty, as it always is, `handle_modify(i)` rebuilds
    `i` alone: the batch it sends holds at most the entry for `i`.
   */
  lemma OnlyTargetRebuilt(s: BuildState, buildDir: Path, i: FileId, visited: seq<FileId>, o: Oracles)
    requires Sound(o) && Digraph.Valid(s.graph) && s.isSource == {}
    ensures var r := AfterVisit(s, buildDir, i, visited, o);
      r.sent != [] ==> (r.sent[0].Updated? && |r.sent[0].batch| <= 1 &&
        forall k :: 0 <= k < |r.sent[0].batch| ==> r.sent[0].batch[k].0 == i)
  {
    assert [i] + Sources(visited, s.isSource) == [i];
  }

  /**
    `handle_remove(i)`: `i` and every edge touching it leave the graph,
    `i` leaves `is_source`, and the notes service is told to drop its notes.
   */
  function HandleRemove(s: BuildState, i: FileId): (r: Effect)
    requires Digraph.Valid(s.graph)
    ensures Digraph.Valid(r.state.graph)
    ensures i !in r.state.graph.nodes && i !in r.state.isSource
    ensures forall e :: e in r.state.graph.edges <==> e in s.graph.edges && e.0 != i && e.1 != i
    ensures r.state.graph.nodes == s.graph.nodes - {i}
    ensures r.state.isSource == s.isSource - {i}
    ensures r.state.slots == s.slots && r.state.cancelled == s.cancelled && r.state.crashed == s.crashed
    ensures r.sent == [NotesService.Removed(i)]
    ensures Valid(s) ==> Valid(r.state)
  {
    Effect(s.(graph := RemoveNode(s.graph, i), isSource := s.isSource - {i}), [NotesService.Removed(i)])
  }

  /** A node reached by following edges is the start or a node of the graph. */
  lemma ReachableNodes(g: Graph<FileId>, a: FileId, b: FileId)
    requires Digraph.Valid(g) && Reachable(g, a, b)
    ensures b == a || b in g.nodes
  {
    var p :| |p| >= 1 && p[0] == a && p[|p| - 1] == b && IsPath(g, p);
    if |p| > 1 {
      assert (p[|p| - 2], p[|p| - 1]) in g.edges;
    }
  }

  // ---------------------------------------------------------------------------
  // Edge directions

  /**
    `handle_create` points edges from a note to what it reads, but
    `handle_modify` walks outgoing edges from the changed file: after
    building `m` that reads `d`, nothing is reachable from `d` but `d`
    itself, so changing `d` neither resets nor rebuilds `m`.
   */
  lemma DependencyDoesNotReachDependent(buildDir: Path, m: FileId, d: FileId, o: Oracles)
    requires Sound(o)
    requires var outcome := Build(Initial().slots, buildDir, m, o).1;
      outcome.Built? && outcome.dependencies == {d}
    ensures var g := HandleCreate(Initial(), buildDir, m, o).state.graph;
      (m, d) in g.edges && forall f :: Reachable(g, d, f) ==> f == d
  {
    var g := HandleCreate(Initial(), buildDir, m, o).state.graph;
    assert Closed(g, {d});
    forall f | Reachable(g, d, f)
      ensures f == d
    {
      var p :| |p| >= 1 && p[0] == d && p[|p| - 1] == f && IsPath(g, p);
      ClosedContainsPath(g, {d}, p);
    }
  }

  /**
    Rebuilding `m` then adds `d -> m` next to the `m -> d` that creating it
    added: the graph ends up holding both directions.
   */
  lemma RebuildAddsReverseEdge(g: Graph<FileId>, m: FileId, d: FileId, deps: set<FileId>)
    requires Digraph.Valid(g) && (m, d) in g.edges && m != d
    requires d in deps && d.package.None?
    ensures var r := Reattach(g, m, deps); (m, d) in r.edges && (d, m) in r.edges
  {
    assert d in Predecessors(Reattach(g, m, deps), m);
  }

  // ---------------------------------------------------------------------------
  // Watcher events

  /** `notify::EventKind`, without the sub-kinds. */
  datatype EventKind = AccessKind | AnyKind | OtherKind | CreateKind | ModifyKind | RemoveKind

  datatype WatchEvent = WatchEvent(kind: EventKind, paths: seq<Path>)

  /** The directories the service was built with. */
  datatype Dirs = Dirs(project: Path, notes: Path, build: Path)

  /** What the run loop does with one event. `Halt` is a panic, which ends the service task. */
  datatype Action = Ignore | Halt | CreateFile(id: FileId) | ModifyFile(id: FileId) | RemoveFile(id: FileId)

  /** `FileId::new(None, VirtualPath::within_root(path, project))`, when `path` lies in the project. */
  function FileIdOf(path: Path, project: Path): (r: Option<FileId>)
    ensures r.Some? <==> HasPrefix(path, project)
    ensures r.Some? ==> r.value.package.None? && Join(project, Path(false, r.value.vpath)) == path
  {
    match Paths.StripPrefix(path, project)
    case None => None
    case Some(rel) => Some(FileId(None, rel.parts))
  }

  /** Whether a path names a note: a `.typ` file under the notes directory. */
  predicate IsNoteSource(path: Path, dirs: Dirs) {
    IsTypst(path) && HasPrefix(path, dirs.notes)
  }

  /**
    The event filter of `run`: access and unclassified events are ignored;
    every other event must carry exactly one path inside the project
    (otherwise an assertion or `unwrap` panics). Creations are built only
    for note sources; modifications only for files in the graph or note
    sources; removals always go through.
   */
  function Classify(e: WatchEvent, dirs: Dirs, graph: Graph<FileId>): (r: Action)
    ensures e.kind in {AccessKind, AnyKind, OtherKind} ==> r == Ignore
    ensures r.Halt? <==> (e.kind !in {AccessKind, AnyKind, OtherKind} &&
      (|e.paths| != 1 || !HasPrefix(e.paths[0], dirs.project)))
    ensures r.CreateFile? <==> (e.kind == CreateKind && |e.paths| == 1 &&
      HasPrefix(e.paths[0], dirs.project) && IsNoteSource(e.paths[0], dirs))
    ensures r.ModifyFile? <==> (e.kind == ModifyKind && |e.paths| == 1 && HasPrefix(e.paths[0], dirs.project) &&
      (FileIdOf(e.paths[0], dirs.project).value in graph.nodes || IsNoteSource(e.paths[0], dirs)))
    ensures r.RemoveFile? <==> e.kind == RemoveKind && |e.paths| == 1 && HasPrefix(e.paths[0], dirs.project)
    ensures r.CreateFile? || r.ModifyFile? || r.RemoveFile? ==>
      Some(r.id) == FileIdOf(e.paths[0], dirs.project) && r.id.package.None?
  {
    match e.kind
    case AccessKind => Ignore
    case AnyKind => Ignore
    case OtherKind => Ignore
    case CreateKind =>
      (match Locate(e, dirs.project)
       case None => Halt
       case Some(id) => if IsNoteSource(e.paths[0], dirs) then CreateFile(id) else Ignore)
    case ModifyKind =>
      (match Locate(e, dirs.project)
       case None => Halt
       case Some(id) => if id in graph.nodes || IsNoteSource(e.paths[0], dirs) then ModifyFile(id) else Ignore)
    case RemoveKind =>
      (match Locate(e, dirs.project)
       case None => Halt
       case Some(id) => RemoveFile(id))
  }

  /** The file of an event: `assert_eq!(paths.len(), 1)`, then `within_root(..).unwrap()`; `None` is a panic. */
  function Locate(e: WatchEvent, project: Path): (r: Option<FileId>)
    ensures r.Some? <==> |e.paths| == 1 && HasPrefix(e.paths[0], project)
    ensures r.Some? ==> Some(r.value) == FileIdOf(e.paths[0], project)
  {
    if |e.paths| != 1 then None else FileIdOf(e.paths[0], project)
  }

  /**
    One event of the run loop, applied to the state. `visited` is the
    breadth-first visit a modification makes, and empty for other events.
   */
  method Dispatch(s: BuildState, e: WatchEvent, dirs: Dirs, o: Oracles) returns (r: Effect, visited: seq<FileId>)
    requires Sound(o) && Digraph.Valid(s.graph)
    ensures Digraph.Valid(r.state.graph) && r.state.isSource <= s.isSource
    ensures Valid(s) ==> Valid(r.state)
    ensures Classify(e, dirs, s.graph) == Ignore ==> r == Effect(s, [])
    ensures Classify(e, dirs, s.graph) == Halt ==> r == Effect(s.(crashed := true), [])
    ensures Classify(e, dirs, s.graph).CreateFile? ==> r == HandleCreate(s, dirs.build, Classify(e, dirs, s.graph).id, o)
    ensures Classify(e, dirs, s.graph).RemoveFile? ==> r == HandleRemove(s, Classify(e, dirs, s.graph).id)
    ensures Classify(e, dirs, s.graph).ModifyFile? ==>
      && (forall f :: f in visited <==> Reachable(s.graph, Classify(e, dirs, s.graph).id, f))
      && r == AfterVisit(s, dirs.build, Classify(e, dirs, s.graph).id, visited, o)
    ensures !Classify(e, dirs, s.graph).ModifyFile? ==> visited == []
  {
    visited := [];
    match Classify(e, dirs, s.graph)
    case Ignore => r := Effect(s, []);
    case Halt => r := Effect(s.(crashed := true), []);
    case CreateFile(id) => r := HandleCreate(s, dirs.build, id, o);
    case ModifyFile(id) => r, visited := HandleModify(s, dirs.build, id, o);
    case RemoveFile(id) => r := HandleRemove(s, id);
  }

  /**
    `run`'s loop over the debounced batches: a batch the debouncer reports
    as an error is skipped; the loop ends when the service panics, and
    after a cancellation at the end of the batch.
   */
  method Run(s: BuildState, batches: seq<Result<seq<WatchEvent>, string>>, dirs: Dirs, o: Oracles) returns (r: Effect)
    requires Sound(o) && Digraph.Valid(s.graph)
    ensures Digraph.Valid(r.state.graph) && r.state.isSource <= s.isSource
    ensures Valid(s) ==> Valid(r.state)
    ensures s.crashed || s.cancelled ==> r == Effect(s, [])
  {
    r := Effect(s, []);
    var b := 0;
    while b < |batches| && !r.state.crashed && !r.state.cancelled
      invariant 0 <= b <= |batches|
      invariant Digraph.Valid(r.state.graph) && r.state.isSource <= s.isSource
      invariant Valid(s) ==> Valid(r.state)
      invariant s.crashed || s.cancelled ==> r == Effect(s, [])
    {
      if batches[b].Ok? {
        var events := batches[b].value;
        var k := 0;
        while k < |events| && !r.state.crashed
          invariant 0 <= k <= |events|
          invariant Digraph.Valid(r.state.graph) && r.state.isSource <= s.isSource
          invariant Valid(s) ==> Valid(r.state)
          invariant s.crashed || s.cancelled ==> r == Effect(s, [])
        {
          var step, _ := Dispatch(r.state, events[k], dirs, o);
          r := Effect(step.state, r.sent + step.sent);
          k := k + 1;
        }
      }
      b := b + 1;
    }
  }

  /**
    `start`, raced against cancellation as `run` races it: unless resetting
    the build directory fails (`resetFails`, whose `?` returns at once),
    build every `.typ` file the walk of the notes directory found, in walk
    order, then tell the notes service the initial build finished. A file
    outside the project makes `within_root(..).unwrap()` panic. A
    cancellation, such as the one a failed fragment write raises, drops
    `start` at its next await: no later file is built and `Finished` is not
    sent. `taken` counts the walked paths handled.
   */
  method Start(s: BuildState, walked: seq<Path>, resetFails: bool, dirs: Dirs, o: Oracles) returns (r: Effect, taken: nat)
    requires Sound(o) && Digraph.Valid(s.graph)
    ensures Digraph.Valid(r.state.graph) && r.state.isSource == s.isSource
    ensures Valid(s) ==> Valid(r.state)
    ensures resetFails || s.crashed || s.cancelled ==> r == Effect(s, []) && taken == 0
    ensures taken <= |walked|
    ensures taken < |walked| ==> resetFails || r.state.crashed || r.state.cancelled
    ensures !resetFails && !r.state.crashed && !r.state.cancelled ==>
      |r.sent| >= 1 && r.sent[|r.sent| - 1] == NotesService.Finished
    ensures resetFails || r.state.crashed || r.state.cancelled ==>
      forall k :: 0 <= k < |r.sent| ==> r.sent[k].Created?
    ensures forall k :: 0 <= k < |r.sent| ==> r.sent[k].Created? || r.sent[k] == NotesService.Finished
  {
    r, taken := Effect(s, []), 0;
    if resetFails {
      return;
    }
    while taken < |walked| && !r.state.crashed && !r.state.cancelled
      invariant taken <= |walked|
      invariant Digraph.Valid(r.state.graph) && r.state.isSource == s.isSource
      invariant Valid(s) ==> Valid(r.state)
      invariant s.crashed || s.cancelled ==> r == Effect(s, []) && taken == 0
      invariant forall n :: 0 <= n < |r.sent| ==> r.sent[n].Created?
    {
      var path := walked[taken];
      if IsTypst(path) {
        match FileIdOf(path, dirs.project)
        case None =>
          r := Effect(r.state.(crashed := true), r.sent);
        case Some(id) =>
          var step := HandleCreate(r.state, dirs.build, id, o);
          r := Effect(step.state, r.sent + step.sent);
      }
      taken := taken + 1;
    }
    if !r.state.crashed && !r.state.cancelled {
      r := Effect(r.state, r.sent + [NotesService.Finished]);
    }
  }

  /**
    `run` from the state `try_build` leaves: `start` raced against
    cancellation, then, unless it was cancelled, the event loop. A failed
    reset returns before the watcher is started, so no event ever arrives;
    `batches` are the events a started watcher delivers. No handler
    adds to the empty `is_source` set, so no file is ever a source and a
    modification rebuilds only the modified file.
   */
  method Session(walked: seq<Path>, resetFails: bool, batches: seq<Result<seq<WatchEvent>, string>>, dirs: Dirs, o: Oracles)
    returns (r: Effect)
    requires Sound(o)
    ensures Valid(r.state) && r.state.isSource == {}
    ensures forall visited: seq<FileId> :: Sources(visited, r.state.isSource) == []
    ensures !resetFails && !r.state.crashed ==> NotesService.Finished in r.sent || r.state.cancelled
    ensures NotesService.Finished !in r.sent ==> forall k :: 0 <= k < |r.sent| ==> r.sent[k].Created?
  {
    var first, taken := Start(Initial(), walked, resetFails, dirs, o);
    if first.state.cancelled || resetFails {
      return first;
    }
    var rest := Run(first.state, batches, dirs, o);
    r := Effect(rest.state, first.sent + rest.sent);
  }
}
