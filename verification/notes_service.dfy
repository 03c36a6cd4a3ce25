/**
  The notes service (`NotesServiceState`): a link graph over note UUIDs, the
  note titles, the file each note came from, the notes each file produced and
  the last build status of each file. Every operation is a pure transition
  that also yields the message broadcast to subscribers, if any.
 */
module NotesService {
  import opened Wrappers
  import opened Digraph
  import opened Paths
  import opened Typst
  import opened Uuids

  /** A note extracted from a compiled file: its title, id and outgoing links. */
  datatype NoteData = NoteData(title: string, id: Uuid, links: seq<Uuid>)

  /** The snapshot a new subscriber receives. */
  datatype Initialize = Initialize(outgoingLinks: map<Uuid, set<Uuid>>, titles: map<Uuid, string>)

  /** The incremental messages broadcast to subscribers. */
  datatype NoteUpdate = Update(notes: seq<NoteData>) | Remove(removed: seq<Uuid>)

  /** What `errors` keeps per file: the warnings of a good build, or its errors. */
  datatype BuildStatus = Succeeded(warnings: seq<Diagnostic>) | Failed(errors: seq<Diagnostic>)

  /**
    The service state. `buildFinished` is the shared `Event` flag (it only
    ever goes from false to true); `cancelled` is the cancellation token.
   */
  datatype State = State(
    links: Graph<Uuid>,
    buildSubdirectory: Path,
    titles: map<Uuid, string>,
    fileIds: map<Uuid, FileId>,
    ids: map<FileId, seq<Uuid>>,
    errors: map<FileId, BuildStatus>,
    buildFinished: bool,
    cancelled: bool)

  /** A transition: the next state and the broadcast message, if one is sent. */
  datatype Step = Step(state: State, sent: Option<NoteUpdate>)

  /** The invariant every reachable state keeps. */
  ghost predicate Valid(s: State) {
    Digraph.Valid(s.links) && s.titles.Keys == s.fileIds.Keys
  }

  /** `NotesServiceHandle::build`: an empty graph, no notes, no build finished yet. */
  function Start(buildSubdirectory: Path): (s: State)
    ensures Valid(s) && !s.buildFinished && !s.cancelled
    ensures s.links.nodes == {} && s.titles == map[] && s.ids == map[] && s.errors == map[]
  {
    State(Empty(), buildSubdirectory, map[], map[], map[], map[], false, false)
  }

  /** `build_subdirectory/{id}.html`, where a note's rendered fragment is kept. */
  function FragmentPath(s: State, id: Uuid): Path {
    Join(s.buildSubdirectory, Relative(Hyphenated(id) + ".html"))
  }

  // ---------------------------------------------------------------------------
  // Batches of notes

  function NoteIds(ns: seq<NoteData>): (r: seq<Uuid>)
    ensures |r| == |ns| && forall k :: 0 <= k < |ns| ==> r[k] == ns[k].id
  {
    seq(|ns|, k requires 0 <= k < |ns| => ns[k].id)
  }

  /** Every note some entry of `ns` links to. */
  function LinkTargets(ns: seq<NoteData>): set<Uuid> {
    set n, j | n in ns && j in n.links :: j
  }

  /** The ids of entries of `ns` that carry at least one link. */
  function LinkingIds(ns: seq<NoteData>): set<Uuid> {
    set n | n in ns && |n.links| > 0 :: n.id
  }

  /** Every note that some entry about `u` in `ns` links to. */
  function LinkTargetsOf(ns: seq<NoteData>, u: Uuid): set<Uuid> {
    set k, j | 0 <= k < |ns| && ns[k].id == u && j in ns[k].links :: j
  }

  /** The index of the last entry of `ns` about note `u`: the entry that wins. */
  function LastWith(ns: seq<NoteData>, u: Uuid): (k: nat)
    requires u in NoteIds(ns)
    ensures k < |ns| && ns[k].id == u
    ensures forall l :: k < l < |ns| ==> ns[l].id != u
    decreases |ns|
  {
    var n := |ns| - 1;
    if ns[n].id == u then n
    else
      assert NoteIds(ns[..n]) == NoteIds(ns)[..n];
      LastWith(ns[..n], u)
  }

  /** Appending a batch: its own entries win over the earlier ones. */
  lemma LastWithAppend(a: seq<NoteData>, b: seq<NoteData>, u: Uuid)
    requires u in NoteIds(a + b)
    ensures u in NoteIds(b) ==> LastWith(a + b, u) == |a| + LastWith(b, u)
    ensures u !in NoteIds(b) ==> u in NoteIds(a) && LastWith(a + b, u) == LastWith(a, u)
  {
    var k := LastWith(a + b, u);
    if u in NoteIds(b) {
      var l := LastWith(b, u);
      assert (a + b)[|a| + l].id == u;
    } else {
      assert k < |a|;
      assert NoteIds(a)[k] == u;
      var l := LastWith(a, u);
      assert (a + b)[l].id == u;
    }
  }

  // ---------------------------------------------------------------------------
  // create_note / create_notes

  /**
    `create_note`: `i` becomes a node, every listed link an edge `i -> j`,
    the title and file are recorded and `i` is appended to the file's list.
   */
  function CreateNote(s: State, fileId: FileId, d: NoteData): (r: State)
    requires Valid(s) && fileId in s.ids
    ensures Valid(r)
    ensures d.id in r.links.nodes
    ensures forall j :: j in d.links ==> j in r.links.nodes && (d.id, j) in r.links.edges
    ensures forall e :: e in r.links.edges <==> e in s.links.edges || (e.0 == d.id && e.1 in d.links)
    ensures forall m :: m in r.links.nodes <==> m in s.links.nodes || m == d.id || m in d.links
    ensures r.titles == s.titles[d.id := d.title] && r.fileIds == s.fileIds[d.id := fileId]
    ensures r.ids == s.ids[fileId := s.ids[fileId] + [d.id]]
    ensures r.(links := s.links, titles := s.titles, fileIds := s.fileIds, ids := s.ids) == s
  {
    s.(links := AddEdgesFrom(AddNode(s.links, d.id), d.id, d.links),
       ids := s.ids[fileId := s.ids[fileId] + [d.id]],
       titles := s.titles[d.id := d.title],
       fileIds := s.fileIds[d.id := fileId])
  }

  /**
    `update_note`: the outgoing edges of `i` are replaced by one edge to each
    listed link (incoming edges of `i` and all other edges stay), and the
    title, file and list entry are recorded as `create_note` does. Unlike
    `create_note` it does not add `i` itself as a node: a note without links
    that was not a node before does not become one.
   */
  function UpdateNote(s: State, fileId: FileId, d: NoteData): (r: State)
    requires Valid(s) && fileId in s.ids
    ensures Valid(r)
    ensures Successors(r.links, d.id) == Elements(d.links)
    ensures forall e: (Uuid, Uuid) :: e in r.links.edges <==> (if e.0 == d.id then e.1 in d.links else e in s.links.edges)
    ensures forall m :: m in r.links.nodes <==>
      m in s.links.nodes || m in d.links || (m == d.id && |d.links| > 0)
    ensures r.titles == s.titles[d.id := d.title] && r.fileIds == s.fileIds[d.id := fileId]
    ensures r.ids == s.ids[fileId := s.ids[fileId] + [d.id]]
    ensures r.(links := s.links, titles := s.titles, fileIds := s.fileIds, ids := s.ids) == s
  {
    var g := AddEdgesFrom(RemoveOutgoing(s.links, d.id), d.id, d.links);
    assert forall x :: x in Successors(g, d.id) <==> (d.id, x) in g.edges;
    s.(links := g,
       ids := s.ids[fileId := s.ids[fileId] + [d.id]],
       titles := s.titles[d.id := d.title],
       fileIds := s.fileIds[d.id := fileId])
  }

  /** Which per-note operation a loop applies. */
  datatype Mode = Creating | Updating

  function NoteStep(s: State, fileId: FileId, d: NoteData, mode: Mode): (r: State)
    requires Valid(s) && fileId in s.ids
    ensures Valid(r)
    ensures r.titles == s.titles[d.id := d.title] && r.fileIds == s.fileIds[d.id := fileId]
    ensures r.ids == s.ids[fileId := s.ids[fileId] + [d.id]]
    ensures r.(links := s.links, titles := s.titles, fileIds := s.fileIds, ids := s.ids) == s
  {
    match mode
    case Creating => CreateNote(s, fileId, d)
    case Updating => UpdateNote(s, fileId, d)
  }

  /**
    `create_note` (or `update_note`) for each note of a batch, in order: the
    notes are appended to the file's list and nothing but the graph, titles,
    files and lists changes (the lemmas below say how those change).
   */
  function ForEachNote(s: State, fileId: FileId, ns: seq<NoteData>, mode: Mode): (r: State)
    requires Valid(s) && fileId in s.ids
    ensures Valid(r)
    ensures r.ids == s.ids[fileId := s.ids[fileId] + NoteIds(ns)]
    ensures r.(links := s.links, titles := s.titles, fileIds := s.fileIds, ids := s.ids) == s
    decreases |ns|
  {
    if ns == [] then
      assert s.ids[fileId] + NoteIds(ns) == s.ids[fileId];
      s
    else
      var n := |ns| - 1;
      assert NoteIds(ns) == NoteIds(ns[..n]) + [ns[n].id];
      assert s.ids[fileId] + NoteIds(ns) == (s.ids[fileId] + NoteIds(ns[..n])) + [ns[n].id];
      var p := ForEachNote(s, fileId, ns[..n], mode);
      NoteStep(p, fileId, ns[n], mode)
  }

  /** Splitting off the last entry of a batch: ids and link targets. */
  lemma SplitTargets(ns: seq<NoteData>)
    requires |ns| > 0
    ensures var n := |ns| - 1;
      && NoteIds(ns) == NoteIds(ns[..n]) + [ns[n].id]
      && (forall m :: m in LinkTargets(ns) <==> m in LinkTargets(ns[..n]) || m in ns[n].links)
      && (forall m :: m in LinkingIds(ns) <==> m in LinkingIds(ns[..n]) || (m == ns[n].id && |ns[n].links| > 0))
  {
    var n := |ns| - 1;
    assert NoteIds(ns) == NoteIds(ns[..n]) + [ns[n].id];
    assert forall x :: x in ns <==> x in ns[..n] || x == ns[n];
  }

  /** Splitting off the last entry of a batch: the targets of one note's entries. */
  lemma SplitTargetsOf(ns: seq<NoteData>, u: Uuid)
    requires |ns| > 0
    ensures var n := |ns| - 1;
      forall x :: x in LinkTargetsOf(ns, u) <==>
        x in LinkTargetsOf(ns[..n], u) || (u == ns[n].id && x in ns[n].links)
  {
    var n := |ns| - 1;
    forall x | x in LinkTargetsOf(ns, u)
      ensures x in LinkTargetsOf(ns[..n], u) || (u == ns[n].id && x in ns[n].links)
    {
      var k :| 0 <= k < |ns| && ns[k].id == u && x in ns[k].links;
      if k < n { assert ns[..n][k] == ns[k]; }
    }
    forall x | x in LinkTargetsOf(ns[..n], u)
      ensures x in LinkTargetsOf(ns, u)
    {
      var k :| 0 <= k < n && ns[..n][k].id == u && x in ns[..n][k].links;
      assert ns[k] == ns[..n][k];
    }
    if u == ns[n].id {
      forall x | x in ns[n].links
        ensures x in LinkTargetsOf(ns, u)
      {
        assert 0 <= n < |ns| && ns[n].id == u && x in ns[n].links;
      }
    }
  }

  /** Splitting off the last entry of a batch: the winning entries of other notes. */
  lemma SplitLastWith(ns: seq<NoteData>)
    requires |ns| > 0
    ensures var n := |ns| - 1;
      forall u :: u in NoteIds(ns[..n]) && u != ns[n].id ==> LastWith(ns, u) == LastWith(ns[..n], u)
  {
    var n := |ns| - 1;
    assert ns[..n] + [ns[n]] == ns;
    forall u | u in NoteIds(ns[..n]) && u != ns[n].id
      ensures LastWith(ns, u) == LastWith(ns[..n], u)
    {
      assert NoteIds(ns[..n] + [ns[n]]) == NoteIds(ns);
      LastWithAppend(ns[..n], [ns[n]], u);
    }
  }

  /**
    After creating a batch the graph holds exactly the earlier edges plus an
    edge from every note of the batch to every note it links to, and its
    nodes are the earlier ones, the batch's notes and their link targets.
   */
  lemma {:induction false} CreateAllLinks(s: State, fileId: FileId, ns: seq<NoteData>)
    requires Valid(s) && fileId in s.ids
    ensures var r := ForEachNote(s, fileId, ns, Creating);
      && (forall e :: e in r.links.edges <==>
            e in s.links.edges || (e.0 in NoteIds(ns) && e.1 in LinkTargetsOf(ns, e.0)))
      && (forall m :: m in r.links.nodes <==>
            m in s.links.nodes || m in NoteIds(ns) || m in LinkTargets(ns))
    decreases |ns|
  {
    if ns != [] {
      var n := |ns| - 1;
      var p := ForEachNote(s, fileId, ns[..n], Creating);
      var r := ForEachNote(s, fileId, ns, Creating);
      assert r == NoteStep(p, fileId, ns[n], Creating);
      SplitTargets(ns);
      CreateAllLinks(s, fileId, ns[..n]);
      forall e
        ensures e in r.links.edges <==>
          e in s.links.edges || (e.0 in NoteIds(ns) && e.1 in LinkTargetsOf(ns, e.0))
      {
        SplitTargetsOf(ns, e.0);
      }
    }
  }

  /**
    After either loop over a batch every note of it carries the title of its last
    entry and belongs to the file; every other note keeps title and file.
   */
  lemma {:induction false} ForEachNoteTitles(s: State, fileId: FileId, ns: seq<NoteData>, mode: Mode)
    requires Valid(s) && fileId in s.ids
    ensures var r := ForEachNote(s, fileId, ns, mode);
      && (forall u :: u in r.titles <==> u in s.titles || u in NoteIds(ns))
      && (forall u :: u in NoteIds(ns) ==>
            r.titles[u] == ns[LastWith(ns, u)].title && r.fileIds[u] == fileId)
      && (forall u :: u in s.titles && u !in NoteIds(ns) ==>
            r.titles[u] == s.titles[u] && r.fileIds[u] == s.fileIds[u])
    decreases |ns|
  {
    if ns != [] {
      var n := |ns| - 1;
      var p := ForEachNote(s, fileId, ns[..n], mode);
      var r := ForEachNote(s, fileId, ns, mode);
      assert r == NoteStep(p, fileId, ns[n], mode);
      assert r.titles == p.titles[ns[n].id := ns[n].title];
      assert r.fileIds == p.fileIds[ns[n].id := fileId];
      SplitTargets(ns);
      SplitLastWith(ns);
      ForEachNoteTitles(s, fileId, ns[..n], mode);
      forall u | u in NoteIds(ns)
        ensures r.titles[u] == ns[LastWith(ns, u)].title && r.fileIds[u] == fileId
      {
        if u == ns[n].id {
          assert LastWith(ns, u) == n;
        } else {
          assert u in NoteIds(ns[..n]);
          assert ns[LastWith(ns, u)] == ns[..n][LastWith(ns[..n], u)];
        }
      }
    }
  }

  /**
    After updating a batch the outgoing edges of each of its notes are
    exactly the links of that note's last entry; every edge leaving any other
    node is as before. No node disappears.
   */
  lemma {:induction false} UpdateAllLinks(s: State, fileId: FileId, ns: seq<NoteData>)
    requires Valid(s) && fileId in s.ids
    ensures var r := ForEachNote(s, fileId, ns, Updating);
      && (forall e :: e in r.links.edges <==>
            if e.0 in NoteIds(ns) then e.1 in ns[LastWith(ns, e.0)].links else e in s.links.edges)
      && (forall m :: m in r.links.nodes <==>
            m in s.links.nodes || m in LinkTargets(ns) || m in LinkingIds(ns))
    decreases |ns|
  {
    if ns != [] {
      var n := |ns| - 1;
      var p := ForEachNote(s, fileId, ns[..n], Updating);
      var r := ForEachNote(s, fileId, ns, Updating);
      assert r == UpdateNote(p, fileId, ns[n]);
      SplitTargets(ns);
      SplitLastWith(ns);
      UpdateAllLinks(s, fileId, ns[..n]);
      forall e
        ensures e in r.links.edges <==>
          if e.0 in NoteIds(ns) then e.1 in ns[LastWith(ns, e.0)].links else e in s.links.edges
      {
        if e.0 == ns[n].id {
          assert LastWith(ns, e.0) == n;
        } else if e.0 in NoteIds(ns[..n]) {
          assert ns[LastWith(ns, e.0)] == ns[..n][LastWith(ns[..n], e.0)];
        }
      }
    }
  }



  lemma NoteIdsAppend(a: seq<NoteData>, b: seq<NoteData>)
    ensures NoteIds(a + b) == NoteIds(a) + NoteIds(b)
  {
  }

  /**
    `create_notes`: a failed build only records its errors. A good build
    records its warnings, replaces the file's list by the batch's ids, in
    order, and creates each note; `Update(output)` is broadcast once the
    initial build has finished, unless the batch is empty.
   */
  function CreateNotes(s: State, fileId: FileId, result: Compiled<seq<NoteData>>): (r: Step)
    requires Valid(s)
    ensures Valid(r.state)
    ensures result.Err? ==> r.state == s.(errors := s.errors[fileId := Failed(result.error)])
    ensures result.Ok? ==> r.state.ids == s.ids[fileId := NoteIds(result.value.output)]
    ensures result.Ok? ==> r.state.errors == s.errors[fileId := Succeeded(result.value.warnings)]
    ensures r.sent.Some? <==> result.Ok? && s.buildFinished && result.value.output != []
    ensures r.sent.Some? ==> r.sent.value == Update(result.value.output)
    ensures r.state.buildFinished == s.buildFinished && r.state.cancelled == s.cancelled
  {
    match result
    case Ok(w) =>
      var cleared := s.(errors := s.errors[fileId := Succeeded(w.warnings)], ids := s.ids[fileId := []]);
      var next := ForEachNote(cleared, fileId, w.output, Creating);
      assert next.errors == cleared.errors && next.buildFinished == s.buildFinished && next.cancelled == s.cancelled;
      assert cleared.ids[fileId] + NoteIds(w.output) == NoteIds(w.output);
      assert cleared.ids[fileId := NoteIds(w.output)] == s.ids[fileId := NoteIds(w.output)];
      Step(next, if s.buildFinished && w.output != [] then Some(Update(w.output)) else None)
    case Err(e) =>
      Step(s.(errors := s.errors[fileId := Failed(e)]), None)
  }

  /**
    After a good build of a file the graph and the titles hold everything
    they held before (notes the file no longer produces are not removed)
    plus the batch's notes, their titles and their links.
   */
  lemma CreateNotesOk(s: State, fileId: FileId, w: Warned<seq<NoteData>>)
    requires Valid(s)
    ensures var r := CreateNotes(s, fileId, Ok(w)).state; var ns := w.output;
      && (forall e :: e in r.links.edges <==>
            e in s.links.edges || (e.0 in NoteIds(ns) && e.1 in LinkTargetsOf(ns, e.0)))
      && (forall m :: m in r.links.nodes <==>
            m in s.links.nodes || m in NoteIds(ns) || m in LinkTargets(ns))
      && (forall u :: u in r.titles <==> u in s.titles || u in NoteIds(ns))
      && (forall u :: u in NoteIds(ns) ==>
            r.titles[u] == ns[LastWith(ns, u)].title && r.fileIds[u] == fileId)
      && (forall u :: u in s.titles && u !in NoteIds(ns) ==>
            r.titles[u] == s.titles[u] && r.fileIds[u] == s.fileIds[u])
  {
    var cleared := s.(errors := s.errors[fileId := Succeeded(w.warnings)], ids := s.ids[fileId := []]);
    CreateAllLinks(cleared, fileId, w.output);
    ForEachNoteTitles(cleared, fileId, w.output, Creating);
  }

  // ---------------------------------------------------------------------------
  // update_notes

  /** The `(file_id, result)` pairs `update_notes` receives. */
  type Batch = seq<(FileId, Compiled<seq<NoteData>>)>

  function Flatten<T>(ss: seq<seq<T>>): seq<T> {
    if ss == [] then [] else Flatten(ss[..|ss| - 1]) + ss[|ss| - 1]
  }

  /** Per entry: the notes of a good build, nothing for a failed one. */
  function Outputs(b: Batch): (r: seq<seq<NoteData>>)
    ensures |r| == |b|
  {
    seq(|b|, k requires 0 <= k < |b| => if b[k].1.Ok? then b[k].1.value.output else [])
  }

  /** All notes of the batch's good builds, concatenated in batch order. */
  function OkOutputs(b: Batch): seq<NoteData> {
    Flatten(Outputs(b))
  }

  lemma OkOutputsSplit(b: Batch)
    requires |b| > 0
    ensures var n := |b| - 1;
      OkOutputs(b) == OkOutputs(b[..n]) + (if b[n].1.Ok? then b[n].1.value.output else [])
  {
    var n := |b| - 1;
    assert Outputs(b)[..n] == Outputs(b[..n]);
  }

  /** The file of the last good build in `b` whose notes include `u`. */
  function Owner(b: Batch, u: Uuid): FileId
    requires u in NoteIds(OkOutputs(b))
    decreases |b|
  {
    var n := |b| - 1;
    OkOutputsSplit(b);
    if b[n].1.Ok? && u in NoteIds(b[n].1.value.output) then b[n].0
    else
      NoteIdsAppend(OkOutputs(b[..n]), if b[n].1.Ok? then b[n].1.value.output else []);
      Owner(b[..n], u)
  }

  /** The files that have a good build in `b`. */
  function OkFiles(b: Batch): set<FileId> {
    set k | 0 <= k < |b| && b[k].1.Ok? :: b[k].0
  }

  /** The files `b` reports on. */
  function Files(b: Batch): set<FileId> {
    set k | 0 <= k < |b| :: b[k].0
  }

  /** Index of the last entry of `b` about file `f`. */
  function LastReport(b: Batch, f: FileId): (k: nat)
    requires f in Files(b)
    ensures k < |b| && b[k].0 == f
    ensures forall l :: k < l < |b| ==> b[l].0 != f
    decreases |b|
  {
    var n := |b| - 1;
    if b[n].0 == f then n
    else
      assert forall k :: 0 <= k < n ==> b[..n][k] == b[k];
      assert f in Files(b[..n]);
      LastReport(b[..n], f)
  }

  /** Index of the last good build of file `f` in `b`. */
  function LastSuccess(b: Batch, f: FileId): (k: nat)
    requires f in OkFiles(b)
    ensures k < |b| && b[k].0 == f && b[k].1.Ok?
    ensures forall l :: k < l < |b| && b[l].0 == f ==> b[l].1.Err?
    decreases |b|
  {
    var n := |b| - 1;
    if b[n].0 == f && b[n].1.Ok? then n
    else
      assert forall k :: 0 <= k < n ==> b[..n][k] == b[k];
      assert f in OkFiles(b[..n]);
      LastSuccess(b[..n], f)
  }

  function StatusOf(result: Compiled<seq<NoteData>>): BuildStatus {
    match result
    case Ok(w) => Succeeded(w.warnings)
    case Err(e) => Failed(e)
  }

  /**
    One entry of `update_notes`, for a file whose list exists: a failed
    build only records its errors; a good one records its warnings, empties
    the file's list and updates each of its notes.
   */
  function UpdateEntry(s: State, fileId: FileId, result: Compiled<seq<NoteData>>): (r: State)
    requires Valid(s)
    ensures Valid(r)
    ensures r.errors == s.errors[fileId := StatusOf(result)]
    ensures result.Ok? ==> r.ids == s.ids[fileId := NoteIds(result.value.output)]
    ensures result.Err? ==> r == s.(errors := r.errors)
    ensures r.buildFinished == s.buildFinished && r.cancelled == s.cancelled
    ensures r.buildSubdirectory == s.buildSubdirectory
  {
    match result
    case Ok(w) =>
      var cleared := s.(errors := s.errors[fileId := Succeeded(w.warnings)], ids := s.ids[fileId := []]);
      assert cleared.ids[fileId] + NoteIds(w.output) == NoteIds(w.output);
      assert cleared.ids[fileId := NoteIds(w.output)] == s.ids[fileId := NoteIds(w.output)];
      ForEachNote(cleared, fileId, w.output, Updating)
    case Err(e) =>
      s.(errors := s.errors[fileId := Failed(e)])
  }

  /**
    The loop of `update_notes` as the source writes it: a good build of a
    file that has no list in `ids` hits `unwrap()` on `None` and panics
    (`None` here). The notes of good builds are collected in order.
   */
  function UpdateLoopAsWritten(s: State, b: Batch): (r: Option<(State, seq<NoteData>)>)
    requires Valid(s)
    ensures r.Some? ==> Valid(r.value.0) && r.value.0.ids.Keys == s.ids.Keys
    decreases |b|
  {
    if b == [] then Some((s, []))
    else
      var n := |b| - 1;
      match UpdateLoopAsWritten(s, b[..n])
      case None => None
      case Some((p, data)) =>
        var (fileId, result) := b[n];
        if result.Ok? && fileId !in p.ids then None
        else Some((UpdateEntry(p, fileId, result), data + if result.Ok? then result.value.output else []))
  }

  /**
    The loop of `update_notes` with the panic removed: a good build of a file
    without a list starts one, as `create_notes` does.
   */
  function UpdateLoop(s: State, b: Batch): (r: (State, seq<NoteData>))
    requires Valid(s)
    ensures Valid(r.0)
    ensures r.0.ids.Keys == s.ids.Keys + OkFiles(b)
    ensures r.0.buildFinished == s.buildFinished && r.0.cancelled == s.cancelled
    ensures r.0.buildSubdirectory == s.buildSubdirectory
    decreases |b|
  {
    if b == [] then (s, [])
    else
      var n := |b| - 1;
      var (p, data) := UpdateLoop(s, b[..n]);
      var (fileId, result) := b[n];
      assert forall k :: 0 <= k < n ==> b[..n][k] == b[k];
      assert OkFiles(b) == OkFiles(b[..n]) + if result.Ok? then {fileId} else {};
      (UpdateEntry(p, fileId, result), data + if result.Ok? then result.value.output else [])
  }

  lemma FilesSplit(b: Batch)
    requires |b| > 0
    ensures var n := |b| - 1;
      && Files(b) == Files(b[..n]) + {b[n].0}
      && OkFiles(b) == OkFiles(b[..n]) + if b[n].1.Ok? then {b[n].0} else {}
  {
    var n := |b| - 1;
    assert forall k :: 0 <= k < n ==> b[..n][k] == b[k];
  }

  /** Without a later good build, the last good build of `f` lies in the prefix. */
  lemma LastSuccessPrefix(b: Batch, f: FileId)
    requires f in OkFiles(b) && !(b[|b| - 1].0 == f && b[|b| - 1].1.Ok?)
    ensures f in OkFiles(b[..|b| - 1]) && LastSuccess(b, f) == LastSuccess(b[..|b| - 1], f)
  {
    var n := |b| - 1;
    var k := LastSuccess(b, f);
    assert b[..n][k] == b[k];
  }

  /** Without a later entry, the last entry about `f` lies in the prefix. */
  lemma LastReportPrefix(b: Batch, f: FileId)
    requires f in Files(b) && b[|b| - 1].0 != f
    ensures f in Files(b[..|b| - 1]) && LastReport(b, f) == LastReport(b[..|b| - 1], f)
  {
    var n := |b| - 1;
    var k := LastReport(b, f);
    assert b[..n][k] == b[k];
  }

  /** The message `update_notes` ends with: at most one `Update`. */
  function Announce(s: State, data: seq<NoteData>): Option<NoteUpdate> {
    if s.buildFinished && data != [] then Some(Update(data)) else None
  }

  /** `update_notes` as written. */
  function UpdateNotesAsWritten(s: State, b: Batch): (r: Option<Step>)
    requires Valid(s)
    ensures r.Some? ==> Valid(r.value.state)
  {
    match UpdateLoopAsWritten(s, b)
    case None => None
    case Some((t, data)) => Some(Step(t, Announce(s, data)))
  }

  /** `update_notes` with the panic removed; the rest of the model uses this one. */
  function UpdateNotes(s: State, b: Batch): (r: Step)
    requires Valid(s)
    ensures Valid(r.state)
    ensures r.state.buildFinished == s.buildFinished && r.state.cancelled == s.cancelled
    ensures r.state.buildSubdirectory == s.buildSubdirectory
  {
    var (t, data) := UpdateLoop(s, b);
    Step(t, Announce(s, data))
  }

  lemma TargetsAppend(a: seq<NoteData>, c: seq<NoteData>)
    ensures LinkTargets(a + c) == LinkTargets(a) + LinkTargets(c)
    ensures LinkingIds(a + c) == LinkingIds(a) + LinkingIds(c)
  {
    assert forall x :: x in a + c <==> x in a || x in c;
  }

  /** The loop collects exactly the notes of the good builds, in batch order. */
  lemma {:induction false} UpdateLoopData(s: State, b: Batch)
    requires Valid(s)
    ensures UpdateLoop(s, b).1 == OkOutputs(b)
    decreases |b|
  {
    if b != [] {
      OkOutputsSplit(b);
      UpdateLoopData(s, b[..|b| - 1]);
    }
  }

  /**
    `update_notes` broadcasts one `Update` carrying the notes of all good
    builds in batch order, exactly when the initial build has finished and
    there is at least one such note; otherwise it broadcasts nothing.
   */
  lemma UpdateNotesMessage(s: State, b: Batch)
    requires Valid(s)
    ensures var r := UpdateNotes(s, b);
      && (r.sent.Some? <==> s.buildFinished && OkOutputs(b) != [])
      && (r.sent.Some? ==> r.sent.value == Update(OkOutputs(b)))
  {
    UpdateLoopData(s, b);
  }

  /** Some good build in `b` is about a file without a list in `s`. */
  predicate UnknownFileBuilt(s: State, b: Batch) {
    exists k :: 0 <= k < |b| && b[k].1.Ok? && b[k].0 !in s.ids
  }

  /**
    The source's `update_notes` panics exactly when a good build is about a
    file that has no list; otherwise it does what the corrected one does.
   */
  lemma {:induction false} UpdateNotesPanics(s: State, b: Batch)
    requires Valid(s)
    ensures UpdateNotesAsWritten(s, b).None? <==> UnknownFileBuilt(s, b)
    ensures UpdateNotesAsWritten(s, b).Some? ==> UpdateNotesAsWritten(s, b).value == UpdateNotes(s, b)
  {
    UpdateLoopAsWrittenAgrees(s, b);
  }

  lemma {:induction false} UpdateLoopAsWrittenAgrees(s: State, b: Batch)
    requires Valid(s)
    ensures UpdateLoopAsWritten(s, b) == if UnknownFileBuilt(s, b) then None else Some(UpdateLoop(s, b))
    decreases |b|
  {
    if b != [] {
      var n := |b| - 1;
      UpdateLoopAsWrittenAgrees(s, b[..n]);
      UnknownSplit(s, b);
      if !UnknownFileBuilt(s, b[..n]) {
        assert OkFiles(b[..n]) <= s.ids.Keys;
        var (p, data) := UpdateLoop(s, b[..n]);
        assert UpdateLoopAsWritten(s, b[..n]) == Some((p, data));
        assert b[n].0 in p.ids <==> b[n].0 in s.ids || b[n].0 in OkFiles(b[..n]);
      }
    }
  }

  lemma UnknownSplit(s: State, b: Batch)
    requires |b| > 0
    ensures var n := |b| - 1;
      && (UnknownFileBuilt(s, b) <==> UnknownFileBuilt(s, b[..n]) || (b[n].1.Ok? && b[n].0 !in s.ids))
      && (!UnknownFileBuilt(s, b[..n]) ==> OkFiles(b[..n]) <= s.ids.Keys)
  {
    var n := |b| - 1;
    assert forall k :: 0 <= k < n ==> b[..n][k] == b[k];
  }

  /**
    After `update_notes` each file with a good build lists exactly the notes
    of its last good build; other files keep their list.
   */
  lemma {:induction false} UpdateLoopIds(s: State, b: Batch)
    requires Valid(s)
    ensures var r := UpdateLoop(s, b).0;
      && (forall f :: f in OkFiles(b) ==> r.ids[f] == NoteIds(b[LastSuccess(b, f)].1.value.output))
      && (forall f :: f in s.ids && f !in OkFiles(b) ==> r.ids[f] == s.ids[f])
    decreases |b|
  {
    if b != [] {
      var n := |b| - 1;
      var p := UpdateLoop(s, b[..n]).0;
      var r := UpdateLoop(s, b).0;
      assert r == UpdateEntry(p, b[n].0, b[n].1);
      UpdateLoopIds(s, b[..n]);
      FilesSplit(b);
      if b[n].1.Ok? {
        assert r.ids == p.ids[b[n].0 := NoteIds(b[n].1.value.output)];
      } else {
        assert r.ids == p.ids;
      }
      forall f | f in OkFiles(b)
        ensures r.ids[f] == NoteIds(b[LastSuccess(b, f)].1.value.output)
      {
        if f == b[n].0 && b[n].1.Ok? {
          assert LastSuccess(b, f) == n;
        } else {
          LastSuccessPrefix(b, f);
          assert b[LastSuccess(b, f)] == b[..n][LastSuccess(b[..n], f)];
        }
      }
    }
  }

  /**
    After `update_notes` each file the batch mentions has the status of its
    last entry (warnings of a good build, errors of a failed one); other
    files keep theirs.
   */
  lemma {:induction false} UpdateLoopErrors(s: State, b: Batch)
    requires Valid(s)
    ensures var r := UpdateLoop(s, b).0;
      && (forall f :: f in r.errors <==> f in s.errors || f in Files(b))
      && (forall f :: f in Files(b) ==> r.errors[f] == StatusOf(b[LastReport(b, f)].1))
      && (forall f :: f in s.errors && f !in Files(b) ==> r.errors[f] == s.errors[f])
    decreases |b|
  {
    if b != [] {
      var n := |b| - 1;
      var p := UpdateLoop(s, b[..n]).0;
      var r := UpdateLoop(s, b).0;
      assert r == UpdateEntry(p, b[n].0, b[n].1);
      UpdateLoopErrors(s, b[..n]);
      assert forall k :: 0 <= k < n ==> b[..n][k] == b[k];
      assert Files(b) == Files(b[..n]) + {b[n].0};
      forall f | f in Files(b)
        ensures r.errors[f] == StatusOf(b[LastReport(b, f)].1)
      {
        if f != b[n].0 {
          LastReportPrefix(b, f);
          assert b[LastReport(b, f)] == b[..n][LastReport(b[..n], f)];
        }
      }
    }
  }

  /**
    Two rounds of updates compose: edges set by a later batch override those
    set by an earlier one, which override the original graph.
   */
  lemma ComposeLinks(g: Graph<Uuid>, p: Graph<Uuid>, r: Graph<Uuid>, a: seq<NoteData>, c: seq<NoteData>)
    requires forall e :: e in p.edges <==>
      if e.0 in NoteIds(a) then e.1 in a[LastWith(a, e.0)].links else e in g.edges
    requires forall e :: e in r.edges <==>
      if e.0 in NoteIds(c) then e.1 in c[LastWith(c, e.0)].links else e in p.edges
    ensures forall e :: e in r.edges <==>
      if e.0 in NoteIds(a + c) then e.1 in (a + c)[LastWith(a + c, e.0)].links else e in g.edges
  {
    NoteIdsAppend(a, c);
    forall e: (Uuid, Uuid)
      ensures e in r.edges <==>
        if e.0 in NoteIds(a + c) then e.1 in (a + c)[LastWith(a + c, e.0)].links else e in g.edges
    {
      ComposeEdge(g, p, r, a, c, e);
    }
  }

  lemma ComposeEdge(g: Graph<Uuid>, p: Graph<Uuid>, r: Graph<Uuid>, a: seq<NoteData>, c: seq<NoteData>, e: (Uuid, Uuid))
    requires NoteIds(a + c) == NoteIds(a) + NoteIds(c)
    requires e in p.edges <==>
      if e.0 in NoteIds(a) then e.1 in a[LastWith(a, e.0)].links else e in g.edges
    requires e in r.edges <==>
      if e.0 in NoteIds(c) then e.1 in c[LastWith(c, e.0)].links else e in p.edges
    ensures e in r.edges <==>
      if e.0 in NoteIds(a + c) then e.1 in (a + c)[LastWith(a + c, e.0)].links else e in g.edges
  {
    if e.0 in NoteIds(a + c) {
      LastWithAppend(a, c, e.0);
    }
  }

  lemma ComposeNodes(g: Graph<Uuid>, p: Graph<Uuid>, r: Graph<Uuid>, a: seq<NoteData>, c: seq<NoteData>)
    requires forall m :: m in p.nodes <==> m in g.nodes || m in LinkTargets(a) || m in LinkingIds(a)
    requires forall m :: m in r.nodes <==> m in p.nodes || m in LinkTargets(c) || m in LinkingIds(c)
    ensures forall m :: m in r.nodes <==>
      m in g.nodes || m in LinkTargets(a + c) || m in LinkingIds(a + c)
  {
    TargetsAppend(a, c);
  }

  /**
    After `update_notes` the outgoing edges of every note some good build
    produced are exactly the links of its last occurrence among the good
    builds' notes; edges leaving any other node are as before, and no node
    disappears.
   */
  lemma {:induction false} UpdateLoopLinks(s: State, b: Batch)
    requires Valid(s)
    ensures var r := UpdateLoop(s, b).0; var ns := OkOutputs(b);
      && (forall e :: e in r.links.edges <==>
            if e.0 in NoteIds(ns) then e.1 in ns[LastWith(ns, e.0)].links else e in s.links.edges)
      && (forall m :: m in r.links.nodes <==>
            m in s.links.nodes || m in LinkTargets(ns) || m in LinkingIds(ns))
    decreases |b|
  {
    if b != [] {
      var n := |b| - 1;
      var p := UpdateLoop(s, b[..n]).0;
      var r := UpdateLoop(s, b).0;
      assert r == UpdateEntry(p, b[n].0, b[n].1);
      UpdateLoopLinks(s, b[..n]);
      OkOutputsSplit(b);
      if b[n].1.Ok? {
        var out := b[n].1.value.output;
        var cleared := p.(errors := p.errors[b[n].0 := Succeeded(b[n].1.value.warnings)], ids := p.ids[b[n].0 := []]);
        assert r == ForEachNote(cleared, b[n].0, out, Updating);
        UpdateAllLinks(cleared, b[n].0, out);
        ComposeLinks(s.links, p.links, r.links, OkOutputs(b[..n]), out);
        ComposeNodes(s.links, p.links, r.links, OkOutputs(b[..n]), out);
      } else {
        assert OkOutputs(b) == OkOutputs(b[..n]);
      }
    }
  }

  /** What `UpdateLoopTitles` states about one note `u` in the state `r` reached after batch `b`. */
  ghost predicate TitleAfter(s: State, b: Batch, r: State, u: Uuid)
    requires Valid(s)
  {
    var ns := OkOutputs(b);
    && (u in r.titles <==> u in s.titles || u in NoteIds(ns))
    && (u in NoteIds(ns) ==>
          u in r.titles && u in r.fileIds &&
          r.titles[u] == ns[LastWith(ns, u)].title && r.fileIds[u] == Owner(b, u))
    && (u in s.titles && u !in NoteIds(ns) ==>
          u in r.titles && u in r.fileIds &&
          r.titles[u] == s.titles[u] && r.fileIds[u] == s.fileIds[u])
  }

  /** What `UpdateLoopTitles` states about the state `r` reached after batch `b`. */
  ghost predicate TitlesAfter(s: State, b: Batch, r: State)
    requires Valid(s)
  {
    forall u :: TitleAfter(s, b, r, u)
  }

  /** One good build on top of a prefix whose titles are already described. */
  lemma TitlesStep(s: State, b: Batch, p: State, r: State)
    requires Valid(s) && Valid(p) && Valid(r)
    requires |b| > 0 && b[|b| - 1].1.Ok?
    requires TitlesAfter(s, b[..|b| - 1], p)
    requires var out := b[|b| - 1].1.value.output;
      && (forall u :: u in r.titles <==> u in p.titles || u in NoteIds(out))
      && (forall u :: u in NoteIds(out) ==>
            r.titles[u] == out[LastWith(out, u)].title && r.fileIds[u] == b[|b| - 1].0)
      && (forall u :: u in p.titles && u !in NoteIds(out) ==>
            r.titles[u] == p.titles[u] && r.fileIds[u] == p.fileIds[u])
    ensures TitlesAfter(s, b, r)
  {
    var n := |b| - 1;
    var c := b[n].1.value.output;
    OkOutputsSplit(b);
    NoteIdsAppend(OkOutputs(b[..n]), c);
    forall u
      ensures TitleAfter(s, b, r, u)
    {
      assert TitleAfter(s, b[..n], p, u);
      TitleStepAt(s, b, p, r, u);
    }
  }

  /** `TitlesStep` for one note. */
  lemma TitleStepAt(s: State, b: Batch, p: State, r: State, u: Uuid)
    requires Valid(s) && Valid(p) && Valid(r)
    requires |b| > 0 && b[|b| - 1].1.Ok?
    requires var n := |b| - 1; var c := b[n].1.value.output;
      && OkOutputs(b) == OkOutputs(b[..n]) + c
      && NoteIds(OkOutputs(b)) == NoteIds(OkOutputs(b[..n])) + NoteIds(c)
    requires TitleAfter(s, b[..|b| - 1], p, u)
    requires var out := b[|b| - 1].1.value.output;
      && (u in r.titles <==> u in p.titles || u in NoteIds(out))
      && (u in NoteIds(out) ==> r.titles[u] == out[LastWith(out, u)].title && r.fileIds[u] == b[|b| - 1].0)
      && (u in p.titles && u !in NoteIds(out) ==> r.titles[u] == p.titles[u] && r.fileIds[u] == p.fileIds[u])
    ensures TitleAfter(s, b, r, u)
  {
    var n := |b| - 1;
    var a := OkOutputs(b[..n]);
    var c := b[n].1.value.output;
    if u in NoteIds(a + c) {
      LastWithAppend(a, c, u);
      OwnerLast(b, u);
      if u in NoteIds(c) {
        assert (a + c)[|a| + LastWith(c, u)] == c[LastWith(c, u)];
      } else {
        assert (a + c)[LastWith(a, u)] == a[LastWith(a, u)];
      }
    }
  }

  /** The owner of a note is the last good build of the batch that lists it. */
  lemma OwnerLast(b: Batch, u: Uuid)
    requires |b| > 0 && u in NoteIds(OkOutputs(b))
    ensures var n := |b| - 1;
      if b[n].1.Ok? && u in NoteIds(b[n].1.value.output) then Owner(b, u) == b[n].0
      else u in NoteIds(OkOutputs(b[..n])) && Owner(b, u) == Owner(b[..n], u)
  {
    var n := |b| - 1;
    OkOutputsSplit(b);
    NoteIdsAppend(OkOutputs(b[..n]), if b[n].1.Ok? then b[n].1.value.output else []);
  }

  /**
    After `update_notes` every note some good build produced carries the
    title of its last occurrence and belongs to the file of that build;
    every other note keeps its title and file.
   */
  lemma {:induction false} UpdateLoopTitles(s: State, b: Batch)
    requires Valid(s)
    ensures TitlesAfter(s, b, UpdateLoop(s, b).0)
    decreases |b|
  {
    if b != [] {
      var n := |b| - 1;
      var p := UpdateLoop(s, b[..n]).0;
      var r := UpdateLoop(s, b).0;
      assert r == UpdateEntry(p, b[n].0, b[n].1);
      UpdateLoopTitles(s, b[..n]);
      if b[n].1.Ok? {
        var out := b[n].1.value.output;
        var cleared := p.(errors := p.errors[b[n].0 := Succeeded(b[n].1.value.warnings)], ids := p.ids[b[n].0 := []]);
        assert r == ForEachNote(cleared, b[n].0, out, Updating);
        ForEachNoteTitles(cleared, b[n].0, out, Updating);
        TitlesStep(s, b, p, r);
      } else {
        TitlesSkip(s, b, p, r);
      }
    }
  }

  /** A failed build leaves the description of the prefix in force. */
  lemma TitlesSkip(s: State, b: Batch, p: State, r: State)
    requires Valid(s) && |b| > 0 && b[|b| - 1].1.Err?
    requires TitlesAfter(s, b[..|b| - 1], p)
    requires r.titles == p.titles && r.fileIds == p.fileIds
    ensures TitlesAfter(s, b, r)
  {
    var n := |b| - 1;
    OkOutputsSplit(b);
    assert OkOutputs(b) == OkOutputs(b[..n]);
    forall u
      ensures TitleAfter(s, b, r, u)
    {
      assert TitleAfter(s, b[..n], p, u);
      if u in NoteIds(OkOutputs(b)) {
        OwnerLast(b, u);
      }
    }
  }

  // ---------------------------------------------------------------------------
  // remove_notes

  /**
    The loop of `remove_notes` over a file's list: each note loses its title
    and file and leaves the graph together with every edge touching it.
   */
  function ForgetNotes(s: State, list: seq<Uuid>): (r: State)
    requires Valid(s)
    ensures Valid(r)
    ensures r.titles == s.titles - Elements(list) && r.fileIds == s.fileIds - Elements(list)
    ensures forall m :: m in r.links.nodes <==> m in s.links.nodes && m !in list
    ensures forall e :: e in r.links.edges <==> e in s.links.edges && e.0 !in list && e.1 !in list
    ensures r == s.(links := r.links, titles := r.titles, fileIds := r.fileIds)
    decreases |list|
  {
    if list == [] then
      assert s.titles - Elements(list) == s.titles;
      assert s.fileIds - Elements(list) == s.fileIds;
      s
    else
      var n := |list| - 1;
      var i := list[n];
      var p := ForgetNotes(s, list[..n]);
      assert Elements(list) == Elements(list[..n]) + {i};
      assert forall x :: x in list <==> x in list[..n] || x == i;
      p.(titles := p.titles - {i}, fileIds := p.fileIds - {i}, links := RemoveNode(p.links, i))
  }

  /** Whether deleting some of the fragments of `list` fails. */
  predicate SomeRemovalFails(s: State, list: seq<Uuid>, removeOk: Path -> bool) {
    exists k :: 0 <= k < |list| && !removeOk(FragmentPath(s, list[k]))
  }

  /**
    `remove_notes`: the file's status is dropped in any case. When the file
    has a list, its notes are forgotten, their fragments are deleted
    (`removeOk` says whether deleting a path succeeds; any failure cancels
    the application) and `Remove(list)` is broadcast; otherwise nothing else
    happens.
   */
  function RemoveNotes(s: State, fileId: FileId, removeOk: Path -> bool): (r: Step)
    requires Valid(s)
    ensures Valid(r.state)
    ensures r.state.errors == s.errors - {fileId} && r.state.ids == s.ids - {fileId}
    ensures r.sent.Some? <==> fileId in s.ids
    ensures r.sent.Some? ==> r.sent.value == Remove(s.ids[fileId])
    ensures fileId !in s.ids ==> r.state == s.(errors := s.errors - {fileId}, ids := s.ids - {fileId})
    ensures fileId in s.ids ==>
      && (forall u :: u in r.state.titles <==> u in s.titles && u !in s.ids[fileId])
      && (forall u :: u in r.state.links.nodes <==> u in s.links.nodes && u !in s.ids[fileId])
      && (forall e :: e in r.state.links.edges <==>
            e in s.links.edges && e.0 !in s.ids[fileId] && e.1 !in s.ids[fileId])
      && (r.state.cancelled <==> s.cancelled || SomeRemovalFails(s, s.ids[fileId], removeOk))
    ensures r.state.buildFinished == s.buildFinished && r.state.buildSubdirectory == s.buildSubdirectory
  {
    var dropped := s.(errors := s.errors - {fileId});
    if fileId in s.ids then
      var list := s.ids[fileId];
      var t := ForgetNotes(dropped.(ids := s.ids - {fileId}), list);
      Step(t.(cancelled := t.cancelled || SomeRemovalFails(s, list, removeOk)), Some(Remove(list)))
    else
      assert s.ids - {fileId} == s.ids;
      Step(dropped, None)
  }

  // ---------------------------------------------------------------------------
  // subscribe, get_note_content, set_build_finished

  /**
    `subscribe`: the snapshot lists, for every node with outgoing edges, the
    notes it links to, and all titles. (The source collects each list in
    petgraph's edge order; as a set, only its contents are kept.)
   */
  function Subscribe(s: State): (r: Initialize)
    ensures forall u, v :: u in r.outgoingLinks && v in r.outgoingLinks[u] <==> (u, v) in s.links.edges
    ensures forall u :: u in r.outgoingLinks ==> r.outgoingLinks[u] != {}
    ensures r.titles == s.titles
  {
    var sources := set e | e in s.links.edges :: e.0;
    Initialize(map u | u in sources :: Successors(s.links, u), s.titles)
  }

  /**
    `get_note_content`: a note that is a node of the graph is served from its
    fragment file (`read` gives the file system's answer); any other id has
    no content.
   */
  function GetNoteContent(s: State, id: Uuid, read: Path -> Result<string, IoError>): (r: Result<Option<string>, IoError>)
    ensures id !in s.links.nodes ==> r == Ok(None)
    ensures r.Ok? && r.value.Some? ==> id in s.links.nodes && read(FragmentPath(s, id)) == Ok(r.value.value)
    ensures r.Err? ==> id in s.links.nodes && read(FragmentPath(s, id)) == Err(r.error)
    ensures id in s.links.nodes ==> r.Err? || r.value.Some?
  {
    if id in s.links.nodes then
      match read(FragmentPath(s, id))
      case Ok(content) => Ok(Some(content))
      case Err(e) => Err(e)
    else Ok(None)
  }

  /** `set_build_finished`: triggers the event; it never resets. */
  function SetBuildFinished(s: State): (r: State)
    requires Valid(s)
    ensures Valid(r) && r.buildFinished
    ensures r.(buildFinished := s.buildFinished) == s
  {
    s.(buildFinished := true)
  }

  // ---------------------------------------------------------------------------
  // The actor: one message at a time

  /** The messages `NotesService` handles. */
  datatype Message =
    | ContentRequest(id: Uuid)
    | Created(fileId: FileId, result: Compiled<seq<NoteData>>)
    | Updated(batch: Batch)
    | Removed(fileId: FileId)
    | Finished
    | FinishedRequest
    | SubscribeRequest

  /** What a message's reply channel receives, if it has one. */
  datatype Reply =
    | NoReply
    | Content(content: Result<Option<string>, IoError>)
    | FinishedEvent(occurred: bool)
    | Snapshot(initialize: Initialize)

  /** The file system as seen by the service: reading and deleting fragments. */
  datatype FileSystem = FileSystem(read: Path -> Result<string, IoError>, removeOk: Path -> bool)

  /** `NotesService::handle`, with `update_notes` corrected. */
  function Handle(s: State, m: Message, fs: FileSystem): (r: (Step, Reply))
    requires Valid(s)
    ensures Valid(r.0.state)
    ensures s.buildFinished ==> r.0.state.buildFinished
    ensures s.cancelled ==> r.0.state.cancelled
    ensures r.0.state.buildSubdirectory == s.buildSubdirectory
    ensures r.0.sent.Some? ==> m.Created? || m.Updated? || m.Removed?
    ensures r.1.NoReply? <==> m.Created? || m.Updated? || m.Removed? || m.Finished?
    ensures !(m.Created? || m.Updated? || m.Removed? || m.Finished?) ==> r.0.state == s
  {
    match m
    case ContentRequest(id) => (Step(s, None), Content(GetNoteContent(s, id, fs.read)))
    case Created(fileId, result) => (CreateNotes(s, fileId, result), NoReply)
    case Updated(batch) => (UpdateNotes(s, batch), NoReply)
    case Removed(fileId) => (RemoveNotes(s, fileId, fs.removeOk), NoReply)
    case Finished => (Step(SetBuildFinished(s), None), NoReply)
    case FinishedRequest => (Step(s, None), FinishedEvent(s.buildFinished))
    case SubscribeRequest => (Step(s, None), Snapshot(Subscribe(s)))
  }

  /** Handling a sequence of messages in order, collecting the broadcasts. */
  function Run(s: State, ms: seq<Message>, fs: FileSystem): (r: (State, seq<NoteUpdate>))
    requires Valid(s)
    ensures Valid(r.0)
    ensures s.buildFinished ==> r.0.buildFinished
    ensures s.cancelled ==> r.0.cancelled
    ensures |r.1| <= |ms|
    decreases |ms|
  {
    if ms == [] then (s, [])
    else
      var n := |ms| - 1;
      var (p, sent) := Run(s, ms[..n], fs);
      var (step, _) := Handle(p, ms[n], fs);
      (step.state, sent + if step.sent.Some? then [step.sent.value] else [])
  }

  // ---------------------------------------------------------------------------
  // Properties across operations

  /**
    The panic of `update_notes`, concretely: a file whose first build failed
    has no list, so its first good rebuild crashes the service, while the
    corrected operation records its notes.
   */
  lemma FailedThenFixedPanics(dir: Path, f: FileId, e: seq<Diagnostic>, d: NoteData)
    ensures var s := CreateNotes(Start(dir), f, Err(e)).state;
      var b: Batch := [(f, Ok(Warned([d], [])))];
      && UpdateNotesAsWritten(s, b) == None
      && UpdateNotes(s, b).state.ids[f] == [d.id]
      && d.id in UpdateNotes(s, b).state.titles
  {
    var s := CreateNotes(Start(dir), f, Err(e)).state;
    var b: Batch := [(f, Ok(Warned([d], [])))];
    assert b[0].1.Ok? && b[0].0 !in s.ids;
    UpdateNotesPanics(s, b);
    UpdateLoopIds(s, b);
    UpdateLoopTitles(s, b);
    OkOutputsSplit(b);
    assert b[..0] == [] && Outputs([]) == [];
    assert OkOutputs(b) == [d];
  }

  /**
    A note without links that is new in a rebuilt file gets a title but does
    not become a node, so its content cannot be fetched.
   */
  lemma LinklessUpdatedNoteHasNoContent(s: State, fileId: FileId, d: NoteData, read: Path -> Result<string, IoError>)
    requires Valid(s) && fileId in s.ids && d.id !in s.links.nodes && d.links == []
    ensures var r := UpdateNote(s, fileId, d);
      d.id in r.titles && GetNoteContent(r, d.id, read) == Ok(None)
  {
  }

  /**
    A created note is served from its fragment file: after `create_notes`
    every note of the batch has content, read from `{id}.html`.
   */
  lemma CreatedNoteHasContent(s: State, fileId: FileId, w: Warned<seq<NoteData>>, k: nat, read: Path -> Result<string, IoError>)
    requires Valid(s) && k < |w.output|
    ensures var r := CreateNotes(s, fileId, Ok(w)).state; var id := w.output[k].id;
      && r.buildSubdirectory == s.buildSubdirectory
      && GetNoteContent(r, id, read) == (match read(FragmentPath(s, id))
                                          case Ok(c) => Ok(Some(c))
                                          case Err(e) => Err(e))
  {
    CreateNotesOk(s, fileId, w);
    assert NoteIds(w.output)[k] == w.output[k].id;
  }

  /**
    After `remove_notes` none of the file's notes is served, has a title or
    appears in a subscriber's snapshot.
   */
  lemma RemovedNotesAreGone(s: State, fileId: FileId, removeOk: Path -> bool, read: Path -> Result<string, IoError>, i: Uuid)
    requires Valid(s) && fileId in s.ids && i in s.ids[fileId]
    ensures var r := RemoveNotes(s, fileId, removeOk).state;
      && GetNoteContent(r, i, read) == Ok(None)
      && i !in r.titles
      && i !in Subscribe(r).outgoingLinks && i !in Subscribe(r).titles
      && forall u :: u in Subscribe(r).outgoingLinks ==> i !in Subscribe(r).outgoingLinks[u]
  {
  }

  /**
    A snapshot taken after a good `create_notes` shows each note of the batch
    linking to exactly the links it listed, plus whatever it linked to before.
   */
  lemma SnapshotAfterCreate(s: State, fileId: FileId, w: Warned<seq<NoteData>>, k: nat, j: Uuid)
    requires Valid(s) && k < |w.output| && j in w.output[k].links
    ensures var snap := Subscribe(CreateNotes(s, fileId, Ok(w)).state);
      w.output[k].id in snap.outgoingLinks && j in snap.outgoingLinks[w.output[k].id]
  {
    var r := CreateNotes(s, fileId, Ok(w)).state;
    var ns := w.output;
    assert ns[k].id in NoteIds(ns) && j in LinkTargetsOf(ns, ns[k].id) by {
      assert NoteIds(ns)[k] == ns[k].id;
    }
    CreateNotesOk(s, fileId, w);
    assert (ns[k].id, j) in r.links.edges;
    var snap := Subscribe(r);
  }

  /** Once finished, the initial build stays finished whatever is handled. */
  lemma FinishedStaysFinished(s: State, ms: seq<Message>, fs: FileSystem)
    requires Valid(s)
    ensures Run(SetBuildFinished(s), ms, fs).0.buildFinished
  {
  }
}
