/**
  The stub notes actor: a fixed graph of three notes that answers content
  and metadata (title, links, backlinks) requests without changing state.

  The three UUIDs are written as the 128-bit values of the textual UUIDs
  the actor parses. The three HTML pages it embeds are represented by
  `Page`; their text is not part of this model.
 */
module Service {
  import opened Wrappers
  import opened Uuids
  import Digraph

  /** `550e8400-e29b-41d4-a716-446655440000` and its two successors. */
  const Uuid1: Uuid := (LimitValue(); 0x550e8400_e29b_41d4_a716_446655440000)
  const Uuid2: Uuid := (LimitValue(); 0x550e8400_e29b_41d4_a716_446655440001)
  const Uuid3: Uuid := (LimitValue(); 0x550e8400_e29b_41d4_a716_446655440002)

  /** The embedded pages `CONTENT1`, `CONTENT2`, `CONTENT3`. */
  datatype Page = Content1 | Content2 | Content3

  /**
    `NotesActor`: the link graph, the ids that have a graph node
    (`node_ids`' keys; the graph's nodes are the UUIDs themselves) and the
    titles.
   */
  datatype NotesActor = NotesActor(links: Digraph.Graph<Uuid>, nodeIds: set<Uuid>, titles: map<Uuid, string>)

  /** What `NotesActor::default` establishes and every handler relies on. */
  ghost predicate Coherent(a: NotesActor) {
    Digraph.Valid(a.links) && a.nodeIds == a.links.nodes && a.nodeIds <= a.titles.Keys
  }

  /** `NotesActor::default`: three nodes and the edges 1→2, 1→3, 2→3, 3→1. */
  function Default(): (a: NotesActor)
    ensures Coherent(a)
  {
    var g := Digraph.AddNode(Digraph.AddNode(Digraph.AddNode(Digraph.Empty(), Uuid1), Uuid2), Uuid3);
    var g := Digraph.AddEdge(Digraph.AddEdge(Digraph.AddEdge(Digraph.AddEdge(g, Uuid1, Uuid2), Uuid1, Uuid3), Uuid2, Uuid3), Uuid3, Uuid1);
    NotesActor(g, {Uuid1, Uuid2, Uuid3}, map[Uuid1 := "Note 1", Uuid2 := "Note 2", Uuid3 := "Note 3"])
  }

  /** The default actor's graph, node ids and titles, written out. */
  lemma DefaultGraph()
    ensures Default().links.nodes == {Uuid1, Uuid2, Uuid3}
    ensures Default().links.edges == {(Uuid1, Uuid2), (Uuid1, Uuid3), (Uuid2, Uuid3), (Uuid3, Uuid1)}
    ensures Default().nodeIds == {Uuid1, Uuid2, Uuid3}
    ensures Default().titles == map[Uuid1 := "Note 1", Uuid2 := "Note 2", Uuid3 := "Note 3"]
  {
  }

  /* -------------------------------------------------------------- content */

  /**
    The content handler as written: its third test repeats the second's
    UUID, so the third page is never served and the third note gets
    `Ok(None)`.
   */
  function ContentAsWritten(id: Uuid): (r: Result<Option<Page>, ()>)
    ensures r.Ok?
    ensures r.value.Some? <==> id == Uuid1 || id == Uuid2
  {
    if id == Uuid1 then Ok(Some(Content1))
    else if id == Uuid2 then Ok(Some(Content2))
    else if id == Uuid2 then Ok(Some(Content3))
    else Ok(None)
  }

  /** The third note is a node with a title, yet has no content as written. */
  lemma ThirdNoteHasNoContent()
    ensures Uuid3 in Default().nodeIds && Default().titles[Uuid3] == "Note 3"
    ensures ContentAsWritten(Uuid3) == Ok(None)
    ensures forall id: Uuid :: ContentAsWritten(id) != Ok(Some(Content3))
  {
  }

  /** The content handler with its third test on the third UUID. */
  function Content(id: Uuid): (r: Result<Option<Page>, ()>)
    ensures r.Ok?
  {
    if id == Uuid1 then Ok(Some(Content1))
    else if id == Uuid2 then Ok(Some(Content2))
    else if id == Uuid3 then Ok(Some(Content3))
    else Ok(None)
  }

  /** Every note of the default actor has its own page, and only notes have one. */
  lemma ContentForEveryNote()
    ensures forall id: Uuid :: Content(id).value.Some? <==> id in Default().nodeIds
    ensures forall a: Uuid, b: Uuid :: Content(a).value.Some? && Content(a) == Content(b) ==> a == b
  {
  }

  /* ------------------------------------------------------------- metadata */

  datatype NoteMetadata = NoteMetadata(title: string, links: set<Uuid>, backlinks: set<Uuid>)

  /**
    The metadata handler: for a known node, its title, its outgoing
    neighbours and its incoming neighbours.
   */
  function Metadata(a: NotesActor, id: Uuid): (r: Option<NoteMetadata>)
    requires a.nodeIds <= a.titles.Keys
    ensures r.None? <==> id !in a.nodeIds
    ensures r.Some? ==> r.value.title == a.titles[id]
  {
    if id in a.nodeIds then
      Some(NoteMetadata(a.titles[id], Digraph.Successors(a.links, id), Digraph.Predecessors(a.links, id)))
    else None
  }

  /** Links are the edges leaving a note and backlinks the edges entering it. */
  lemma MetadataIsEdges(a: NotesActor, x: Uuid, y: Uuid)
    requires a.nodeIds <= a.titles.Keys
    requires x in a.nodeIds
    ensures y in Metadata(a, x).value.links <==> (x, y) in a.links.edges
    ensures y in Metadata(a, x).value.backlinks <==> (y, x) in a.links.edges
  {
    assert (x, y) in a.links.edges ==> y in Digraph.Successors(a.links, x);
    assert (y, x) in a.links.edges ==> y in Digraph.Predecessors(a.links, x);
  }

  /** `b` is among `a`'s links exactly when `a` is among `b`'s backlinks. */
  lemma LinksMirrorBacklinks(act: NotesActor, a: Uuid, b: Uuid)
    requires act.nodeIds <= act.titles.Keys
    requires a in act.nodeIds && b in act.nodeIds
    ensures b in Metadata(act, a).value.links <==> a in Metadata(act, b).value.backlinks
  {
    MetadataIsEdges(act, a, b);
    MetadataIsEdges(act, b, a);
  }

  /** The default actor's answers, derived from its graph. */
  lemma DefaultMetadata()
    ensures Metadata(Default(), Uuid1) == Some(NoteMetadata("Note 1", {Uuid2, Uuid3}, {Uuid3}))
    ensures Metadata(Default(), Uuid2) == Some(NoteMetadata("Note 2", {Uuid3}, {Uuid1}))
    ensures Metadata(Default(), Uuid3) == Some(NoteMetadata("Note 3", {Uuid1}, {Uuid1, Uuid2}))
  {
    DefaultGraph();
    var g := Default().links;
    assert Digraph.Successors(g, Uuid1) == {Uuid2, Uuid3} by {
      assert (Uuid1, Uuid2) in g.edges && (Uuid1, Uuid3) in g.edges;
    }
    assert Digraph.Predecessors(g, Uuid1) == {Uuid3} by {
      assert (Uuid3, Uuid1) in g.edges;
    }
    assert Digraph.Successors(g, Uuid2) == {Uuid3} by {
      assert (Uuid2, Uuid3) in g.edges;
    }
    assert Digraph.Predecessors(g, Uuid2) == {Uuid1} by {
      assert (Uuid1, Uuid2) in g.edges;
    }
    assert Digraph.Successors(g, Uuid3) == {Uuid1} by {
      assert (Uuid3, Uuid1) in g.edges;
    }
    assert Digraph.Predecessors(g, Uuid3) == {Uuid1, Uuid2} by {
      assert (Uuid1, Uuid3) in g.edges && (Uuid2, Uuid3) in g.edges;
    }
  }

  /* ------------------------------------------------------------ the actor */

  datatype Request = ContentRequest(id: Uuid) | MetadataRequest(id: Uuid)

  datatype Response = ContentResponse(content: Result<Option<Page>, ()>) | MetadataResponse(metadata: Option<NoteMetadata>)

  /**
    One message handled: the response and the actor afterwards, which is
    unchanged. Content is answered by the handler as written, so the third
    note gets no page.
   */
  function Handle(a: NotesActor, request: Request): (r: (Response, NotesActor))
    requires a.nodeIds <= a.titles.Keys
    ensures r.1 == a
    ensures request.ContentRequest? ==> r.0.ContentResponse? && r.0.content.Ok?
    ensures request.ContentRequest? ==> (r.0.content.value.Some? <==> request.id == Uuid1 || request.id == Uuid2)
    ensures request.MetadataRequest? ==> r.0.MetadataResponse? && (r.0.metadata.None? <==> request.id !in a.nodeIds)
  {
    match request
    case ContentRequest(id) => (ContentResponse(ContentAsWritten(id)), a)
    case MetadataRequest(id) => (MetadataResponse(Metadata(a, id)), a)
  }

  /** The actor's receive loop over a sequence of messages, threading its state. */
  function Serve(a: NotesActor, requests: seq<Request>): (r: seq<Response>)
    requires a.nodeIds <= a.titles.Keys
    ensures |r| == |requests|
  {
    if requests == [] then []
    else
      var (response, next) := Handle(a, requests[0]);
      [response] + Serve(next, requests[1..])
  }

  /**
    Since no handler changes the actor, each response depends on its own
    request only: the `k`-th response is what the actor answers to the
    `k`-th request on its own.
   */
  lemma {:induction false} ServeIsStateless(a: NotesActor, requests: seq<Request>)
    requires a.nodeIds <= a.titles.Keys
    ensures forall k :: 0 <= k < |requests| ==> Serve(a, requests)[k] == Handle(a, requests[k]).0
  {
    if requests != [] {
      ServeIsStateless(a, requests[1..]);
      assert forall k :: 1 <= k < |requests| ==> Serve(a, requests)[k] == Serve(a, requests[1..])[k - 1];
    }
  }
}
