/**
  The pure half of the build service: the `note:` and `note://` parsers,
  `find_links`, and `extract_note_fragments`, which cuts a compiled page into
  one HTML fragment per labelled heading.
 */
module Extraction {
  import opened Wrappers
  import opened Uuids
  import opened Html

  // ---------------------------------------------------------------------------
  // Prefixed UUIDs

  /** `s.strip_prefix(prefix)`. */
  function StripPrefix(s: string, prefix: string): (r: Option<string>)
    ensures r.Some? <==> prefix <= s
    ensures r.Some? ==> prefix + r.value == s
  {
    if prefix <= s then Some(s[|prefix|..]) else None
  }

  /** Why a prefixed UUID did not parse (`NoteUuidParseError`, `NoteLinkParseError`). */
  datatype PrefixError = MissingPrefix | BadUuid(error: UuidError)

  /** Strip `prefix`, then parse the rest with the UUID parser. */
  function ParsePrefixed(s: string, prefix: string, parse: UuidParser): (r: Result<Uuid, PrefixError>)
    ensures r == Err(MissingPrefix) <==> !(prefix <= s)
    ensures prefix <= s ==> (r.Ok? <==> parse(s[|prefix|..]).Ok?)
    ensures prefix <= s && r.Ok? ==> r.value == parse(s[|prefix|..]).value
    ensures prefix <= s && r.Err? ==> r.error == BadUuid(parse(s[|prefix|..]).error)
  {
    match StripPrefix(s, prefix)
    case None => Err(MissingPrefix)
    case Some(rest) =>
      match parse(rest)
      case Ok(u) => Ok(u)
      case Err(e) => Err(BadUuid(e))
  }

  const LabelPrefix := "note:"
  const LinkPrefix := "note://"

  /** `NoteUuid::from_str`: a heading label `note:<uuid>`. */
  function NoteUuidFromStr(s: string, parse: UuidParser): Result<Uuid, PrefixError>
  {
    ParsePrefixed(s, LabelPrefix, parse)
  }

  /** `NoteLink::from_str`: a link target `note://<uuid>`. */
  function NoteLinkFromStr(s: string, parse: UuidParser): Result<Uuid, PrefixError>
  {
    ParsePrefixed(s, LinkPrefix, parse)
  }

  /** A parser that reads back every UUID in its hyphenated form. */
  ghost predicate ReadsHyphenated(parse: UuidParser) {
    forall u: Uuid :: parse(Hyphenated(u)) == Ok(u)
  }

  /** A parser that refuses text beginning with `/`, as the `uuid` crate does. */
  ghost predicate RefusesSlash(parse: UuidParser) {
    forall s :: |s| > 0 && s[0] == '/' ==> parse(s).Err?
  }

  /** A label and a link written with the hyphenated form parse back to their UUID. */
  lemma PrefixedRoundTrip(u: Uuid, parse: UuidParser)
    requires ReadsHyphenated(parse)
    ensures NoteUuidFromStr(LabelPrefix + Hyphenated(u), parse) == Ok(u)
    ensures NoteLinkFromStr(LinkPrefix + Hyphenated(u), parse) == Ok(u)
  {
    assert (LabelPrefix + Hyphenated(u))[|LabelPrefix|..] == Hyphenated(u);
    assert (LinkPrefix + Hyphenated(u))[|LinkPrefix|..] == Hyphenated(u);
  }

  /**
    `note://` begins with `note:`, so a link is never mistaken for a label:
    the label parser sees `//<uuid>` and refuses it.
   */
  lemma LinkIsNotLabel(s: string, parse: UuidParser)
    requires RefusesSlash(parse)
    requires NoteLinkFromStr(s, parse).Ok?
    ensures NoteUuidFromStr(s, parse) == Err(BadUuid(parse(s[|LabelPrefix|..]).error))
  {
    assert LinkPrefix[..|LabelPrefix|] == LabelPrefix;
    assert s[|LabelPrefix|] == '/';
  }

  // ---------------------------------------------------------------------------
  // find_links

  /** The UUID an anchor links to, when its `href` is a note link. */
  function LinkOf(a: Tree<HtmlNode>, parse: UuidParser): Option<Uuid> {
    if !a.value.Element? then None
    else match Attr(a.value.attrs, "href")
      case None => None
      case Some(href) =>
        match NoteLinkFromStr(href, parse)
        case Ok(u) => Some(u)
        case Err(_) => None
  }

  /** `xs.flat_map(f)`: the lists `f` gives for each element, concatenated in order. */
  function FlatMap<T, U>(xs: seq<T>, f: T -> seq<U>): seq<U>
    decreases |xs|
  {
    if xs == [] then [] else FlatMap(xs[..|xs| - 1], f) + f(xs[|xs| - 1])
  }

  lemma {:induction false} FlatMapAppend<T, U>(a: seq<T>, b: seq<T>, f: T -> seq<U>)
    ensures FlatMap(a + b, f) == FlatMap(a, f) + FlatMap(b, f)
    decreases |b|
  {
    if b == [] {
      assert a + b == a;
    } else {
      var n := |b| - 1;
      FlatMapAppend(a, b[..n], f);
      assert (a + b)[..|a + b| - 1] == a + b[..n];
    }
  }

  lemma {:induction false} FlatMapMembers<T, U>(xs: seq<T>, f: T -> seq<U>, u: U)
    ensures u in FlatMap(xs, f) <==> exists l :: 0 <= l < |xs| && u in f(xs[l])
    decreases |xs|
  {
    if xs != [] {
      var n := |xs| - 1;
      FlatMapMembers(xs[..n], f, u);
      if exists l :: 0 <= l < |xs| && u in f(xs[l]) {
        var l :| 0 <= l < |xs| && u in f(xs[l]);
        if l < n {
          assert xs[..n][l] == xs[l];
        }
      }
      if u in FlatMap(xs[..n], f) {
        var l :| 0 <= l < n && u in f(xs[..n][l]);
        assert xs[..n][l] == xs[l];
      }
    }
  }

  /** The link of one anchor, as a list of zero or one UUIDs. */
  function LinkList(a: Tree<HtmlNode>, parse: UuidParser): (r: seq<Uuid>)
    ensures forall u :: u in r <==> LinkOf(a, parse) == Some(u)
  {
    match LinkOf(a, parse)
    case Some(u) => [u]
    case None => []
  }

  /**
    The copies `clone_subtree` makes of a run of siblings, one after another
    as `append_subtree` appends them, each copy's nodes in the breadth-first
    order in which it creates them (`Html.CloneSubtree`).
   */
  function Copies(ts: seq<Html>): seq<Html> {
    FlatMap(ts, Breadth)
  }

  /** The nodes of one tree, breadth first. */
  function Breadth(t: Html): seq<Html> {
    LevelOrder([t])
  }

  /** A child appended to a fragment's root, followed by the copies appended under it. */
  function Appended(c: Html): seq<Html> {
    [c] + Copies(c.children)
  }

  /**
    The nodes of a note fragment in `ego_tree` id order, which is the order
    `Html::select` visits them: the fragment root, then each child appended
    to it followed by the subtree copies appended under that child. A
    subtree appended with `append_subtree` keeps its own id order, after
    every node the fragment already has.
   */
  function ArenaNodes(fragment: Html): seq<Html> {
    [fragment] + FlatMap(fragment.children, Appended)
  }

  /** The link of a node that is an anchor, as a list of zero or one UUIDs. */
  function AnchorLink(x: Html, parse: UuidParser): seq<Uuid> {
    if Named(x, "a") then LinkList(x, parse) else []
  }

  /** The note links of the anchors among `ns`, in the order of `ns`. */
  function LinksIn(ns: seq<Html>, parse: UuidParser): seq<Uuid> {
    FlatMap(ns, AnchorLinks(parse))
  }

  /** `AnchorLink` for a fixed UUID parser. */
  function AnchorLinks(parse: UuidParser): Html -> seq<Uuid> {
    x => AnchorLink(x, parse)
  }

  /** `find_links` on a note fragment: the targets of its anchors' note links, in node id order. */
  function FindLinks(fragment: Html, parse: UuidParser): seq<Uuid> {
    LinksIn(ArenaNodes(fragment), parse)
  }

  /** The copies of a run of siblings hold exactly the siblings' nodes. */
  lemma {:induction false} CopiesMembers(ts: seq<Html>, x: Html)
    ensures x in Copies(ts) <==> x in Nodes(ts)
    decreases |ts|
  {
    if ts != [] {
      var n := |ts| - 1;
      CopiesMembers(ts[..n], x);
      LevelOrderMembers([ts[n]], x);
      NodesAppend(ts[..n], [ts[n]]);
      assert ts[..n] + [ts[n]] == ts;
    }
  }

  /** Appending children with their copies puts exactly the children's nodes in the arena. */
  lemma {:induction false} AppendedMembers(cs: seq<Html>, x: Html)
    ensures x in FlatMap(cs, Appended) <==> x in Nodes(cs)
    decreases |cs|
  {
    if cs != [] {
      var n := |cs| - 1;
      AppendedMembers(cs[..n], x);
      CopiesMembers(cs[n].children, x);
      NodesAppend(cs[..n], [cs[n]]);
      assert cs[..n] + [cs[n]] == cs;
      assert [cs[n]][1..] == [];
      assert Nodes([cs[n]]) == [cs[n]] + Nodes(cs[n].children) + Nodes([]);
    }
  }

  /** The arena of a fragment holds exactly the fragment's nodes. */
  lemma ArenaMembers(fragment: Html, x: Html)
    ensures x in ArenaNodes(fragment) <==> x in Nodes([fragment])
  {
    AppendedMembers(fragment.children, x);
    assert [fragment][1..] == [];
    assert Nodes([fragment]) == [fragment] + Nodes(fragment.children) + Nodes([]);
  }

  /** A UUID is among the links of `ns` exactly when an anchor among them links to it. */
  lemma LinksInMembers(ns: seq<Html>, parse: UuidParser, u: Uuid)
    ensures u in LinksIn(ns, parse) <==> exists a :: a in ns && Named(a, "a") && LinkOf(a, parse) == Some(u)
  {
    FlatMapMembers(ns, AnchorLinks(parse), u);
    if exists a :: a in ns && Named(a, "a") && LinkOf(a, parse) == Some(u) {
      var a :| a in ns && Named(a, "a") && LinkOf(a, parse) == Some(u);
      var l :| 0 <= l < |ns| && ns[l] == a;
      assert u in AnchorLinks(parse)(ns[l]);
    }
    if u in LinksIn(ns, parse) {
      var l :| 0 <= l < |ns| && u in AnchorLinks(parse)(ns[l]);
      assert ns[l] in ns;
    }
  }

  /**
    A UUID is found exactly when some anchor of the fragment links to it;
    anchors without `href`, or with another scheme, contribute nothing.
   */
  lemma FindLinksExactly(fragment: Html, parse: UuidParser, u: Uuid)
    ensures u in FindLinks(fragment, parse) <==> exists a :: a in Nodes([fragment]) && Named(a, "a") && LinkOf(a, parse) == Some(u)
  {
    LinksInMembers(ArenaNodes(fragment), parse, u);
    forall x
      ensures x in ArenaNodes(fragment) <==> x in Nodes([fragment])
    {
      ArenaMembers(fragment, x);
    }
  }

  /** The links of consecutive nodes are the links of each part, in turn. */
  lemma LinksInAppend(a: seq<Html>, b: seq<Html>, parse: UuidParser)
    ensures LinksIn(a + b, parse) == LinksIn(a, parse) + LinksIn(b, parse)
  {
    FlatMapAppend(a, b, AnchorLinks(parse));
  }

  /** The links of a node followed by others: its own link, if it is an anchor, then theirs. */
  lemma LinksInCons(x: Html, rest: seq<Html>, parse: UuidParser)
    ensures LinksIn([x] + rest, parse) == AnchorLink(x, parse) + LinksIn(rest, parse)
  {
    LinksInAppend([x], rest, parse);
    assert [x][..0] == [];
    assert LinksIn([x], parse) == FlatMap([x][..0], AnchorLinks(parse)) + AnchorLinks(parse)(x);
  }

  /** An article's links are those of the copies of its section: the root and the `article` element are no anchors. */
  lemma ArticleLinks(section: seq<Html>, parse: UuidParser)
    ensures FindLinks(Article(section), parse) == LinksIn(Copies(section), parse)
  {
    var f := Article(section);
    var art := f.children[0];
    assert [art][..0] == [];
    assert FlatMap([art], Appended) == [art] + Copies(section);
    assert ArenaNodes(f) == [f] + ([art] + Copies(section));
    assert !Named(art, "a") by {
      assert |art.value.name| == 7;
    }
    LinksInCons(f, [art] + Copies(section), parse);
    LinksInCons(art, Copies(section), parse);
  }

  /**
    A fragment's links come sibling by sibling: those found under the first
    siblings of a section, then those under the rest.
   */
  lemma FindLinksSiblings(a: seq<Html>, b: seq<Html>, parse: UuidParser)
    ensures FindLinks(Article(a + b), parse) == FindLinks(Article(a), parse) + FindLinks(Article(b), parse)
  {
    ArticleLinks(a + b, parse);
    ArticleLinks(a, parse);
    ArticleLinks(b, parse);
    FlatMapAppend(a, b, Breadth);
    LinksInAppend(Copies(a), Copies(b), parse);
  }

  /** The links of a fragment holding one copied subtree are those of that subtree, breadth first. */
  lemma ArticleOfOne(p: Html, parse: UuidParser)
    ensures FindLinks(Article([p]), parse) == LinksIn(LevelOrder([p]), parse)
  {
    ArticleLinks([p], parse);
    assert [p][..0] == [];
    assert FlatMap([p][..0], Breadth) == [];
    assert Copies([p]) == FlatMap([p][..0], Breadth) + Breadth(p);
    assert Breadth(p) == LevelOrder([p]);
    assert Copies([p]) == LevelOrder([p]);
    assert FindLinks(Article([p]), parse) == LinksIn(Copies([p]), parse);
  }

  /** A node with a child that has a child, then a leaf: the orders differ in the last two nodes. */
  lemma NestedOrders<T>(p: Tree<T>, em: Tree<T>, after: Tree<T>, nested: Tree<T>)
    requires p.children == [em, after] && em.children == [nested]
    requires after.children == [] && nested.children == []
    ensures LevelOrder([p]) == [p, em, after, nested]
    ensures Nodes([p]) == [p, em, nested, after]
  {
    NestedLevelOrder(p, em, after, nested);
    NestedNodes(p, em, after, nested);
  }

  lemma NestedLevelOrder<T>(p: Tree<T>, em: Tree<T>, after: Tree<T>, nested: Tree<T>)
    requires p.children == [em, after] && em.children == [nested]
    requires after.children == [] && nested.children == []
    ensures LevelOrder([p]) == [p, em, after, nested]
  {
    assert [p][1..] + p.children == [em, after];
    assert [em, after][1..] + em.children == [after, nested];
    LevelOrderLeaves([after, nested]);
    assert LevelOrder([em, after]) == [em] + [after, nested];
  }

  lemma NestedNodes<T>(p: Tree<T>, em: Tree<T>, after: Tree<T>, nested: Tree<T>)
    requires p.children == [em, after] && em.children == [nested]
    requires after.children == [] && nested.children == []
    ensures Nodes([p]) == [p, em, nested, after]
  {
    assert [p][1..] == [] && [em, after][1..] == [after] && [after][1..] == [] && [nested][1..] == [];
    assert Nodes([nested]) == [nested] + [] + [];
    assert Nodes([after]) == [after] + [] + [];
    assert Nodes([em, after]) == [em] + [nested] + [after];
    assert Nodes([p]) == [p] + [em, nested, after] + [];
  }

  /** A queue of leaves is taken as it stands. */
  lemma {:induction false} LevelOrderLeaves<T>(q: seq<Tree<T>>)
    requires forall k :: 0 <= k < |q| ==> q[k].children == []
    ensures LevelOrder(q) == q
    decreases |q|
  {
    if q != [] {
      assert q[1..] + q[0].children == q[1..];
      LevelOrderLeaves(q[1..]);
    }
  }

  /** An anchor with a note link, one with another scheme and one with no `href`. */
  lemma FindLinksExample(u: Uuid, parse: UuidParser)
    requires ReadsHyphenated(parse)
    ensures var hrefed := Tree(Element("a", [("href", LinkPrefix + Hyphenated(u))]), []);
            var web := Tree(Element("a", [("href", "https://typst.app")]), []);
            var bare := Tree(Element("a", []), []);
            FindLinks(Article([Tree(Element("p", []), [web, hrefed, bare])]), parse) == [u]
  {
    PrefixedRoundTrip(u, parse);
    var hrefed := Tree(Element("a", [("href", LinkPrefix + Hyphenated(u))]), []);
    var web := Tree(Element("a", [("href", "https://typst.app")]), []);
    var bare := Tree(Element("a", []), []);
    var p := Tree(Element("p", []), [web, hrefed, bare]);
    assert "https://typst.app"[0] == 'h';
    assert !(LinkPrefix <= "https://typst.app");
    ArticleOfOne(p, parse);
    assert [p][1..] + p.children == [web, hrefed, bare];
    LevelOrderLeaves([web, hrefed, bare]);
    assert LevelOrder([p]) == [p] + [web, hrefed, bare];
    LinksInCons(p, [web, hrefed, bare], parse);
    LinksInCons(web, [hrefed, bare], parse);
    LinksInCons(hrefed, [bare], parse);
    LinksInCons(bare, [], parse);
    assert LinkOf(web, parse) == None;
    assert LinkOf(hrefed, parse) == Some(u);
    assert LinkOf(bare, parse) == None;
  }

  /**
    Links come out level by level, not in document order: an anchor nested
    in an `em` is found after an anchor that follows the `em` but sits one
    level higher, although `Select` lists the nested one first.
   */
  lemma FindLinksBreadthFirst(ua: Uuid, ub: Uuid, parse: UuidParser)
    requires ReadsHyphenated(parse)
    ensures var nested := Tree(Element("a", [("href", LinkPrefix + Hyphenated(ua))]), []);
            var after := Tree(Element("a", [("href", LinkPrefix + Hyphenated(ub))]), []);
            var p := Tree(Element("p", []), [Tree(Element("em", []), [nested]), after]);
            && Select([p], "a") == [nested, after]
            && FindLinks(Article([p]), parse) == [ub, ua]
  {
    PrefixedRoundTrip(ua, parse);
    PrefixedRoundTrip(ub, parse);
    var nested := Tree(Element("a", [("href", LinkPrefix + Hyphenated(ua))]), []);
    var after := Tree(Element("a", [("href", LinkPrefix + Hyphenated(ub))]), []);
    var em := Tree(Element("em", []), [nested]);
    var p := Tree(Element("p", []), [em, after]);
    assert !Named(p, "a") && !Named(em, "a") by {
      assert p.value.name[0] == 'p';
      assert |em.value.name| == 2;
    }
    assert LinkOf(after, parse) == Some(ub);
    assert LinkOf(nested, parse) == Some(ua);
    NestedAnchors(p, em, after, nested, parse);
  }

  /**
    The shape of `FindLinksBreadthFirst`: a non-anchor holding a non-anchor
    that holds an anchor, followed by an anchor.
   */
  lemma NestedAnchors(p: Html, em: Html, after: Html, nested: Html, parse: UuidParser)
    requires p.children == [em, after] && em.children == [nested]
    requires after.children == [] && nested.children == []
    requires !Named(p, "a") && !Named(em, "a") && Named(after, "a") && Named(nested, "a")
    ensures Select([p], "a") == [nested, after]
    ensures FindLinks(Article([p]), parse) == LinkList(after, parse) + LinkList(nested, parse)
  {
    NestedOrders(p, em, after, nested);
    SelectIsFilteredNodes([p], "a");
    FilterFour(p, em, nested, after);
    ArticleOfOne(p, parse);
    assert [p, em, after, nested] == [p] + ([em] + ([after] + ([nested] + [])));
    LinksInCons(p, [em] + ([after] + ([nested] + [])), parse);
    LinksInCons(em, [after] + ([nested] + []), parse);
    LinksInCons(after, [nested] + [], parse);
    LinksInCons(nested, [], parse);
  }

  /** Filtering four nodes of which the last two are anchors. */
  lemma FilterFour(p: Html, em: Html, nested: Html, after: Html)
    requires !Named(p, "a") && !Named(em, "a") && Named(nested, "a") && Named(after, "a")
    ensures Filter([p, em, nested, after], "a") == [nested, after]
  {
    assert [p, em, nested, after][..3] == [p, em, nested];
    assert [p, em, nested][..2] == [p, em];
    assert [p, em][..1] == [p];
    assert [p][..0] == [];
    assert Filter([p], "a") == [];
    assert Filter([p, em], "a") == [];
    assert Filter([p, em, nested], "a") == [nested];
  }

  // ---------------------------------------------------------------------------
  // extract_note_fragments: sections of the exported HTML

  /**
    `h.next_siblings().take_while(..)`: the siblings after a heading up to,
    not including, the next `h2` element; text and other nodes are kept.
   */
  function Section(siblings: seq<Html>): (r: seq<Html>)
    ensures r <= siblings
    ensures forall k :: 0 <= k < |r| ==> !Named(r[k], "h2")
    ensures |r| < |siblings| ==> Named(siblings[|r|], "h2")
  {
    if siblings == [] || Named(siblings[0], "h2") then [] else [siblings[0]] + Section(siblings[1..])
  }

  /**
    The fragment made for one section: a fragment root holding a single
    `article` element whose children are the section's nodes.
    `clone_subtree` copies each node faithfully (`Html.CloneSubtree`), so the
    copies are the nodes themselves here; `ArenaNodes` gives the order of
    the copies in the fragment's arena.
   */
  function Article(section: seq<Html>): Html {
    Tree(Fragment, [Tree(Element("article", []), section)])
  }

  /**
    `html.select("body > h2")`, each with the siblings that follow it: the
    `h2` elements whose parent is a `body` element, in document order.
    `underBody` says whether the parent of `ts` is a `body` element.
   */
  function Headers(ts: seq<Html>, underBody: bool): (r: seq<(Html, seq<Html>)>)
    ensures forall k :: 0 <= k < |r| ==> Named(r[k].0, "h2")
    decreases ts
  {
    if ts == [] then []
    else
      (if underBody && Named(ts[0], "h2") then [(ts[0], ts[1..])] else [])
      + Headers(ts[0].children, Named(ts[0], "body"))
      + Headers(ts[1..], underBody)
  }

  /** `collect()` into a `HashMap`: each insertion replaces an earlier one of the same key. */
  function Collect<K, V>(ps: seq<(K, V)>): map<K, V>
    decreases |ps|
  {
    if ps == [] then map[] else Collect(ps[..|ps| - 1])[ps[|ps| - 1].0 := ps[|ps| - 1].1]
  }

  /** The collected map has every listed key and no other. */
  lemma {:induction false} CollectKeys<K, V>(ps: seq<(K, V)>, k: K)
    ensures k in Collect(ps) <==> exists i :: 0 <= i < |ps| && ps[i].0 == k
    decreases |ps|
  {
    if ps != [] {
      var n := |ps| - 1;
      CollectKeys(ps[..n], k);
      if exists i :: 0 <= i < |ps| && ps[i].0 == k {
        var i :| 0 <= i < |ps| && ps[i].0 == k;
        if i < n {
          assert ps[..n][i] == ps[i];
        }
      }
      if k in Collect(ps[..n]) {
        var i :| 0 <= i < n && ps[..n][i].0 == k;
        assert ps[i] == ps[..n][i];
      }
    }
  }

  /** A key listed at `i` and never again is mapped to the value listed at `i`: the last one wins. */
  lemma {:induction false} CollectLast<K, V>(ps: seq<(K, V)>, i: nat)
    requires i < |ps| && forall j :: i < j < |ps| ==> ps[j].0 != ps[i].0
    ensures ps[i].0 in Collect(ps) && Collect(ps)[ps[i].0] == ps[i].1
    decreases |ps|
  {
    var n := |ps| - 1;
    if i < n {
      CollectLast(ps[..n], i);
    }
  }

  /** The (title, fragment) pair of one header: its first text and its section. */
  function TitledArticle(h: (Html, seq<Html>)): (string, Html) {
    (FirstText(h.0), Article(Section(h.1)))
  }

  /** The `fragments` map: each header's first text to its fragment, the last header winning. */
  function Fragments(html: seq<Html>): map<string, Html> {
    var hs := Headers(html, false);
    Collect(seq(|hs|, k requires 0 <= k < |hs| => TitledArticle(hs[k])))
  }

  // ---------------------------------------------------------------------------
  // extract_note_fragments: labelled headings

  /** A heading the introspector reports: its label (`tag`), if any, and its plain text. */
  datatype Heading = Heading(tag: Option<string>, text: string)

  /** The heading's title: its text with one leading "Section" removed. */
  function Title(h: Heading): (r: string)
    ensures "Section" <= h.text ==> "Section" + r == h.text
    ensures !("Section" <= h.text) ==> r == h.text
  {
    match StripPrefix(h.text, "Section")
    case Some(rest) => rest
    case None => h.text
  }

  /** The note a heading announces: its label parsed as `note:<uuid>`, with the title. */
  function Labelled(h: Heading, parse: UuidParser): (r: Option<(Uuid, string)>)
    ensures r.Some? <==> h.tag.Some? && NoteUuidFromStr(h.tag.value, parse).Ok?
    ensures r.Some? ==> r.value == (NoteUuidFromStr(h.tag.value, parse).value, Title(h))
  {
    match h.tag
    case None => None
    case Some(l) =>
      match NoteUuidFromStr(l, parse)
      case Ok(u) => Some((u, Title(h)))
      case Err(_) => None
  }

  function LabelledList(h: Heading, parse: UuidParser): seq<(Uuid, string)> {
    match Labelled(h, parse)
    case Some(p) => [p]
    case None => []
  }

  /** The `matches` map: each labelled heading's UUID to its title, the last heading winning. */
  function Matches(hs: seq<Heading>, parse: UuidParser): map<Uuid, string> {
    Collect(FlatMap(hs, h => LabelledList(h, parse)))
  }

  // ---------------------------------------------------------------------------
  // extract_note_fragments: pairing

  /** One extracted note: its title, its UUID and its fragment. */
  datatype NoteFragment = NoteFragment(title: string, id: Uuid, fragment: Html)

  function Titles(ns: seq<NoteFragment>): set<string> {
    set k | 0 <= k < |ns| :: ns[k].title
  }

  /**
    The consuming walk over `matches`: for each UUID in turn, its title's
    fragment is taken out of `fragments` if it is still there. Returns the
    notes made and the fragments left over.
   */
  function Pair(order: seq<Uuid>, matches: map<Uuid, string>, fragments: map<string, Html>)
    : (r: (seq<NoteFragment>, map<string, Html>))
    requires forall u :: u in order ==> u in matches
    ensures |r.0| <= |order|
    ensures forall k :: 0 <= k < |r.0| ==>
      && r.0[k].id in order && matches[r.0[k].id] == r.0[k].title
      && r.0[k].title in fragments && r.0[k].fragment == fragments[r.0[k].title]
    ensures forall k, l :: 0 <= k < l < |r.0| ==> r.0[k].title != r.0[l].title
    ensures r.1 == fragments - Titles(r.0)
    ensures forall u :: u in order && matches[u] in fragments ==> matches[u] in Titles(r.0)
    ensures (forall k, l :: 0 <= k < l < |order| ==> order[k] != order[l]) ==>
      forall k, l :: 0 <= k < l < |r.0| ==> r.0[k].id != r.0[l].id
    decreases |order|
  {
    if order == [] then ([], fragments)
    else
      var n := |order| - 1;
      assert forall u :: u in order[..n] ==> u in order;
      assert forall k :: 0 <= k < n ==> order[..n][k] == order[k];
      var p := Pair(order[..n], matches, fragments);
      var made, left := p.0, p.1;
      var u := order[n];
      var t := matches[u];
      if t in left then
        var r := (made + [NoteFragment(t, u, left[t])], left - {t});
        TitlesAppend(made, NoteFragment(t, u, left[t]));
        r
      else
        (made, left)
  }

  lemma TitlesAppend(ns: seq<NoteFragment>, n: NoteFragment)
    ensures Titles(ns + [n]) == Titles(ns) + {n.title}
  {
    var ms := ns + [n];
    assert ms[|ns|] == n;
    forall t | t in Titles(ns)
      ensures t in Titles(ms)
    {
      var k :| 0 <= k < |ns| && ns[k].title == t;
      assert ms[k] == ns[k];
    }
  }

  /** `HashMap` iteration order, which the program does not control: a choice among the keys left. */
  type Pick = set<Uuid> -> Uuid

  ghost predicate Chooses(pick: Pick) {
    forall s: set<Uuid> :: s != {} ==> pick(s) in s
  }

  /** The order `into_iter()` visits a key set in: every key exactly once. */
  function Order(keys: set<Uuid>, pick: Pick): (r: seq<Uuid>)
    requires Chooses(pick)
    ensures forall u :: u in r <==> u in keys
    ensures forall k, l :: 0 <= k < l < |r| ==> r[k] != r[l]
    decreases keys
  {
    if keys == {} then []
    else
      var u := pick(keys);
      [u] + Order(keys - {u}, pick)
  }

  /**
    `extract_note_fragments`: pair every labelled heading with the fragment
    of the `body > h2` whose text is its title. `None` is the panic of the
    `assert_eq!` on the two maps' sizes.
   */
  function ExtractNoteFragments(html: seq<Html>, headings: seq<Heading>, parse: UuidParser, pick: Pick)
    : (r: Option<seq<NoteFragment>>)
    requires Chooses(pick)
    ensures var matches := Matches(headings, parse);
            var fragments := Fragments(html);
            && (r.None? <==> |matches| != |fragments|)
            && (r.Some? ==>
                && |r.value| <= |matches|
                && (forall k :: 0 <= k < |r.value| ==>
                      && r.value[k].id in matches && matches[r.value[k].id] == r.value[k].title
                      && r.value[k].title in fragments && r.value[k].fragment == fragments[r.value[k].title])
                && (forall k, l :: 0 <= k < l < |r.value| ==>
                      r.value[k].title != r.value[l].title && r.value[k].id != r.value[l].id)
                && (forall u :: u in matches && matches[u] in fragments ==> matches[u] in Titles(r.value)))
  {
    var matches := Matches(headings, parse);
    var fragments := Fragments(html);
    if |matches| != |fragments| then None
    else
      var order := Order(matches.Keys, pick);
      DistinctLength(order, matches.Keys);
      Some(Pair(order, matches, fragments).0)
  }

  lemma DistinctLength(order: seq<Uuid>, keys: set<Uuid>)
    requires forall u :: u in order <==> u in keys
    requires forall k, l :: 0 <= k < l < |order| ==> order[k] != order[l]
    ensures |order| == |keys|
  {
    if order != [] {
      var u := order[0];
      assert forall v :: v in order[1..] <==> v in keys - {u} by {
        forall v ensures v in order[1..] <==> v in keys - {u} {
          if v in order && v != u {
            var k :| 0 <= k < |order| && order[k] == v;
            assert order[1..][k - 1] == v;
          }
        }
      }
      DistinctLength(order[1..], keys - {u});
    }
  }

  /** Every value of a collected map is one of the listed values of its key. */
  lemma {:induction false} CollectValue<K, V>(ps: seq<(K, V)>, k: K)
    requires k in Collect(ps)
    ensures exists i :: 0 <= i < |ps| && ps[i] == (k, Collect(ps)[k])
    decreases |ps|
  {
    var n := |ps| - 1;
    if ps[n].0 != k {
      CollectValue(ps[..n], k);
      var i :| 0 <= i < n && ps[..n][i] == (k, Collect(ps[..n])[k]);
      assert ps[i] == ps[..n][i];
    }
  }

  /**
    Every fragment is an `article` in a fragment root, and no child of the
    article is an `h2`: each section stops before the next heading.
   */
  lemma FragmentsHaveNoHeading(html: seq<Html>, t: string)
    requires t in Fragments(html)
    ensures var f := Fragments(html)[t];
      && f.value == Fragment && |f.children| == 1 && Named(f.children[0], "article")
      && forall k :: 0 <= k < |f.children[0].children| ==> !Named(f.children[0].children[k], "h2")
  {
    var hs := Headers(html, false);
    var ps := seq(|hs|, k requires 0 <= k < |hs| => TitledArticle(hs[k]));
    CollectValue(ps, t);
  }

  /** A UUID has a title exactly when some heading's label parses to it. */
  lemma MatchesKeys(hs: seq<Heading>, parse: UuidParser, u: Uuid)
    ensures u in Matches(hs, parse) <==> exists k :: 0 <= k < |hs| && Labelled(hs[k], parse).Some? && Labelled(hs[k], parse).value.0 == u
  {
    var f := (h: Heading) => LabelledList(h, parse);
    var ps := FlatMap(hs, f);
    CollectKeys(ps, u);
    if exists k :: 0 <= k < |hs| && Labelled(hs[k], parse).Some? && Labelled(hs[k], parse).value.0 == u {
      var k :| 0 <= k < |hs| && Labelled(hs[k], parse).Some? && Labelled(hs[k], parse).value.0 == u;
      var p := Labelled(hs[k], parse).value;
      FlatMapMembers(hs, f, p);
      var i :| 0 <= i < |ps| && ps[i] == p;
    }
    if u in Matches(hs, parse) {
      var i :| 0 <= i < |ps| && ps[i].0 == u;
      assert ps[i] in ps;
      FlatMapMembers(hs, f, ps[i]);
    }
  }

  /** The title of a labelled heading drops exactly one leading "Section". */
  lemma TitleExamples()
    ensures Title(Heading(None, "SectionIntro")) == "Intro"
    ensures Title(Heading(None, "SectionSectionIntro")) == "SectionIntro"
    ensures Title(Heading(None, "Intro")) == "Intro"
  {
    assert "Section" <= "SectionIntro";
    assert "Section" <= "SectionSectionIntro";
    assert "Intro"[0] == 'I';
  }

  /** The headers of the example document below: both `h2`s of the body, each with what follows it. */
  lemma ExampleHeaders(p: Html, q: Html, a: Html, b: Html)
    requires !Named(p, "h2") && !Named(q, "h2") && !Named(p, "body") && !Named(q, "body")
    requires p.children == [] && q.children == []
    requires a == Tree(Element("h2", []), [Tree(Text("A"), [])])
    requires b == Tree(Element("h2", []), [Tree(Text("B"), [])])
    ensures var body := Tree(Element("body", []), [a, p, b, q]);
            var root := Tree(Document, [Tree(Element("html", []), [body])]);
            Headers([root], false) == [(a, [p, b, q]), (b, [q])]
  {
    var body := Tree(Element("body", []), [a, p, b, q]);
    var html := Tree(Element("html", []), [body]);
    var root := Tree(Document, [html]);
    assert [a, p, b, q][1..] == [p, b, q];
    assert [p, b, q][1..] == [b, q];
    assert [b, q][1..] == [q];
    assert [q][1..] == [];
    assert Headers(a.children, false) == [] && Headers(b.children, false) == [] by {
      assert a.children[1..] == [] && b.children[1..] == [];
    }
    assert Headers([q], true) == [];
    assert Headers([b, q], true) == [(b, [q])];
    assert Headers([p, b, q], true) == [(b, [q])];
    assert Headers([a, p, b, q], true) == [(a, [p, b, q]), (b, [q])];
    assert [body][1..] == [] && [html][1..] == [] && [root][1..] == [];
    assert Headers([body], false) == [(a, [p, b, q]), (b, [q])];
    assert Headers([html], false) == [(a, [p, b, q]), (b, [q])];
  }

  /**
    A body holding `h2 A`, `p`, `h2 B`, `q` yields the fragments `A: [p]`
    and `B: [q]`; elements outside the body are not headers.
   */
  lemma SectionsExample(p: Html, q: Html)
    requires !Named(p, "h2") && !Named(q, "h2") && !Named(p, "body") && !Named(q, "body")
    requires p.children == [] && q.children == []
    ensures var a := Tree(Element("h2", []), [Tree(Text("A"), [])]);
            var b := Tree(Element("h2", []), [Tree(Text("B"), [])]);
            var body := Tree(Element("body", []), [a, p, b, q]);
            var root := Tree(Document, [Tree(Element("html", []), [body])]);
            Fragments([root]) == map["A" := Article([p]), "B" := Article([q])]
  {
    var ta := Tree(Text("A"), []);
    var tb := Tree(Text("B"), []);
    var a := Tree(Element("h2", []), [ta]);
    var b := Tree(Element("h2", []), [tb]);
    var root := Tree(Document, [Tree(Element("html", []), [Tree(Element("body", []), [a, p, b, q])])]);
    ExampleHeaders(p, q, a, b);
    var hs := Headers([root], false);
    assert hs == [(a, [p, b, q]), (b, [q])];
    assert [ta][1..] == [] && [tb][1..] == [];
    assert Texts([ta]) == ["A"] && Texts([tb]) == ["B"];
    assert Section([p, b, q]) == [p] by {
      assert [p, b, q][1..] == [b, q];
    }
    assert Section([q]) == [q] by {
      assert [q][1..] == [];
    }
    var ps := seq(|hs|, k requires 0 <= k < |hs| => TitledArticle(hs[k]));
    assert ps == [("A", Article([p])), ("B", Article([q]))];
    assert ps[..1] == [("A", Article([p]))];
    assert ps[..1][..0] == [];
    assert Collect(ps[..1]) == map["A" := Article([p])];
    assert Collect(ps) == map["A" := Article([p]), "B" := Article([q])];
  }
}
