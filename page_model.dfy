/** The page tree and its content rows (models/page.go): the page status
    enumeration, the structural node with its nested-set fields, the content
    row keyed by (page, language, version), the load hook that substitutes
    fallback content and collects the ancestor chain, and `Pages.Build`,
    which links a flat list into a forest in place. */
module PageModel {
  import opened Common
  import SpaceModel

  /** The recognised page statuses. */
  datatype PageStatus = Draft | Published | Offline | Deprecated {
    function Name(): string {
      match this
      case Draft => "draft"
      case Published => "published"
      case Offline => "offline"
      case Deprecated => "deprecated"
    }
  }

  /** `PageStatus.IsValid`: nil (`None`) for a recognised status, and
      `ErrPageStatusIsInvalid` for every other string. */
  function CheckPageStatus(status: string): (err: Option<Error>)
    ensures err.None? <==> exists st: PageStatus :: st.Name() == status
    ensures err.Some? ==> err.value == PageStatusInvalid
  {
    if status == "draft" then assert Draft.Name() == status; None
    else if status == "published" then assert Published.Name() == status; None
    else if status == "offline" then assert Offline.Name() == status; None
    else if status == "deprecated" then assert Deprecated.Name() == status; None
    else
      assert forall st: PageStatus :: st.Name() in {"draft", "published", "offline", "deprecated"};
      Some(PageStatusInvalid)
  }

  /** A row of `space_pages`: the structural node. The nullable parent id is
      the pair `parentValid`/`parentId`: a NULL parent has `parentValid`
      false and `parentId` 0. `lft`/`rgt` is the node's nested-set interval
      within its space. */
  datatype Node = Node(
    id: int,
    parentId: int,
    parentValid: bool,
    lft: int,
    rgt: int,
    depth: int,
    childrenCount: int,
    spaceId: int)

  /** The zero value of a node struct, as a query that matches no row
      leaves it. */
  const ZeroNode: Node := Node(0, 0, false, 0, 0, 0, 0, 0)

  /** A row of `space_page_contents`: one language and version of a page. */
  datatype PageContent = PageContent(
    id: int,
    spaceId: int,
    creatorId: int,
    pageId: int,
    lang: string,
    version: string,
    status: string,
    title: string,
    shortTitle: string,
    body: string,
    html: string)

  /** The composite unique key `page_content`. */
  function ContentKey(c: PageContent): (int, string, string) {
    (c.pageId, c.lang, c.version)
  }

  /** No two content rows share the unique key. */
  ghost predicate UniqueContentKeys(contents: seq<PageContent>) {
    forall i, j | 0 <= i < |contents| && 0 <= j < |contents| && i != j ::
      ContentKey(contents[i]) != ContentKey(contents[j])
  }

  /** `PageQuery`: the language and version a detail read asked for. */
  datatype PageQuery = PageQuery(lang: string, version: string)

  /** A node as loaded, with the content row joined to it. */
  datatype Loaded = Loaded(node: Node, content: Option<PageContent>)

  /** A query field adds a condition only when it is non-empty. */
  function Condition(s: string): (c: Option<string>)
    ensures c.None? <==> s == ""
    ensures c.Some? ==> c.value == s
  {
    if s == "" then None else Some(s)
  }

  /** Row `c` belongs to page `pageId` and meets the optional language and
      version conditions. */
  predicate ContentMatches(c: PageContent, pageId: int, lang: Option<string>, version: Option<string>) {
    c.pageId == pageId
    && (lang.Some? ==> c.lang == lang.value)
    && (version.Some? ==> c.version == version.value)
  }

  /** The position of the lowest-id row of page `pageId` that meets the
      optional conditions, as `First` with these conditions selects it. */
  function FirstContent(contents: seq<PageContent>, pageId: int, lang: Option<string>,
                        version: Option<string>): (r: Option<nat>)
    ensures r.Some? ==> r.value < |contents|
                        && ContentMatches(contents[r.value], pageId, lang, version)
                        && forall j | 0 <= j < r.value :: !ContentMatches(contents[j], pageId, lang, version)
    ensures r.None? <==> forall j | 0 <= j < |contents| :: !ContentMatches(contents[j], pageId, lang, version)
  {
    FirstWhere(contents, c => ContentMatches(c, pageId, lang, version))
  }

  /** A join that leaves out the `body` and `html` columns loads them empty. */
  function OmitBody(c: Option<PageContent>): Option<PageContent> {
    if c.Some? then Some(c.value.(body := "", html := "")) else None
  }

  /** Node `a`'s interval strictly contains node `b`'s. */
  predicate Encloses(a: Node, b: Node) {
    a.lft < b.lft && a.rgt > b.rgt
  }

  /** The condition of the ancestor query on a row. */
  function EnclosesPage(page: Node): Node -> bool {
    n => Encloses(n, page)
  }

  /** The rows whose interval encloses `page`'s: the rows at the
      enclosing positions, in table order, each row once (a value the
      table holds twice is listed twice). The query in the source has no
      `space_id` condition, and this has none either. */
  function Enclosing(nodes: seq<Node>, page: Node): (r: seq<Node>)
    ensures forall n :: n in r <==> n in nodes && Encloses(n, page)
    ensures |r| == |Positions(nodes, EnclosesPage(page))|
    ensures forall k | 0 <= k < |r| :: r[k] == nodes[Positions(nodes, EnclosesPage(page))[k]]
    ensures forall n | n in nodes :: multiset(r)[n] == if Encloses(n, page) then multiset(nodes)[n] else 0
  {
    WherePositions(nodes, EnclosesPage(page));
    forall n | n in nodes
      ensures multiset(Where(nodes, EnclosesPage(page)))[n] == if Encloses(n, page) then multiset(nodes)[n] else 0
    {
      WhereMultiplicity(nodes, EnclosesPage(page), n);
    }
    Where(nodes, EnclosesPage(page))
  }

  /** Non-decreasing `lft`. */
  predicate SortedByLft(s: seq<Node>) {
    forall i, j | 0 <= i < j < |s| :: s[i].lft <= s[j].lft
  }

  /** Inserts `x` before the first element with a larger or equal `lft`. */
  function InsertByLft(x: Node, s: seq<Node>): seq<Node> {
    if s == [] || x.lft <= s[0].lft then [x] + s
    else [s[0]] + InsertByLft(x, s[1..])
  }

  /** `ORDER BY lft ASC`, keeping table order among equal `lft` values. */
  function SortByLft(s: seq<Node>): seq<Node> {
    if s == [] then [] else InsertByLft(s[0], SortByLft(s[1..]))
  }

  /** Inserting into a sorted list keeps it sorted and adds exactly `x`. */
  lemma {:induction false} InsertByLftSpec(x: Node, s: seq<Node>)
    requires SortedByLft(s)
    ensures SortedByLft(InsertByLft(x, s))
    ensures multiset(InsertByLft(x, s)) == multiset(s) + multiset{x}
  {
    if s == [] || x.lft <= s[0].lft {
      ConsSorted(x, s);
    } else {
      var t := InsertByLft(x, s[1..]);
      InsertByLftSpec(x, s[1..]);
      assert s == [s[0]] + s[1..];
      forall k | 0 <= k < |t| ensures t[k].lft >= s[0].lft {
        assert t[k] in multiset(t);
      }
      ConsSorted(s[0], t);
      assert multiset([s[0]] + t) == multiset([s[0]]) + multiset(t);
    }
  }

  /** A head no larger than any element of a sorted tail gives a sorted list. */
  lemma ConsSorted(h: Node, t: seq<Node>)
    requires SortedByLft(t)
    requires forall k | 0 <= k < |t| :: h.lft <= t[k].lft
    ensures SortedByLft([h] + t)
  {
    var r := [h] + t;
    forall i, j | 0 <= i < j < |r| ensures r[i].lft <= r[j].lft {
      assert r[j] == t[j - 1];
      if i > 0 {
        assert r[i] == t[i - 1];
      }
    }
  }

  /** Sorting gives a sorted permutation of its input. */
  lemma {:induction false} SortByLftSpec(s: seq<Node>)
    ensures SortedByLft(SortByLft(s))
    ensures multiset(SortByLft(s)) == multiset(s)
  {
    if s != [] {
      SortByLftSpec(s[1..]);
      InsertByLftSpec(s[0], SortByLft(s[1..]));
      assert s == [s[0]] + s[1..];
    }
  }

  /** The row a content join with a struct condition selects for node
      `pageId`: the first row of that page, constrained by language and by
      version only when they are non-empty (a zero-valued field of a struct
      condition adds nothing). */
  function JoinRow(contents: seq<PageContent>, pageId: int, lang: string, version: string): (r: Option<PageContent>)
    ensures r.Some? ==> && r.value in contents && r.value.pageId == pageId
                        && (lang != "" ==> r.value.lang == lang)
                        && (version != "" ==> r.value.version == version)
    ensures r.None? <==> forall c | c in contents :: !ContentMatches(c, pageId, Condition(lang), Condition(version))
  {
    var at := FirstContent(contents, pageId, Condition(lang), Condition(version));
    if at.Some? then Some(contents[at.value]) else None
  }

  /** The content the ancestor query joins to node `pageId`: the row the
      query's language and version select, with `body` and `html` left
      out. */
  function JoinedContent(contents: seq<PageContent>, pageId: int, query: PageQuery): (r: Option<PageContent>)
    ensures r.Some? ==> && r.value.pageId == pageId
                        && (query.lang != "" ==> r.value.lang == query.lang)
                        && (query.version != "" ==> r.value.version == query.version)
                        && r.value.body == "" && r.value.html == ""
                        && exists c | c in contents :: c.(body := "", html := "") == r.value
    ensures r.None? <==> forall c | c in contents :: !ContentMatches(c, pageId, Condition(query.lang), Condition(query.version))
  {
    OmitBody(JoinRow(contents, pageId, query.lang, query.version))
  }

  /** `page.Parents` as the load hook computes it: exactly the nodes whose
      interval encloses the page's, ordered by `lft`, each carrying the row
      the ancestor join selects for it. */
  function AncestorChain(nodes: seq<Node>, contents: seq<PageContent>, page: Node, query: PageQuery): (chain: seq<Loaded>)
    ensures forall n :: n in NodesOf(chain) <==> n in nodes && Encloses(n, page)
    ensures forall n | n in nodes :: multiset(NodesOf(chain))[n] == if Encloses(n, page) then multiset(nodes)[n] else 0
    ensures Distinct(nodes) ==> Distinct(NodesOf(chain))
    ensures forall i, j | 0 <= i < j < |chain| :: chain[i].node.lft <= chain[j].node.lft
    ensures forall i | 0 <= i < |chain| :: chain[i].content == JoinedContent(contents, chain[i].node.id, query)
  {
    var sorted := SortByLft(Enclosing(nodes, page));
    SortByLftSpec(Enclosing(nodes, page));
    AncestorsOnce(nodes, page);
    forall n ensures n in sorted <==> n in nodes && Encloses(n, page) {
      SortedMembers(Enclosing(nodes, page), n);
    }
    WithContent(sorted, contents, query)
  }

  /** Each node of `ns`, in order, with the content the ancestor join
      selects for it. */
  function WithContent(ns: seq<Node>, contents: seq<PageContent>, query: PageQuery): (chain: seq<Loaded>)
    ensures NodesOf(chain) == ns
    ensures forall i | 0 <= i < |chain| :: chain[i].content == JoinedContent(contents, chain[i].node.id, query)
  {
    var chain := seq(|ns|, i requires 0 <= i < |ns| => Loaded(ns[i], JoinedContent(contents, ns[i].id, query)));
    assert NodesOf(chain) == ns;
    chain
  }

  /** The nodes of a chain, in its order. */
  function NodesOf(chain: seq<Loaded>): (ns: seq<Node>)
    ensures |ns| == |chain| && forall i | 0 <= i < |chain| :: ns[i] == chain[i].node
  {
    seq(|chain|, i requires 0 <= i < |chain| => chain[i].node)
  }

  /** No value occurs twice. */
  predicate Distinct<T(==)>(s: seq<T>) {
    forall i, j | 0 <= i < j < |s| :: s[i] != s[j]
  }

  /** A value occurs at most once in a sequence without repeats. */
  lemma {:induction false} DistinctOnce<T>(s: seq<T>, x: T)
    requires Distinct(s)
    ensures multiset(s)[x] <= 1
  {
    if s != [] {
      assert s == [s[0]] + s[1..];
      DistinctOnce(s[1..], x);
      assert multiset(s) == multiset{s[0]} + multiset(s[1..]);
      if x == s[0] {
        assert x !in s[1..];
      }
    }
  }

  /** A sequence that holds every value at most once has no repeats. */
  lemma OnceDistinct<T>(s: seq<T>)
    requires forall x :: multiset(s)[x] <= 1
    ensures Distinct(s)
  {
    forall i, j | 0 <= i < j < |s| ensures s[i] != s[j] {
      var a, b := s[..j], s[j..];
      assert s == a + b;
      assert s[i] == a[i] && s[j] == b[0];
      assert multiset(s) == multiset(a) + multiset(b);
      assert multiset(a)[s[i]] >= 1 && multiset(b)[s[j]] >= 1;
      assert multiset(s)[s[i]] <= 1;
    }
  }

  /** Without repeated rows in the table, no ancestor is listed twice. */
  lemma AncestorsOnce(nodes: seq<Node>, page: Node)
    ensures Distinct(nodes) ==> Distinct(SortByLft(Enclosing(nodes, page)))
  {
    if Distinct(nodes) {
      var sorted := SortByLft(Enclosing(nodes, page));
      SortByLftSpec(Enclosing(nodes, page));
      forall n ensures multiset(sorted)[n] <= 1 {
        if n in nodes {
          DistinctOnce(nodes, n);
        } else {
          assert n !in Enclosing(nodes, page);
        }
      }
      OnceDistinct(sorted);
    }
  }

  /** Sorting keeps exactly the elements it was given. */
  lemma SortedMembers(s: seq<Node>, n: Node)
    ensures n in SortByLft(s) <==> n in s
  {
    SortByLftSpec(s);
    assert n in SortByLft(s) <==> n in multiset(SortByLft(s));
    assert n in s <==> n in multiset(s);
  }

  /** The chain is not confined to the page's own space: a root of another
      space whose interval happens to enclose the page's is listed too. */
  lemma AncestorsCrossSpaces()
    ensures var nodes := [Node(1, 0, false, 1, 4, 0, 1, 1), Node(2, 1, true, 2, 3, 1, 0, 1), Node(3, 0, false, 1, 2 + 8, 0, 0, 2)];
            var chain := AncestorChain(nodes, [], nodes[1], PageQuery("", ""));
            |chain| == 2 && chain[0].node == nodes[0] && chain[1].node == nodes[2]
            && chain[1].node.spaceId != nodes[1].spaceId
  {
    var nodes := [Node(1, 0, false, 1, 4, 0, 1, 1), Node(2, 1, true, 2, 3, 1, 0, 1), Node(3, 0, false, 1, 2 + 8, 0, 0, 2)];
    assert nodes[..2][..1] == [nodes[0]];
    assert nodes[..2] == [nodes[0], nodes[1]];
    var p := EnclosesPage(nodes[1]);
    assert Where(nodes[..1], p) == [nodes[0]];
    assert Where(nodes[..2], p) == [nodes[0]];
    assert Where(nodes, p) == [nodes[0], nodes[2]];
    assert SortByLft([nodes[2]]) == [nodes[2]];
    assert SortByLft([nodes[0], nodes[2]]) == [nodes[0], nodes[2]];
  }

  /** A loaded `Page` struct. The row fields never change once loaded; the
      load hook and `Build` assign the others. */
  class Page {
    const id: int
    const parentId: int
    const parentValid: bool
    const lft: int
    const rgt: int
    const depth: int
    const childrenCount: int
    const spaceId: int
    var space: Option<SpaceModel.Space>
    var content: Option<PageContent>
    var fallbackContent: Option<PageContent>
    var children: seq<Page>
    var parents: seq<Loaded>

    /** A page loaded from `row` with its two joined content rows. */
    constructor (row: Node, content: Option<PageContent>, fallbackContent: Option<PageContent>)
      ensures Row() == row
      ensures this.content == content && this.fallbackContent == fallbackContent
      ensures space == None && children == [] && parents == []
    {
      id, parentId, parentValid, lft, rgt := row.id, row.parentId, row.parentValid, row.lft, row.rgt;
      depth, childrenCount, spaceId := row.depth, row.childrenCount, row.spaceId;
      this.content, this.fallbackContent := content, fallbackContent;
      space, children, parents := None, [], [];
    }

    /** The stored row this page was loaded from. */
    function Row(): Node {
      Node(id, parentId, parentValid, lft, rgt, depth, childrenCount, spaceId)
    }

    /** The row with the content the page currently carries. */
    function View(): Loaded
      reads this
    {
      Loaded(Row(), content)
    }

    /** `Page.AfterFind`: a missing content becomes the fallback content (an
        existing one is kept); when the read put a query on the statement,
        `parents` becomes the ancestor chain for it. */
    method AfterFind(query: Option<PageQuery>, nodes: seq<Node>, contents: seq<PageContent>)
      modifies this
      ensures old(content).Some? ==> content == old(content)
      ensures old(content).None? ==> content == fallbackContent
      ensures fallbackContent == old(fallbackContent) && children == old(children) && space == old(space)
      ensures query.None? ==> parents == old(parents)
      ensures query.Some? ==> parents == AncestorChain(nodes, contents, Row(), query.value)
    {
      if content.None? {
        content := fallbackContent;
      }
      if query.Some? {
        parents := AncestorChain(nodes, contents, Row(), query.value);
      }
    }
  }

  /** The views of a list of pages. */
  function Views(pages: seq<Page>): (vs: seq<Loaded>)
    reads set p | p in pages
    ensures |vs| == |pages| && forall i | 0 <= i < |pages| :: vs[i] == pages[i].View()
  {
    seq(|pages|, i reads set p | p in pages requires 0 <= i < |pages| => pages[i].View())
  }

  /** The pages whose `ParentID.Int64` is 0, in input order. */
  function Roots(nodes: seq<Page>): (r: seq<Page>)
  {
    if nodes == [] then []
    else
      var last := nodes[|nodes| - 1];
      Roots(nodes[..|nodes| - 1]) + (if last.parentId == 0 then [last] else [])
  }

  /** `nodeMap` after the first loop of `Build`: each id maps to the last
      page in the list that has it. */
  function NodeMap(nodes: seq<Page>): (m: map<int, Page>)
    ensures m.Keys == set p | p in nodes :: p.id
    ensures forall k | k in m :: m[k] in nodes && m[k].id == k
    ensures forall i | 0 <= i < |nodes| && (forall j | i < j < |nodes| :: nodes[j].id != nodes[i].id) ::
              m[nodes[i].id] == nodes[i]
  {
    if nodes == [] then map[]
    else
      var last := nodes[|nodes| - 1];
      var init := nodes[..|nodes| - 1];
      assert nodes == init + [last];
      assert forall i | 0 <= i < |init| :: init[i] == nodes[i];
      NodeMap(init)[last.id := last]
  }

  /** The pages of `nodes`, in input order, whose parent id `m` maps to `p`. */
  function Matching(nodes: seq<Page>, m: map<int, Page>, p: Page): (r: seq<Page>)
  {
    if nodes == [] then []
    else
      var last := nodes[|nodes| - 1];
      Matching(nodes[..|nodes| - 1], m, p)
        + (if last.parentId in m && m[last.parentId] == p then [last] else [])
  }

  /** `Pages.Build`: returns the pages with parent id 0, in input order, and
      appends to each page's existing `children`, in input order, every page
      whose parent id the map sends to it. Nothing else changes. */
  method Build(nodes: seq<Page>) returns (roots: seq<Page>)
    modifies nodes`children
    ensures roots == Roots(nodes)
    ensures forall k | 0 <= k < |nodes| :: nodes[k].children == old(nodes[k].children) + Matching(nodes, NodeMap(nodes), nodes[k])
  {
    var nodeMap;
    roots, nodeMap := IndexPages(nodes);
    LinkChildren(nodes, nodeMap);
  }

  /** The first loop of `Build`: collects the roots and fills `nodeMap`. */
  method IndexPages(nodes: seq<Page>) returns (roots: seq<Page>, nodeMap: map<int, Page>)
    ensures roots == Roots(nodes)
    ensures nodeMap == NodeMap(nodes)
  {
    roots := [];
    nodeMap := map[];
    var i := 0;
    while i < |nodes|
      invariant 0 <= i <= |nodes|
      invariant nodeMap == NodeMap(nodes[..i])
      invariant roots == Roots(nodes[..i])
    {
      var node := nodes[i];
      PrefixStep(nodes, i);
      nodeMap := nodeMap[node.id := node];
      if node.parentId == 0 {
        roots := roots + [node];
      }
      i := i + 1;
    }
    assert nodes[..i] == nodes;
  }

  /** The second loop of `Build`: appends every page to the children of the
      page its parent id maps to. */
  method LinkChildren(nodes: seq<Page>, nodeMap: map<int, Page>)
    requires forall k | k in nodeMap :: nodeMap[k] in nodes
    modifies nodes`children
    ensures forall p | p in nodes :: p.children == old(p.children) + Matching(nodes, nodeMap, p)
  {
    var i := 0;
    assert nodes[..0] == [];
    while i < |nodes|
      invariant 0 <= i <= |nodes|
      invariant forall p | p in nodes :: p.children == old(p.children) + Matching(nodes[..i], nodeMap, p)
    {
      var node := nodes[i];
      forall p | p in nodes
        ensures Matching(nodes[..i + 1], nodeMap, p)
                == Matching(nodes[..i], nodeMap, p) + (if node.parentId in nodeMap && nodeMap[node.parentId] == p then [node] else [])
      {
        MatchingStep(nodes, i, nodeMap, p);
      }
      if node.parentId in nodeMap {
        var parent := nodeMap[node.parentId];
        parent.children := parent.children + [node];
      }
      i := i + 1;
    }
    assert nodes[..i] == nodes;
  }

  /** Extending a prefix by one page extends `Roots` and `NodeMap` by that
      page's contribution. */
  lemma PrefixStep(nodes: seq<Page>, i: nat)
    requires i < |nodes|
    ensures Roots(nodes[..i + 1]) == Roots(nodes[..i]) + (if nodes[i].parentId == 0 then [nodes[i]] else [])
    ensures NodeMap(nodes[..i + 1]) == NodeMap(nodes[..i])[nodes[i].id := nodes[i]]
  {
    assert nodes[..i + 1][..i] == nodes[..i];
  }

  /** Extending a prefix by one page extends `Matching` by that page when
      the map sends its parent id to `p`. */
  lemma MatchingStep(nodes: seq<Page>, i: nat, m: map<int, Page>, p: Page)
    requires i < |nodes|
    ensures Matching(nodes[..i + 1], m, p)
              == Matching(nodes[..i], m, p) + (if nodes[i].parentId in m && m[nodes[i].parentId] == p then [nodes[i]] else [])
  {
    assert nodes[..i + 1][..i] == nodes[..i];
  }

  /** A page is a root exactly when its parent id is 0. */
  lemma {:induction false} RootsMembers(nodes: seq<Page>)
    ensures forall p :: p in Roots(nodes) <==> p in nodes && p.parentId == 0
  {
    if nodes != [] {
      RootsMembers(nodes[..|nodes| - 1]);
      assert nodes == nodes[..|nodes| - 1] + [nodes[|nodes| - 1]];
    }
  }

  /** No page in the list has parent id 0, so there are no roots. */
  lemma {:induction false} NoRoots(nodes: seq<Page>)
    requires forall p | p in nodes :: p.parentId != 0
    ensures Roots(nodes) == []
  {
    if nodes != [] {
      NoRoots(nodes[..|nodes| - 1]);
    }
  }

  /** Distinct pages in the list carry distinct ids. */
  predicate DistinctIds(nodes: seq<Page>) {
    forall i, j | 0 <= i < |nodes| && 0 <= j < |nodes| && nodes[i] != nodes[j] :: nodes[i].id != nodes[j].id
  }

  /** The pages of `nodes`, in input order, whose parent id is `id`. */
  function WithParent(nodes: seq<Page>, id: int): seq<Page> {
    if nodes == [] then []
    else
      var last := nodes[|nodes| - 1];
      WithParent(nodes[..|nodes| - 1], id) + (if last.parentId == id then [last] else [])
  }

  /** With distinct ids, the children `Build` appends to a page are exactly
      the pages whose parent id is that page's id, in input order. */
  lemma {:induction false} MatchingIsWithParent(nodes: seq<Page>, all: seq<Page>, p: Page)
    requires DistinctIds(all) && p in all
    requires forall n | n in nodes :: n in all
    ensures Matching(nodes, NodeMap(all), p) == WithParent(nodes, p.id)
  {
    if nodes != [] {
      var m := NodeMap(all);
      var last := nodes[|nodes| - 1];
      MatchingIsWithParent(nodes[..|nodes| - 1], all, p);
      assert p.id in m;
      if last.parentId in m && m[last.parentId] == p {
        assert last.parentId == p.id;
      }
      if last.parentId == p.id {
        assert m[p.id] in all && m[p.id].id == p.id;
      }
    }
  }

  /** A page whose parent id is neither 0 nor the id of any listed page is
      neither a root nor appended to any page's children. */
  lemma {:induction false} OrphanDropped(nodes: seq<Page>, orphan: Page, p: Page)
    requires orphan.parentId != 0
    requires forall n | n in nodes :: n.id != orphan.parentId
    ensures orphan !in Roots(nodes)
    ensures orphan !in Matching(nodes, NodeMap(nodes), p)
  {
    RootsMembers(nodes);
    MatchingMembers(nodes, NodeMap(nodes), p);
  }

  /** Membership in `Matching`. */
  lemma {:induction false} MatchingMembers(nodes: seq<Page>, m: map<int, Page>, p: Page)
    ensures forall n :: n in Matching(nodes, m, p) <==> n in nodes && n.parentId in m && m[n.parentId] == p
  {
    if nodes != [] {
      MatchingMembers(nodes[..|nodes| - 1], m, p);
      assert nodes == nodes[..|nodes| - 1] + [nodes[|nodes| - 1]];
    }
  }

  /** `Build` is not idempotent: a page that is some listed page's child is
      appended again on every call, so that page's `children` keeps
      growing. */
  lemma BuildAppendsChild(nodes: seq<Page>, p: Page, child: Page)
    requires DistinctIds(nodes) && p in nodes && child in nodes && child.parentId == p.id
    ensures |Matching(nodes, NodeMap(nodes), p)| >= 1
  {
    MatchingMembers(nodes, NodeMap(nodes), p);
    assert NodeMap(nodes)[p.id] == p;
    assert child in Matching(nodes, NodeMap(nodes), p);
  }
}
