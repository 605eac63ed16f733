/** The spaces service (spaces/service.go) over three in-memory tables:
    `spaces`, `space_pages` (the nodes) and `space_page_contents`. Rows are
    stored in id order and never deleted, so a row's id is its position plus
    one and `First` picks the earliest matching row. Each operation that
    writes is a method of `Service` proved equal to a step function on the
    tables; the step functions carry what the operation promises, and lemmas
    relate them to one another and to the table invariant. */
module SpacesService {
  import opened Common
  import opened Text
  import opened SpaceModel
  import opened PageModel
  import opened NestedSet

  /** The three tables. */
  datatype Db = Db(spaces: seq<Space>, nodes: seq<Node>, contents: seq<PageContent>)

  /** What the database guarantees between calls: autoincrement ids, the
      unique indexes on space name, space key and the content key, content
      rows that refer to existing nodes, and properly nested intervals. */
  ghost predicate Valid(db: Db) {
    && (forall i | 0 <= i < |db.spaces| :: db.spaces[i].id == i + 1)
    && (forall i | 0 <= i < |db.nodes| :: db.nodes[i].id == i + 1)
    && (forall i | 0 <= i < |db.contents| :: db.contents[i].id == i + 1)
    && (forall i, j | 0 <= i < |db.spaces| && 0 <= j < |db.spaces| && i != j ::
          db.spaces[i].name != db.spaces[j].name && db.spaces[i].key != db.spaces[j].key)
    && UniqueContentKeys(db.contents)
    && (forall i | 0 <= i < |db.contents| :: 1 <= db.contents[i].pageId <= |db.nodes|)
    && Laminar(db.nodes)
  }

  /** The result of a writing operation together with the tables after it. */
  datatype Outcome<T> = Outcome(result: Result<T>, db: Db)

  /** `First(&space)` with `key = ?`. */
  function SpaceByKey(spaces: seq<Space>, key: string): (r: Option<Space>)
    ensures r.Some? ==> r.value in spaces && r.value.key == key
    ensures r.None? <==> forall s | s in spaces :: s.key != key
  {
    var at := FirstWhere(spaces, (s: Space) => s.key == key);
    if at.Some? then Some(spaces[at.value]) else None
  }

  /** `First(&space)` with `id = ?`. */
  function SpaceById(spaces: seq<Space>, id: int): (r: Option<Space>)
    ensures r.Some? ==> r.value in spaces && r.value.id == id
    ensures r.None? <==> forall s | s in spaces :: s.id != id
  {
    var at := FirstWhere(spaces, (s: Space) => s.id == id);
    if at.Some? then Some(spaces[at.value]) else None
  }

  /** The language a read uses: the requested one, or the space's default
      when none was requested. */
  function ReadLang(requested: string, space: Space): string {
    if requested == "" then space.lang else requested
  }

  /** A space and its homepage node, with the homepage content when loaded. */
  datatype SpaceHome = SpaceHome(space: Space, homepage: Node, content: Option<PageContent>)

  // ---------------------------------------------------------------- CreateSpace

  /** The fields of `params.CreateSpace` the service reads. */
  datatype CreateSpaceParams = CreateSpaceParams(
    name: string,
    key: string,
    lang: string,
    fallbackLang: string,
    description: string,
    avatar: string,
    status: string,
    creatorId: int)

  /** Some existing space already holds the name or the key. */
  predicate NameOrKeyTaken(spaces: seq<Space>, name: string, key: string) {
    exists i | 0 <= i < |spaces| :: spaces[i].name == name || spaces[i].key == key
  }

  /** `CreateSpace` as a step on the tables. The status is checked before
      anything is written; the space, its homepage node and the homepage
      content are then written in one transaction, which a unique-index
      violation aborts as a whole. */
  function CreateSpaceStep(db: Db, p: CreateSpaceParams): (o: Outcome<SpaceHome>)
    ensures CheckSpaceStatus(p.status).Some? ==> o == Outcome(Err(SpaceStatusInvalid), db)
    ensures o.result.Err? ==> o.db == db
    ensures o.result.Ok? <==> CheckSpaceStatus(p.status).None? && !NameOrKeyTaken(db.spaces, p.name, p.key)
    ensures o.result.Err? && CheckSpaceStatus(p.status).None? ==> o.result.error == Conflict
  {
    if CheckSpaceStatus(p.status).Some? then Outcome(Err(SpaceStatusInvalid), db)
    else if NameOrKeyTaken(db.spaces, p.name, p.key) then Outcome(Err(Conflict), db)
    else
      var nodes := InsertRoot(db.nodes, |db.spaces| + 1, 0, false);
      var home := nodes[|db.nodes|];
      assert nodes == db.nodes + [home];
      var space := Space(|db.spaces| + 1, p.name, p.key, p.lang, p.fallbackLang, home.id,
                         p.description, p.avatar, p.status, p.creatorId, false);
      var content := PageContent(|db.contents| + 1, space.id, p.creatorId, home.id, space.lang, "",
                                 Published.Name(), space.name, space.name, space.description, space.description);
      Outcome(Ok(SpaceHome(space, home, None)), Db(db.spaces + [space], nodes, db.contents + [content]))
  }

  /** What a successful `CreateSpace` writes: the space with the given
      fields, a root node of the new space as its homepage, and one content
      row for it in the space's language with no version, published, titled
      with the space name and holding the description, unrendered, as both
      body and HTML. Nothing else changes. */
  lemma CreateSpaceSeeds(db: Db, p: CreateSpaceParams)
    requires CreateSpaceStep(db, p).result.Ok?
    ensures var o := CreateSpaceStep(db, p);
            var s, h := o.result.value.space, o.result.value.homepage;
            && s.id == |db.spaces| + 1 && s.name == p.name && s.key == p.key && s.lang == p.lang
            && s.fallbackLang == p.fallbackLang && s.description == p.description && s.avatar == p.avatar
            && s.status == p.status && s.creatorId == p.creatorId && !s.multilingual
            && s.homepageId == h.id && h.spaceId == s.id && h.parentId == 0 && !h.parentValid && h.depth == 0
            && o.result.value.content.None?
            && o.db.spaces == db.spaces + [s]
            && o.db.nodes == db.nodes + [h]
            && |o.db.contents| == |db.contents| + 1 && o.db.contents[..|db.contents|] == db.contents
            && var c := o.db.contents[|db.contents|];
               && c.id == |db.contents| + 1 && c.spaceId == s.id && c.creatorId == p.creatorId
               && c.pageId == h.id && c.lang == s.lang && c.version == ""
               && c.status == Published.Name() && c.title == p.name && c.shortTitle == p.name
               && c.body == p.description && c.html == p.description
  {
  }

  /** Creating a space keeps the table invariant. */
  lemma CreateSpaceKeepsValid(db: Db, p: CreateSpaceParams)
    requires Valid(db)
    ensures Valid(CreateSpaceStep(db, p).db)
  {
    var o := CreateSpaceStep(db, p);
    if o.result.Ok? {
      CreateSpaceSeeds(db, p);
      var nodes := InsertRoot(db.nodes, |db.spaces| + 1, 0, false);
      var c := o.db.contents[|db.contents|];
      InsertRootLaminar(db.nodes, |db.spaces| + 1, 0, false);
      AddedPageKeepsValid(db, nodes, c);
      AddedSpaceKeepsValid(Db(db.spaces, nodes, db.contents + [c]), o.result.value.space);
      assert o.db == Db(db.spaces + [o.result.value.space], nodes, db.contents + [c]);
    }
  }

  /** Appending a space whose name and key no row holds keeps both unique. */
  lemma AppendSpaceKeepsUnique(spaces: seq<Space>, s: Space)
    requires forall i, j | 0 <= i < |spaces| && 0 <= j < |spaces| && i != j ::
               spaces[i].name != spaces[j].name && spaces[i].key != spaces[j].key
    requires !NameOrKeyTaken(spaces, s.name, s.key)
    ensures var n := spaces + [s];
            forall i, j | 0 <= i < |n| && 0 <= j < |n| && i != j :: n[i].name != n[j].name && n[i].key != n[j].key
  {
    var n := spaces + [s];
    forall i, j | 0 <= i < |n| && 0 <= j < |n| && i != j
      ensures n[i].name != n[j].name && n[i].key != n[j].key
    {
      if i == |spaces| {
        assert !(spaces[j].name == s.name || spaces[j].key == s.key);
      } else if j == |spaces| {
        assert !(spaces[i].name == s.name || spaces[i].key == s.key);
      }
    }
  }

  /** Appending a content row of a page no existing row refers to keeps the
      content key unique. */
  lemma AppendContentKeepsUnique(db: Db, c: PageContent)
    requires UniqueContentKeys(db.contents)
    requires forall i | 0 <= i < |db.contents| :: db.contents[i].pageId <= |db.nodes|
    requires c.pageId > |db.nodes|
    ensures UniqueContentKeys(db.contents + [c])
  {
    var n := db.contents + [c];
    forall i, j | 0 <= i < |n| && 0 <= j < |n| && i != j
      ensures ContentKey(n[i]) != ContentKey(n[j])
    {
      if i < |db.contents| && j < |db.contents| {
        assert n[i] == db.contents[i] && n[j] == db.contents[j];
      }
    }
  }

  // --------------------------------------------------------------- DescribeSpace

  /** The fields of the space read the service uses. */
  datatype DescribeSpaceParams = DescribeSpaceParams(key: string, lang: string)

  /** The homepage node of `space`: the row with the homepage id in that space. */
  function HomepageOf(db: Db, space: Space): (r: Option<Node>)
    ensures r.Some? ==> r.value in db.nodes && r.value.id == space.homepageId && r.value.spaceId == space.id
    ensures r.None? <==> forall n | n in db.nodes :: !(n.spaceId == space.id && n.id == space.homepageId)
  {
    var at := FirstWhere(db.nodes, (n: Node) => n.spaceId == space.id && n.id == space.homepageId);
    if at.Some? then Some(db.nodes[at.value]) else None
  }

  /** The first content row of page `pageId` in language `lang`: the
      lowest-id row, the one `First` returns when several versions share
      the language. */
  function ContentIn(db: Db, pageId: int, lang: string): (r: Option<PageContent>)
    ensures r.Some? ==> r.value in db.contents && r.value.pageId == pageId && r.value.lang == lang
    ensures r.Some? ==> exists i | 0 <= i < |db.contents| :: db.contents[i] == r.value
                          && forall j | 0 <= j < i :: !(db.contents[j].pageId == pageId && db.contents[j].lang == lang)
    ensures r.None? <==> forall c | c in db.contents :: !(c.pageId == pageId && c.lang == lang)
  {
    var at := FirstContent(db.contents, pageId, Some(lang), None);
    if at.Some? then
      assert forall j | 0 <= j < at.value :: !ContentMatches(db.contents[j], pageId, Some(lang), None);
      Some(db.contents[at.value])
    else None
  }

  /** `DescribeSpace`. An unknown key or a missing homepage is not-found.
      When the homepage has no content in the read language, the fallback
      language is tried only if it differs, and even when that row exists
      the call returns no space and no error (`Ok(None)`). */
  function DescribeSpace(db: Db, p: DescribeSpaceParams): (r: Result<Option<SpaceHome>>)
    ensures r.Err? ==> r.error == NotFound
    ensures SpaceByKey(db.spaces, p.key).None? ==> r == Err(NotFound)
    ensures r.Ok? && r.value.Some? <==>
              && SpaceByKey(db.spaces, p.key).Some?
              && var s := SpaceByKey(db.spaces, p.key).value;
                 && HomepageOf(db, s).Some?
                 && ContentIn(db, s.homepageId, ReadLang(p.lang, s)).Some?
    ensures r.Ok? && r.value.Some? ==>
              var h := r.value.value;
              && h.space == SpaceByKey(db.spaces, p.key).value
              && h.homepage == HomepageOf(db, h.space).value
              && h.content == ContentIn(db, h.space.homepageId, ReadLang(p.lang, h.space))
              && h.homepage in db.nodes && h.homepage.id == h.space.homepageId && h.homepage.spaceId == h.space.id
              && h.content.Some? && h.content.value in db.contents
              && h.content.value.pageId == h.space.homepageId
              && h.content.value.lang == ReadLang(p.lang, h.space)
    ensures r == Ok(None) <==>
              && SpaceByKey(db.spaces, p.key).Some?
              && var s := SpaceByKey(db.spaces, p.key).value;
                 && HomepageOf(db, s).Some?
                 && ContentIn(db, s.homepageId, ReadLang(p.lang, s)).None?
                 && ReadLang(p.lang, s) != s.fallbackLang
                 && ContentIn(db, s.homepageId, s.fallbackLang).Some?
  {
    var found := SpaceByKey(db.spaces, p.key);
    if found.None? then Err(NotFound)
    else
      var space := found.value;
      var lang := ReadLang(p.lang, space);
      var home := HomepageOf(db, space);
      if home.None? then Err(NotFound)
      else
        var content := ContentIn(db, space.homepageId, lang);
        if content.Some? then Ok(Some(SpaceHome(space, home.value, content)))
        else if lang != space.fallbackLang && ContentIn(db, space.homepageId, space.fallbackLang).Some? then Ok(None)
        else Err(NotFound)
  }

  /** Right after a space is created, reading it by key in its default
      language finds the space, its homepage and the seeded content row. */
  lemma CreateThenDescribeSpace(db: Db, p: CreateSpaceParams)
    requires Valid(db)
    requires CreateSpaceStep(db, p).result.Ok?
    ensures var o := CreateSpaceStep(db, p);
            var h := o.result.value;
            DescribeSpace(o.db, DescribeSpaceParams(p.key, ""))
              == Ok(Some(SpaceHome(h.space, h.homepage, Some(o.db.contents[|db.contents|]))))
  {
    var o := CreateSpaceStep(db, p);
    var h := o.result.value;
    var n := o.db;
    CreateSpaceSeeds(db, p);
    var c := n.contents[|db.contents|];
    AppendedKey(db.spaces, h.space);
    AppendedHomepage(db.nodes, n, h.space, h.homepage);
    assert n.contents == db.contents + [c];
    AppendedContent(db.contents, n, c);
  }

  /** A space appended with a key no row holds is what a lookup by that key finds. */
  lemma AppendedKey(spaces: seq<Space>, s: Space)
    requires forall i | 0 <= i < |spaces| :: !(spaces[i].name == s.name || spaces[i].key == s.key)
    ensures SpaceByKey(spaces + [s], s.key) == Some(s)
  {
    var r := SpaceByKey(spaces + [s], s.key);
    assert s in spaces + [s];
    assert r.value in spaces + [s];
  }

  /** A node appended with a fresh id is the homepage lookup's answer. */
  lemma AppendedHomepage(nodes: seq<Node>, db: Db, space: Space, home: Node)
    requires db.nodes == nodes + [home]
    requires forall i | 0 <= i < |nodes| :: nodes[i].id != home.id
    requires home.id == space.homepageId && home.spaceId == space.id
    ensures HomepageOf(db, space) == Some(home)
  {
    var r := HomepageOf(db, space);
    assert home in db.nodes;
    assert r.value in nodes + [home];
  }

  /** A content row appended for a page no other row refers to is what the
      lookup in its language finds. */
  lemma AppendedContent(contents: seq<PageContent>, db: Db, c: PageContent)
    requires db.contents == contents + [c]
    requires forall i | 0 <= i < |contents| :: contents[i].pageId != c.pageId
    ensures ContentIn(db, c.pageId, c.lang) == Some(c)
  {
    var r := ContentIn(db, c.pageId, c.lang);
    assert c in db.contents;
    assert r.value in contents + [c];
  }

  // ----------------------------------------------------------------- UpdateSpace

  /** The fields of `params.UpdateSpace`: nil pointers are `None`; the status
      is a plain value. */
  datatype UpdateSpaceParams = UpdateSpaceParams(
    key: string,
    name: Option<string>,
    multilingual: Option<bool>,
    lang: Option<string>,
    fallbackLang: Option<string>,
    homepageId: Option<int>,
    description: Option<string>,
    avatar: Option<string>,
    status: string)

  /** The space after the field-by-field patch: each given field takes
      its new value, the status only a valid one, and nothing else
      changes. */
  function PatchSpace(s: Space, p: UpdateSpaceParams): (r: Space)
    ensures p.name.Some? ==> r.name == p.name.value
    ensures p.multilingual.Some? ==> r.multilingual == p.multilingual.value
    ensures p.lang.Some? ==> r.lang == p.lang.value
    ensures p.fallbackLang.Some? ==> r.fallbackLang == p.fallbackLang.value
    ensures p.homepageId.Some? ==> r.homepageId == p.homepageId.value
    ensures p.description.Some? ==> r.description == p.description.value
    ensures p.avatar.Some? ==> r.avatar == p.avatar.value
    ensures CheckSpaceStatus(p.status).None? ==> r.status == p.status
    ensures r == s.(name := r.name, multilingual := r.multilingual, lang := r.lang, fallbackLang := r.fallbackLang,
                    homepageId := r.homepageId, description := r.description, avatar := r.avatar, status := r.status)
    ensures (&& p.name.None? && p.multilingual.None? && p.lang.None? && p.fallbackLang.None? && p.homepageId.None?
             && p.description.None? && p.avatar.None? && CheckSpaceStatus(p.status).Some?) ==> r == s
  {
    s.(name := Patch(s.name, p.name),
       multilingual := Patch(s.multilingual, p.multilingual),
       lang := Patch(s.lang, p.lang),
       fallbackLang := Patch(s.fallbackLang, p.fallbackLang),
       homepageId := Patch(s.homepageId, p.homepageId),
       description := Patch(s.description, p.description),
       avatar := Patch(s.avatar, p.avatar),
       status := if CheckSpaceStatus(p.status).None? then p.status else s.status)
  }

  /** Another row than the one at `at` holds the name or the key. */
  predicate TakenByOther(spaces: seq<Space>, at: nat, name: string, key: string) {
    exists j | 0 <= j < |spaces| :: j != at && (spaces[j].name == name || spaces[j].key == key)
  }

  /** The position of the space with `key`. */
  function SpaceAtKey(spaces: seq<Space>, key: string): Option<nat> {
    FirstWhere(spaces, (s: Space) => s.key == key)
  }

  /** `UpdateSpace` as a step on the tables. An unknown key is not-found.
      Only the given fields change; the status changes only to a valid
      value, and an invalid one is ignored without an error. Saving a name
      another space holds violates the unique index. */
  function UpdateSpaceStep(db: Db, p: UpdateSpaceParams): (o: Outcome<Space>)
    ensures o.result.Err? ==> o.db == db
    ensures o.result.Ok? <==>
              && SpaceAtKey(db.spaces, p.key).Some?
              && var at := SpaceAtKey(db.spaces, p.key).value;
                 !TakenByOther(db.spaces, at, PatchSpace(db.spaces[at], p).name, PatchSpace(db.spaces[at], p).key)
    ensures SpaceByKey(db.spaces, p.key).None? ==> o.result == Err(NotFound)
    ensures o.result.Err? ==> o.result.error in {NotFound, Conflict}
    ensures o.result.Ok? ==>
              var prev, s := SpaceByKey(db.spaces, p.key).value, o.result.value;
              && s.id == prev.id && s.key == prev.key && s.creatorId == prev.creatorId
              && (p.name.None? ==> s.name == prev.name) && (p.name.Some? ==> s.name == p.name.value)
              && (p.multilingual.None? ==> s.multilingual == prev.multilingual)
              && (p.multilingual.Some? ==> s.multilingual == p.multilingual.value)
              && (p.lang.None? ==> s.lang == prev.lang) && (p.lang.Some? ==> s.lang == p.lang.value)
              && (p.fallbackLang.None? ==> s.fallbackLang == prev.fallbackLang)
              && (p.fallbackLang.Some? ==> s.fallbackLang == p.fallbackLang.value)
              && (p.homepageId.None? ==> s.homepageId == prev.homepageId)
              && (p.homepageId.Some? ==> s.homepageId == p.homepageId.value)
              && (p.description.None? ==> s.description == prev.description)
              && (p.description.Some? ==> s.description == p.description.value)
              && (p.avatar.None? ==> s.avatar == prev.avatar) && (p.avatar.Some? ==> s.avatar == p.avatar.value)
              && (CheckSpaceStatus(p.status).Some? ==> s.status == prev.status)
              && (CheckSpaceStatus(p.status).None? ==> s.status == p.status)
              && o.db.nodes == db.nodes && o.db.contents == db.contents
              && |o.db.spaces| == |db.spaces|
              && forall i | 0 <= i < |db.spaces| ::
                   o.db.spaces[i] == if db.spaces[i] == prev then s else db.spaces[i]
  {
    var at := SpaceAtKey(db.spaces, p.key);
    if at.None? then Outcome(Err(NotFound), db)
    else
      var patched := PatchSpace(db.spaces[at.value], p);
      if TakenByOther(db.spaces, at.value, patched.name, patched.key) then Outcome(Err(Conflict), db)
      else
        assert forall i | 0 <= i < |db.spaces| && i != at.value :: db.spaces[i] != db.spaces[at.value] by {
          forall i | 0 <= i < |db.spaces| && i != at.value ensures db.spaces[i] != db.spaces[at.value] {
            assert !(db.spaces[i].name == patched.name || db.spaces[i].key == patched.key);
          }
        }
        Outcome(Ok(patched), db.(spaces := db.spaces[at.value := patched]))
  }

  /** Updating a space keeps the table invariant. */
  lemma UpdateSpaceKeepsValid(db: Db, p: UpdateSpaceParams)
    requires Valid(db)
    ensures Valid(UpdateSpaceStep(db, p).db)
  {
    var o := UpdateSpaceStep(db, p);
    if o.result.Ok? {
      var at := SpaceAtKey(db.spaces, p.key).value;
      var n := o.db;
      forall i, j | 0 <= i < |n.spaces| && 0 <= j < |n.spaces| && i != j
        ensures n.spaces[i].name != n.spaces[j].name && n.spaces[i].key != n.spaces[j].key
      {
        if i == at {
          assert !(db.spaces[j].name == o.result.value.name || db.spaces[j].key == o.result.value.key);
        } else if j == at {
          assert !(db.spaces[i].name == o.result.value.name || db.spaces[i].key == o.result.value.key);
        }
      }
    }
  }

  /** A patch that sets nothing and carries an invalid status rewrites the
      space unchanged. */
  lemma EmptyUpdateChangesNothing(db: Db, key: string)
    requires Valid(db) && SpaceByKey(db.spaces, key).Some?
    ensures var o := UpdateSpaceStep(db, UpdateSpaceParams(key, None, None, None, None, None, None, None, ""));
            o == Outcome(Ok(SpaceByKey(db.spaces, key).value), db)
  {
    var p := UpdateSpaceParams(key, None, None, None, None, None, None, None, "");
    var at := SpaceAtKey(db.spaces, key).value;
    assert PatchSpace(db.spaces[at], p) == db.spaces[at];
    assert db.spaces[at := db.spaces[at]] == db.spaces;
  }

  // ------------------------------------------------------------------ CreatePage

  /** The fields of the page creation the service reads. `lang` is accepted
      and never used. */
  datatype CreatePageParams = CreatePageParams(
    spaceId: int,
    parentId: int,
    creatorId: int,
    lang: string,
    version: string,
    status: string,
    title: string,
    shortTitle: string,
    body: string)

  /** The parent `CreatePage` loads: only for a positive parent id, the
      position of the row with that id, in whatever space it lies. */
  function ParentAt(nodes: seq<Node>, parentId: int): (r: Option<nat>)
    ensures r.Some? ==> parentId > 0 && r.value < |nodes| && nodes[r.value].id == parentId
    ensures r.None? <==> parentId <= 0 || forall i | 0 <= i < |nodes| :: nodes[i].id != parentId
  {
    if parentId > 0 then FirstWhere(nodes, (n: Node) => n.id == parentId) else None
  }

  /** An empty short title defaults to the title. */
  function ShortTitleOr(shortTitle: string, title: string): (r: string)
    ensures shortTitle == "" ==> r == title
    ensures shortTitle != "" ==> r == shortTitle
  {
    if |shortTitle| == 0 then title else shortTitle
  }

  /** `CreatePage` as a step on the tables. The status and the rendering of
      the body are checked before anything is read, then the space must
      exist; a found parent in another space is refused. The node and its
      content row are written in one transaction. */
  function CreatePageStep(db: Db, render: string -> Option<string>, p: CreatePageParams): (o: Outcome<Loaded>)
    ensures o.result.Err? ==> o.db == db
    ensures CheckPageStatus(p.status).Some? ==> o.result == Err(PageStatusInvalid)
    ensures CheckPageStatus(p.status).None? && render(p.body).None? ==> o.result == Err(RenderFailed)
    ensures CheckPageStatus(p.status).None? && render(p.body).Some? && SpaceById(db.spaces, p.spaceId).None? ==>
              o.result == Err(NotFound)
    ensures o.result.Ok? <==>
              && CheckPageStatus(p.status).None? && render(p.body).Some? && SpaceById(db.spaces, p.spaceId).Some?
              && (ParentAt(db.nodes, p.parentId).Some? ==> db.nodes[ParentAt(db.nodes, p.parentId).value].spaceId == p.spaceId)
    ensures o.result.Err? ==> o.result.error in {PageStatusInvalid, RenderFailed, NotFound, ScopeMismatch}
  {
    if CheckPageStatus(p.status).Some? then Outcome(Err(PageStatusInvalid), db)
    else if render(p.body).None? then Outcome(Err(RenderFailed), db)
    else
      var space := SpaceById(db.spaces, p.spaceId);
      if space.None? then Outcome(Err(NotFound), db)
      else
        var parent := ParentAt(db.nodes, p.parentId);
        if parent.Some? && db.nodes[parent.value].spaceId != space.value.id then Outcome(Err(ScopeMismatch), db)
        else
          var nodes := if parent.Some? then InsertChild(db.nodes, parent.value)
                       else InsertRoot(db.nodes, space.value.id, p.parentId, true);
          var page := nodes[|db.nodes|];
          var content := PageContent(|db.contents| + 1, space.value.id, p.creatorId, page.id, space.value.lang,
                                     p.version, p.status, p.title, ShortTitleOr(p.shortTitle, p.title),
                                     p.body, render(p.body).value);
          Outcome(Ok(Loaded(page, Some(content))), Db(db.spaces, nodes, db.contents + [content]))
  }

  /** What a successful `CreatePage` writes: one new node of the space with
      the next id and the parent id as given (set, never NULL), and one new content row for it
      in the SPACE's language (the requested language plays no part), with
      the given version, status, title and body, the short title defaulted
      to the title, and the rendered HTML. */
  lemma CreatePageWrites(db: Db, render: string -> Option<string>, p: CreatePageParams)
    requires CreatePageStep(db, render, p).result.Ok?
    ensures var o := CreatePageStep(db, render, p);
            var space, page, c := SpaceById(db.spaces, p.spaceId).value, o.result.value.node, o.result.value.content.value;
            && o.db.spaces == db.spaces
            && |o.db.nodes| == |db.nodes| + 1 && o.db.nodes[|db.nodes|] == page
            && page.id == |db.nodes| + 1 && page.spaceId == p.spaceId && page.parentId == p.parentId && page.parentValid
            && page.childrenCount == 0 && page.lft < page.rgt
            && o.db.contents == db.contents + [c]
            && c.id == |db.contents| + 1 && c.spaceId == p.spaceId && c.creatorId == p.creatorId
            && c.pageId == page.id && c.lang == space.lang && c.version == p.version && c.status == p.status
            && c.title == p.title && c.shortTitle == (if p.shortTitle == "" then p.title else p.shortTitle)
            && c.body == p.body && c.html == render(p.body).value
  {
  }

  /** Where a successful `CreatePage` places the node: without a parent, as
      a depth-0 root to the right of its space's intervals with the other
      rows untouched; under a parent, one level deeper, inside the parent's
      interval, with one more child counted on the parent. */
  lemma CreatePagePlaces(db: Db, render: string -> Option<string>, p: CreatePageParams)
    requires Laminar(db.nodes)
    requires CreatePageStep(db, render, p).result.Ok?
    ensures var o := CreatePageStep(db, render, p);
            var page, parent := o.result.value.node, ParentAt(db.nodes, p.parentId);
            && (parent.None? ==>
                  && page.depth == 0 && o.db.nodes[..|db.nodes|] == db.nodes
                  && forall i | 0 <= i < |db.nodes| && db.nodes[i].spaceId == p.spaceId :: db.nodes[i].rgt < page.lft)
            && (parent.Some? ==>
                  && page.depth == db.nodes[parent.value].depth + 1
                  && Encloses(o.db.nodes[parent.value], page)
                  && o.db.nodes[parent.value].childrenCount == db.nodes[parent.value].childrenCount + 1)
  {
    var parent := ParentAt(db.nodes, p.parentId);
    if parent.Some? {
      assert db.nodes[parent.value].lft < db.nodes[parent.value].rgt;
    }
  }

  /** The requested language does not influence what `CreatePage` does. */
  lemma CreatePageIgnoresLang(db: Db, render: string -> Option<string>, p: CreatePageParams, lang: string)
    ensures CreatePageStep(db, render, p.(lang := lang)) == CreatePageStep(db, render, p)
  {
  }

  /** Creating a page keeps the table invariant. */
  lemma CreatePageKeepsValid(db: Db, render: string -> Option<string>, p: CreatePageParams)
    requires Valid(db)
    ensures Valid(CreatePageStep(db, render, p).db)
  {
    var o := CreatePageStep(db, render, p);
    if o.result.Ok? {
      CreatePageWrites(db, render, p);
      var parent := ParentAt(db.nodes, p.parentId);
      if parent.Some? {
        InsertChildLaminar(db.nodes, parent.value);
      } else {
        InsertRootLaminar(db.nodes, p.spaceId, p.parentId, true);
        assert forall i | 0 <= i < |db.nodes| :: o.db.nodes[i] == o.db.nodes[..|db.nodes|][i];
      }
      AddedPageKeepsValid(db, o.db.nodes, o.result.value.content.value);
    }
  }

  /** A table extended by a space with the next id and a free name and key
      stays valid. */
  lemma AddedSpaceKeepsValid(db: Db, s: Space)
    requires Valid(db)
    requires s.id == |db.spaces| + 1 && !NameOrKeyTaken(db.spaces, s.name, s.key)
    ensures Valid(db.(spaces := db.spaces + [s]))
  {
    AppendSpaceKeepsUnique(db.spaces, s);
  }

  /** Replacing the nodes by a properly nested table that keeps every id and
      adds one row with the next id, and appending a content row for that
      row with the next id, keeps the table invariant. */
  lemma AddedPageKeepsValid(db: Db, nodes: seq<Node>, c: PageContent)
    requires Valid(db) && Laminar(nodes)
    requires |nodes| == |db.nodes| + 1 && nodes[|db.nodes|].id == |db.nodes| + 1
    requires forall i | 0 <= i < |db.nodes| :: nodes[i].id == db.nodes[i].id
    requires c.id == |db.contents| + 1 && c.pageId == |db.nodes| + 1
    ensures Valid(Db(db.spaces, nodes, db.contents + [c]))
  {
    AppendContentKeepsUnique(db, c);
  }

  // --------------------------------------------------------------- DescribePages

  /** The fields of the listing the service reads; `parentId` is `None`
      when no parent filter is given. */
  datatype DescribePagesParams = DescribePagesParams(spaceId: int, lang: string, depth: int, parentId: Option<int>)

  /** A node row as a read loads it, with its content join and its fallback
      content join. */
  datatype Joined = Joined(row: Node, content: Option<PageContent>, fallback: Option<PageContent>)

  /** The fallback join is added only for a non-empty fallback language
      that differs from the read language. */
  function FallbackFor(space: Space, lang: string): (r: Option<string>)
    ensures r.Some? <==> space.fallbackLang != "" && space.fallbackLang != lang
    ensures r.Some? ==> r.value == space.fallbackLang
  {
    if |space.fallbackLang| > 0 && lang != space.fallbackLang then Some(space.fallbackLang) else None
  }

  /** The filter of the listing: the space, `depth <= Depth` when the depth
      is positive, and the parent id when one is given. A NULL parent equals
      no value in SQL, so a parent filter never lists a row without one. */
  predicate Listed(n: Node, space: Space, p: DescribePagesParams) {
    && n.spaceId == space.id
    && (p.depth > 0 ==> n.depth <= p.depth)
    && (p.parentId.Some? ==> n.parentValid && n.parentId == p.parentId.value)
  }

  /** The rows of the listing query for `space`: exactly the listed nodes,
      ordered by `lft`, each with the row the language join selects minus
      `body` and `html`, and the fallback row likewise when the fallback
      join is present. */
  function ListingRows(db: Db, space: Space, p: DescribePagesParams): (rows: seq<Joined>)
    ensures forall n :: (exists i | 0 <= i < |rows| :: rows[i].row == n) <==> n in db.nodes && Listed(n, space, p)
    ensures forall i, j | 0 <= i < j < |rows| :: rows[i].row.lft <= rows[j].row.lft
    ensures var lang := ReadLang(p.lang, space);
            forall i | 0 <= i < |rows| ::
              && rows[i].content == JoinedContent(db.contents, rows[i].row.id, PageQuery(lang, ""))
              && (FallbackFor(space, lang).None? ==> rows[i].fallback.None?)
              && (FallbackFor(space, lang).Some? ==>
                    rows[i].fallback == JoinedContent(db.contents, rows[i].row.id, PageQuery(space.fallbackLang, "")))
  {
    var lang := ReadLang(p.lang, space);
    var fallback := FallbackFor(space, lang);
    var listed := Where(db.nodes, (n: Node) => Listed(n, space, p));
    var sorted := SortByLft(listed);
    SortByLftSpec(listed);
    var rows := seq(|sorted|, i requires 0 <= i < |sorted| =>
                  Joined(sorted[i], JoinedContent(db.contents, sorted[i].id, PageQuery(lang, "")),
                         if fallback.Some? then JoinedContent(db.contents, sorted[i].id, PageQuery(fallback.value, ""))
                         else None));
    forall n ensures (exists i | 0 <= i < |rows| :: rows[i].row == n) <==> n in db.nodes && Listed(n, space, p) {
      SortedMembers(listed, n);
      if n in sorted {
        var i :| 0 <= i < |sorted| && sorted[i] == n;
        assert rows[i].row == n;
      }
    }
    rows
  }

  /** With a parent filter, every listed row has that parent, and not a
      NULL one. */
  lemma ListedUnderParent(db: Db, space: Space, p: DescribePagesParams)
    requires p.parentId.Some?
    ensures forall k | 0 <= k < |ListingRows(db, space, p)| ::
              ListingRows(db, space, p)[k].row.parentValid && ListingRows(db, space, p)[k].row.parentId == p.parentId.value
  {
    var rows := ListingRows(db, space, p);
    forall k | 0 <= k < |rows| ensures rows[k].row.parentValid && rows[k].row.parentId == p.parentId.value {
      assert Listed(rows[k].row, space, p);
    }
  }

  /** The homepage `CreateSpace` seeds has a NULL parent, so no parent
      filter lists it, `parent_id = 0` included. */
  lemma SeededHomepageUnlisted(db: Db, p: CreateSpaceParams, q: DescribePagesParams)
    requires CreateSpaceStep(db, p).result.Ok? && q.parentId.Some?
    ensures var o := CreateSpaceStep(db, p);
            forall k | 0 <= k < |ListingRows(o.db, o.result.value.space, q)| ::
              ListingRows(o.db, o.result.value.space, q)[k].row != o.result.value.homepage
  {
    var o := CreateSpaceStep(db, p);
    CreateSpaceSeeds(db, p);
    ListedUnderParent(o.db, o.result.value.space, q);
  }

  /** Pages loaded from rows none of which has parent id 0 have no roots. */
  lemma RowsWithoutRoots(pages: seq<Page>, rows: seq<Joined>)
    requires |pages| == |rows| && forall k | 0 <= k < |rows| :: pages[k].Row() == rows[k].row
    requires forall k | 0 <= k < |rows| :: rows[k].row.parentId != 0
    ensures Roots(pages) == []
  {
    forall q | q in pages ensures q.parentId != 0 {
      var k :| 0 <= k < |pages| && pages[k] == q;
      assert q.Row() == rows[k].row;
    }
    NoRoots(pages);
  }

  /** Page `pg` holds row `j` as the listing loads it: the row's fields,
      the content join's row or, when it found none, the fallback row, the
      fallback row itself, the space, and no ancestors. */
  predicate LoadedFrom(pg: Page, j: Joined, space: Space)
    reads pg`content, pg`fallbackContent, pg`space, pg`parents
  {
    && pg.Row() == j.row
    && pg.content == (if j.content.Some? then j.content else j.fallback)
    && pg.fallbackContent == j.fallback
    && pg.space == Some(space) && pg.parents == []
  }

  // ---------------------------------------------------------------- DescribePage

  /** The fields of the page read the service uses. */
  datatype DescribePageParams = DescribePageParams(spaceId: int, pageId: int, lang: string, version: string)

  /** The node with id `pageId` in space `spaceId`. */
  function PageInSpace(nodes: seq<Node>, spaceId: int, pageId: int): (r: Option<Node>)
    ensures r.Some? ==> r.value in nodes && r.value.spaceId == spaceId && r.value.id == pageId
    ensures r.None? <==> forall n | n in nodes :: !(n.spaceId == spaceId && n.id == pageId)
  {
    var at := FirstWhere(nodes, (n: Node) => n.spaceId == spaceId && n.id == pageId);
    if at.Some? then Some(nodes[at.value]) else None
  }

  /** The row the detail query loads for `space`: the page with the
      requested id in that space, its content in the read language and the
      requested version (each only when non-empty), with `body` and `html`,
      and the fallback-language row likewise when the fallback join is
      present. No such page is not-found (`None`). */
  function Detail(db: Db, space: Space, p: DescribePageParams): (r: Option<Joined>)
    ensures r.None? <==> forall n | n in db.nodes :: !(n.spaceId == space.id && n.id == p.pageId)
    ensures r.Some? ==>
              var lang := ReadLang(p.lang, space);
              && r.value.row in db.nodes && r.value.row.spaceId == space.id && r.value.row.id == p.pageId
              && r.value.content == JoinRow(db.contents, p.pageId, lang, p.version)
              && (FallbackFor(space, lang).None? ==> r.value.fallback.None?)
              && (FallbackFor(space, lang).Some? ==>
                    r.value.fallback == JoinRow(db.contents, p.pageId, space.fallbackLang, p.version))
  {
    var lang := ReadLang(p.lang, space);
    var fallback := FallbackFor(space, lang);
    var node := PageInSpace(db.nodes, space.id, p.pageId);
    if node.None? then None
    else
      Some(Joined(node.value, JoinRow(db.contents, node.value.id, lang, p.version),
                  if fallback.Some? then JoinRow(db.contents, node.value.id, fallback.value, p.version) else None))
  }

  /** The detail query as the statement is built (spaces/service.go:389-402),
      where `Detail` is what it is evidently meant to load.
      - A version condition is added to a chain that the content join's
        condition then shares, so the page table itself is asked for a
        `lang` column it lacks, and the query fails.
      - The fallback join's condition is added the same way to the page
        query, and that join puts a second `page_id` column in scope for the
        unqualified `page_id` of the WHERE clause; the query fails.
      - Otherwise `page_id` is the joined content row's, so the page is found
        only together with a content row in the read language; with none,
        `Find` leaves the struct zero-valued (`Ok(None)`). */
  function DetailQuery(db: Db, space: Space, p: DescribePageParams): (r: Result<Option<Joined>>)
    ensures r.Err? <==> p.version != "" || FallbackFor(space, ReadLang(p.lang, space)).Some?
    ensures r.Err? ==> r.error == QueryFailed
    ensures r.Ok? ==> (r.value.Some? <==>
                         && PageInSpace(db.nodes, space.id, p.pageId).Some?
                         && JoinRow(db.contents, p.pageId, ReadLang(p.lang, space), "").Some?)
    ensures r.Ok? && r.value.Some? ==>
              && r.value == Detail(db, space, p)
              && r.value.value.content == JoinRow(db.contents, p.pageId, ReadLang(p.lang, space), "")
              && r.value.value.fallback.None?
  {
    var lang := ReadLang(p.lang, space);
    if p.version != "" || FallbackFor(space, lang).Some? then Err(QueryFailed)
    else
      var d := Detail(db, space, p);
      if d.Some? && d.value.content.Some? then Ok(d) else Ok(None)
  }

  /** The query as built loses the page whenever the space has a fallback
      language other than the read one, although the intended read finds
      it: the homepage of a new space with languages "en" and "fr", read
      without a language, is one such page. */
  lemma FallbackJoinLosesPage(db: Db, p: CreateSpaceParams)
    requires Valid(db) && CreateSpaceStep(db, p).result.Ok?
    requires p.lang == "en" && p.fallbackLang == "fr"
    ensures var o := CreateSpaceStep(db, p);
            var s, q := o.result.value.space, DescribePageParams(o.result.value.space.id, o.result.value.homepage.id, "", "");
            && Detail(o.db, s, q).Some? && Detail(o.db, s, q).value.row == o.result.value.homepage
            && DetailQuery(o.db, s, q) == Err(QueryFailed)
  {
    var o := CreateSpaceStep(db, p);
    CreateSpaceSeeds(db, p);
    CreateSpaceKeepsValid(db, p);
    var s, h := o.result.value.space, o.result.value.homepage;
    var q := DescribePageParams(s.id, h.id, "", "");
    assert h == o.db.nodes[|db.nodes|];
    var d := Detail(o.db, s, q);
    assert d.Some?;
    assert d.value.row == h by {
      forall n | n in o.db.nodes && n.spaceId == s.id && n.id == h.id ensures n == h {
        var k :| 0 <= k < |o.db.nodes| && o.db.nodes[k] == n;
      }
    }
  }

  // ------------------------------------------------------------------ UpdatePage

  /** The fields of the page update: nil pointers are `None`. */
  datatype UpdatePageParams = UpdatePageParams(
    id: int,
    lang: Option<string>,
    version: Option<string>,
    status: Option<string>,
    title: Option<string>,
    shortTitle: Option<string>,
    body: Option<string>)

  /** The page as `UpdatePage` returns it, with its preloaded space. */
  datatype UpdatedPage = UpdatedPage(page: Loaded, space: Option<Space>)

  /** `First(&page)` with `id = ?`. */
  function NodeById(nodes: seq<Node>, id: int): (r: Option<Node>)
    ensures r.Some? ==> r.value in nodes && r.value.id == id
    ensures r.None? <==> forall n | n in nodes :: n.id != id
  {
    var at := FirstWhere(nodes, (n: Node) => n.id == id);
    if at.Some? then Some(nodes[at.value]) else None
  }

  /** `UpdatePage` as a step on the tables. The page must exist, then the
      status must be given and valid, then a content row must match; the
      body is rendered only when it is patched. The patched row is saved in
      place. */
  function UpdatePageStep(db: Db, render: string -> Option<string>, p: UpdatePageParams): (o: Outcome<UpdatedPage>)
    ensures o.result.Err? ==> o.db == db
    ensures NodeById(db.nodes, p.id).None? ==> o.result == Err(NotFound)
    ensures NodeById(db.nodes, p.id).Some? && p.status.None? ==> o.result == Err(NilStatus)
    ensures NodeById(db.nodes, p.id).Some? && p.status.Some? && CheckPageStatus(p.status.value).Some? ==>
              o.result == Err(PageStatusInvalid)
    ensures o.result.Ok? <==>
              && NodeById(db.nodes, p.id).Some? && p.status.Some? && CheckPageStatus(p.status.value).None?
              && FirstContent(db.contents, p.id, p.lang, p.version).Some?
              && (p.body.Some? ==> render(p.body.value).Some?)
    ensures o.result.Err? ==> o.result.error in {NotFound, NilStatus, PageStatusInvalid, RenderFailed}
  {
    var node := NodeById(db.nodes, p.id);
    if node.None? then Outcome(Err(NotFound), db)
    else if p.status.None? then Outcome(Err(NilStatus), db)
    else if CheckPageStatus(p.status.value).Some? then Outcome(Err(PageStatusInvalid), db)
    else
      var at := FirstContent(db.contents, node.value.id, p.lang, p.version);
      if at.None? then Outcome(Err(NotFound), db)
      else if p.body.Some? && render(p.body.value).None? then Outcome(Err(RenderFailed), db)
      else
        var c := db.contents[at.value];
        var patched := c.(status := p.status.value, title := Patch(c.title, p.title),
                          shortTitle := Patch(c.shortTitle, p.shortTitle),
                          body := Patch(c.body, p.body),
                          html := if p.body.Some? then render(p.body.value).value else c.html);
        Outcome(Ok(UpdatedPage(Loaded(node.value, Some(patched)), SpaceById(db.spaces, node.value.spaceId))),
                db.(contents := db.contents[at.value := patched]))
  }

  /** What a successful `UpdatePage` writes: the first content row of the
      page that meets the given language and version is replaced in place
      (no row is added); the status is set, title and short title change
      only when given, and body and HTML change together, to the given body
      and its rendering, only when a body is given. Key and ownership stay. */
  lemma UpdatePageWrites(db: Db, render: string -> Option<string>, p: UpdatePageParams)
    requires UpdatePageStep(db, render, p).result.Ok?
    ensures var o := UpdatePageStep(db, render, p);
            var node := NodeById(db.nodes, p.id).value;
            var at := FirstContent(db.contents, p.id, p.lang, p.version).value;
            var c, n := db.contents[at], o.result.value.page.content.value;
            && o.result.value.page.node == node
            && o.result.value.space == SpaceById(db.spaces, node.spaceId)
            && o.result.value.page.content.Some?
            && o.db == db.(contents := db.contents[at := n])
            && n.id == c.id && n.spaceId == c.spaceId && n.creatorId == c.creatorId
            && n.pageId == c.pageId && n.lang == c.lang && n.version == c.version
            && n.status == p.status.value
            && (p.title.None? ==> n.title == c.title) && (p.title.Some? ==> n.title == p.title.value)
            && (p.shortTitle.None? ==> n.shortTitle == c.shortTitle)
            && (p.shortTitle.Some? ==> n.shortTitle == p.shortTitle.value)
            && (p.body.None? ==> n.body == c.body && n.html == c.html)
            && (p.body.Some? ==> n.body == p.body.value && n.html == render(p.body.value).value)
  {
  }

  /** Updating a page keeps the table invariant: the rewritten row keeps its
      id and its unique key. */
  lemma UpdatePageKeepsValid(db: Db, render: string -> Option<string>, p: UpdatePageParams)
    requires Valid(db)
    ensures Valid(UpdatePageStep(db, render, p).db)
  {
    var o := UpdatePageStep(db, render, p);
    if o.result.Ok? {
      UpdatePageWrites(db, render, p);
      var at := FirstContent(db.contents, p.id, p.lang, p.version).value;
      ReplacedContentKeepsValid(db, at, o.result.value.page.content.value);
    }
  }

  /** Rewriting a content row in place with its id and key kept keeps the
      table invariant. */
  lemma ReplacedContentKeepsValid(db: Db, at: nat, n: PageContent)
    requires Valid(db) && at < |db.contents|
    requires n.id == db.contents[at].id && ContentKey(n) == ContentKey(db.contents[at])
    ensures Valid(db.(contents := db.contents[at := n]))
  {
    var s := db.contents[at := n];
    assert forall i | 0 <= i < |s| :: ContentKey(s[i]) == ContentKey(db.contents[i]) && s[i].id == db.contents[i].id;
    assert forall i | 0 <= i < |s| :: s[i].pageId == db.contents[i].pageId;
  }

  /** After an update that names a non-empty language and version, reading
      the page in that language and version returns the patched row. */
  lemma UpdateThenDescribePage(db: Db, render: string -> Option<string>, p: UpdatePageParams, space: Space)
    requires Valid(db)
    requires UpdatePageStep(db, render, p).result.Ok?
    requires p.lang.Some? && p.lang.value != "" && p.version.Some? && p.version.value != ""
    requires space.id == NodeById(db.nodes, p.id).value.spaceId
    ensures var o := UpdatePageStep(db, render, p);
            var q := DescribePageParams(space.id, p.id, p.lang.value, p.version.value);
            var d := Detail(o.db, space, q);
            && d.Some? && d.value.row == o.result.value.page.node && d.value.content == o.result.value.page.content
            && DetailQuery(o.db, space, q) == Err(QueryFailed)
  {
    var o := UpdatePageStep(db, render, p);
    UpdatePageWrites(db, render, p);
    var node := NodeById(db.nodes, p.id).value;
    var at := FirstContent(db.contents, p.id, p.lang, p.version).value;
    var n := o.result.value.page.content.value;
    var q := DescribePageParams(space.id, p.id, p.lang.value, p.version.value);
    var d := Detail(o.db, space, q);
    assert node in o.db.nodes;
    assert d.Some?;
    assert d.value.row == node by {
      var k :| 0 <= k < |db.nodes| && db.nodes[k] == d.value.row;
      var m :| 0 <= m < |db.nodes| && db.nodes[m] == node;
    }
    SavedRowFirst(db.contents, at, n, p.id, p.lang.value, p.version.value);
  }

  /** Replacing the first matching row by one with the same key keeps it
      the first match of a join on that key. */
  lemma SavedRowFirst(contents: seq<PageContent>, at: nat, n: PageContent, pageId: int, lang: string, version: string)
    requires lang != "" && version != ""
    requires at < |contents| && ContentMatches(contents[at], pageId, Some(lang), Some(version))
    requires forall j | 0 <= j < at :: !ContentMatches(contents[j], pageId, Some(lang), Some(version))
    requires ContentKey(n) == ContentKey(contents[at])
    ensures JoinRow(contents[at := n], pageId, lang, version) == Some(n)
  {
    var s := contents[at := n];
    var f := FirstContent(s, pageId, Condition(lang), Condition(version));
    assert ContentMatches(s[at], pageId, Some(lang), Some(version));
    assert forall j | 0 <= j < at :: s[j] == contents[j];
  }

  // ---------------------------------------------------------------------- Serach

  /** A search result: the content's page, carrying the matched row, with
      the page's ancestor chain and the content's preloaded space. */
  datatype SearchHit = SearchHit(page: Loaded, parents: seq<Loaded>, space: Option<Space>)

  /** An offset/limit page of results with the total count. */
  datatype Pagination = Pagination(offset: nat, limit: nat, total: int, items: seq<SearchHit>)

  /** The fields of the search. */
  datatype SearchParams = SearchParams(q: string, lang: string, pagination: Pagination)

  /** Row `c` is in language `lang` and its title or body contains `q`. */
  predicate Hit(c: PageContent, lang: string, q: string) {
    c.lang == lang && (Contains(c.title, q) || Contains(c.body, q))
  }

  /** The search condition on a row. */
  function HitIn(lang: string, q: string): PageContent -> bool {
    c => Hit(c, lang, q)
  }

  /** The content rows the search condition selects: the rows at the
      matching positions, in table order, one per matching row. */
  function SearchMatches(contents: seq<PageContent>, lang: string, q: string): (r: seq<PageContent>)
    ensures forall c | c in r :: c in contents && Hit(c, lang, q)
    ensures forall c | c in contents && Hit(c, lang, q) :: c in r
    ensures |r| == |Positions(contents, HitIn(lang, q))| == |PositionSet(contents, HitIn(lang, q))|
    ensures forall k | 0 <= k < |r| :: r[k] == contents[Positions(contents, HitIn(lang, q))[k]]
  {
    WherePositions(contents, HitIn(lang, q));
    WhereCount(contents, HitIn(lang, q));
    Where(contents, HitIn(lang, q))
  }

  /** The `limit` elements of `s` that start at `offset`, fewer at the end. */
  function Window<T>(s: seq<T>, offset: nat, limit: nat): (w: seq<T>)
    ensures |w| == if offset >= |s| then 0 else if |s| - offset < limit then |s| - offset else limit
    ensures forall k | 0 <= k < |w| :: offset + k < |s| && w[k] == s[offset + k]
  {
    if offset >= |s| then [] else if |s| - offset < limit then s[offset..] else s[offset..offset + limit]
  }

  /** The result for row `c` whose page is `node`. Loading the page with a
      language query leaves its own content empty and fills its ancestors;
      the loop then sets the content to the matched row. */
  function HitFor(db: Db, c: PageContent, node: Node, lang: string): SearchHit {
    SearchHit(Loaded(node, Some(c)), AncestorChain(db.nodes, db.contents, node, PageQuery(lang, "")),
              SpaceById(db.spaces, c.spaceId))
  }

  /** The results for the rows of `window`, in order. */
  function Hits(db: Db, window: seq<PageContent>, lang: string): (h: seq<SearchHit>)
    requires forall c | c in window :: NodeById(db.nodes, c.pageId).Some?
    ensures |h| == |window|
  {
    if window == [] then []
    else
      var last := window[|window| - 1];
      Hits(db, window[..|window| - 1], lang) + [HitFor(db, last, NodeById(db.nodes, last.pageId).value, lang)]
  }

  /** The `k`-th result is the one for the `k`-th row. */
  lemma {:induction false} HitsAt(db: Db, window: seq<PageContent>, lang: string)
    requires forall c | c in window :: NodeById(db.nodes, c.pageId).Some?
    ensures forall k | 0 <= k < |window| ::
              Hits(db, window, lang)[k] == HitFor(db, window[k], NodeById(db.nodes, window[k].pageId).value, lang)
  {
    if window != [] {
      var init, last := window[..|window| - 1], window[|window| - 1];
      assert window == init + [last];
      HitsAt(db, init, lang);
      var h, g := Hits(db, window, lang), Hits(db, init, lang);
      assert h == g + [HitFor(db, last, NodeById(db.nodes, last.pageId).value, lang)];
      forall k | 0 <= k < |window|
        ensures h[k] == HitFor(db, window[k], NodeById(db.nodes, window[k].pageId).value, lang)
      {
        if k < |init| {
          assert h[k] == g[k] && init[k] == window[k];
        }
      }
    }
  }

  /** Every content row refers to an existing page. */
  lemma ContentHasNode(db: Db, c: PageContent)
    requires Valid(db) && c in db.contents
    ensures NodeById(db.nodes, c.pageId).Some?
  {
    var i :| 0 <= i < |db.contents| && db.contents[i] == c;
    assert db.nodes[c.pageId - 1].id == c.pageId;
  }

  /** Every row of a page window of table rows refers to an existing page. */
  lemma WindowHasNodes(db: Db, found: seq<PageContent>, offset: nat, limit: nat)
    requires Valid(db) && forall c | c in found :: c in db.contents
    ensures forall c | c in Window(found, offset, limit) :: NodeById(db.nodes, c.pageId).Some?
  {
    var w := Window(found, offset, limit);
    forall c | c in w ensures NodeById(db.nodes, c.pageId).Some? {
      var k :| 0 <= k < |w| && w[k] == c;
      assert found[offset + k] == c;
      ContentHasNode(db, c);
    }
  }

  /** Extending the window prefix by one row extends the results by that
      row's result. */
  lemma HitsStep(db: Db, window: seq<PageContent>, i: nat, lang: string)
    requires i < |window| && forall c | c in window :: NodeById(db.nodes, c.pageId).Some?
    ensures forall c | c in window[..i] :: NodeById(db.nodes, c.pageId).Some?
    ensures Hits(db, window[..i + 1], lang)
            == Hits(db, window[..i], lang) + [HitFor(db, window[i], NodeById(db.nodes, window[i].pageId).value, lang)]
  {
    assert window[..i + 1][..i] == window[..i];
    assert window[..i + 1][i] == window[i];
  }

  /** Appending one result after a concatenation. */
  lemma AppendOne(a: seq<SearchHit>, b: seq<SearchHit>, x: SearchHit)
    ensures a + (b + [x]) == (a + b) + [x]
  {
  }

  /** The loop of `Serach` over the loaded tables: appends, in order, the
      result for each row of the window to the items, and changes nothing
      else. */
  method CollectHits(db: Db, window: seq<PageContent>, lang: string, start: Pagination) returns (r: Pagination)
    requires forall c | c in window :: NodeById(db.nodes, c.pageId).Some?
    ensures r == start.(items := start.items + Hits(db, window, lang))
  {
    r := start;
    var i := 0;
    assert window[..0] == [];
    while i < |window|
      invariant 0 <= i <= |window|
      invariant r == start.(items := start.items + Hits(db, window[..i], lang))
    {
      var c := window[i];
      var node := NodeById(db.nodes, c.pageId).value;
      var parents := AncestorChain(db.nodes, db.contents, node, PageQuery(lang, ""));
      var hit := SearchHit(Loaded(node, Some(c)), parents, SpaceById(db.spaces, c.spaceId));
      assert hit == HitFor(db, window[i], node, lang);
      HitsStep(db, window, i, lang);
      AppendOne(start.items, Hits(db, window[..i], lang), hit);
      r := r.(items := r.items + [hit]);
      i := i + 1;
    }
    assert window[..i] == window;
  }

  /** The service with its tables; `render` is the Markdown renderer
      (`markdown.Parse`), `None` standing for its error. */
  class Service {
    const render: string -> Option<string>
    var spaces: seq<Space>
    var nodes: seq<Node>
    var contents: seq<PageContent>

    /** A service over empty tables. */
    constructor (render: string -> Option<string>)
      ensures this.render == render && State() == Db([], [], [])
    {
      this.render := render;
      spaces, nodes, contents := [], [], [];
    }

    /** The current tables. */
    function State(): Db
      reads this
    {
      Db(spaces, nodes, contents)
    }

    /** `CreateSpace`: validates the status, then writes the space, its
        homepage node and the seeded content, and finally points the space
        at its homepage. */
    method CreateSpace(p: CreateSpaceParams) returns (r: Result<SpaceHome>)
      requires Valid(State())
      modifies this
      ensures Valid(State())
      ensures Outcome(r, State()) == CreateSpaceStep(old(State()), p)
    {
      if CheckSpaceStatus(p.status).Some? {
        return Err(SpaceStatusInvalid);
      }
      if NameOrKeyTaken(spaces, p.name, p.key) {
        return Err(Conflict);
      }
      ghost var db := State();
      var space := Space(|spaces| + 1, p.name, p.key, p.lang, p.fallbackLang, 0,
                         p.description, p.avatar, p.status, p.creatorId, false);
      spaces := spaces + [space];
      nodes := InsertRoot(nodes, space.id, 0, false);
      var page := nodes[|nodes| - 1];
      contents := contents + [PageContent(|contents| + 1, space.id, p.creatorId, page.id, space.lang, "",
                                          Published.Name(), space.name, space.name, space.description, space.description)];
      space := space.(homepageId := page.id);
      spaces := spaces[space.id - 1 := space];
      assert spaces == db.spaces + [space];
      r := Ok(SpaceHome(space, page, None));
      CreateSpaceKeepsValid(db, p);
    }

    /** `UpdateSpace`: loads the space by key, patches it and saves it. */
    method UpdateSpace(p: UpdateSpaceParams) returns (r: Result<Space>)
      requires Valid(State())
      modifies this
      ensures Valid(State())
      ensures Outcome(r, State()) == UpdateSpaceStep(old(State()), p)
    {
      UpdateSpaceKeepsValid(State(), p);
      var at := SpaceAtKey(spaces, p.key);
      if at.None? {
        return Err(NotFound);
      }
      var space := spaces[at.value];
      space := space.(name := Patch(space.name, p.name));
      space := space.(multilingual := Patch(space.multilingual, p.multilingual));
      space := space.(lang := Patch(space.lang, p.lang));
      space := space.(fallbackLang := Patch(space.fallbackLang, p.fallbackLang));
      space := space.(homepageId := Patch(space.homepageId, p.homepageId));
      space := space.(description := Patch(space.description, p.description));
      space := space.(avatar := Patch(space.avatar, p.avatar));
      if CheckSpaceStatus(p.status).None? {
        space := space.(status := p.status);
      }
      if TakenByOther(spaces, at.value, space.name, space.key) {
        return Err(Conflict);
      }
      spaces := spaces[at.value := space];
      r := Ok(space);
    }

    /** `CreatePage`: validates the status, renders the body, loads the
        space and the parent, then inserts the node and its content row. */
    method CreatePage(p: CreatePageParams) returns (r: Result<Loaded>)
      requires Valid(State())
      modifies this
      ensures Valid(State())
      ensures Outcome(r, State()) == CreatePageStep(old(State()), render, p)
    {
      var db := State();
      if CheckPageStatus(p.status).Some? {
        return Err(PageStatusInvalid);
      }
      var html := render(p.body);
      if html.None? {
        return Err(RenderFailed);
      }
      var space := SpaceById(db.spaces, p.spaceId);
      if space.None? {
        return Err(NotFound);
      }
      var parent := ParentAt(db.nodes, p.parentId);
      if parent.Some? && db.nodes[parent.value].spaceId != space.value.id {
        return Err(ScopeMismatch);
      }
      CreatePageKeepsValid(db, render, p);
      CreatePageWrites(db, render, p);
      var tree := if parent.Some? then InsertChild(db.nodes, parent.value)
                  else InsertRoot(db.nodes, space.value.id, p.parentId, true);
      var page := tree[|db.nodes|];
      var content := PageContent(|db.contents| + 1, space.value.id, p.creatorId, page.id, space.value.lang,
                                 p.version, p.status, p.title, p.shortTitle, p.body, html.value);
      if |content.shortTitle| == 0 {
        content := content.(shortTitle := content.title);
      }
      if content.lang == "" {
        content := content.(lang := space.value.lang);
      }
      nodes, contents := tree, db.contents + [content];
      r := Ok(Loaded(page, Some(content)));
    }

    /** `DescribePages`: loads the listed rows of the space as fresh pages,
        sets their space, and links them with `Build`, returning the roots.
        `pages` is the flat list `Build` was given. */
    method DescribePages(p: DescribePagesParams) returns (r: Result<seq<Page>>, ghost pages: seq<Page>)
      ensures SpaceById(spaces, p.spaceId).None? ==> r == Err(NotFound)
      ensures SpaceById(spaces, p.spaceId).Some? ==>
                var space := SpaceById(spaces, p.spaceId).value;
                var rows := ListingRows(State(), space, p);
                && r.Ok? && r.value == Roots(pages) && |pages| == |rows|
                && forall k | 0 <= k < |rows| ::
                     && fresh(pages[k]) && LoadedFrom(pages[k], rows[k], space)
                     && pages[k].children == Matching(pages, NodeMap(pages), pages[k])
      ensures r.Ok? && p.parentId.Some? && p.parentId.value != 0 ==> r.value == []
    {
      var found := SpaceById(spaces, p.spaceId);
      if found.None? {
        return Err(NotFound), [];
      }
      var space := found.value;
      var rows := ListingRows(State(), space, p);
      if p.parentId.Some? {
        ListedUnderParent(State(), space, p);
      }
      var roots;
      roots, pages := LoadTree(rows, space);
      r := Ok(roots);
    }

    /** Loads the rows as pages and links them with `Build`. When no row has
        parent id 0 there are no roots. */
    method LoadTree(rows: seq<Joined>, space: Space) returns (roots: seq<Page>, ghost pages: seq<Page>)
      ensures roots == Roots(pages) && |pages| == |rows|
      ensures forall k | 0 <= k < |rows| ::
                && fresh(pages[k]) && LoadedFrom(pages[k], rows[k], space)
                && pages[k].children == Matching(pages, NodeMap(pages), pages[k])
      ensures (forall k | 0 <= k < |rows| :: rows[k].row.parentId != 0) ==> roots == []
    {
      var list := LoadPages(rows, space);
      if forall k | 0 <= k < |rows| :: rows[k].row.parentId != 0 {
        RowsWithoutRoots(list, rows);
      }
      roots := Build(list);
      assert forall k | 0 <= k < |rows| :: LoadedFrom(list[k], rows[k], space);
      pages := list;
    }

    /** The scan of the listing: one fresh page per row, in order, after its
        load hook (which has no query here) and with its space set. */
    method LoadPages(rows: seq<Joined>, space: Space) returns (list: seq<Page>)
      ensures |list| == |rows|
      ensures forall k | 0 <= k < |rows| :: list[k].Row() == rows[k].row
      ensures forall k | 0 <= k < |rows| :: fresh(list[k]) && LoadedFrom(list[k], rows[k], space) && list[k].children == []
    {
      list := [];
      var i := 0;
      while i < |rows|
        invariant 0 <= i <= |rows| && |list| == i
        invariant forall k | 0 <= k < i :: fresh(list[k]) && LoadedFrom(list[k], rows[k], space) && list[k].children == []
      {
        var page := new Page(rows[i].row, rows[i].content, rows[i].fallback);
        page.AfterFind(None, nodes, contents);
        page.space := Some(space);
        list := list + [page];
        i := i + 1;
      }
    }

    /** `DescribePage`: runs the detail query as it is built. A failed query
        is returned as the error. A found row becomes a fresh page whose load
        hook receives the read language, with its space set. When no row
        matches, `Find` leaves the struct it allocated zero-valued and runs
        no load hook, so the zero page is returned with the space set and
        no error. */
    method DescribePage(p: DescribePageParams) returns (r: Result<Page>)
      ensures SpaceById(spaces, p.spaceId).None? ==> r == Err(NotFound)
      ensures SpaceById(spaces, p.spaceId).Some? ==>
                var space := SpaceById(spaces, p.spaceId).value;
                var d := DetailQuery(State(), space, p);
                && (d.Err? ==> r == Err(d.error))
                && (d == Ok(None) ==>
                      && r.Ok? && fresh(r.value) && r.value.Row() == ZeroNode
                      && r.value.content == None && r.value.fallbackContent == None
                      && r.value.parents == [] && r.value.space == Some(space) && r.value.children == [])
                && (d.Ok? && d.value.Some? ==>
                      && r.Ok? && fresh(r.value) && r.value.Row() == d.value.value.row
                      && r.value.content == d.value.value.content && r.value.content.Some?
                      && r.value.fallbackContent == None
                      && r.value.parents == AncestorChain(nodes, contents, d.value.value.row, PageQuery(ReadLang(p.lang, space), ""))
                      && r.value.space == Some(space) && r.value.children == [])
    {
      var found := SpaceById(spaces, p.spaceId);
      if found.None? {
        return Err(NotFound);
      }
      var space := found.value;
      var lang := ReadLang(p.lang, space);
      var d := DetailQuery(State(), space, p);
      if d.Err? {
        return Err(d.error);
      }
      if d.value.None? {
        var zero := new Page(ZeroNode, None, None);
        zero.space := Some(space);
        return Ok(zero);
      }
      var row := d.value.value;
      var page := new Page(row.row, row.content, row.fallback);
      page.AfterFind(Some(PageQuery(lang, "")), nodes, contents);
      page.space := Some(space);
      r := Ok(page);
    }

    /** `UpdatePage`: loads the page and its space, checks the status,
        selects the content row, patches it and saves it in place. */
    method UpdatePage(p: UpdatePageParams) returns (r: Result<UpdatedPage>)
      requires Valid(State())
      modifies this
      ensures Valid(State())
      ensures Outcome(r, State()) == UpdatePageStep(old(State()), render, p)
    {
      UpdatePageKeepsValid(State(), render, p);
      var node := NodeById(nodes, p.id);
      if node.None? {
        return Err(NotFound);
      }
      var space := SpaceById(spaces, node.value.spaceId);
      if p.status.None? {
        return Err(NilStatus);
      }
      if CheckPageStatus(p.status.value).Some? {
        return Err(PageStatusInvalid);
      }
      var at := FirstContent(contents, node.value.id, p.lang, p.version);
      if at.None? {
        return Err(NotFound);
      }
      var content := contents[at.value];
      content := content.(status := p.status.value);
      content := content.(title := Patch(content.title, p.title));
      content := content.(shortTitle := Patch(content.shortTitle, p.shortTitle));
      if p.body.Some? {
        var html := render(p.body.value);
        if html.None? {
          return Err(RenderFailed);
        }
        content := content.(body := p.body.value, html := html.value);
      }
      contents := contents[at.value := content];
      r := Ok(UpdatedPage(Loaded(node.value, Some(content)), space));
    }

    /** `Serach`: a query that is blank after trimming returns the given
        pagination; otherwise the total is the number of matching rows and
        the rows of the requested window, in table order, are appended to
        the items, each as its page carrying the row. */
    method Serach(p: SearchParams) returns (r: Pagination)
      requires Valid(State())
      ensures AllSpace(p.q) ==> r == p.pagination
      ensures !AllSpace(p.q) ==>
                var found := SearchMatches(contents, p.lang, TrimSpace(p.q));
                var window := Window(found, p.pagination.offset, p.pagination.limit);
                var before := p.pagination.items;
                && r.offset == p.pagination.offset && r.limit == p.pagination.limit
                && r.total == |found| == |PositionSet(contents, HitIn(p.lang, TrimSpace(p.q)))|
                && (forall c | c in window :: NodeById(nodes, c.pageId).Some?)
                && r.items == before + Hits(State(), window, p.lang)
    {
      var q := TrimSpace(p.q);
      TrimSpaceEmpty(p.q);
      if |q| == 0 {
        return p.pagination;
      }
      var db := State();
      var found := SearchMatches(contents, p.lang, q);
      var window := Window(found, p.pagination.offset, p.pagination.limit);
      WindowHasNodes(db, found, p.pagination.offset, p.pagination.limit);
      r := CollectHits(db, window, p.lang, p.pagination.(total := |found|));
    }

  }
}
