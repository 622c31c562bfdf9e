/** The documents routes: the merged listing of visible documents and
    notice-attachment projections, the single-document view, downloads with
    their counters, and upload, update and delete.
    Line numbers in the comments below refer to backend/routes/documents.js. */
module DocumentsRoute {
  import opened Wrappers
  import opened Strings
  import opened Ordering
  import opened Common
  import opened DocumentModel
  import opened NoticeModel
  import opened Database

  /** The query string of the listing; an empty string is a parameter that was not given. */
  datatype DocQuery = DocQuery(category: string, department: string, search: string, page: Option<int>, limit: Option<int>)

  function Uploader(d: Document): string { d.uploadedBy }

  // ---------------------------------------------------------------------------------------
  // Which documents are listed

  predicate TagHit(tags: seq<string>, search: string)
  {
    exists k :: 0 <= k < |tags| && ContainsIgnoreCase(tags[k], search)
  }

  /** The `$regex` search over title, description and tags, read as a substring test. */
  predicate SearchHit(d: Document, search: string)
  {
    ContainsIgnoreCase(d.title, search) ||
    (d.description.Some? && ContainsIgnoreCase(d.description.value, search)) ||
    TagHit(d.tags, search)
  }

  /** The database query: active, readable by the actor's role, in the requested category,
      in the requested department (admins only) and matching the search. */
  predicate DocumentQueried(d: Document, actor: Actor, q: DocQuery)
  {
    d.isActive && Admits(d.accessLevel, actor.role) &&
    (q.category != "" ==> DocCategoryName(d.category) == q.category) &&
    (actor.role == Admin && q.department != "" ==> d.department == Some(q.department)) &&
    (q.search != "" ==> SearchHit(d, q.search))
  }

  /** The filter applied after `populate`: admins keep everything, others the creator gate. */
  predicate DocumentKept(users: seq<User>, actor: Actor, d: Document)
  {
    actor.role == Admin || CreatorAllows(FindUser(users, d.uploadedBy), d.department, actor.department)
  }

  function QueriedBy(actor: Actor, q: DocQuery): Document -> bool
  {
    d => DocumentQueried(d, actor, q)
  }

  function KeptBy(users: seq<User>, actor: Actor): Document -> bool
  {
    d => DocumentKept(users, actor, d)
  }

  /** The documents that pass the query and the creator filter, newest first. */
  function VisibleDocuments(docs: seq<Document>, users: seq<User>, actor: Actor, q: DocQuery): seq<Document>
  {
    Filter(SortDesc(Filter(docs, QueriedBy(actor, q)), DocCreated), KeptBy(users, actor))
  }

  /** A document is listed exactly when it passes every condition of the query and the
      creator filter, and the list is newest first. */
  lemma VisibleDocumentsFacts(docs: seq<Document>, users: seq<User>, actor: Actor, q: DocQuery)
    ensures forall d :: d in VisibleDocuments(docs, users, actor, q) <==>
      d in docs && DocumentQueried(d, actor, q) && DocumentKept(users, actor, d)
    ensures SortedDesc(VisibleDocuments(docs, users, actor, q), DocCreated)
  {
    var queried := Filter(docs, QueriedBy(actor, q));
    SortDescFacts(queried, DocCreated);
    var sorted := SortDesc(queried, DocCreated);
    forall d ensures d in sorted <==> d in queried {
      assert d in sorted <==> d in multiset(sorted);
      assert d in queried <==> d in multiset(queried);
    }
    FilterSorted(sorted, KeptBy(users, actor), DocCreated);
  }

  /** For a student or faculty actor a listed document is active, readable by the role,
      matches the search, has an existing uploader, and is admin content, or faculty
      content whose department is unset, matches, or meets an actor without one. */
  lemma ListedDocumentForNonAdmin(docs: seq<Document>, users: seq<User>, actor: Actor, q: DocQuery, d: Document)
    requires actor.role != Admin
    requires d in VisibleDocuments(docs, users, actor, q)
    ensures d.isActive && (ForRole(actor.role) in d.accessLevel || ForAll in d.accessLevel)
    ensures q.search != "" ==> SearchHit(d, q.search)
    ensures FindUser(users, d.uploadedBy).Some?
    ensures var u := FindUser(users, d.uploadedBy).value;
      u.role == Faculty ==> !IsSet(d.department) || !IsSet(actor.department) || d.department == actor.department
  {
    VisibleDocumentsFacts(docs, users, actor, q);
  }

  /** An admin is never denied a document for a department or a missing uploader. */
  lemma AdminSkipsCreatorFilter(docs: seq<Document>, users: seq<User>, actor: Actor, q: DocQuery, d: Document)
    requires actor.role == Admin
    requires d in docs && DocumentQueried(d, actor, q)
    ensures d in VisibleDocuments(docs, users, actor, q)
  {
    VisibleDocumentsFacts(docs, users, actor, q);
  }

  // ---------------------------------------------------------------------------------------
  // Notice attachments projected as documents

  /** The fixed notice-to-document category table. */
  function CategoryMap(c: NoticeCategory): DocCategory
  {
    match c
    case Academic => DocCategory.Academic
    case General => Other
    case Event => Other
    case Important => Administrative
  }

  /** The notice query: active, addressed to the actor's role or 'all' (any audience for an
      admin), with attachments, and not expired. */
  predicate NoticeQueried(n: Notice, actor: Actor, now: int)
  {
    n.isActive && (actor.role == Admin || Admits(n.targetAudience, actor.role)) &&
    |n.attachments| > 0 && NotExpired(n, now)
  }

  /** The creator filter again, with no exception for the actor's own notices. */
  predicate NoticeKept(users: seq<User>, actor: Actor, n: Notice)
  {
    actor.role == Admin || CreatorAllows(FindUser(users, n.postedBy), n.department, actor.department)
  }

  function NoticeQueriedBy(actor: Actor, now: int): Notice -> bool
  {
    n => NoticeQueried(n, actor, now)
  }

  function NoticeKeptBy(users: seq<User>, actor: Actor): Notice -> bool
  {
    n => NoticeKept(users, actor, n)
  }

  /** The notices whose attachments are projected, newest first. */
  function FeedNotices(notices: seq<Notice>, users: seq<User>, actor: Actor, now: int): seq<Notice>
  {
    Filter(SortDesc(Filter(notices, NoticeQueriedBy(actor, now)), NoticeCreated), NoticeKeptBy(users, actor))
  }

  lemma FeedNoticesFacts(notices: seq<Notice>, users: seq<User>, actor: Actor, now: int)
    ensures forall n :: n in FeedNotices(notices, users, actor, now) <==>
      n in notices && NoticeQueried(n, actor, now) && NoticeKept(users, actor, n)
  {
    var queried := Filter(notices, NoticeQueriedBy(actor, now));
    SortDescFacts(queried, NoticeCreated);
    var sorted := SortDesc(queried, NoticeCreated);
    forall n ensures n in sorted <==> n in queried {
      assert n in sorted <==> n in multiset(sorted);
      assert n in queried <==> n in multiset(queried);
    }
  }

  /** The per-attachment search (a plain substring test, not a regular expression) and the
      category filter through the category table. */
  predicate AttachmentSelected(n: Notice, a: Attachment, q: DocQuery)
  {
    (q.search != "" ==> ContainsIgnoreCase(n.title, q.search) || ContainsIgnoreCase(a.filename, q.search)) &&
    (q.category != "" ==> DocCategoryName(CategoryMap(n.category)) == q.category)
  }

  /** The id of the `i`-th attachment of a notice in the merged listing. */
  function SyntheticId(noticeId: string, i: nat): string
  {
    "notice_" + noticeId + "_" + NatToString(i)
  }

  /** A document-shaped record for a notice attachment. */
  datatype Projection = Projection(
    id: string, title: string, description: string, filename: string, originalName: string,
    path: string, mimetype: string, size: int, uploadedBy: Option<User>, category: DocCategory,
    accessLevel: seq<Audience>, department: Dept, tags: seq<string>, downloadCount: int,
    isActive: bool, isNoticeAttachment: bool, noticeId: string, attachmentIndex: nat,
    createdAt: int, updatedAt: int)

  /** The record for attachment `i`: the schema has no stored name, so `filename` falls back
      to the original name, and the count falls back to 0. */
  function Project(n: Notice, creator: Option<User>, i: nat): Projection
    requires i < |n.attachments|
  {
    var a := n.attachments[i];
    Projection(SyntheticId(n.id, i), a.filename, "Attached to notice: " + n.title, a.filename,
      a.filename, a.path, a.mimetype, a.size, creator, CategoryMap(n.category), [ForRole(Student)],
      OrNull(n.department), [NoticeCategoryName(n.category)], CountOf(a), true, true, n.id, i,
      n.createdAt, n.updatedAt)
  }

  /** The projections of the first `upto` attachments of `n`, in attachment order. */
  function NoticeProjections(n: Notice, creator: Option<User>, q: DocQuery, upto: nat): seq<Projection>
    requires upto <= |n.attachments|
  {
    if upto == 0 then []
    else
      var last := if AttachmentSelected(n, n.attachments[upto - 1], q) then [Project(n, creator, upto - 1)] else [];
      NoticeProjections(n, creator, q, upto - 1) + last
  }

  function AllProjectionsOf(n: Notice, users: seq<User>, q: DocQuery): seq<Projection>
  {
    NoticeProjections(n, FindUser(users, n.postedBy), q, |n.attachments|)
  }

  /** The projections of a sequence of notices, notice by notice. */
  function Projections(ns: seq<Notice>, users: seq<User>, q: DocQuery): seq<Projection>
  {
    if ns == [] then [] else Projections(ns[..|ns| - 1], users, q) + AllProjectionsOf(ns[|ns| - 1], users, q)
  }

  /** The nested `forEach`/`push` that builds `noticeAttachments`. */
  method ProjectAttachments(ns: seq<Notice>, users: seq<User>, q: DocQuery) returns (out: seq<Projection>)
    ensures out == Projections(ns, users, q)
  {
    out := [];
    var i := 0;
    while i < |ns|
      invariant 0 <= i <= |ns|
      invariant out == Projections(ns[..i], users, q)
    {
      var n := ns[i];
      var more := ProjectNotice(n, FindUser(users, n.postedBy), q);
      out := out + more;
      assert ns[..i + 1][..i] == ns[..i];
      assert Projections(ns[..i + 1], users, q) == Projections(ns[..i], users, q) + AllProjectionsOf(n, users, q);
      i := i + 1;
    }
    assert ns[..|ns|] == ns;
  }

  /** The inner `forEach` over one notice's attachments. */
  method ProjectNotice(n: Notice, creator: Option<User>, q: DocQuery) returns (out: seq<Projection>)
    ensures out == NoticeProjections(n, creator, q, |n.attachments|)
  {
    out := [];
    var j := 0;
    while j < |n.attachments|
      invariant 0 <= j <= |n.attachments|
      invariant out == NoticeProjections(n, creator, q, j)
    {
      if AttachmentSelected(n, n.attachments[j], q) {
        out := out + [Project(n, creator, j)];
      }
      j := j + 1;
    }
  }

  predicate IndicesIncrease(r: seq<Projection>)
  {
    forall a, b :: 0 <= a < b < |r| ==> r[a].attachmentIndex < r[b].attachmentIndex
  }

  /** Every record projected from a notice is the projection of its own index, which lies
      below the bound and whose attachment passes the search and category filters. */
  lemma {:induction false} NoticeProjectionsSound(n: Notice, creator: Option<User>, q: DocQuery, upto: nat)
    requires upto <= |n.attachments|
    ensures forall p :: p in NoticeProjections(n, creator, q, upto) ==>
      p.attachmentIndex < upto && p == Project(n, creator, p.attachmentIndex) &&
      AttachmentSelected(n, n.attachments[p.attachmentIndex], q)
  {
    if upto > 0 {
      NoticeProjectionsSound(n, creator, q, upto - 1);
      var prefix := NoticeProjections(n, creator, q, upto - 1);
      var last := Project(n, creator, upto - 1);
      assert last.attachmentIndex == upto - 1;
      forall p | p in NoticeProjections(n, creator, q, upto)
        ensures p.attachmentIndex < upto && p == Project(n, creator, p.attachmentIndex) &&
          AttachmentSelected(n, n.attachments[p.attachmentIndex], q)
      {
        if p !in prefix {
          assert AttachmentSelected(n, n.attachments[upto - 1], q) && p == last;
        }
      }
    }
  }

  /** Every attachment that passes the filters is projected. */
  lemma {:induction false} NoticeProjectionsComplete(n: Notice, creator: Option<User>, q: DocQuery, upto: nat)
    requires upto <= |n.attachments|
    ensures forall i :: 0 <= i < upto && AttachmentSelected(n, n.attachments[i], q) ==>
      Project(n, creator, i) in NoticeProjections(n, creator, q, upto)
  {
    if upto > 0 {
      NoticeProjectionsComplete(n, creator, q, upto - 1);
    }
  }

  /** The projected records follow the attachment order. */
  lemma {:induction false} NoticeProjectionsOrdered(n: Notice, creator: Option<User>, q: DocQuery, upto: nat)
    requires upto <= |n.attachments|
    ensures IndicesIncrease(NoticeProjections(n, creator, q, upto))
  {
    if upto > 0 {
      NoticeProjectionsOrdered(n, creator, q, upto - 1);
      NoticeProjectionsSound(n, creator, q, upto - 1);
      var prefix := NoticeProjections(n, creator, q, upto - 1);
      var r := NoticeProjections(n, creator, q, upto);
      if AttachmentSelected(n, n.attachments[upto - 1], q) {
        assert r == prefix + [Project(n, creator, upto - 1)];
        forall a, b | 0 <= a < b < |r| ensures r[a].attachmentIndex < r[b].attachmentIndex {
          assert r[a] == prefix[a];
          if b < |prefix| {
            assert r[b] == prefix[b];
          } else {
            assert prefix[a] in prefix;
          }
        }
      } else {
        assert r == prefix;
      }
    }
  }

  /** The projections of a list of notices are the projections of its members. */
  lemma {:induction false} ProjectionsFacts(ns: seq<Notice>, users: seq<User>, q: DocQuery)
    ensures forall p :: p in Projections(ns, users, q) ==>
      exists k :: 0 <= k < |ns| && p in AllProjectionsOf(ns[k], users, q)
    ensures forall k, p :: 0 <= k < |ns| && p in AllProjectionsOf(ns[k], users, q) ==>
      p in Projections(ns, users, q)
  {
    if ns != [] {
      var init := ns[..|ns| - 1];
      ProjectionsFacts(init, users, q);
      forall p | p in Projections(ns, users, q)
        ensures exists k :: 0 <= k < |ns| && p in AllProjectionsOf(ns[k], users, q)
      {
        if p in Projections(init, users, q) {
          var k :| 0 <= k < |init| && p in AllProjectionsOf(init[k], users, q);
          assert ns[k] == init[k];
        } else {
          assert p in AllProjectionsOf(ns[|ns| - 1], users, q);
        }
      }
      forall k, p | 0 <= k < |ns| && p in AllProjectionsOf(ns[k], users, q)
        ensures p in Projections(ns, users, q)
      {
        if k < |init| {
          assert init[k] == ns[k];
        }
      }
    }
  }

  /** Every projected record is read-only to students, marked as a projection, carries its
      notice's creation time and the attachment's count, and has the synthetic id of its own
      notice and index. */
  lemma ProjectionRecord(ns: seq<Notice>, users: seq<User>, q: DocQuery, p: Projection)
    requires p in Projections(ns, users, q)
    ensures p.accessLevel == [ForRole(Student)] && p.isNoticeAttachment && p.isActive
    ensures exists k :: (0 <= k < |ns| && p.noticeId == ns[k].id &&
      p.attachmentIndex < |ns[k].attachments| &&
      p.id == SyntheticId(ns[k].id, p.attachmentIndex) &&
      p.createdAt == ns[k].createdAt &&
      p.category == CategoryMap(ns[k].category) &&
      p.filename == ns[k].attachments[p.attachmentIndex].filename &&
      p.downloadCount == CountOf(ns[k].attachments[p.attachmentIndex]) &&
      AttachmentSelected(ns[k], ns[k].attachments[p.attachmentIndex], q))
  {
    ProjectionsFacts(ns, users, q);
    var k :| 0 <= k < |ns| && p in AllProjectionsOf(ns[k], users, q);
    NoticeProjectionsSound(ns[k], FindUser(users, ns[k].postedBy), q, |ns[k].attachments|);
  }

  // ---------------------------------------------------------------------------------------
  // The merged page

  /** One element of the listing: a stored document or a projected attachment. */
  datatype Entry = Stored(doc: Document) | Projected(projection: Projection)

  function EntryCreated(e: Entry): int
  {
    match e
    case Stored(d) => d.createdAt
    case Projected(p) => p.createdAt
  }

  function AsEntries(docs: seq<Document>): (r: seq<Entry>)
    ensures |r| == |docs| && forall i :: 0 <= i < |docs| ==> r[i] == Stored(docs[i])
  {
    seq(|docs|, i requires 0 <= i < |docs| => Stored(docs[i]))
  }

  function ProjectedEntries(ps: seq<Projection>): (r: seq<Entry>)
    ensures |r| == |ps| && forall i :: 0 <= i < |ps| ==> r[i] == Projected(ps[i])
  {
    seq(|ps|, i requires 0 <= i < |ps| => Projected(ps[i]))
  }

  /** The response body: the entries, `count` and `total`. */
  datatype Listing = Listing(documents: seq<Entry>, count: int, total: int)

  /** Lines 204-219: with projections, the page and all projections are merged, sorted newest
      first and cut to `limit`; without, the page is returned as it is. */
  function Merge(pageDocs: seq<Document>, projections: seq<Projection>, limit: int, visibleCount: int): Listing
  {
    var final := if |projections| > 0
      then JsSlice(SortDesc(AsEntries(pageDocs) + ProjectedEntries(projections), EntryCreated), 0, limit)
      else AsEntries(pageDocs);
    Listing(final, |final|, visibleCount + |projections|)
  }

  /** The page of visible documents: `slice((page - 1) * limit, page * limit)`. */
  function DocumentPage(docs: seq<Document>, users: seq<User>, actor: Actor, q: DocQuery): seq<Document>
  {
    var page, limit := ValueOr(q.page, 1), ValueOr(q.limit, 10);
    JsSlice(VisibleDocuments(docs, users, actor, q), (page - 1) * limit, page * limit)
  }

  function FeedProjections(notices: seq<Notice>, users: seq<User>, actor: Actor, q: DocQuery, now: int): seq<Projection>
  {
    Projections(FeedNotices(notices, users, actor, now), users, q)
  }

  /** What `GET /api/documents` answers. */
  function Feed(docs: seq<Document>, notices: seq<Notice>, users: seq<User>, actor: Actor, q: DocQuery, now: int): Listing
  {
    Merge(DocumentPage(docs, users, actor, q), FeedProjections(notices, users, actor, q, now),
          ValueOr(q.limit, 10), |VisibleDocuments(docs, users, actor, q)|)
  }

  /** The listing handler: the page, then the projection loop, then the merge. */
  method ListDocuments(docs: seq<Document>, notices: seq<Notice>, users: seq<User>, actor: Actor, q: DocQuery, now: int)
    returns (r: Listing)
    ensures r == Feed(docs, notices, users, actor, q, now)
  {
    var visible := VisibleDocuments(docs, users, actor, q);
    var pageDocs := DocumentPage(docs, users, actor, q);
    var projections := ProjectAttachments(FeedNotices(notices, users, actor, now), users, q);
    r := Merge(pageDocs, projections, ValueOr(q.limit, 10), |visible|);
  }

  /** `count` is the length of the answer, `total` counts every visible document and every
      projection, a non-negative limit bounds the answer, and the answer is the page of
      documents itself when nothing was projected. With projections the answer is sorted
      newest first and holds only page documents and projections. */
  lemma MergeFacts(pageDocs: seq<Document>, projections: seq<Projection>, limit: int, visibleCount: int)
    ensures var r := Merge(pageDocs, projections, limit, visibleCount);
      r.count == |r.documents| && r.total == visibleCount + |projections| &&
      (limit >= 0 ==> r.count <= limit || (|projections| == 0 && r.count == |pageDocs|)) &&
      (|projections| == 0 ==> r.documents == AsEntries(pageDocs))
    ensures var r := Merge(pageDocs, projections, limit, visibleCount);
      |projections| > 0 ==>
        SortedDesc(r.documents, EntryCreated) &&
        forall e :: e in r.documents ==>
          (e.Stored? && e.doc in pageDocs) || (e.Projected? && e.projection in projections)
  {
    if |projections| > 0 {
      MergeOrder(pageDocs, projections, limit);
    }
  }

  /** With projections the merged page is a sorted prefix of the sorted union. */
  lemma MergeOrder(pageDocs: seq<Document>, projections: seq<Projection>, limit: int)
    requires |projections| > 0
    ensures var r := JsSlice(SortDesc(AsEntries(pageDocs) + ProjectedEntries(projections), EntryCreated), 0, limit);
      SortedDesc(r, EntryCreated) &&
      forall e :: e in r ==> (e.Stored? && e.doc in pageDocs) || (e.Projected? && e.projection in projections)
  {
    var all := AsEntries(pageDocs) + ProjectedEntries(projections);
    var sorted := SortDesc(all, EntryCreated);
    SortDescSorted(all, EntryCreated);
    SortDescMultiset(all, EntryCreated);
    SliceFromStart(sorted, limit);
    var n := SliceIndex(limit, |sorted|);
    PrefixSorted(sorted, n, EntryCreated);
    forall e | e in sorted[..n]
      ensures (e.Stored? && e.doc in pageDocs) || (e.Projected? && e.projection in projections)
    {
      assert e in multiset(sorted);
      EntryOrigin(pageDocs, projections, e);
    }
  }

  lemma EntryOrigin(pageDocs: seq<Document>, projections: seq<Projection>, e: Entry)
    requires e in AsEntries(pageDocs) + ProjectedEntries(projections)
    ensures (e.Stored? && e.doc in pageDocs) || (e.Projected? && e.projection in projections)
  {
    var all := AsEntries(pageDocs) + ProjectedEntries(projections);
    var i :| 0 <= i < |all| && all[i] == e;
    if i < |pageDocs| {
      assert e == Stored(pageDocs[i]);
    } else {
      assert e == Projected(projections[i - |pageDocs|]);
    }
  }

  /** The merge of two documents created at t1 < t2 with one projection created at t3 > t2,
      on page 1 with limit 2: the projection and the t2 document, although the document page
      alone was [t2, t1]. */
  lemma MergeScenario(d1: Document, d2: Document, p: Projection)
    requires d1.createdAt < d2.createdAt < p.createdAt
    ensures Merge([d2, d1], [p], 2, 2) == Listing([Projected(p), Stored(d2)], 2, 3)
  {
    var e1, e2, ep := Stored(d1), Stored(d2), Projected(p);
    var all := AsEntries([d2, d1]) + ProjectedEntries([p]);
    assert all == [e2, e1, ep];
    assert all[..2] == [e2, e1] && [e2, e1][..1] == [e2] && [e2][..0] == [];
    assert SortDesc([e2], EntryCreated) == [e2];
    assert InsertDesc(e1, [e2], EntryCreated) == [e2, e1] by {
      assert [e2][1..] == [];
    }
    assert SortDesc([e2, e1], EntryCreated) == [e2, e1];
    assert InsertDesc(ep, [e2, e1], EntryCreated) == [ep, e2, e1];
    assert SortDesc(all, EntryCreated) == [ep, e2, e1];
    SliceFromStart([ep, e2, e1], 2);
    assert [ep, e2, e1][..2] == [ep, e2];
  }

  /** One page against the projections: when every document on it is older than every
      projection and the projections fill the limit, the answer is the first `limit`
      projections. */
  lemma {:induction false} ProjectionsFillPage(page: seq<Document>, projections: seq<Projection>, limit: int, visibleCount: int)
    requires 0 < limit <= |projections|
    requires forall i, j :: 0 <= i < |page| && 0 <= j < |projections| ==> page[i].createdAt < projections[j].createdAt
    ensures Merge(page, projections, limit, visibleCount).documents ==
            JsSlice(SortDesc(ProjectedEntries(projections), EntryCreated), 0, limit)
  {
    var pe, de := ProjectedEntries(projections), AsEntries(page);
    SortDescNewerFirst(de, pe, EntryCreated);
    SortDescFacts(pe, EntryCreated);
    var sp := SortDesc(pe, EntryCreated);
    var s := sp + SortDesc(de, EntryCreated);
    SliceFromStart(s, limit);
    SliceFromStart(sp, limit);
    assert s[..limit] == sp[..limit];
  }

  /** Projections are not paged: when they fill the limit and are all newer than every
      visible document, two different pages answer the same entries. */
  lemma ProjectionsRepeatOnEveryPage(pageA: seq<Document>, pageB: seq<Document>, projections: seq<Projection>,
                                     limit: int, visibleCount: int)
    requires 0 < limit <= |projections|
    requires forall d, p :: d in pageA + pageB && p in projections ==> d.createdAt < p.createdAt
    ensures Merge(pageA, projections, limit, visibleCount).documents ==
            Merge(pageB, projections, limit, visibleCount).documents
  {
    forall i, j | 0 <= i < |pageA| && 0 <= j < |projections|
      ensures pageA[i].createdAt < projections[j].createdAt
    {
      assert pageA[i] in pageA + pageB;
      assert projections[j] in projections;
    }
    forall i, j | 0 <= i < |pageB| && 0 <= j < |projections|
      ensures pageB[i].createdAt < projections[j].createdAt
    {
      assert pageB[i] in pageA + pageB;
      assert projections[j] in projections;
    }
    ProjectionsFillPage(pageA, projections, limit, visibleCount);
    ProjectionsFillPage(pageB, projections, limit, visibleCount);
  }

  // ---------------------------------------------------------------------------------------
  // Single document

  /** `GET /api/documents/:id`: only the access level is checked. */
  function GetDocument(docs: seq<Document>, actor: Actor, id: string): (r: Reply<Document>)
    ensures r.Success? <==> (Locate(docs, id, DocumentId).Success? &&
      Admits(docs[Locate(docs, id, DocumentId).value].accessLevel, actor.role))
    ensures r.Success? ==> r.value.id == id && r.value in docs
    ensures r.Forbidden? ==> Locate(docs, id, DocumentId).Success?
  {
    match Locate(docs, id, DocumentId)
    case Success(k) => if Admits(docs[k].accessLevel, actor.role) then Success(docs[k]) else Forbidden
    case NotFound => NotFound
    case Forbidden => Forbidden
    case BadRequest => BadRequest
    case ServerError => ServerError
  }

  /** Neither the document's department, nor its active flag, nor the actor's department
      affects the single-document view. */
  lemma GetDocumentIgnoresDepartmentAndActive(docs: seq<Document>, actor: Actor, id: string, k: nat,
                                              dept: Dept, active: bool, actorDept: Dept)
    requires k < |docs|
    ensures var docs2 := docs[k := docs[k].(department := dept, isActive := active)];
      GetDocument(docs, actor, id).Success? <==> GetDocument(docs2, actor.(department := actorDept), id).Success?
  {
    var docs2 := docs[k := docs[k].(department := dept, isActive := active)];
    IndexOfSameIds(docs, docs2, id, DocumentId, DocumentId);
  }

  // ---------------------------------------------------------------------------------------
  // Downloads

  /** How the download route reads its id parameter. */
  datatype DownloadRef = AttachmentRef(noticeId: string, index: Option<int>) | DocumentRef(id: string)

  /** Lines 266-270: a `notice_` prefix and exactly three `_`-separated parts name an
      attachment, with the index read by `parseInt`; anything else is a document id. */
  function ParseDownloadId(id: string): (r: DownloadRef)
    ensures r.DocumentRef? ==> r.id == id
    ensures r.AttachmentRef? ==> (StartsWith(id, "notice_") && |Split(id, '_')| == 3 &&
      r.noticeId == Split(id, '_')[1] && r.index == ParseInt(Split(id, '_')[2]))
    ensures r.DocumentRef? ==> !StartsWith(id, "notice_") || |Split(id, '_')| != 3
  {
    var parts := Split(id, '_');
    if StartsWith(id, "notice_") && |parts| == 3 then AttachmentRef(parts[1], ParseInt(parts[2]))
    else DocumentRef(id)
  }

  lemma NatToStringNoUnderscore(i: nat)
    ensures '_' !in NatToString(i)
  {
    var d := NatToString(i);
    assert forall k :: 0 <= k < |d| ==> d[k] != '_';
  }

  /** The id of a projection parses back to its notice and index whenever the notice id has
      no underscore. */
  lemma SyntheticIdRoundTrip(noticeId: string, i: nat)
    requires '_' !in noticeId
    ensures ParseDownloadId(SyntheticId(noticeId, i)) == AttachmentRef(noticeId, Some(i))
  {
    var digits := NatToString(i);
    var parts := ["notice", noticeId, digits];
    var id := SyntheticId(noticeId, i);
    assert Join(parts[2..], '_') == digits;
    assert Join(parts[1..], '_') == noticeId + "_" + digits;
    assert Join(parts, '_') == id;
    NatToStringNoUnderscore(i);
    assert "notice" == ['n', 'o', 't', 'i', 'c', 'e'];
    forall k | 0 <= k < |parts| ensures '_' !in parts[k] { }
    SplitJoin(parts, '_');
    assert id[..7] == "notice_";
    ParseIntNatToString(i);
  }

  lemma ObjectIdHasNoUnderscore(id: string)
    requires IsObjectId(id)
    ensures '_' !in id
  {
    forall k | 0 <= k < |id| ensures id[k] != '_' {
      assert IsHexDigit(id[k]);
    }
  }

  /** The counter a successful download increments. */
  datatype Counter = DocumentCounter(doc: nat) | AttachmentCounter(notice: nat, index: nat)

  predicate CounterIn(docs: seq<Document>, notices: seq<Notice>, c: Counter)
  {
    match c
    case DocumentCounter(k) => k < |docs|
    case AttachmentCounter(k, i) => k < |notices| && i < |notices[k].attachments|
  }

  /** Lines 291-314: students need the notice addressed to students or 'all', faculty get no
      audience check, and students and faculty meet the department gate of faculty notices. */
  predicate AttachmentDownloadDenied(n: Notice, creator: Option<User>, actor: Actor)
  {
    (actor.role == Student && !Admits(n.targetAudience, Student)) ||
    (actor.role != Admin && DepartmentBlocks(creator, n.department, actor.department))
  }

  /** Lines 355-380: the access level, then for students and faculty the department gate of
      faculty uploads. */
  predicate DocumentDownloadDenied(d: Document, creator: Option<User>, actor: Actor)
  {
    !Admits(d.accessLevel, actor.role) ||
    (actor.role != Admin && DepartmentBlocks(creator, d.department, actor.department))
  }

  /** What `GET /api/documents/:id/download` decides, before any counter moves. */
  function DownloadDecision(docs: seq<Document>, notices: seq<Notice>, users: seq<User>, files: set<string>,
                            actor: Actor, id: string): (r: Reply<Counter>)
    ensures r.Success? ==> CounterIn(docs, notices, r.value)
    ensures !r.BadRequest?
  {
    match ParseDownloadId(id)
    case AttachmentRef(noticeId, index) => AttachmentDownload(notices, users, files, actor, noticeId, index)
    case DocumentRef(docId) => DocumentDownload(docs, users, files, actor, docId)
  }

  /** Lines 272-322: the download of a notice attachment named by a synthetic id. */
  function AttachmentDownload(notices: seq<Notice>, users: seq<User>, files: set<string>, actor: Actor,
                              noticeId: string, index: Option<int>): (r: Reply<Counter>)
    ensures r.Success? ==>
      r.value.AttachmentCounter? && r.value.notice < |notices| && r.value.index < |notices[r.value.notice].attachments|
    ensures !r.BadRequest?
  {
    match Locate(notices, noticeId, NoticeId)
    case Success(k) => AttachmentOf(notices[k], k, users, files, actor, index)
    case NotFound => NotFound
    case Forbidden => Forbidden
    case BadRequest => BadRequest
    case ServerError => ServerError
  }

  /** Lines 282-322: the checks on the notice found at position `k`. */
  function AttachmentOf(n: Notice, k: nat, users: seq<User>, files: set<string>, actor: Actor,
                        index: Option<int>): (r: Reply<Counter>)
    ensures r.Success? ==> r.value.AttachmentCounter? && r.value.notice == k && r.value.index < |n.attachments|
    ensures !r.BadRequest?
  {
    if index.None? || !(0 <= index.value < |n.attachments|) then NotFound
    else if AttachmentDownloadDenied(n, FindUser(users, n.postedBy), actor) then Forbidden
    else if n.attachments[index.value].path !in files then NotFound
    else Success(AttachmentCounter(k, index.value))
  }

  /** Lines 345-388: the download of a stored document. */
  function DocumentDownload(docs: seq<Document>, users: seq<User>, files: set<string>, actor: Actor,
                            docId: string): (r: Reply<Counter>)
    ensures r.Success? ==> r.value.DocumentCounter? && r.value.doc < |docs|
    ensures !r.BadRequest?
  {
    match Locate(docs, docId, DocumentId)
    case Success(k) =>
      var d := docs[k];
      if DocumentDownloadDenied(d, FindUser(users, d.uploadedBy), actor) then Forbidden
      else if d.path !in files then NotFound
      else Success(DocumentCounter(k))
    case NotFound => NotFound
    case Forbidden => Forbidden
    case BadRequest => BadRequest
    case ServerError => ServerError
  }

  /** The outcomes of a document download: a failed lookup is passed on; a located record is
      forbidden exactly when its access level or the department gate turns the actor away;
      only then is the file checked, and a success moves the located record's counter. */
  lemma DocumentDownloadCases(docs: seq<Document>, users: seq<User>, files: set<string>, actor: Actor,
                              docId: string)
    ensures var r, l := DocumentDownload(docs, users, files, actor, docId), Locate(docs, docId, DocumentId);
      (l.NotFound? ==> r == NotFound) && (l.ServerError? ==> r == ServerError) &&
      (r.Forbidden? <==>
         l.Success? && DocumentDownloadDenied(docs[l.value], FindUser(users, docs[l.value].uploadedBy), actor)) &&
      (r.Success? <==>
         l.Success? && !DocumentDownloadDenied(docs[l.value], FindUser(users, docs[l.value].uploadedBy), actor) &&
         docs[l.value].path in files) &&
      (r.Success? ==> r.value == DocumentCounter(l.value)) &&
      (r.NotFound? <==> l.NotFound? || (l.Success? && !r.Forbidden? && docs[l.value].path !in files))
  {
  }

  /** The outcomes for the notice at position `k`: a missing or out-of-range index is not
      found, whatever the actor's rights; otherwise the audience and department gates decide
      Forbidden; only then is the file checked, and a success names attachment `index`. */
  lemma AttachmentOfCases(n: Notice, k: nat, users: seq<User>, files: set<string>, actor: Actor,
                          index: Option<int>)
    ensures var r := AttachmentOf(n, k, users, files, actor, index);
      ((index.None? || !(0 <= index.value < |n.attachments|)) ==> r == NotFound) &&
      (r.Forbidden? <==>
         index.Some? && 0 <= index.value < |n.attachments| &&
         AttachmentDownloadDenied(n, FindUser(users, n.postedBy), actor)) &&
      (r.Success? <==>
         index.Some? && 0 <= index.value < |n.attachments| &&
         !AttachmentDownloadDenied(n, FindUser(users, n.postedBy), actor) &&
         n.attachments[index.value].path in files) &&
      (r.Success? ==> r.value == AttachmentCounter(k, index.value)) &&
      (r.Success? || r.Forbidden? || r.NotFound?)
  {
  }

  /** The outcomes of an attachment download: a failed notice lookup is passed on (NotFound for
      an unknown notice), and for a located notice the checks on it decide. */
  lemma AttachmentDownloadCases(notices: seq<Notice>, users: seq<User>, files: set<string>, actor: Actor,
                                noticeId: string, index: Option<int>)
    ensures var r, l := AttachmentDownload(notices, users, files, actor, noticeId, index),
                        Locate(notices, noticeId, NoticeId);
      (l.NotFound? ==> r == NotFound) && (l.ServerError? ==> r == ServerError) &&
      (l.Success? ==> r == AttachmentOf(notices[l.value], l.value, users, files, actor, index))
  {
  }

  /** Authorization comes before the file check: whether a download is forbidden does not
      depend on which files exist. */
  lemma ForbiddenIgnoresFiles(docs: seq<Document>, notices: seq<Notice>, users: seq<User>,
                              files1: set<string>, files2: set<string>, actor: Actor, id: string)
    ensures DownloadDecision(docs, notices, users, files1, actor, id).Forbidden? <==>
            DownloadDecision(docs, notices, users, files2, actor, id).Forbidden?
  {
    match ParseDownloadId(id)
    case AttachmentRef(noticeId, index) =>
      AttachmentDownloadCases(notices, users, files1, actor, noticeId, index);
      AttachmentDownloadCases(notices, users, files2, actor, noticeId, index);
      var l := Locate(notices, noticeId, NoticeId);
      if l.Success? {
        AttachmentOfCases(notices[l.value], l.value, users, files1, actor, index);
        AttachmentOfCases(notices[l.value], l.value, users, files2, actor, index);
      }
    case DocumentRef(docId) =>
      DocumentDownloadCases(docs, users, files1, actor, docId);
      DocumentDownloadCases(docs, users, files2, actor, docId);
  }

  /** A faculty member's attachment download does not look at the notice's audience. */
  lemma FacultyAttachmentIgnoresAudience(docs: seq<Document>, notices: seq<Notice>, users: seq<User>,
                                         files: set<string>, actor: Actor, id: string, k: nat, audience: seq<Audience>)
    requires actor.role == Faculty && k < |notices|
    ensures var notices2 := notices[k := notices[k].(targetAudience := audience)];
      DownloadDecision(docs, notices, users, files, actor, id) == DownloadDecision(docs, notices2, users, files, actor, id)
  {
    match ParseDownloadId(id)
    case AttachmentRef(noticeId, index) =>
      AttachmentDownloadIgnoresAudience(notices, users, files, actor, noticeId, index, k, audience);
    case DocumentRef(_) =>
  }

  lemma AttachmentDownloadIgnoresAudience(notices: seq<Notice>, users: seq<User>, files: set<string>, actor: Actor,
                                          noticeId: string, index: Option<int>, k: nat, audience: seq<Audience>)
    requires actor.role == Faculty && k < |notices|
    ensures var notices2 := notices[k := notices[k].(targetAudience := audience)];
      AttachmentDownload(notices, users, files, actor, noticeId, index) ==
      AttachmentDownload(notices2, users, files, actor, noticeId, index)
  {
    var notices2 := notices[k := notices[k].(targetAudience := audience)];
    IndexOfSameIds(notices, notices2, noticeId, NoticeId, NoticeId);
    var l := Locate(notices, noticeId, NoticeId);
    assert l == Locate(notices2, noticeId, NoticeId);
    if l.Success? && l.value == k {
      FacultyAttachmentOfIgnoresAudience(notices[k], k, users, files, actor, index, audience);
    }
  }

  lemma FacultyAttachmentOfIgnoresAudience(n: Notice, k: nat, users: seq<User>, files: set<string>, actor: Actor,
                                           index: Option<int>, audience: seq<Audience>)
    requires actor.role == Faculty
    ensures AttachmentOf(n, k, users, files, actor, index) ==
            AttachmentOf(n.(targetAudience := audience), k, users, files, actor, index)
  {
  }

  /** The id of a projected attachment leads the download back to that attachment: while the
      notice is unchanged the answer is never a server error or a lookup failure, and when it
      succeeds it moves that attachment's counter. */
  lemma ProjectionDownloadsItsAttachment(docs: seq<Document>, notices: seq<Notice>, users: seq<User>,
                                         files: set<string>, actor: Actor, k: nat, i: nat)
    requires k < |notices| && i < |notices[k].attachments|
    requires IsObjectId(notices[k].id)
    requires forall j :: 0 <= j < k ==> notices[j].id != notices[k].id
    ensures var r := DownloadDecision(docs, notices, users, files, actor, SyntheticId(notices[k].id, i));
      (r.Success? || r.Forbidden? || r.NotFound?) &&
      (r.Success? ==> r.value == AttachmentCounter(k, i)) &&
      (r.NotFound? ==> notices[k].attachments[i].path !in files)
  {
    var id := notices[k].id;
    ObjectIdHasNoUnderscore(id);
    SyntheticIdRoundTrip(id, i);
    assert IndexOf(notices, id, NoticeId) == Some(k);
    assert AttachmentDownload(notices, users, files, actor, id, Some(i)) ==
           AttachmentOf(notices[k], k, users, files, actor, Some(i));
    AttachmentOfCases(notices[k], k, users, files, actor, Some(i));
  }

  /** A `notice_` id that does not split into three parts ends in the document lookup,
      whose ObjectId cast fails. */
  lemma MalformedSyntheticIdIsServerError(docs: seq<Document>, notices: seq<Notice>, users: seq<User>,
                                          files: set<string>, actor: Actor, id: string)
    requires StartsWith(id, "notice_") && |Split(id, '_')| != 3
    ensures DownloadDecision(docs, notices, users, files, actor, id) == ServerError
  {
    assert id[1] == "notice_"[1];
    assert !IsHexDigit(id[1]);
  }

  /** A doc's counter after a download: one more, and `updatedAt` refreshed by `save()`. */
  function BumpDocument(docs: seq<Document>, k: nat, now: int): (r: seq<Document>)
    requires k < |docs|
  {
    docs[k := docs[k].(downloadCount := docs[k].downloadCount + 1, updatedAt := now)]
  }

  /** An attachment's counter after a download, a missing count first taken as 0. */
  function BumpAttachment(notices: seq<Notice>, k: nat, i: nat, now: int): (r: seq<Notice>)
    requires k < |notices| && i < |notices[k].attachments|
  {
    var n := notices[k];
    var a := n.attachments[i];
    notices[k := n.(attachments := n.attachments[i := a.(downloadCount := Some(CountOf(a) + 1))], updatedAt := now)]
  }

  function DocumentDownloads(docs: seq<Document>): int
  {
    if docs == [] then 0 else DocumentDownloads(docs[..|docs| - 1]) + docs[|docs| - 1].downloadCount
  }

  function AttachmentCounts(atts: seq<Attachment>): int
  {
    if atts == [] then 0 else AttachmentCounts(atts[..|atts| - 1]) + CountOf(atts[|atts| - 1])
  }

  function AttachmentDownloads(notices: seq<Notice>): int
  {
    if notices == [] then 0 else AttachmentDownloads(notices[..|notices| - 1]) + AttachmentCounts(notices[|notices| - 1].attachments)
  }

  lemma {:induction false} DocumentDownloadsUpdate(docs: seq<Document>, k: nat, d: Document)
    requires k < |docs|
    ensures DocumentDownloads(docs[k := d]) == DocumentDownloads(docs) - docs[k].downloadCount + d.downloadCount
  {
    var docs2 := docs[k := d];
    if k < |docs| - 1 {
      assert docs2[..|docs2| - 1] == docs[..|docs| - 1][k := d];
      DocumentDownloadsUpdate(docs[..|docs| - 1], k, d);
    } else {
      assert docs2[..|docs2| - 1] == docs[..|docs| - 1];
    }
  }

  lemma {:induction false} AttachmentCountsUpdate(atts: seq<Attachment>, i: nat, a: Attachment)
    requires i < |atts|
    ensures AttachmentCounts(atts[i := a]) == AttachmentCounts(atts) - CountOf(atts[i]) + CountOf(a)
  {
    var atts2 := atts[i := a];
    if i < |atts| - 1 {
      assert atts2[..|atts2| - 1] == atts[..|atts| - 1][i := a];
      AttachmentCountsUpdate(atts[..|atts| - 1], i, a);
    } else {
      assert atts2[..|atts2| - 1] == atts[..|atts| - 1];
    }
  }

  lemma {:induction false} AttachmentDownloadsUpdate(notices: seq<Notice>, k: nat, n: Notice)
    requires k < |notices|
    ensures AttachmentDownloads(notices[k := n]) ==
      AttachmentDownloads(notices) - AttachmentCounts(notices[k].attachments) + AttachmentCounts(n.attachments)
  {
    var notices2 := notices[k := n];
    if k < |notices| - 1 {
      assert notices2[..|notices2| - 1] == notices[..|notices| - 1][k := n];
      AttachmentDownloadsUpdate(notices[..|notices| - 1], k, n);
    } else {
      assert notices2[..|notices2| - 1] == notices[..|notices| - 1];
    }
  }

  /** A document download adds exactly one to the sum of document counters and changes no
      other document. */
  lemma BumpDocumentAddsOne(docs: seq<Document>, k: nat, now: int)
    requires k < |docs|
    ensures DocumentDownloads(BumpDocument(docs, k, now)) == DocumentDownloads(docs) + 1
    ensures forall j :: 0 <= j < |docs| && j != k ==> BumpDocument(docs, k, now)[j] == docs[j]
  {
    DocumentDownloadsUpdate(docs, k, BumpDocument(docs, k, now)[k]);
  }

  /** An attachment download adds exactly one to the sum of attachment counters (a missing
      count counted as 0) and changes no other attachment or notice. */
  lemma BumpAttachmentAddsOne(notices: seq<Notice>, k: nat, i: nat, now: int)
    requires k < |notices| && i < |notices[k].attachments|
    ensures AttachmentDownloads(BumpAttachment(notices, k, i, now)) == AttachmentDownloads(notices) + 1
    ensures forall j :: 0 <= j < |notices| && j != k ==> BumpAttachment(notices, k, i, now)[j] == notices[j]
    ensures var atts, atts2 := notices[k].attachments, BumpAttachment(notices, k, i, now)[k].attachments;
      |atts2| == |atts| && forall j :: 0 <= j < |atts| && j != i ==> atts2[j] == atts[j]
  {
    var n := notices[k];
    var a := n.attachments[i];
    var atts2 := n.attachments[i := a.(downloadCount := Some(CountOf(a) + 1))];
    AttachmentCountsUpdate(n.attachments, i, atts2[i]);
    AttachmentDownloadsUpdate(notices, k, BumpAttachment(notices, k, i, now)[k]);
  }

  /** The download handler: decide, then move the one counter the decision names. */
  method Download(db: Store, actor: Actor, id: string, now: int) returns (r: Reply<Counter>)
    modifies db
    ensures r == DownloadDecision(old(db.documents), old(db.notices), old(db.users), old(db.files), actor, id)
    ensures r.Success? && r.value.DocumentCounter? ==>
      db.documents == BumpDocument(old(db.documents), r.value.doc, now) && db.notices == old(db.notices)
    ensures r.Success? && r.value.AttachmentCounter? ==>
      db.notices == BumpAttachment(old(db.notices), r.value.notice, r.value.index, now) && db.documents == old(db.documents)
    ensures !r.Success? ==> db.documents == old(db.documents) && db.notices == old(db.notices)
    ensures db.users == old(db.users) && db.events == old(db.events) && db.files == old(db.files)
  {
    r := DownloadDecision(db.documents, db.notices, db.users, db.files, actor, id);
    if r.Success? {
      match r.value
      case DocumentCounter(k) =>
        db.documents := BumpDocument(db.documents, k, now);
      case AttachmentCounter(k, i) =>
        db.notices := BumpAttachment(db.notices, k, i, now);
    }
  }

  // ---------------------------------------------------------------------------------------
  // Upload, update, delete

  /** The form fields of an upload or an update, as strings; absent or empty is falsy. */
  datatype DocumentBody = DocumentBody(
    title: Option<string>, description: Option<string>, category: Option<string>,
    accessLevel: Option<string>, department: Dept, tags: Option<string>)

  /** Lines 422-435: what the upload hands to `Document.create`. */
  function UploadFields(actor: Actor, f: UploadedFile, b: DocumentBody): DocumentFields
  {
    DocumentFields(b.title, b.description, f.filename, f.originalname, f.path, f.mimetype, f.size, actor.id,
      Some(OrElse(b.category, "other")),
      Some(if Given(b.accessLevel) then Split(b.accessLevel.value, ',') else ["student"]),
      b.department,
      if Given(b.tags) then Split(b.tags.value, ',') else [])
  }

  /** `POST /api/documents`: students are turned away, a request without a file is a bad
      request, and a record the schema rejects is a server error. */
  function UploadOutcome(actor: Actor, file: Option<UploadedFile>, b: DocumentBody, id: string, now: int): Reply<Document>
  {
    if actor.role == Student then Forbidden
    else if file.None? then BadRequest
    else match NewDocument(id, now, UploadFields(actor, file.value, b))
      case None => ServerError
      case Some(d) => Success(d)
  }

  /** An uploaded record belongs to the uploader, starts with no downloads, is active, and
      takes category 'other', access ['student'] and no tags when those fields are empty. */
  lemma UploadDefaults(actor: Actor, file: Option<UploadedFile>, b: DocumentBody, id: string, now: int)
    requires UploadOutcome(actor, file, b, id, now).Success?
    ensures var d := UploadOutcome(actor, file, b, id, now).value;
      actor.role != Student && file.Some? &&
      d.id == id && d.uploadedBy == actor.id && d.downloadCount == 0 && d.isActive &&
      d.createdAt == now && d.path == file.value.path && d.originalName == file.value.originalname &&
      (!Given(b.category) ==> d.category == Other) &&
      (!Given(b.accessLevel) ==> d.accessLevel == [ForRole(Student)]) &&
      (!Given(b.tags) ==> d.tags == []) &&
      SchemaValid(d)
  {
    var fields := UploadFields(actor, file.value, b);
    var d := NewDocument(id, now, fields).value;
    assert UploadOutcome(actor, file, b, id, now) == Success(d);
    NewDocumentFacts(id, now, fields);
    if !Given(b.category) {
      assert DocCategoryName(d.category) == "other";
    }
    if !Given(b.accessLevel) {
      assert |d.accessLevel| == 1 && ParseAccessEntry("student") == Some(d.accessLevel[0]);
    }
  }

  /** The enum of `accessLevel` has no 'all': an upload that asks for it fails. */
  lemma UploadRejectsAll(actor: Actor, f: UploadedFile, b: DocumentBody, id: string, now: int)
    requires actor.role != Student
    requires Given(b.accessLevel) && "all" in Split(b.accessLevel.value, ',')
    ensures UploadOutcome(actor, Some(f), b, id, now) == ServerError
  {
    var parts := Split(b.accessLevel.value, ',');
    var k :| 0 <= k < |parts| && parts[k] == "all";
    assert ParseAccessEntry(parts[k]).None?;
  }

  /** The `trim` setter runs before the `required` check: a title of spaces is rejected like
      a missing one, and the department is stored without its surrounding spaces. */
  lemma UploadTrims(actor: Actor, f: UploadedFile, b: DocumentBody, id: string, now: int)
    requires actor.role != Student
    ensures (b.title.None? || Trim(b.title.value) == "") ==> UploadOutcome(actor, Some(f), b, id, now) == ServerError
    ensures UploadOutcome(actor, Some(f), b, id, now).Success? ==>
      UploadOutcome(actor, Some(f), b, id, now).value.title == Trim(b.title.value) &&
      UploadOutcome(actor, Some(f), b, id, now).value.department == TrimOption(b.department)
  {
    var fields := UploadFields(actor, f, b);
    if DocumentFieldsValid(fields) {
      NewDocumentFacts(id, now, fields);
    }
  }

  /** The upload handler; the middleware has already written the file when the actor may
      upload, so the path stays on disk even when the record is rejected. */
  method Upload(db: Store, actor: Actor, file: Option<UploadedFile>, b: DocumentBody, id: string, now: int)
    returns (r: Reply<Document>)
    modifies db
    ensures r == UploadOutcome(actor, file, b, id, now)
    ensures r.Success? ==> db.documents == old(db.documents) + [r.value]
    ensures !r.Success? ==> db.documents == old(db.documents)
    ensures db.files == if actor.role != Student && file.Some? then old(db.files) + {file.value.path} else old(db.files)
    ensures db.users == old(db.users) && db.notices == old(db.notices) && db.events == old(db.events)
  {
    r := UploadOutcome(actor, file, b, id, now);
    if actor.role != Student && file.Some? {
      db.files := db.files + {file.value.path};
    }
    if r.Success? {
      db.documents := db.documents + [r.value];
    }
  }

  /** Lines 475-482: every field keeps its old value when the new one is falsy; each
      assignment runs the `trim` setter of its path, and `save()` validates the whole record:
      the required strings, the category enum and the access-level enum. `None` is the
      ValidationError. The `timestamps` option refreshes `updatedAt` only when some path was
      modified, and assigning a path its current value modifies nothing. */
  function MergeDocument(d: Document, b: DocumentBody, now: int): (r: Option<Document>)
  {
    var category := if Given(b.category) then ParseDocCategory(b.category.value) else Some(d.category);
    var access := if Given(b.accessLevel) then ParseEach(Split(b.accessLevel.value, ','), ParseAccessEntry)
                  else Some(d.accessLevel);
    if category.None? || access.None? then None
    else
      var m := AssignedDocument(d, b, category.value, access.value);
      if !HasRequired(m) then None
      else if m == d then Some(d)
      else Some(m.(updatedAt := now))
  }

  /** For a stored record, the update passes `save()` exactly when the given category and
      access entries are in their enums and a given title is not blank. */
  lemma MergeDocumentAccepts(d: Document, b: DocumentBody, now: int)
    requires SchemaValid(d)
    ensures MergeDocument(d, b, now).Some? <==>
      (Given(b.category) ==> ParseDocCategory(b.category.value).Some?) &&
      (Given(b.accessLevel) ==> ParseEach(Split(b.accessLevel.value, ','), ParseAccessEntry).Some?) &&
      (Given(b.title) ==> Trim(b.title.value) != "")
  {
    var category := if Given(b.category) then ParseDocCategory(b.category.value) else Some(d.category);
    var access := if Given(b.accessLevel) then ParseEach(Split(b.accessLevel.value, ','), ParseAccessEntry)
                  else Some(d.accessLevel);
    if category.Some? && access.Some? {
      AssignedDocumentFacts(d, b, category.value, access.value);
    }
  }

  /** A merged record takes each given field (trimmed where the schema trims), keeps each
      empty one, never changes the file, the owner or the counter, and is again as the schema
      writes records. */
  lemma MergeDocumentFacts(d: Document, b: DocumentBody, now: int)
    requires SchemaValid(d)
    ensures MergeDocument(d, b, now).Some? ==> var m := MergeDocument(d, b, now).value;
      m.id == d.id && m.uploadedBy == d.uploadedBy && m.path == d.path && m.filename == d.filename &&
      m.originalName == d.originalName && m.mimetype == d.mimetype && m.size == d.size &&
      m.downloadCount == d.downloadCount && m.isActive == d.isActive && m.createdAt == d.createdAt &&
      (m.(updatedAt := d.updatedAt) == d ==> m == d) &&
      (m.(updatedAt := d.updatedAt) != d ==> m.updatedAt == now) &&
      (Given(b.title) ==> m.title == Trim(b.title.value)) && (!Given(b.title) ==> m.title == d.title) &&
      (Given(b.description) ==> m.description == Some(Trim(b.description.value))) &&
      (!Given(b.description) ==> m.description == d.description) &&
      (Given(b.category) ==> DocCategoryName(m.category) == b.category.value) &&
      (!Given(b.category) ==> m.category == d.category) &&
      (Given(b.accessLevel) ==> var parts := Split(b.accessLevel.value, ',');
         |m.accessLevel| == |parts| &&
         forall k :: 0 <= k < |parts| ==> ParseAccessEntry(parts[k]) == Some(m.accessLevel[k])) &&
      (!Given(b.accessLevel) ==> m.accessLevel == d.accessLevel) &&
      (Given(b.department) ==> m.department == Some(Trim(b.department.value))) &&
      (!Given(b.department) ==> m.department == d.department) &&
      (Given(b.tags) ==> m.tags == Split(b.tags.value, ',')) &&
      (!Given(b.tags) ==> m.tags == d.tags) &&
      SchemaValid(m)
  {
    var r := MergeDocument(d, b, now);
    var category := if Given(b.category) then ParseDocCategory(b.category.value) else Some(d.category);
    var access := if Given(b.accessLevel) then ParseEach(Split(b.accessLevel.value, ','), ParseAccessEntry)
                  else Some(d.accessLevel);
    if r.Some? {
      assert category.Some? && access.Some?;
      var m := AssignedDocument(d, b, category.value, access.value);
      assert r.value == if m == d then d else m.(updatedAt := now);
      AssignedDocumentFacts(d, b, category.value, access.value);
    }
  }

  /** An update whose body gives no field writes every path its current value: the stored
      record comes back unchanged, `updatedAt` included. */
  lemma EmptyDocumentUpdateKeepsRecord(d: Document, b: DocumentBody, now: int)
    requires SchemaValid(d)
    requires !Given(b.title) && !Given(b.description) && !Given(b.category)
    requires !Given(b.accessLevel) && !Given(b.department) && !Given(b.tags)
    ensures MergeDocument(d, b, now) == Some(d)
  {
    var m := AssignedDocument(d, b, d.category, d.accessLevel);
    AssignedDocumentFacts(d, b, d.category, d.accessLevel);
    assert m == d;
  }

  /** The record after the assignments of lines 475-480, before `save()` validates it. */
  function AssignedDocument(d: Document, b: DocumentBody, category: DocCategory, access: seq<Audience>): Document
  {
    d.(title := Trim(OrElse(b.title, d.title)),
       description := TrimOption(if Given(b.description) then b.description else d.description),
       category := category,
       accessLevel := access,
       department := TrimOption(if Given(b.department) then b.department else d.department),
       tags := if Given(b.tags) then Split(b.tags.value, ',') else d.tags)
  }

  lemma AssignedDocumentFacts(d: Document, b: DocumentBody, category: DocCategory, access: seq<Audience>)
    requires SchemaValid(d)
    requires Given(b.accessLevel) ==> ParseEach(Split(b.accessLevel.value, ','), ParseAccessEntry) == Some(access)
    requires !Given(b.accessLevel) ==> access == d.accessLevel
    ensures var m := AssignedDocument(d, b, category, access);
      (HasRequired(m) <==> (Given(b.title) ==> Trim(b.title.value) != "")) &&
      m.id == d.id && m.uploadedBy == d.uploadedBy && m.path == d.path && m.filename == d.filename &&
      m.originalName == d.originalName && m.mimetype == d.mimetype && m.size == d.size &&
      m.downloadCount == d.downloadCount && m.isActive == d.isActive && m.createdAt == d.createdAt &&
      m.updatedAt == d.updatedAt && m.category == category && m.accessLevel == access &&
      (Given(b.title) ==> m.title == Trim(b.title.value)) && (!Given(b.title) ==> m.title == d.title) &&
      (Given(b.description) ==> m.description == Some(Trim(b.description.value))) &&
      (!Given(b.description) ==> m.description == d.description) &&
      (Given(b.department) ==> m.department == Some(Trim(b.department.value))) &&
      (!Given(b.department) ==> m.department == d.department) &&
      (Given(b.tags) ==> m.tags == Split(b.tags.value, ',')) &&
      (!Given(b.tags) ==> m.tags == d.tags) &&
      TrimmedFields(m)
  {
    if Given(b.accessLevel) {
      forall k | 0 <= k < |access| ensures access[k] != ForAll {
        assert ParseAccessEntry(Split(b.accessLevel.value, ',')[k]) == Some(access[k]);
      }
    }
    var m := AssignedDocument(d, b, category, access);
    if Given(b.title) {
      TrimIsTrimmed(b.title.value);
    } else {
      TrimmedIsFixed(d.title);
      assert m.title == d.title;
    }
    if Given(b.description) {
      TrimOptionFacts(b.description);
    } else {
      TrimOptionFacts(d.description);
    }
    if Given(b.department) {
      TrimOptionFacts(b.department);
    } else {
      TrimOptionFacts(d.department);
    }
  }

  /** `PUT /api/documents/:id`. */
  function UpdateOutcome(docs: seq<Document>, actor: Actor, id: string, b: DocumentBody, now: int): Reply<Document>
  {
    match EditGate(docs, actor, id, DocumentId, Uploader)
    case Success(k) =>
      (match MergeDocument(docs[k], b, now)
       case None => ServerError
       case Some(m) => Success(m))
    case NotFound => NotFound
    case Forbidden => Forbidden
    case BadRequest => BadRequest
    case ServerError => ServerError
  }

  method UpdateDocument(db: Store, actor: Actor, id: string, b: DocumentBody, now: int) returns (r: Reply<Document>)
    modifies db
    ensures r == UpdateOutcome(old(db.documents), actor, id, b, now)
    ensures r.Success? ==> (EditGate(old(db.documents), actor, id, DocumentId, Uploader).Success? &&
      db.documents == old(db.documents)[EditGate(old(db.documents), actor, id, DocumentId, Uploader).value := r.value])
    ensures !r.Success? ==> db.documents == old(db.documents)
    ensures db.users == old(db.users) && db.notices == old(db.notices) && db.events == old(db.events) && db.files == old(db.files)
  {
    r := UpdateOutcome(db.documents, actor, id, b, now);
    if r.Success? {
      var k := EditGate(db.documents, actor, id, DocumentId, Uploader).value;
      db.documents := db.documents[k := r.value];
    }
  }

  /** `DELETE /api/documents/:id`: the record goes, and its file with it. */
  method DeleteDocument(db: Store, actor: Actor, id: string) returns (r: Reply<nat>)
    modifies db
    ensures r == EditGate(old(db.documents), actor, id, DocumentId, Uploader)
    ensures r.Success? ==> (db.documents == RemoveAt(old(db.documents), r.value) &&
      db.files == old(db.files) - {old(db.documents)[r.value].path})
    ensures !r.Success? ==> db.documents == old(db.documents) && db.files == old(db.files)
    ensures db.users == old(db.users) && db.notices == old(db.notices) && db.events == old(db.events)
  {
    r := EditGate(db.documents, actor, id, DocumentId, Uploader);
    if r.Success? {
      db.files := db.files - {db.documents[r.value].path};
      db.documents := RemoveAt(db.documents, r.value);
    }
  }
}
