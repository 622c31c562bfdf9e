/** The notices routes: the listing with its audience, expiry and department
    rules, the single-notice view, attachment downloads, creation with its
    defaults and e-mail recipients, the in-place update of a notice document,
    and deletion.
    Line numbers in the comments below refer to backend/routes/notices.js. */
module NoticesRoute {
  import opened Wrappers
  import opened Strings
  import opened Ordering
  import opened Common
  import opened NoticeModel
  import opened Database
  import opened AttachmentEdit
  import DocumentModel
  import DocumentsRoute

  function PostedBy(n: Notice): string { n.postedBy }

  // ---------------------------------------------------------------------------------------
  // Listing

  /** The query string of the listing; an empty category is a parameter that was not given. */
  datatype NoticeQuery = NoticeQuery(category: string, page: Option<int>, limit: Option<int>)

  /** The audience clause of the query: none for admins, 'student' or 'all' for students,
      and for faculty their own notices or 'faculty' or 'all'. */
  predicate AudienceClause(n: Notice, actor: Actor)
  {
    match actor.role
    case Admin => true
    case Student => Admits(n.targetAudience, Student)
    case Faculty => n.postedBy == actor.id || Admits(n.targetAudience, Faculty)
  }

  /** The database query: active, in the requested category, not expired, and the
      audience clause. */
  predicate NoticeListedQuery(n: Notice, actor: Actor, q: NoticeQuery, now: int)
  {
    n.isActive && (q.category != "" ==> NoticeCategoryName(n.category) == q.category) &&
    NotExpired(n, now) && AudienceClause(n, actor)
  }

  /** The creator filter, applied to students and faculty with no owner exception. */
  predicate NoticeListedKept(users: seq<User>, actor: Actor, n: Notice)
  {
    actor.role == Admin || CreatorAllows(FindUser(users, n.postedBy), n.department, actor.department)
  }

  function ListQueriedBy(actor: Actor, q: NoticeQuery, now: int): Notice -> bool
  {
    n => NoticeListedQuery(n, actor, q, now)
  }

  function ListKeptBy(users: seq<User>, actor: Actor): Notice -> bool
  {
    n => NoticeListedKept(users, actor, n)
  }

  /** Every notice the actor may list, newest first. */
  function ListedNotices(notices: seq<Notice>, users: seq<User>, actor: Actor, q: NoticeQuery, now: int): seq<Notice>
  {
    Filter(SortDesc(Filter(notices, ListQueriedBy(actor, q, now)), NoticeCreated), ListKeptBy(users, actor))
  }

  datatype NoticeListing = NoticeListing(notices: seq<Notice>, count: int, total: int)

  /** `GET /api/notices`: the filtered list, then `slice((page - 1) * limit, page * limit)`. */
  function ListNotices(notices: seq<Notice>, users: seq<User>, actor: Actor, q: NoticeQuery, now: int): NoticeListing
  {
    var listed := ListedNotices(notices, users, actor, q, now);
    var page, limit := ValueOr(q.page, 1), ValueOr(q.limit, 10);
    var window := JsSlice(listed, (page - 1) * limit, page * limit);
    NoticeListing(window, |window|, |listed|)
  }

  /** A notice is listed exactly when it passes the query and the creator filter, and the
      list is newest first. */
  lemma ListedNoticesFacts(notices: seq<Notice>, users: seq<User>, actor: Actor, q: NoticeQuery, now: int)
    ensures forall n :: n in ListedNotices(notices, users, actor, q, now) <==>
      n in notices && NoticeListedQuery(n, actor, q, now) && NoticeListedKept(users, actor, n)
    ensures SortedDesc(ListedNotices(notices, users, actor, q, now), NoticeCreated)
  {
    var queried := Filter(notices, ListQueriedBy(actor, q, now));
    SortDescFacts(queried, NoticeCreated);
    var sorted := SortDesc(queried, NoticeCreated);
    forall n ensures n in sorted <==> n in queried {
      assert n in sorted <==> n in multiset(sorted);
      assert n in queried <==> n in multiset(queried);
    }
    FilterSorted(sorted, ListKeptBy(users, actor), NoticeCreated);
  }

  /** An admin lists every active, unexpired notice of the category, whatever its audience,
      department or creator. */
  lemma AdminListsAllActive(notices: seq<Notice>, users: seq<User>, actor: Actor, q: NoticeQuery, now: int, n: Notice)
    requires actor.role == Admin
    ensures n in ListedNotices(notices, users, actor, q, now) <==>
      n in notices && n.isActive && NotExpired(n, now) &&
      (q.category != "" ==> NoticeCategoryName(n.category) == q.category)
  {
    ListedNoticesFacts(notices, users, actor, q, now);
  }

  /** A student lists an active, unexpired notice addressed to students or 'all' whose
      creator exists and is an admin, or is faculty with departments that do not clash. */
  lemma StudentListing(notices: seq<Notice>, users: seq<User>, actor: Actor, q: NoticeQuery, now: int, n: Notice)
    requires actor.role == Student
    ensures n in ListedNotices(notices, users, actor, q, now) <==>
      n in notices && n.isActive && NotExpired(n, now) && Admits(n.targetAudience, Student) &&
      (q.category != "" ==> NoticeCategoryName(n.category) == q.category) &&
      CreatorAllows(FindUser(users, n.postedBy), n.department, actor.department)
  {
    ListedNoticesFacts(notices, users, actor, q, now);
  }

  /** Authorship widens only the audience clause of a faculty member's listing: their own
      notice is still dropped once it has expired or once its department and theirs
      differ. */
  lemma OwnNoticeStillFiltered(notices: seq<Notice>, users: seq<User>, actor: Actor, q: NoticeQuery, now: int, n: Notice)
    requires actor.role == Faculty && n.postedBy == actor.id
    requires FindUser(users, actor.id).Some? && FindUser(users, actor.id).value.role == Faculty
    requires !NotExpired(n, now) || (IsSet(n.department) && IsSet(actor.department) && n.department != actor.department)
    ensures n !in ListedNotices(notices, users, actor, q, now)
  {
    ListedNoticesFacts(notices, users, actor, q, now);
  }

  /** An own notice meets the audience clause whatever its audience. */
  lemma OwnNoticePassesAudience(n: Notice, actor: Actor)
    requires actor.role == Faculty && n.postedBy == actor.id
    ensures AudienceClause(n, actor)
  {
  }

  /** `total` counts the whole filtered list, `count` the page, which is the window at
      `(page - 1) * limit` and holds at most `limit` notices. */
  lemma ListNoticesPage(notices: seq<Notice>, users: seq<User>, actor: Actor, q: NoticeQuery, now: int)
    requires ValueOr(q.page, 1) >= 1 && ValueOr(q.limit, 10) >= 0
    ensures var r, listed := ListNotices(notices, users, actor, q, now), ListedNotices(notices, users, actor, q, now);
      var page, limit := ValueOr(q.page, 1), ValueOr(q.limit, 10);
      r.total == |listed| && r.count == |r.notices| <= limit &&
      r.notices == JsSlice(listed, (page - 1) * limit, page * limit)
  {
    var listed := ListedNotices(notices, users, actor, q, now);
    var page, limit := ValueOr(q.page, 1), ValueOr(q.limit, 10);
    PageWindow(listed, page, limit);
  }

  // ---------------------------------------------------------------------------------------
  // Single notice

  /** `GET /api/notices/:id`: a vanished creator breaks the ownership test (500); anyone but
      the creator, admins included, needs the audience; students and faculty who are not the
      creator also meet the department gate of faculty notices. */
  function GetNotice(notices: seq<Notice>, users: seq<User>, actor: Actor, id: string): (r: Reply<Notice>)
    ensures r.Success? <==> (Locate(notices, id, NoticeId).Success? &&
      var n := notices[Locate(notices, id, NoticeId).value];
      var creator := FindUser(users, n.postedBy);
      creator.Some? &&
      (n.postedBy == actor.id ||
       (Admits(n.targetAudience, actor.role) &&
        (actor.role == Admin || !DepartmentBlocks(creator, n.department, actor.department)))))
    ensures r.Success? ==> r.value == notices[Locate(notices, id, NoticeId).value]
    ensures r.NotFound? <==> Locate(notices, id, NoticeId).NotFound?
  {
    match Locate(notices, id, NoticeId)
    case Success(k) =>
      var n := notices[k];
      var creator := FindUser(users, n.postedBy);
      if creator.None? then ServerError
      else
        var isCreator := creator.value.id == actor.id;
        if !isCreator && !Admits(n.targetAudience, actor.role) then Forbidden
        else if !isCreator && actor.role != Admin && DepartmentBlocks(creator, n.department, actor.department) then Forbidden
        else Success(n)
    case NotFound => NotFound
    case Forbidden => Forbidden
    case BadRequest => BadRequest
    case ServerError => ServerError
  }

  /** Unlike the listing, the single view refuses an admin a notice addressed neither to
      admins nor to 'all' that someone else wrote. */
  lemma AdminMeetsAudienceOnGet(notices: seq<Notice>, users: seq<User>, actor: Actor, id: string)
    requires actor.role == Admin && Locate(notices, id, NoticeId).Success?
    requires var n := notices[Locate(notices, id, NoticeId).value];
      FindUser(users, n.postedBy).Some? && n.postedBy != actor.id && !Admits(n.targetAudience, Admin)
    ensures GetNotice(notices, users, actor, id) == Forbidden
  {
  }

  /** The single view does not look at `isActive` or the expiry date. */
  lemma GetNoticeIgnoresActiveAndExpiry(notices: seq<Notice>, users: seq<User>, actor: Actor, id: string,
                                        k: nat, active: bool, expiry: Option<int>)
    requires k < |notices|
    ensures var notices2 := notices[k := notices[k].(isActive := active, expiryDate := expiry)];
      GetNotice(notices, users, actor, id).Success? <==> GetNotice(notices2, users, actor, id).Success?
  {
    var notices2 := notices[k := notices[k].(isActive := active, expiryDate := expiry)];
    IndexOfSameIds(notices, notices2, id, NoticeId, NoticeId);
  }

  // ---------------------------------------------------------------------------------------
  // Attachment download

  /** `GET /api/notices/:noticeId/attachments/:attachmentIndex`: the notice, then the index
      read by `parseInt`, then the ownership test (500 when the creator is gone), then for
      students and faculty who are not the creator the audience and the department gate,
      then the file. */
  function AttachmentDecision(notices: seq<Notice>, users: seq<User>, files: set<string>, actor: Actor,
                              noticeId: string, indexParam: string): (r: Reply<Attachment>)
    ensures r.Success? ==> r.value.path in files
    ensures !r.BadRequest?
  {
    match Locate(notices, noticeId, NoticeId)
    case Success(k) =>
      var n := notices[k];
      var index := ParseInt(indexParam);
      if index.None? || !(0 <= index.value < |n.attachments|) then NotFound
      else
        var creator := FindUser(users, n.postedBy);
        if creator.None? then ServerError
        else if actor.role != Admin && creator.value.id != actor.id &&
                (!Admits(n.targetAudience, actor.role) || DepartmentBlocks(creator, n.department, actor.department))
        then Forbidden
        else if n.attachments[index.value].path !in files then NotFound
        else Success(n.attachments[index.value])
    case NotFound => NotFound
    case Forbidden => Forbidden
    case BadRequest => BadRequest
    case ServerError => ServerError
  }

  /** Creators and admins pass every check but the file's; anyone else passes exactly when
      addressed and not blocked by department; whoever is not refused gets the file exactly
      when it is on disk. */
  lemma AttachmentDecisionFacts(notices: seq<Notice>, users: seq<User>, files: set<string>, actor: Actor,
                                noticeId: string, i: nat)
    requires Locate(notices, noticeId, NoticeId).Success?
    requires var n := notices[Locate(notices, noticeId, NoticeId).value];
      i < |n.attachments| && FindUser(users, n.postedBy).Some?
    ensures var n := notices[Locate(notices, noticeId, NoticeId).value];
      var r := AttachmentDecision(notices, users, files, actor, noticeId, NatToString(i));
      (actor.role == Admin || n.postedBy == actor.id ==>
        (r.Success? <==> n.attachments[i].path in files)) &&
      (r.Forbidden? <==> (actor.role != Admin && n.postedBy != actor.id &&
        (!Admits(n.targetAudience, actor.role) ||
         DepartmentBlocks(FindUser(users, n.postedBy), n.department, actor.department)))) &&
      (!r.Forbidden? ==> (r.Success? <==> n.attachments[i].path in files)) &&
      (!r.Forbidden? && !r.Success? ==> r == NotFound) &&
      (r.Success? ==> r.value == n.attachments[i])
  {
    ParseIntNatToString(i);
  }

  /** The exits taken before any access check: the notice lookup's own failure, then 404 for
      an index that does not parse or names no attachment, then 500 when the poster's user
      record is gone, whatever the actor's role. */
  lemma AttachmentDecisionEarlyExits(notices: seq<Notice>, users: seq<User>, files: set<string>, actor: Actor,
                                     noticeId: string, indexParam: string)
    ensures var r := AttachmentDecision(notices, users, files, actor, noticeId, indexParam);
      (!IsObjectId(noticeId) ==> r == ServerError) &&
      (Locate(notices, noticeId, NoticeId).NotFound? ==> r == NotFound)
    ensures Locate(notices, noticeId, NoticeId).Success? ==>
      var n := notices[Locate(notices, noticeId, NoticeId).value];
      var index := ParseInt(indexParam);
      var r := AttachmentDecision(notices, users, files, actor, noticeId, indexParam);
      (index.None? || index.value < 0 || index.value >= |n.attachments| ==> r == NotFound) &&
      (index.Some? && 0 <= index.value < |n.attachments| && FindUser(users, n.postedBy).None? ==>
        r == ServerError)
  {
  }

  /** The index as the route sees it: a written-out number past the end is a 404. */
  lemma AttachmentIndexPastEnd(notices: seq<Notice>, users: seq<User>, files: set<string>, actor: Actor,
                               noticeId: string, i: nat)
    requires Locate(notices, noticeId, NoticeId).Success?
    requires i >= |notices[Locate(notices, noticeId, NoticeId).value].attachments|
    ensures AttachmentDecision(notices, users, files, actor, noticeId, NatToString(i)) == NotFound
  {
    ParseIntNatToString(i);
  }

  /** The download handler reads the store and has no `modifies` clause: serving a notice
      attachment moves no counter. */
  method DownloadAttachment(db: Store, actor: Actor, noticeId: string, indexParam: string) returns (r: Reply<Attachment>)
    ensures r == AttachmentDecision(db.notices, db.users, db.files, actor, noticeId, indexParam)
    ensures r.Success? ==> exists k, i :: (0 <= k < |db.notices| && 0 <= i < |db.notices[k].attachments| &&
      db.notices[k].attachments[i] == r.value)
  {
    r := AttachmentDecision(db.notices, db.users, db.files, actor, noticeId, indexParam);
    if r.Success? {
      var k := Locate(db.notices, noticeId, NoticeId).value;
      var i := ParseInt(indexParam).value;
      assert db.notices[k].attachments[i] == r.value;
    }
  }

  /** The two download routes for one attachment disagree for faculty: through the
      documents route a faculty member downloads an attachment of an admin's notice
      addressed only to students, and through this route is refused it. */
  lemma RoutesDisagreeForFaculty(docs: seq<DocumentModel.Document>, notices: seq<Notice>, users: seq<User>, files: set<string>,
                                 actor: Actor, k: nat, i: nat)
    requires actor.role == Faculty
    requires k < |notices| && i < |notices[k].attachments| && notices[k].attachments[i].path in files
    requires IsObjectId(notices[k].id) && forall j :: 0 <= j < k ==> notices[j].id != notices[k].id
    requires notices[k].targetAudience == [ForRole(Student)] && notices[k].postedBy != actor.id
    requires FindUser(users, notices[k].postedBy).Some? && FindUser(users, notices[k].postedBy).value.role == Admin
    ensures DocumentsRoute.DownloadDecision(docs, notices, users, files, actor,
              DocumentsRoute.SyntheticId(notices[k].id, i)) == Success(DocumentsRoute.AttachmentCounter(k, i))
    ensures AttachmentDecision(notices, users, files, actor, notices[k].id, NatToString(i)) == Forbidden
  {
    assert IndexOf(notices, notices[k].id, NoticeId) == Some(k);
    DocumentsRouteAllows(docs, notices, users, files, actor, k, i);
    NoticesRouteRefuses(notices, users, files, actor, k, i);
  }

  lemma NoticesRouteRefuses(notices: seq<Notice>, users: seq<User>, files: set<string>, actor: Actor, k: nat, i: nat)
    requires actor.role == Faculty
    requires k < |notices| && i < |notices[k].attachments| && IsObjectId(notices[k].id)
    requires IndexOf(notices, notices[k].id, NoticeId) == Some(k)
    requires notices[k].targetAudience == [ForRole(Student)] && notices[k].postedBy != actor.id
    requires FindUser(users, notices[k].postedBy).Some?
    ensures AttachmentDecision(notices, users, files, actor, notices[k].id, NatToString(i)) == Forbidden
  {
    var id := notices[k].id;
    assert !Admits(notices[k].targetAudience, actor.role);
    assert Locate(notices, id, NoticeId) == Success(k);
    AttachmentDecisionFacts(notices, users, files, actor, id, i);
  }

  lemma DocumentsRouteAllows(docs: seq<DocumentModel.Document>, notices: seq<Notice>, users: seq<User>, files: set<string>,
                             actor: Actor, k: nat, i: nat)
    requires actor.role == Faculty
    requires k < |notices| && i < |notices[k].attachments| && notices[k].attachments[i].path in files
    requires IsObjectId(notices[k].id) && IndexOf(notices, notices[k].id, NoticeId) == Some(k)
    requires FindUser(users, notices[k].postedBy).Some? && FindUser(users, notices[k].postedBy).value.role == Admin
    ensures DocumentsRoute.DownloadDecision(docs, notices, users, files, actor,
              DocumentsRoute.SyntheticId(notices[k].id, i)) == Success(DocumentsRoute.AttachmentCounter(k, i))
  {
    DocumentsRoute.ObjectIdHasNoUnderscore(notices[k].id);
    DocumentsRoute.SyntheticIdRoundTrip(notices[k].id, i);
    assert DocumentsRoute.AttachmentDownload(notices, users, files, actor, notices[k].id, Some(i)) ==
           Success(DocumentsRoute.AttachmentCounter(k, i));
  }

  // ---------------------------------------------------------------------------------------
  // Create

  /** The form fields of a create or an update; absent or empty strings are falsy, and
      `department` is `None` when the field is absent. */
  datatype NoticeBody = NoticeBody(
    title: Option<string>, content: Option<string>, category: Option<string>,
    targetAudience: Option<string>, expiryDate: Option<int>, department: Option<string>,
    removeAttachments: Option<seq<int>>)

  /** The stored form of each uploaded file, in upload order. */
  function NewAttachments(uploads: seq<UploadedFile>): (r: seq<Attachment>)
    ensures |r| == |uploads| && forall i :: 0 <= i < |uploads| ==> r[i] == NewAttachment(uploads[i])
  {
    seq(|uploads|, i requires 0 <= i < |uploads| => NewAttachment(uploads[i]))
  }

  function UploadPaths(uploads: seq<UploadedFile>): set<string>
  {
    set f | f in uploads :: f.path
  }

  /** The `forEach`/`push` that builds `attachments`. */
  method BuildAttachments(uploads: seq<UploadedFile>) returns (atts: seq<Attachment>)
    ensures atts == NewAttachments(uploads)
  {
    atts := [];
    var i := 0;
    while i < |uploads|
      invariant 0 <= i <= |uploads|
      invariant atts == NewAttachments(uploads[..i])
    {
      atts := atts + [NewAttachment(uploads[i])];
      i := i + 1;
      assert NewAttachments(uploads[..i]) == NewAttachments(uploads[..i - 1]) + [NewAttachment(uploads[i - 1])];
    }
    assert uploads[..|uploads|] == uploads;
  }

  /** Lines 416-418: an admin's supplied department, otherwise the actor's own or null. */
  function CreateDepartment(actor: Actor, department: Option<string>): (r: Dept)
    ensures actor.role == Admin && Given(department) ==> r == department
    ensures !(actor.role == Admin && Given(department)) ==> r == OrNull(actor.department)
  {
    if actor.role == Admin && Given(department) then department else OrNull(actor.department)
  }

  /** What the create handler hands to `Notice.create`. */
  function CreateFields(actor: Actor, b: NoticeBody, atts: seq<Attachment>): NoticeFields
  {
    NoticeFields(b.title, b.content, Some(OrElse(b.category, "general")), actor.id,
      Some(if Given(b.targetAudience) then Split(b.targetAudience.value, ',') else ["all"]),
      atts, b.expiryDate, CreateDepartment(actor, b.department))
  }

  /** `POST /api/notices`: students are turned away, a record the schema rejects is a
      server error. */
  function CreateOutcome(actor: Actor, b: NoticeBody, uploads: seq<UploadedFile>, id: string, now: int): Reply<Notice>
  {
    if actor.role == Student then Forbidden
    else match NewNotice(id, now, CreateFields(actor, b, NewAttachments(uploads)))
      case None => ServerError
      case Some(n) => Success(n)
  }

  /** A created notice belongs to its author, keeps the uploads in order with counters at
      0, takes category 'general' and audience ['all'] when those fields are empty, the
      comma-split audience otherwise, the trimmed title, and the department rule of lines
      416-418 passed through the `trim` setter. */
  lemma CreateDefaults(actor: Actor, b: NoticeBody, uploads: seq<UploadedFile>, id: string, now: int)
    requires CreateOutcome(actor, b, uploads, id, now).Success?
    ensures var n := CreateOutcome(actor, b, uploads, id, now).value;
      actor.role != Student && n.id == id && n.postedBy == actor.id && n.isActive &&
      b.title.Some? && n.title == Trim(b.title.value) && n.title != "" &&
      n.createdAt == now && n.updatedAt == now && n.expiryDate == b.expiryDate &&
      n.attachments == NewAttachments(uploads) &&
      (forall i :: 0 <= i < |n.attachments| ==> CountOf(n.attachments[i]) == 0) &&
      (!Given(b.category) ==> n.category == General) &&
      (!Given(b.targetAudience) ==> n.targetAudience == [ForAll]) &&
      (Given(b.targetAudience) ==> AudienceNames(n.targetAudience) == Split(b.targetAudience.value, ',')) &&
      n.department == TrimOption(CreateDepartment(actor, b.department))
  {
    var n := CreateOutcome(actor, b, uploads, id, now).value;
    if !Given(b.category) {
      assert NoticeCategoryName(n.category) == "general";
    }
    if !Given(b.targetAudience) {
      assert AudienceNames(n.targetAudience) == ["all"];
      assert AudienceName(n.targetAudience[0]) == "all";
    }
  }

  /** The e-mail query: active students, in the notice's department when it has one;
      nobody when the audience has neither 'all' nor 'student'. */
  predicate Reached(n: Notice, u: User)
  {
    u.role == Student && u.isActive && (IsSet(n.department) ==> u.department == n.department)
  }

  function ReachedBy(n: Notice): User -> bool
  {
    u => Reached(n, u)
  }

  function EmailRecipients(n: Notice, users: seq<User>): (r: seq<User>)
    ensures forall u :: u in r <==> (u in users && Admits(n.targetAudience, Student) && u.role == Student &&
      u.isActive && (IsSet(n.department) ==> u.department == n.department))
    ensures !Admits(n.targetAudience, Student) ==> r == []
  {
    if !Admits(n.targetAudience, Student) then [] else Filter(users, ReachedBy(n))
  }

  /** The create handler; the upload middleware stores the files of anyone it lets
      through, and the mail goes out only after the record exists. */
  method CreateNotice(db: Store, actor: Actor, b: NoticeBody, uploads: seq<UploadedFile>, id: string, now: int)
    returns (r: Reply<Notice>, recipients: seq<User>)
    modifies db
    ensures r == CreateOutcome(actor, b, uploads, id, now)
    ensures r.Success? ==> db.notices == old(db.notices) + [r.value] && recipients == EmailRecipients(r.value, old(db.users))
    ensures !r.Success? ==> db.notices == old(db.notices) && recipients == []
    ensures db.files == if actor.role != Student then old(db.files) + UploadPaths(uploads) else old(db.files)
    ensures db.users == old(db.users) && db.documents == old(db.documents) && db.events == old(db.events)
  {
    recipients := [];
    if actor.role == Student {
      r := Forbidden;
      return;
    }
    db.files := db.files + UploadPaths(uploads);
    var atts := BuildAttachments(uploads);
    var created := NewNotice(id, now, CreateFields(actor, b, atts));
    assert CreateOutcome(actor, b, uploads, id, now) == if created.Some? then Success(created.value) else ServerError;
    if created.None? {
      r := ServerError;
    } else {
      db.notices := db.notices + [created.value];
      recipients := EmailRecipients(created.value, db.users);
      r := Success(created.value);
    }
  }

  // ---------------------------------------------------------------------------------------
  // Update

  /** Lines 517-529 on a notice: each text field keeps its old value when the new one is
      falsy, an expiry date can be replaced but never cleared, an admin who sends a
      department sets it (empty means null), a faculty member fills an unset one with
      their own; `None` when `save()` rejects the result: a category or an audience entry
      outside the schema, or a title that is blank once trimmed. */
  function MergeNotice(n: Notice, b: NoticeBody, actor: Actor): Option<Notice>
  {
    var category := if Given(b.category) then ParseNoticeCategory(b.category.value) else Some(n.category);
    var audience := if Given(b.targetAudience) then ParseAudienceList(b.targetAudience.value) else Some(n.targetAudience);
    if category.None? || audience.None? then None
    else
      var m := Assigned(n, b, actor, category.value, audience.value);
      if NoticeHasRequired(m) then Some(m) else None
  }

  /** The assignments themselves, once the category and the audience are known; the title
      assignment runs the `trim` setter. */
  function Assigned(n: Notice, b: NoticeBody, actor: Actor, category: NoticeCategory, audience: seq<Audience>): Notice
  {
    n.(title := Trim(OrElse(b.title, n.title)), content := OrElse(b.content, n.content),
       category := category, targetAudience := audience,
       expiryDate := if b.expiryDate.Some? then b.expiryDate else n.expiryDate,
       department := AssignedDepartment(n.department, b, actor))
  }

  /** Lines 522-530: an admin may set or clear the department; a faculty edit stamps the
      editor's department on a notice that has none; otherwise it stays. Each assignment
      runs the `trim` setter. */
  function AssignedDepartment(department: Option<string>, b: NoticeBody, actor: Actor): Option<string>
  {
    if actor.role == Admin && b.department.Some? then TrimOption(OrNull(b.department))
    else if actor.role == Faculty && !IsSet(department) then TrimOption(OrNull(actor.department))
    else department
  }

  /** For a stored notice, the merge in terms of its inputs: it passes `save()` exactly when
      the given category and audience entries are in their enums and a given title is not
      blank; each given field is written (the title trimmed, the audience as split), each
      falsy one kept, and the result is again as the schema writes records. */
  lemma MergeNoticeFacts(n: Notice, b: NoticeBody, actor: Actor)
    requires NoticeSchemaValid(n)
    ensures MergeNotice(n, b, actor).Some? ==> var m := MergeNotice(n, b, actor).value;
      m.id == n.id && m.postedBy == n.postedBy && m.attachments == n.attachments &&
      m.isActive == n.isActive && m.createdAt == n.createdAt && m.updatedAt == n.updatedAt &&
      (Given(b.title) ==> m.title == Trim(b.title.value)) && (!Given(b.title) ==> m.title == n.title) &&
      (Given(b.content) ==> m.content == b.content.value) && (!Given(b.content) ==> m.content == n.content) &&
      (Given(b.category) ==> NoticeCategoryName(m.category) == b.category.value) &&
      (!Given(b.category) ==> m.category == n.category) &&
      (Given(b.targetAudience) ==> AudienceNames(m.targetAudience) == Split(b.targetAudience.value, ',')) &&
      (!Given(b.targetAudience) ==> m.targetAudience == n.targetAudience) &&
      (b.expiryDate.Some? ==> m.expiryDate == b.expiryDate) &&
      (b.expiryDate.None? ==> m.expiryDate == n.expiryDate) &&
      (actor.role == Admin && b.department.Some? ==> m.department == TrimOption(OrNull(b.department))) &&
      (actor.role == Admin && b.department.None? ==> m.department == n.department) &&
      (actor.role == Faculty && !IsSet(n.department) ==> m.department == TrimOption(OrNull(actor.department))) &&
      (actor.role == Faculty && IsSet(n.department) ==> m.department == n.department) &&
      NoticeSchemaValid(m)
  {
    var r := MergeNotice(n, b, actor);
    var category := if Given(b.category) then ParseNoticeCategory(b.category.value) else Some(n.category);
    var audience := if Given(b.targetAudience) then ParseAudienceList(b.targetAudience.value) else Some(n.targetAudience);
    if r.Some? {
      assert category.Some? && audience.Some?;
      var m := Assigned(n, b, actor, category.value, audience.value);
      assert r.value == m;
      AssignedFacts(n, b, actor, category.value, audience.value);
      if Given(b.targetAudience) {
        ParsedNames(Split(b.targetAudience.value, ','), audience.value);
      }
    }
  }

  /** For a stored notice, the update passes `save()` exactly when the given category and
      audience entries are in their enums and a given title is not blank. */
  lemma MergeNoticeAccepts(n: Notice, b: NoticeBody, actor: Actor)
    requires NoticeSchemaValid(n)
    ensures MergeNotice(n, b, actor).Some? <==>
      (Given(b.category) ==> ParseNoticeCategory(b.category.value).Some?) &&
      (Given(b.targetAudience) ==> ParseAudienceList(b.targetAudience.value).Some?) &&
      (Given(b.title) ==> Trim(b.title.value) != "")
  {
    var r := MergeNotice(n, b, actor);
    var category := if Given(b.category) then ParseNoticeCategory(b.category.value) else Some(n.category);
    var audience := if Given(b.targetAudience) then ParseAudienceList(b.targetAudience.value) else Some(n.targetAudience);
    if category.Some? && audience.Some? {
      MergeIsAssigned(n, b, actor, category.value, audience.value);
      AssignedFacts(n, b, actor, category.value, audience.value);
    } else {
      assert r.None?;
    }
  }

  /** Once the category and the audience parse, the merge is the assignments, kept when the
      required strings survive them. */
  lemma MergeIsAssigned(n: Notice, b: NoticeBody, actor: Actor, category: NoticeCategory, audience: seq<Audience>)
    requires Given(b.category) ==> ParseNoticeCategory(b.category.value) == Some(category)
    requires !Given(b.category) ==> category == n.category
    requires Given(b.targetAudience) ==> ParseAudienceList(b.targetAudience.value) == Some(audience)
    requires !Given(b.targetAudience) ==> audience == n.targetAudience
    ensures var m := Assigned(n, b, actor, category, audience);
      MergeNotice(n, b, actor) == if NoticeHasRequired(m) then Some(m) else None
  {
  }

  /** The assignments keep a stored notice trimmed, and leave its title non-empty exactly
      when a given title is not blank. */
  lemma AssignedFacts(n: Notice, b: NoticeBody, actor: Actor, category: NoticeCategory, audience: seq<Audience>)
    requires NoticeSchemaValid(n)
    ensures var m := Assigned(n, b, actor, category, audience);
      (NoticeHasRequired(m) <==> (Given(b.title) ==> Trim(b.title.value) != "")) &&
      (Given(b.title) ==> m.title == Trim(b.title.value)) && (!Given(b.title) ==> m.title == n.title) &&
      NoticeTrimmed(m)
  {
    var m := Assigned(n, b, actor, category, audience);
    if Given(b.title) {
      assert m.title == Trim(b.title.value);
      TrimIsTrimmed(b.title.value);
    } else {
      assert m.title == Trim(n.title);
      TrimmedIsFixed(n.title);
    }
    AssignedDepartmentTrimmed(n.department, b, actor);
  }

  lemma AssignedDepartmentTrimmed(department: Option<string>, b: NoticeBody, actor: Actor)
    requires IsTrimmedOption(department)
    ensures IsTrimmedOption(AssignedDepartment(department, b, actor))
  {
    TrimOptionFacts(OrNull(b.department));
    TrimOptionFacts(OrNull(actor.department));
  }

  /** The order the removal indices are processed in; nothing to do without the field. */
  function Removal(b: NoticeBody): seq<int>
  {
    if b.removeAttachments.Some? then RemovalOrder(b.removeAttachments.value) else []
  }

  /** The paths unlinked while splicing: each attachment spliced out that has a path. */
  function RemovedPaths(s: seq<Attachment>, order: seq<int>): set<string>
  {
    if order == [] then {}
    else
      var init, m := order[..|order| - 1], order[|order| - 1];
      var before := RemoveAll(s, init);
      RemovedPaths(s, init) + (if 0 <= m < |before| && before[m].path != "" then {before[m].path} else {})
  }

  /** The notice `save()` writes: removals, then the new files, then the field merge. The
      `timestamps` option refreshes `updatedAt` only when some path was modified; a splice or
      a push always changes the attachments, and assigning a path its current value modifies
      nothing. */
  function UpdatedNotice(n: Notice, b: NoticeBody, actor: Actor, uploads: seq<UploadedFile>, now: int): (r: Option<Notice>)
    ensures r.Some? ==> r.value.id == n.id && r.value.createdAt == n.createdAt
    ensures r.Some? && r.value.(updatedAt := n.updatedAt) == n ==> r.value == n
    ensures r.Some? && r.value.(updatedAt := n.updatedAt) != n ==> r.value.updatedAt == now
  {
    var atts := RemoveAll(n.attachments, Removal(b)) + NewAttachments(uploads);
    match MergeNotice(n.(attachments := atts), b, actor)
    case None => None
    case Some(m) => Some(if m == n then n else m.(updatedAt := now))
  }

  /** An update that gives no field, removes nothing, uploads nothing and leaves the
      department alone writes every path its current value: the stored notice comes back
      unchanged, `updatedAt` included. */
  lemma EmptyNoticeUpdateKeepsRecord(n: Notice, b: NoticeBody, actor: Actor, now: int)
    requires NoticeSchemaValid(n)
    requires !Given(b.title) && !Given(b.content) && !Given(b.category) && !Given(b.targetAudience)
    requires b.expiryDate.None? && b.removeAttachments.None?
    requires !(actor.role == Admin && b.department.Some?) && !(actor.role == Faculty && !IsSet(n.department))
    ensures UpdatedNotice(n, b, actor, [], now) == Some(n)
  {
    var loaded := n.(attachments := RemoveAll(n.attachments, Removal(b)) + NewAttachments([]));
    assert loaded == n;
    MergeIsAssigned(n, b, actor, n.category, n.targetAudience);
    AssignedFacts(n, b, actor, n.category, n.targetAudience);
    assert Assigned(n, b, actor, n.category, n.targetAudience) == n;
  }

  /** `PUT /api/notices/:id`. */
  function UpdateOutcome(notices: seq<Notice>, actor: Actor, id: string, b: NoticeBody,
                         uploads: seq<UploadedFile>, now: int): (r: Reply<Notice>)
    ensures actor.role == Student ==> r == Forbidden
    ensures (actor.role == Faculty && Locate(notices, id, NoticeId).Success? &&
      notices[Locate(notices, id, NoticeId).value].postedBy != actor.id) ==> r == Forbidden
    ensures r.Success? ==> EditGate(notices, actor, id, NoticeId, PostedBy).Success?
  {
    match EditGate(notices, actor, id, NoticeId, PostedBy)
    case Success(k) =>
      (match UpdatedNotice(notices[k], b, actor, uploads, now)
       case None => ServerError
       case Some(m) => Success(m))
    case NotFound => NotFound
    case Forbidden => Forbidden
    case BadRequest => BadRequest
    case ServerError => ServerError
  }

  /** The files after an update: uploads are stored once the actor passes `authorize`, and
      the removed attachments' files are unlinked before `save()` runs, so even an update
      the schema rejects has deleted them. */
  function UpdateFiles(notices: seq<Notice>, files: set<string>, actor: Actor, id: string, b: NoticeBody,
                       uploads: seq<UploadedFile>): set<string>
  {
    var stored := if actor.role != Student then files + UploadPaths(uploads) else files;
    match EditGate(notices, actor, id, NoticeId, PostedBy)
    case Success(k) => stored - RemovedPaths(notices[k].attachments, Removal(b))
    case NotFound => stored
    case Forbidden => stored
    case BadRequest => stored
    case ServerError => stored
  }

  /** With distinct removal indices the updated notice holds exactly the old attachments
      whose positions were not requested, in their old order, followed by the uploads; its
      length is the old one minus the requested positions that exist plus the uploads. */
  lemma UpdateAttachmentsDistinct(n: Notice, b: NoticeBody, actor: Actor, uploads: seq<UploadedFile>, now: int)
    requires b.removeAttachments.Some? && NoRepeats(b.removeAttachments.value)
    requires UpdatedNotice(n, b, actor, uploads, now).Some?
    ensures var m, indices := UpdatedNotice(n, b, actor, uploads, now).value, b.removeAttachments.value;
      m.attachments == Keep(n.attachments, Elems(indices)) + NewAttachments(uploads) &&
      |m.attachments| == |n.attachments| - DropCount(|n.attachments|, Elems(indices), 0) + |uploads|
  {
    RemoveDistinct(n.attachments, b.removeAttachments.value);
  }

  /** A notice with an expiry date still has one after any successful update. */
  lemma ExpiryNeverCleared(n: Notice, b: NoticeBody, actor: Actor, uploads: seq<UploadedFile>, now: int)
    requires n.expiryDate.Some? && UpdatedNotice(n, b, actor, uploads, now).Some?
    ensures UpdatedNotice(n, b, actor, uploads, now).value.expiryDate.Some?
  {
  }

  /** A notice document loaded for an update: its fields change in place before `save()`. */
  class NoticeDocument {
    var id: string
    var title: string
    var content: string
    var category: NoticeCategory
    var postedBy: string
    var targetAudience: seq<Audience>
    var attachments: seq<Attachment>
    var isActive: bool
    var expiryDate: Option<int>
    var department: Dept
    var createdAt: int
    var updatedAt: int

    function Snapshot(): Notice
      reads this
    {
      Notice(id, title, content, category, postedBy, targetAudience, attachments, isActive,
             expiryDate, department, createdAt, updatedAt)
    }

    constructor (n: Notice)
      ensures Snapshot() == n
    {
      id, title, content, category := n.id, n.title, n.content, n.category;
      postedBy, targetAudience, attachments := n.postedBy, n.targetAudience, n.attachments;
      isActive, expiryDate, department := n.isActive, n.expiryDate, n.department;
      createdAt, updatedAt := n.createdAt, n.updatedAt;
    }

    /** Lines 478-502: sort the indices descending, then splice out each one that is in
        range at that moment, collecting the path of every attachment spliced out. */
    method RemoveAttachments(indices: seq<int>) returns (removed: set<string>)
      modifies this
      ensures attachments == RemoveAll(old(attachments), RemovalOrder(indices))
      ensures removed == RemovedPaths(old(attachments), RemovalOrder(indices))
      ensures Snapshot() == old(Snapshot()).(attachments := attachments)
    {
      var order := RemovalOrder(indices);
      removed := {};
      var k := 0;
      while k < |order|
        invariant 0 <= k <= |order|
        invariant attachments == RemoveAll(old(attachments), order[..k])
        invariant removed == RemovedPaths(old(attachments), order[..k])
        invariant Snapshot() == old(Snapshot()).(attachments := attachments)
      {
        var index := order[k];
        assert order[..k + 1][..k] == order[..k];
        if 0 <= index < |attachments| {
          var a := attachments[index];
          if a.path != "" {
            removed := removed + {a.path};
          }
          attachments := attachments[..index] + attachments[index + 1..];
        }
        k := k + 1;
      }
      assert order[..|order|] == order;
    }

    /** Lines 505-515: append the uploads in order. */
    method AppendFiles(uploads: seq<UploadedFile>)
      modifies this
      ensures attachments == old(attachments) + NewAttachments(uploads)
      ensures Snapshot() == old(Snapshot()).(attachments := attachments)
    {
      var i := 0;
      while i < |uploads|
        invariant 0 <= i <= |uploads|
        invariant attachments == old(attachments) + NewAttachments(uploads[..i])
        invariant Snapshot() == old(Snapshot()).(attachments := attachments)
      {
        attachments := attachments + [NewAttachment(uploads[i])];
        i := i + 1;
        assert NewAttachments(uploads[..i]) == NewAttachments(uploads[..i - 1]) + [NewAttachment(uploads[i - 1])];
      }
      assert uploads[..|uploads|] == uploads;
    }

    /** Lines 517-529, with the schema check of `save()`: the fields change only when the
        category, the audience and the required strings pass it. */
    method AssignFields(b: NoticeBody, actor: Actor) returns (valid: bool)
      modifies this
      ensures valid == MergeNotice(old(Snapshot()), b, actor).Some?
      ensures valid ==> Snapshot() == MergeNotice(old(Snapshot()), b, actor).value
      ensures !valid ==> Snapshot() == old(Snapshot())
    {
      ghost var n := Snapshot();
      var newCategory := if Given(b.category) then ParseNoticeCategory(b.category.value) else Some(category);
      var newAudience := if Given(b.targetAudience) then ParseAudienceList(b.targetAudience.value) else Some(targetAudience);
      if newCategory.None? || newAudience.None? {
        assert MergeNotice(n, b, actor).None?;
        return false;
      }
      ghost var m := Assigned(n, b, actor, newCategory.value, newAudience.value);
      MergeIsAssigned(n, b, actor, newCategory.value, newAudience.value);
      valid := NoticeHasRequired(Assigned(Snapshot(), b, actor, newCategory.value, newAudience.value));
      if valid {
        WriteFields(b, actor, newCategory.value, newAudience.value);
        assert Snapshot() == m;
      }
    }

    /** Lines 517-529 once the category and the audience are known: each assignment in turn. */
    method WriteFields(b: NoticeBody, actor: Actor, newCategory: NoticeCategory, newAudience: seq<Audience>)
      modifies this
      ensures title == Trim(OrElse(b.title, old(title))) && content == OrElse(b.content, old(content))
      ensures category == newCategory && targetAudience == newAudience
      ensures expiryDate == if b.expiryDate.Some? then b.expiryDate else old(expiryDate)
      ensures department == AssignedDepartment(old(department), b, actor)
      ensures id == old(id) && postedBy == old(postedBy) && attachments == old(attachments)
      ensures isActive == old(isActive) && createdAt == old(createdAt) && updatedAt == old(updatedAt)
    {
      var newTitle := Trim(OrElse(b.title, title));
      var newContent := OrElse(b.content, content);
      var newExpiry := if b.expiryDate.Some? then b.expiryDate else expiryDate;
      var newDepartment := AssignedDepartment(department, b, actor);
      title, content := newTitle, newContent;
      category, targetAudience := newCategory, newAudience;
      expiryDate, department := newExpiry, newDepartment;
    }
  }

  /** Lines 475-532 on the loaded notice: splice, append, assign; `saved` is what `save()`
      writes, `None` when the schema rejects it, and `removed` the paths unlinked on the way. */
  method EditLoaded(n: Notice, b: NoticeBody, actor: Actor, uploads: seq<UploadedFile>, now: int)
    returns (saved: Option<Notice>, removed: set<string>)
    ensures saved == UpdatedNotice(n, b, actor, uploads, now)
    ensures removed == RemovedPaths(n.attachments, Removal(b))
  {
    var doc := new NoticeDocument(n);
    removed := {};
    if b.removeAttachments.Some? {
      removed := doc.RemoveAttachments(b.removeAttachments.value);
    }
    doc.AppendFiles(uploads);
    ghost var loaded := doc.Snapshot();
    assert loaded == n.(attachments := RemoveAll(n.attachments, Removal(b)) + NewAttachments(uploads));
    var valid := doc.AssignFields(b, actor);
    if !valid {
      saved := None;
      return;
    }
    if doc.Snapshot() != n {
      doc.updatedAt := now;
    }
    saved := Some(doc.Snapshot());
  }

  /** The update handler: the upload middleware stores the files, then the gate, the edit of
      the loaded notice, and `save()`. */
  method UpdateNotice(db: Store, actor: Actor, id: string, b: NoticeBody, uploads: seq<UploadedFile>, now: int)
    returns (r: Reply<Notice>)
    modifies db
    ensures r == UpdateOutcome(old(db.notices), actor, id, b, uploads, now)
    ensures r.Success? ==> (EditGate(old(db.notices), actor, id, NoticeId, PostedBy).Success? &&
      db.notices == old(db.notices)[EditGate(old(db.notices), actor, id, NoticeId, PostedBy).value := r.value])
    ensures !r.Success? ==> db.notices == old(db.notices)
    ensures db.files == UpdateFiles(old(db.notices), old(db.files), actor, id, b, uploads)
    ensures db.users == old(db.users) && db.documents == old(db.documents) && db.events == old(db.events)
  {
    if actor.role != Student {
      db.files := db.files + UploadPaths(uploads);
    }
    var gate := EditGate(db.notices, actor, id, NoticeId, PostedBy);
    if !gate.Success? {
      r := Propagate(gate);
      return;
    }
    var k := gate.value;
    var saved, removed := EditLoaded(db.notices[k], b, actor, uploads, now);
    db.files := db.files - removed;
    if saved.None? {
      r := ServerError;
      return;
    }
    db.notices := db.notices[k := saved.value];
    r := Success(saved.value);
  }

  // ---------------------------------------------------------------------------------------
  // Delete

  /** Lines 552-576: students are turned away, then the lookup, then a faculty actor needs
      to own a notice whose creator is not an admin; the ownership test dereferences the
      creator, so a vanished one is a server error for faculty. */
  function DeleteGate(notices: seq<Notice>, users: seq<User>, actor: Actor, id: string): (r: Reply<nat>)
    ensures r.Success? ==> Locate(notices, id, NoticeId) == r
    ensures actor.role == Admin ==> r == Locate(notices, id, NoticeId)
    ensures actor.role == Student ==> r == Forbidden
    ensures actor.role != Student && !Locate(notices, id, NoticeId).Success? ==> r == Locate(notices, id, NoticeId)
    ensures actor.role == Faculty && Locate(notices, id, NoticeId).Success? ==>
      var k := Locate(notices, id, NoticeId).value;
      var creator := FindUser(users, notices[k].postedBy);
      (creator.None? ==> r == ServerError) &&
      (creator.Some? && (creator.value.role == Admin || notices[k].postedBy != actor.id) ==> r == Forbidden) &&
      (creator.Some? && creator.value.role != Admin && notices[k].postedBy == actor.id ==> r == Success(k))
    ensures actor.role == Faculty && r.Success? ==>
      notices[r.value].postedBy == actor.id && FindUser(users, actor.id).Some? &&
      FindUser(users, actor.id).value.role != Admin
  {
    if actor.role == Student then Forbidden
    else match Locate(notices, id, NoticeId)
      case Success(k) =>
        if actor.role == Faculty then
          var creator := FindUser(users, notices[k].postedBy);
          if creator.None? then ServerError
          else if creator.value.role == Admin || creator.value.id != actor.id then Forbidden
          else Success(k)
        else Success(k)
      case NotFound => NotFound
      case Forbidden => Forbidden
      case BadRequest => BadRequest
      case ServerError => ServerError
  }

  /** While the creator exists and the actor's own record carries the actor's role, the
      admin-creator test adds nothing: deletion follows the same gate as update. */
  lemma DeleteGateIsEditGate(notices: seq<Notice>, users: seq<User>, actor: Actor, id: string)
    requires FindUser(users, actor.id).Some? && FindUser(users, actor.id).value.role == actor.role
    requires Locate(notices, id, NoticeId).Success? ==>
      FindUser(users, notices[Locate(notices, id, NoticeId).value].postedBy).Some?
    ensures DeleteGate(notices, users, actor, id) == EditGate(notices, actor, id, NoticeId, PostedBy)
  {
  }

  /** The delete handler: the record goes, its attachment files stay on disk. */
  method DeleteNotice(db: Store, actor: Actor, id: string) returns (r: Reply<nat>)
    modifies db
    ensures r == DeleteGate(old(db.notices), old(db.users), actor, id)
    ensures r.Success? ==> db.notices == RemoveAt(old(db.notices), r.value)
    ensures !r.Success? ==> db.notices == old(db.notices)
    ensures db.files == old(db.files)
    ensures db.users == old(db.users) && db.documents == old(db.documents) && db.events == old(db.events)
  {
    r := DeleteGate(db.notices, db.users, actor, id);
    if r.Success? {
      db.notices := RemoveAt(db.notices, r.value);
    }
  }
}
