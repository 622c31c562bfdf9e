/** The Notice schema: its fields, the category and audience enums, the
    ordered attachment sub-records and the defaults Mongoose fills in. The
    attachment sub-schema has no `storedFilename`, so under strict mode that
    value is dropped when a notice is written. */
module NoticeModel {
  import opened Wrappers
  import opened Strings
  import opened Common

  datatype NoticeCategory = General | Academic | Event | Important

  function NoticeCategoryName(c: NoticeCategory): string
  {
    match c
    case General => "general"
    case Academic => "academic"
    case Event => "event"
    case Important => "important"
  }

  /** The category enum check. */
  function ParseNoticeCategory(s: string): (r: Option<NoticeCategory>)
    ensures r.Some? ==> NoticeCategoryName(r.value) == s
  {
    if s == "general" then Some(General)
    else if s == "academic" then Some(Academic)
    else if s == "event" then Some(Event)
    else if s == "important" then Some(Important)
    else None
  }

  lemma ParseNoticeCategoryName(c: NoticeCategory)
    ensures ParseNoticeCategory(NoticeCategoryName(c)) == Some(c)
  {
  }

  /** One attachment; `downloadCount` is absent on records written before the field existed. */
  datatype Attachment = Attachment(filename: string, path: string, mimetype: string, size: int, downloadCount: Option<int>)

  datatype Notice = Notice(
    id: string, title: string, content: string, category: NoticeCategory, postedBy: string,
    targetAudience: seq<Audience>, attachments: seq<Attachment>, isActive: bool,
    expiryDate: Option<int>, department: Dept, createdAt: int, updatedAt: int)

  /** The sort key of `sort({ createdAt: -1 })`. */
  function NoticeCreated(n: Notice): int { n.createdAt }

  /** An uploaded file as it is stored in `attachments`: the original name becomes `filename`,
      the multer-generated name finds no field to live in, and the counter starts at 0. */
  function NewAttachment(f: UploadedFile): (a: Attachment)
    ensures a.filename == f.originalname && a.path == f.path && a.mimetype == f.mimetype && a.size == f.size
    ensures a.downloadCount == Some(0)
  {
    Attachment(f.originalname, f.path, f.mimetype, f.size, Some(0))
  }

  /** `attachment.downloadCount || 0`. */
  function CountOf(a: Attachment): int
  {
    if a.downloadCount.Some? then a.downloadCount.value else 0
  }

  /** The expiry filter: no expiry date, or one not before `now`. */
  predicate NotExpired(n: Notice, now: int)
  {
    n.expiryDate.None? || n.expiryDate.value >= now
  }

  /** The values handed to `Notice.create`: absent ones take the schema default. */
  datatype NoticeFields = NoticeFields(
    title: Option<string>, content: Option<string>, category: Option<string>, postedBy: string,
    targetAudience: Option<seq<string>>, attachments: seq<Attachment>, expiryDate: Option<int>,
    department: Dept)

  /** What the schema accepts: a title that is not blank once the `trim` setter has run, a
      non-empty content, enum values for category and every audience entry. */
  predicate NoticeFieldsValid(f: NoticeFields)
  {
    f.title.Some? && Trim(f.title.value) != "" && Given(f.content) &&
    (f.category.Some? ==> ParseNoticeCategory(f.category.value).Some?) &&
    (f.targetAudience.Some? ==> ParseEach(f.targetAudience.value, ParseAudience).Some?)
  }

  /** `Notice.create`: the `trim` setters on title and department, schema defaults (category
      'general', targetAudience ['all'], isActive true, both timestamps `now`), then
      validation; `None` is a ValidationError. */
  function NewNotice(id: string, now: int, f: NoticeFields): (r: Option<Notice>)
    ensures r.Some? <==> NoticeFieldsValid(f)
    ensures r.Some? ==> var n := r.value;
      n.id == id && n.title == Trim(f.title.value) && n.content == f.content.value &&
      n.postedBy == f.postedBy && n.attachments == f.attachments && n.isActive &&
      n.expiryDate == f.expiryDate && n.department == TrimOption(f.department) &&
      n.createdAt == now && n.updatedAt == now &&
      (f.category.None? ==> n.category == General) &&
      (f.category.Some? ==> NoticeCategoryName(n.category) == f.category.value) &&
      (f.targetAudience.None? ==> n.targetAudience == [ForAll]) &&
      (f.targetAudience.Some? ==> AudienceNames(n.targetAudience) == f.targetAudience.value)
    ensures r.Some? ==> NoticeSchemaValid(r.value)
  {
    if !NoticeFieldsValid(f) then None
    else
      var category := if f.category.Some? then ParseNoticeCategory(f.category.value).value else General;
      var audience := if f.targetAudience.Some? then ParseEach(f.targetAudience.value, ParseAudience).value
                      else [ForAll];
      var n := Notice(id, Trim(f.title.value), f.content.value, category, f.postedBy, audience,
                      f.attachments, true, f.expiryDate, TrimOption(f.department), now, now);
      assert NoticeSchemaValid(n) by {
        TrimIsTrimmed(f.title.value);
        TrimOptionFacts(f.department);
      }
      assert f.targetAudience.Some? ==> AudienceNames(n.targetAudience) == f.targetAudience.value by {
        if f.targetAudience.Some? {
          ParsedNames(f.targetAudience.value, audience);
        }
      }
      Some(n)
  }

  /** What `save()` checks on a whole record: a non-empty title and content. */
  predicate NoticeHasRequired(n: Notice)
  {
    n.title != "" && n.content != ""
  }

  /** The fields declared `trim: true` hold trimmed values. */
  predicate NoticeTrimmed(n: Notice)
  {
    IsTrimmed(n.title) && IsTrimmedOption(n.department)
  }

  /** A record as the schema writes it: validated and trimmed. */
  predicate NoticeSchemaValid(n: Notice)
  {
    NoticeHasRequired(n) && NoticeTrimmed(n)
  }
}
