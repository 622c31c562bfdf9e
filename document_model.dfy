/** The Document schema: its fields, the category and access-level enums and
    the defaults Mongoose fills in when a record is created. */
module DocumentModel {
  import opened Wrappers
  import opened Strings
  import opened Common

  datatype DocCategory = Academic | Administrative | Syllabus | Form | Other

  function DocCategoryName(c: DocCategory): string
  {
    match c
    case Academic => "academic"
    case Administrative => "administrative"
    case Syllabus => "syllabus"
    case Form => "form"
    case Other => "other"
  }

  /** The category enum check. */
  function ParseDocCategory(s: string): (r: Option<DocCategory>)
    ensures r.Some? ==> DocCategoryName(r.value) == s
  {
    if s == "academic" then Some(Academic)
    else if s == "administrative" then Some(Administrative)
    else if s == "syllabus" then Some(Syllabus)
    else if s == "form" then Some(Form)
    else if s == "other" then Some(Other)
    else None
  }

  lemma ParseDocCategoryName(c: DocCategory)
    ensures ParseDocCategory(DocCategoryName(c)) == Some(c)
  {
  }

  /** The accessLevel enum check: a role name; 'all' is not in the enum. */
  function ParseAccessEntry(s: string): (r: Option<Audience>)
    ensures r.Some? ==> r.value.ForRole? && AudienceName(r.value) == s
    ensures s == "all" ==> r.None?
  {
    match ParseRole(s)
    case Some(role) => Some(ForRole(role))
    case None => None
  }

  datatype Document = Document(
    id: string, title: string, description: Option<string>,
    filename: string, originalName: string, path: string, mimetype: string, size: int,
    uploadedBy: string, category: DocCategory, accessLevel: seq<Audience>, department: Dept,
    tags: seq<string>, downloadCount: int, isActive: bool, createdAt: int, updatedAt: int)

  /** The sort key of `sort({ createdAt: -1 })`. */
  function DocCreated(d: Document): int { d.createdAt }

  /** The values handed to `Document.create`: absent ones take the schema default. */
  datatype DocumentFields = DocumentFields(
    title: Option<string>, description: Option<string>,
    filename: string, originalName: string, path: string, mimetype: string, size: int,
    uploadedBy: string, category: Option<string>, accessLevel: Option<seq<string>>,
    department: Dept, tags: seq<string>)

  /** What the schema accepts: a title that is not blank once the `trim` setter has run,
      the other required strings non-empty, a category from the enum, access-level entries
      from the enum. */
  predicate DocumentFieldsValid(f: DocumentFields)
  {
    f.title.Some? && Trim(f.title.value) != "" &&
    f.filename != "" && f.originalName != "" && f.path != "" && f.mimetype != "" &&
    (f.category.Some? ==> ParseDocCategory(f.category.value).Some?) &&
    (f.accessLevel.Some? ==> ParseEach(f.accessLevel.value, ParseAccessEntry).Some?)
  }

  /** The record `Document.create` builds from fields it accepted, before the result is
      wrapped. */
  function Created(id: string, now: int, f: DocumentFields): Document
    requires DocumentFieldsValid(f)
  {
    var category := if f.category.Some? then ParseDocCategory(f.category.value).value else Other;
    var access := if f.accessLevel.Some? then ParseEach(f.accessLevel.value, ParseAccessEntry).value
                  else [ForRole(Student)];
    Document(id, Trim(f.title.value), TrimOption(f.description), f.filename, f.originalName, f.path,
             f.mimetype, f.size, f.uploadedBy, category, access, TrimOption(f.department), f.tags,
             0, true, now, now)
  }

  lemma CreatedHasRequired(id: string, now: int, f: DocumentFields)
    requires DocumentFieldsValid(f)
    ensures HasRequired(Created(id, now, f))
  {
    var d := Created(id, now, f);
    assert forall k :: 0 <= k < |d.accessLevel| ==> d.accessLevel[k].ForRole?;
  }

  lemma CreatedIsTrimmed(id: string, now: int, f: DocumentFields)
    requires DocumentFieldsValid(f)
    ensures TrimmedFields(Created(id, now, f))
  {
    TrimIsTrimmed(f.title.value);
    TrimOptionFacts(f.description);
    TrimOptionFacts(f.department);
  }

  /** `Document.create`: the `trim` setters on title, description and department, schema
      defaults (category 'other', accessLevel ['student'], downloadCount 0, isActive true, both
      timestamps `now`), then validation; `None` is a ValidationError. */
  function NewDocument(id: string, now: int, f: DocumentFields): (r: Option<Document>)
    ensures r.Some? <==> DocumentFieldsValid(f)
    ensures r.Some? ==> SchemaValid(r.value)
  {
    if !DocumentFieldsValid(f) then None
    else
      CreatedHasRequired(id, now, f);
      CreatedIsTrimmed(id, now, f);
      Some(Created(id, now, f))
  }

  /** What an accepted creation stores: every given field, trimmed where the schema trims,
      the parsed enums entry by entry, and the schema defaults for what was not given. */
  lemma NewDocumentFacts(id: string, now: int, f: DocumentFields)
    requires DocumentFieldsValid(f)
    ensures var d := NewDocument(id, now, f).value;
      d.id == id && d.title == Trim(f.title.value) && d.description == TrimOption(f.description) &&
      d.filename == f.filename && d.originalName == f.originalName && d.path == f.path &&
      d.mimetype == f.mimetype && d.size == f.size && d.uploadedBy == f.uploadedBy &&
      d.department == TrimOption(f.department) && d.tags == f.tags &&
      d.downloadCount == 0 && d.isActive && d.createdAt == now && d.updatedAt == now &&
      (f.category.None? ==> d.category == Other) &&
      (f.category.Some? ==> DocCategoryName(d.category) == f.category.value) &&
      (f.accessLevel.None? ==> d.accessLevel == [ForRole(Student)]) &&
      (f.accessLevel.Some? ==>
         |d.accessLevel| == |f.accessLevel.value| &&
         forall k :: 0 <= k < |d.accessLevel| ==> ParseAccessEntry(f.accessLevel.value[k]) == Some(d.accessLevel[k]))
  {
    var d := Created(id, now, f);
    assert NewDocument(id, now, f).value == d;
  }

  /** What `save()` checks on a whole record: the required strings non-empty and 'all', which
      is not in the enum, absent from accessLevel. */
  predicate HasRequired(d: Document)
  {
    d.title != "" && d.filename != "" && d.originalName != "" && d.path != "" && d.mimetype != "" &&
    ForAll !in d.accessLevel
  }

  /** The fields declared `trim: true` hold trimmed values. */
  predicate TrimmedFields(d: Document)
  {
    IsTrimmed(d.title) && IsTrimmedOption(d.description) && IsTrimmedOption(d.department)
  }

  /** A record as the schema writes it: validated and trimmed. */
  predicate SchemaValid(d: Document)
  {
    HasRequired(d) && TrimmedFields(d)
  }

  /** For a record the schema accepted, the `includes('all')` half of the access check is
      dead: only the reader's own role can admit them. */
  lemma AccessIsRoleOnly(d: Document, r: Role)
    requires SchemaValid(d)
    ensures Admits(d.accessLevel, r) <==> ForRole(r) in d.accessLevel
  {
  }
}
