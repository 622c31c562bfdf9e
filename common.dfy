/** Vocabulary shared by every route: roles and audiences, departments with
    JavaScript truthiness, the populated user record, the request's actor,
    the outcomes that stand for HTTP status codes, and the two department
    gates the routes apply to faculty-created content. */
module Common {
  import opened Wrappers
  import opened Strings

  datatype Role = Admin | Faculty | Student

  /** One entry of an `accessLevel` or `targetAudience` array: a role name or 'all'. */
  datatype Audience = ForRole(role: Role) | ForAll

  function RoleName(r: Role): string
  {
    match r
    case Admin => "admin"
    case Faculty => "faculty"
    case Student => "student"
  }

  function ParseRole(s: string): (r: Option<Role>)
    ensures r.Some? ==> RoleName(r.value) == s
  {
    if s == "admin" then Some(Admin)
    else if s == "faculty" then Some(Faculty)
    else if s == "student" then Some(Student)
    else None
  }

  function AudienceName(a: Audience): string
  {
    match a
    case ForRole(r) => RoleName(r)
    case ForAll => "all"
  }

  /** The `targetAudience` schema enum: the three role names and 'all'. */
  function ParseAudience(s: string): (r: Option<Audience>)
    ensures r.Some? ==> AudienceName(r.value) == s
  {
    if s == "all" then Some(ForAll)
    else match ParseRole(s)
      case Some(role) => Some(ForRole(role))
      case None => None
  }

  lemma ParseAudienceName(a: Audience)
    ensures ParseAudience(AudienceName(a)) == Some(a)
  {
  }

  /** Parses every part with `parse`; `None` (a schema validation error) if any part fails. */
  function ParseEach<T>(parts: seq<string>, parse: string -> Option<T>): (r: Option<seq<T>>)
    ensures r.Some? ==> |r.value| == |parts|
    ensures r.Some? ==> forall k :: 0 <= k < |parts| ==> parse(parts[k]) == Some(r.value[k])
    ensures r.None? ==> exists k :: 0 <= k < |parts| && parse(parts[k]).None?
  {
    if parts == [] then Some([])
    else match parse(parts[0])
      case None => None
      case Some(x) =>
        match ParseEach(parts[1..], parse)
        case None => None
        case Some(xs) => Some([x] + xs)
  }

  /** `value.split(',')` checked against the audience enum. */
  function ParseAudienceList(value: string): Option<seq<Audience>>
  {
    ParseEach(Split(value, ','), ParseAudience)
  }

  function AudienceNames(a: seq<Audience>): (names: seq<string>)
    ensures |names| == |a|
    ensures forall k :: 0 <= k < |a| ==> names[k] == AudienceName(a[k])
  {
    if a == [] then [] else [AudienceName(a[0])] + AudienceNames(a[1..])
  }

  lemma {:induction false} ParseEachAudienceNames(a: seq<Audience>)
    ensures ParseEach(AudienceNames(a), ParseAudience) == Some(a)
  {
    if a != [] {
      var names := AudienceNames(a);
      assert names == [AudienceName(a[0])] + AudienceNames(a[1..]);
      assert names[1..] == AudienceNames(a[1..]);
      ParseEachAudienceNames(a[1..]);
      ParseAudienceName(a[0]);
      assert ParseEach(names, ParseAudience) == Some([a[0]] + a[1..]);
      assert a == [a[0]] + a[1..];
    }
  }

  /** The names of a parsed audience list are the strings it was parsed from. */
  lemma ParsedNames(names: seq<string>, a: seq<Audience>)
    requires ParseEach(names, ParseAudience) == Some(a)
    ensures AudienceNames(a) == names
  {
    var r := AudienceNames(a);
    forall k | 0 <= k < |names| ensures r[k] == names[k] {
      assert ParseAudience(names[k]) == Some(a[k]);
    }
  }

  lemma NameHasNoComma(a: Audience)
    ensures ',' !in AudienceName(a)
  {
    match a
    case ForAll =>
      assert AudienceName(a) == "all";
    case ForRole(r) =>
      match r
      case Admin => assert AudienceName(a) == "admin";
      case Faculty => assert AudienceName(a) == "faculty";
      case Student => assert AudienceName(a) == "student";
  }

  /** A comma-joined audience list, as a form submits it, parses back to the same list. */
  lemma AudienceListRoundTrip(a: seq<Audience>)
    requires |a| >= 1
    ensures ParseAudienceList(Join(AudienceNames(a), ',')) == Some(a)
  {
    var names := AudienceNames(a);
    forall k | 0 <= k < |names| ensures ',' !in names[k] {
      NameHasNoComma(a[k]);
    }
    SplitJoin(names, ',');
    ParseEachAudienceNames(a);
  }

  /** `list.includes(role) || list.includes('all')`, the accessibility gate. */
  predicate Admits(list: seq<Audience>, r: Role)
  {
    ForRole(r) in list || ForAll in list
  }

  /** A department as stored: absent, or a string that may be empty. */
  type Dept = Option<string>

  /** JavaScript truthiness of a department: present and non-empty. */
  predicate IsSet(d: Dept) { d.Some? && d.value != "" }

  /** `d || null`. */
  function OrNull(d: Dept): (r: Dept)
    ensures IsSet(d) ==> r == d
    ensures !IsSet(d) ==> r == None
  {
    if IsSet(d) then d else None
  }

  /** The `trim: true` setter on an optional string field: a string is trimmed, an absent
      value or `null` stays as it is. */
  function TrimOption(field: Option<string>): (r: Option<string>)
    ensures r.Some? <==> field.Some?
    ensures r.Some? ==> r.value == Trim(field.value)
  {
    if field.Some? then Some(Trim(field.value)) else None
  }

  predicate IsTrimmedOption(field: Option<string>)
  {
    field.Some? ==> IsTrimmed(field.value)
  }

  /** The `trim` setter yields a trimmed value, and leaves a trimmed one unchanged. */
  lemma TrimOptionFacts(field: Option<string>)
    ensures IsTrimmedOption(TrimOption(field))
    ensures IsTrimmedOption(field) ==> TrimOption(field) == field
  {
    if field.Some? {
      TrimIsTrimmed(field.value);
      if IsTrimmed(field.value) {
        TrimmedIsFixed(field.value);
      }
    }
  }

  /** A request-body string field: present and non-empty is truthy. */
  predicate Given(field: Option<string>) { field.Some? && field.value != "" }

  /** `field || current`, the portal's update merge for a string field. */
  function OrElse(field: Option<string>, current: string): (r: string)
    ensures Given(field) ==> r == field.value
    ensures !Given(field) ==> r == current
  {
    if Given(field) then field.value else current
  }

  /** The user record as `populate('…', 'name email role')` and the user routes see it. */
  datatype User = User(
    id: string, name: string, email: string, studentId: Option<string>, role: Role,
    department: Dept, phone: Option<string>, isActive: bool, createdAt: int)

  /** The authenticated identity the request carries. */
  datatype Actor = Actor(id: string, role: Role, department: Dept)

  /** `populate`: the user with that id, or `null` when none exists any more. */
  function FindUser(users: seq<User>, id: string): (r: Option<User>)
    ensures r.Some? ==> r.value in users && r.value.id == id
    ensures r.None? ==> forall k :: 0 <= k < |users| ==> users[k].id != id
  {
    if users == [] then None
    else if users[0].id == id then Some(users[0])
    else FindUser(users[1..], id)
  }

  /** The department gate of the listing routes: a missing creator hides the item, admin
      content is global, faculty content needs the departments to agree unless either is
      unset, and content of any other creator role is kept. */
  predicate CreatorAllows(creator: Option<User>, itemDept: Dept, actorDept: Dept)
  {
    match creator
    case None => false
    case Some(u) =>
      if u.role == Admin then true
      else if u.role == Faculty then !IsSet(itemDept) || !IsSet(actorDept) || itemDept == actorDept
      else true
  }

  /** The department gate of the single-item and download routes: a faculty creator and two
      set departments that differ. */
  predicate DepartmentBlocks(creator: Option<User>, itemDept: Dept, actorDept: Dept)
  {
    creator.Some? && creator.value.role == Faculty &&
    IsSet(itemDept) && IsSet(actorDept) && itemDept.value != actorDept.value
  }

  /** The two gates agree whenever the creator still exists; they part only on a missing
      creator, which hides an item from a listing but blocks no download. */
  lemma GatesAgree(creator: Option<User>, itemDept: Dept, actorDept: Dept)
    ensures creator.Some? ==> (CreatorAllows(creator, itemDept, actorDept) <==> !DepartmentBlocks(creator, itemDept, actorDept))
    ensures creator.None? ==> !CreatorAllows(creator, itemDept, actorDept) && !DepartmentBlocks(creator, itemDept, actorDept)
  {
  }

  /** A string that Mongoose can cast to an ObjectId (the 24-hex-digit form). */
  predicate IsObjectId(s: string)
  {
    |s| == 24 && forall i :: 0 <= i < |s| ==> IsHexDigit(s[i])
  }

  /** What a route answers, standing for its HTTP status: 200/201, 404, 403, 400, 500. */
  datatype Reply<T> = Success(value: T) | NotFound | Forbidden | BadRequest | ServerError

  /** A file as the upload middleware hands it over. */
  datatype UploadedFile = UploadedFile(originalname: string, filename: string, path: string, mimetype: string, size: int)

  /** The position of the first element whose id is `id`, the way `findById` finds a record. */
  function IndexOf<T>(s: seq<T>, id: string, idOf: T -> string): (r: Option<nat>)
    ensures r.Some? ==> r.value < |s| && idOf(s[r.value]) == id
    ensures r.Some? ==> forall j :: 0 <= j < r.value ==> idOf(s[j]) != id
    ensures r.None? ==> forall j :: 0 <= j < |s| ==> idOf(s[j]) != id
  {
    if s == [] then None
    else if idOf(s[0]) == id then Some(0)
    else match IndexOf(s[1..], id, idOf)
      case None => None
      case Some(k) => Some(k + 1)
  }

  /** `Model.findById(id)`: a CastError (500) for an id that is not an ObjectId, `null` (404)
      when no record has it, the record's position otherwise. */
  function Locate<T>(s: seq<T>, id: string, idOf: T -> string): (r: Reply<nat>)
    ensures r.Success? <==> IsObjectId(id) && exists j :: 0 <= j < |s| && idOf(s[j]) == id
    ensures r.Success? ==> r.value < |s| && idOf(s[r.value]) == id
    ensures r.NotFound? <==> IsObjectId(id) && forall j :: 0 <= j < |s| ==> idOf(s[j]) != id
    ensures r.ServerError? <==> !IsObjectId(id)
    ensures r.Success? || r.NotFound? || r.ServerError?
  {
    if !IsObjectId(id) then ServerError
    else match IndexOf(s, id, idOf)
      case None => NotFound
      case Some(k) => Success(k)
  }

  /** The gate shared by every update and delete that is open to faculty and admins:
      `authorize('admin', 'faculty')` turns a student away before anything is read, then the
      record is looked up (an unknown id is NotFound, a malformed one a server error), then a
      faculty actor must own it; an admin may act on any record. */
  function EditGate<T>(s: seq<T>, actor: Actor, id: string, idOf: T -> string, ownerOf: T -> string): (r: Reply<nat>)
    ensures actor.role == Student ==> r == Forbidden
    ensures r.Success? <==>
      (actor.role != Student && Locate(s, id, idOf).Success? &&
       (actor.role == Faculty ==> ownerOf(s[Locate(s, id, idOf).value]) == actor.id))
    ensures r.Success? ==> r == Locate(s, id, idOf)
    ensures actor.role != Student && !Locate(s, id, idOf).Success? ==> r == Locate(s, id, idOf)
    ensures (actor.role == Faculty && Locate(s, id, idOf).Success? &&
             ownerOf(s[Locate(s, id, idOf).value]) != actor.id) ==> r == Forbidden
    ensures actor.role == Admin ==> r == Locate(s, id, idOf)
  {
    if actor.role == Student then Forbidden
    else match Locate(s, id, idOf)
      case Success(k) =>
        if actor.role == Faculty && ownerOf(s[k]) != actor.id then Forbidden else Success(k)
      case NotFound => NotFound
      case Forbidden => Forbidden
      case BadRequest => BadRequest
      case ServerError => ServerError
  }

  /** Passes a failure on unchanged to a reply of another type. */
  function Propagate<T, U>(r: Reply<T>): (s: Reply<U>)
    requires !r.Success?
    ensures s.NotFound? == r.NotFound? && s.Forbidden? == r.Forbidden?
    ensures s.BadRequest? == r.BadRequest? && s.ServerError? == r.ServerError?
  {
    match r
    case NotFound => NotFound
    case Forbidden => Forbidden
    case BadRequest => BadRequest
    case ServerError => ServerError
  }

  /** Lookups agree on two collections whose records carry the same ids in the same order. */
  lemma {:induction false} IndexOfSameIds<T, U>(s: seq<T>, t: seq<U>, id: string, idOf: T -> string, idOf2: U -> string)
    requires |s| == |t|
    requires forall j :: 0 <= j < |s| ==> idOf(s[j]) == idOf2(t[j])
    ensures IndexOf(s, id, idOf) == IndexOf(t, id, idOf2)
  {
    if s != [] {
      IndexOfSameIds(s[1..], t[1..], id, idOf, idOf2);
    }
  }

  /** The supplied value, otherwise the fallback. For a numeric query parameter this is
      its destructuring default (`page = 1`), which applies only when the parameter is
      absent, so a supplied 0 is kept; for a date it is `date || old`, a supplied date
      string never being empty. */
  function ValueOr(o: Option<int>, fallback: int): int
  {
    if o.Some? then o.value else fallback
  }
}
