/** The users routes: the admin list with search and paging, the single-user
    view, self-or-admin updates with role and status stripped for non-admins,
    deletion, and the department-scoped student list.
    Line numbers in the comments below refer to backend/routes/users.js. */
module UsersRoute {
  import opened Wrappers
  import opened Strings
  import opened Ordering
  import opened Common
  import opened Database

  function UserCreated(u: User): int { u.createdAt }

  /** The `$or` of case-insensitive searches over name, email and student id, read as a
      substring test. */
  predicate UserSearchHit(u: User, search: string)
  {
    ContainsIgnoreCase(u.name, search) || ContainsIgnoreCase(u.email, search) ||
    (u.studentId.Some? && ContainsIgnoreCase(u.studentId.value, search))
  }

  /** A page of users, its length and the number of all matches. */
  datatype UserListing = UserListing(users: seq<User>, count: int, total: int)

  // ---------------------------------------------------------------------------------------
  // Admin list

  /** The query string of the admin list; an empty string is a parameter that was not given. */
  datatype UserQuery = UserQuery(role: string, search: string, page: Option<int>, limit: Option<int>)

  predicate UserMatches(u: User, q: UserQuery)
  {
    (q.role != "" ==> RoleName(u.role) == q.role) && (q.search != "" ==> UserSearchHit(u, q.search))
  }

  function UserMatchesQuery(q: UserQuery): User -> bool
  {
    u => UserMatches(u, q)
  }

  function MatchingUsers(users: seq<User>, q: UserQuery): seq<User>
  {
    SortDesc(Filter(users, UserMatchesQuery(q)), UserCreated)
  }

  /** `GET /api/users`: admins only; `limit(limit).skip((page - 1) * limit)` over the matches
      newest first, a negative skip being a server error; `total` counts every match. */
  function ListUsers(users: seq<User>, actor: Actor, q: UserQuery): Reply<UserListing>
  {
    if actor.role != Admin then Forbidden
    else
      var matches := MatchingUsers(users, q);
      match MongoPage(matches, ValueOr(q.page, 1), ValueOr(q.limit, 10))
      case None => ServerError
      case Some(page) => Success(UserListing(page, |page|, |matches|))
  }

  lemma MatchingUsersFacts(users: seq<User>, q: UserQuery)
    ensures forall u :: u in MatchingUsers(users, q) <==> u in users && UserMatches(u, q)
    ensures SortedDesc(MatchingUsers(users, q), UserCreated)
  {
    var f := Filter(users, UserMatchesQuery(q));
    SortDescSorted(f, UserCreated);
    SortDescMultiset(f, UserCreated);
    forall u ensures u in MatchingUsers(users, q) <==> u in f {
      assert u in MatchingUsers(users, q) <==> u in multiset(MatchingUsers(users, q));
      assert u in f <==> u in multiset(f);
    }
  }

  /** Only admins list users; for a page of at least 1 and a positive limit the answer is
      that window of the matches, every listed user matches the role and the search, and
      `total` counts all matches. */
  lemma ListUsersFacts(users: seq<User>, actor: Actor, q: UserQuery)
    ensures actor.role != Admin ==> ListUsers(users, actor, q) == Forbidden
    ensures actor.role == Admin && ValueOr(q.page, 1) >= 1 && ValueOr(q.limit, 10) > 0 ==>
      var r, matches := ListUsers(users, actor, q), MatchingUsers(users, q);
      var page, limit := ValueOr(q.page, 1), ValueOr(q.limit, 10);
      r.Success? && r.value.total == |matches| && r.value.count == |r.value.users| <= limit &&
      r.value.users == JsSlice(matches, (page - 1) * limit, page * limit) &&
      forall u :: u in r.value.users ==> u in users && UserMatches(u, q)
  {
    if actor.role == Admin && ValueOr(q.page, 1) >= 1 && ValueOr(q.limit, 10) > 0 {
      var matches := MatchingUsers(users, q);
      var page, limit := ValueOr(q.page, 1), ValueOr(q.limit, 10);
      MongoPageIsSlice(matches, page, limit);
      PageWindow(matches, page, limit);
      MatchingUsersFacts(users, q);
      var w := JsSlice(matches, (page - 1) * limit, page * limit);
      forall u | u in w ensures u in matches {
        var i :| 0 <= i < |w| && w[i] == u;
        assert u == matches[Min((page - 1) * limit, |matches|) + i];
      }
    }
  }

  /** A page before the first one skips a negative count, which the database refuses. */
  lemma PageZeroIsServerError(users: seq<User>, actor: Actor, q: UserQuery)
    requires actor.role == Admin && ValueOr(q.page, 1) <= 0 && ValueOr(q.limit, 10) > 0
    ensures ListUsers(users, actor, q) == ServerError
  {
    var page, limit := ValueOr(q.page, 1), ValueOr(q.limit, 10);
    assert (page - 1) * limit < 0 by {
      assert page - 1 < 0;
    }
  }

  // ---------------------------------------------------------------------------------------
  // Single user, update, delete

  /** `GET /api/users/:id`: the lookup comes first, then a student must be asking for their
      own id. */
  function GetUser(users: seq<User>, actor: Actor, id: string): (r: Reply<User>)
    ensures r.Success? <==> (Locate(users, id, UserId).Success? && (actor.role == Student ==> id == actor.id))
    ensures r.Success? ==> r.value.id == id && r.value in users
    ensures r.NotFound? <==> Locate(users, id, UserId).NotFound?
    ensures r.Forbidden? <==> (Locate(users, id, UserId).Success? && actor.role == Student && id != actor.id)
  {
    match Locate(users, id, UserId)
    case Success(k) => if actor.role == Student && actor.id != id then Forbidden else Success(users[k])
    case NotFound => NotFound
    case Forbidden => Forbidden
    case BadRequest => BadRequest
    case ServerError => ServerError
  }

  /** The request body of an update: each present key is written as it is. */
  datatype UserPatch = UserPatch(
    name: Option<string>, email: Option<string>, studentId: Option<string>, role: Option<string>,
    department: Option<string>, phone: Option<string>, isActive: Option<bool>)

  /** Lines 96-99: `delete req.body.role` and `delete req.body.isActive` for non-admins. */
  function Stripped(actor: Actor, patch: UserPatch): (p: UserPatch)
    ensures actor.role != Admin ==> p.role.None? && p.isActive.None?
    ensures actor.role == Admin ==> p == patch
    ensures p.name == patch.name && p.email == patch.email && p.department == patch.department
  {
    if actor.role != Admin then patch.(role := None, isActive := None) else patch
  }

  /** `findByIdAndUpdate` with the patch: present keys overwrite, the role enum is checked
      (`None` when it fails). */
  function ApplyPatch(u: User, p: UserPatch): Option<User>
  {
    var role := if p.role.Some? then ParseRole(p.role.value) else Some(u.role);
    if role.None? then None
    else Some(u.(name := if p.name.Some? then p.name.value else u.name,
                 email := if p.email.Some? then p.email.value else u.email,
                 studentId := if p.studentId.Some? then p.studentId else u.studentId,
                 role := role.value,
                 department := if p.department.Some? then p.department else u.department,
                 phone := if p.phone.Some? then p.phone else u.phone,
                 isActive := if p.isActive.Some? then p.isActive.value else u.isActive))
  }

  /** `PUT /api/users/:id`: the lookup, then admin or self, then the stripped patch. */
  function UpdateUserOutcome(users: seq<User>, actor: Actor, id: string, patch: UserPatch): Reply<User>
  {
    match Locate(users, id, UserId)
    case Success(k) =>
      if actor.role != Admin && actor.id != id then Forbidden
      else (match ApplyPatch(users[k], Stripped(actor, patch))
            case None => ServerError
            case Some(u) => Success(u))
    case NotFound => NotFound
    case Forbidden => Forbidden
    case BadRequest => BadRequest
    case ServerError => ServerError
  }

  /** A non-admin can only update themselves and never changes their role or status; an
      admin writes a given role (from the enum) and status; every present key of the patch
      is written and every absent one kept; every update keeps the user's id and creation
      time. */
  lemma UpdateUserFacts(users: seq<User>, actor: Actor, id: string, patch: UserPatch)
    ensures var r := UpdateUserOutcome(users, actor, id, patch);
      r.Success? ==> (Locate(users, id, UserId).Success? &&
        var old_ := users[Locate(users, id, UserId).value];
        r.value.id == old_.id && r.value.createdAt == old_.createdAt &&
        (actor.role != Admin ==> id == actor.id && r.value.role == old_.role && r.value.isActive == old_.isActive) &&
        (actor.role == Admin && patch.role.Some? ==> RoleName(r.value.role) == patch.role.value) &&
        (actor.role == Admin && patch.role.None? ==> r.value.role == old_.role) &&
        (actor.role == Admin && patch.isActive.Some? ==> r.value.isActive == patch.isActive.value) &&
        (actor.role == Admin && patch.isActive.None? ==> r.value.isActive == old_.isActive) &&
        (patch.name.Some? ==> r.value.name == patch.name.value) &&
        (patch.name.None? ==> r.value.name == old_.name) &&
        (patch.email.Some? ==> r.value.email == patch.email.value) &&
        (patch.email.None? ==> r.value.email == old_.email) &&
        (patch.studentId.Some? ==> r.value.studentId == patch.studentId) &&
        (patch.studentId.None? ==> r.value.studentId == old_.studentId) &&
        (patch.department.Some? ==> r.value.department == patch.department) &&
        (patch.department.None? ==> r.value.department == old_.department) &&
        (patch.phone.Some? ==> r.value.phone == patch.phone) &&
        (patch.phone.None? ==> r.value.phone == old_.phone))
    ensures var l := Locate(users, id, UserId);
      (l.Success? && (actor.role == Admin || actor.id == id)) ==>
        (UpdateUserOutcome(users, actor, id, patch).Success? <==>
         (actor.role == Admin && patch.role.Some? ==> ParseRole(patch.role.value).Some?))
    ensures (Locate(users, id, UserId).Success? && actor.role != Admin && actor.id != id) ==>
      UpdateUserOutcome(users, actor, id, patch) == Forbidden
  {
  }

  method UpdateUser(db: Store, actor: Actor, id: string, patch: UserPatch) returns (r: Reply<User>)
    modifies db
    ensures r == UpdateUserOutcome(old(db.users), actor, id, patch)
    ensures r.Success? ==> (Locate(old(db.users), id, UserId).Success? &&
      db.users == old(db.users)[Locate(old(db.users), id, UserId).value := r.value])
    ensures !r.Success? ==> db.users == old(db.users)
    ensures db.documents == old(db.documents) && db.notices == old(db.notices) && db.events == old(db.events) && db.files == old(db.files)
  {
    r := UpdateUserOutcome(db.users, actor, id, patch);
    if r.Success? {
      db.users := db.users[Locate(db.users, id, UserId).value := r.value];
    }
  }

  /** `DELETE /api/users/:id`: admins only, then the lookup. */
  function DeleteUserGate(users: seq<User>, actor: Actor, id: string): (r: Reply<nat>)
    ensures actor.role != Admin ==> r == Forbidden
    ensures actor.role == Admin ==> r == Locate(users, id, UserId)
  {
    if actor.role != Admin then Forbidden else Locate(users, id, UserId)
  }

  /** The user goes; what they posted stays and now has no creator. */
  method DeleteUser(db: Store, actor: Actor, id: string) returns (r: Reply<nat>)
    modifies db
    ensures r == DeleteUserGate(old(db.users), actor, id)
    ensures r.Success? ==> db.users == RemoveAt(old(db.users), r.value)
    ensures !r.Success? ==> db.users == old(db.users)
    ensures db.documents == old(db.documents) && db.notices == old(db.notices) && db.events == old(db.events) && db.files == old(db.files)
  {
    r := DeleteUserGate(db.users, actor, id);
    if r.Success? {
      db.users := RemoveAt(db.users, r.value);
    }
  }

  /** Once a user is deleted, the lookup of the creator `populate` performs fails for
      everything they posted, so those items leave every listing of students and faculty. */
  lemma DeletedUserIsGone(users: seq<User>, k: nat)
    requires k < |users| && forall j :: 0 <= j < |users| && j != k ==> users[j].id != users[k].id
    ensures FindUser(RemoveAt(users, k), users[k].id).None?
    ensures forall itemDept, actorDept :: !CreatorAllows(FindUser(RemoveAt(users, k), users[k].id), itemDept, actorDept)
  {
    var rest := RemoveAt(users, k);
    forall j | 0 <= j < |rest| ensures rest[j].id != users[k].id {
      if j < k {
        assert rest[j] == users[j];
      } else {
        assert rest[j] == users[j + 1];
      }
    }
  }

  // ---------------------------------------------------------------------------------------
  // Student list

  /** The query string of the student list. */
  datatype StudentQuery = StudentQuery(department: string, search: string, page: Option<int>, limit: Option<int>)

  /** Lines 150-158: the department a listing is confined to. Faculty with a department
      get theirs whatever the parameter says, admins get the parameter when it is given,
      and faculty without a department get no restriction. */
  function StudentScope(actor: Actor, q: StudentQuery): Option<string>
  {
    if actor.role == Faculty && IsSet(actor.department) then actor.department
    else if actor.role == Admin && q.department != "" then Some(q.department)
    else None
  }

  /** Lines 150-166: the student records in the scope that the search finds. */
  predicate StudentMatches(u: User, scope: Option<string>, search: string)
  {
    u.role == Student && (scope.Some? ==> u.department == scope) &&
    (search != "" ==> UserSearchHit(u, search))
  }

  function StudentMatchesQuery(scope: Option<string>, search: string): User -> bool
  {
    u => StudentMatches(u, scope, search)
  }

  function MatchingStudents(users: seq<User>, actor: Actor, q: StudentQuery): seq<User>
  {
    SortDesc(Filter(users, StudentMatchesQuery(StudentScope(actor, q), q.search)), UserCreated)
  }

  /** `GET /api/users/students/list`: faculty and admins, 20 per page by default. */
  function ListStudents(users: seq<User>, actor: Actor, q: StudentQuery): Reply<UserListing>
  {
    if actor.role == Student then Forbidden
    else
      var matches := MatchingStudents(users, actor, q);
      match MongoPage(matches, ValueOr(q.page, 1), ValueOr(q.limit, 20))
      case None => ServerError
      case Some(page) => Success(UserListing(page, |page|, |matches|))
  }

  lemma MatchingStudentsFacts(users: seq<User>, actor: Actor, q: StudentQuery)
    ensures forall u :: u in MatchingStudents(users, actor, q) <==> u in users && StudentMatches(u, StudentScope(actor, q), q.search)
  {
    var f := Filter(users, StudentMatchesQuery(StudentScope(actor, q), q.search));
    SortDescFacts(f, UserCreated);
    forall u ensures u in MatchingStudents(users, actor, q) <==> u in f {
      assert u in MatchingStudents(users, actor, q) <==> u in multiset(MatchingStudents(users, actor, q));
      assert u in f <==> u in multiset(f);
    }
  }

  /** A faculty member with a department lists only students of that department, and the
      department parameter changes nothing for them. */
  lemma FacultySeesOwnDepartment(users: seq<User>, actor: Actor, q: StudentQuery, otherDept: string)
    requires actor.role == Faculty && IsSet(actor.department)
    ensures forall u :: u in MatchingStudents(users, actor, q) ==> u.role == Student && u.department == actor.department
    ensures MatchingStudents(users, actor, q) == MatchingStudents(users, actor, q.(department := otherDept))
  {
    MatchingStudentsFacts(users, actor, q);
    assert StudentScope(actor, q) == StudentScope(actor, q.(department := otherDept));
  }

  /** A faculty member without a department lists every student the search finds. */
  lemma FacultyWithoutDepartmentSeesAll(users: seq<User>, actor: Actor, q: StudentQuery, u: User)
    requires actor.role == Faculty && !IsSet(actor.department)
    ensures u in MatchingStudents(users, actor, q) <==>
      (u in users && u.role == Student && (q.search != "" ==> UserSearchHit(u, q.search)))
  {
    MatchingStudentsFacts(users, actor, q);
  }

  /** With no page or limit given the student list is the first 20 matches, and `total`
      counts every match. */
  lemma ListStudentsDefaultPage(users: seq<User>, actor: Actor, q: StudentQuery)
    requires actor.role != Student && q.page.None? && q.limit.None?
    ensures var r, matches := ListStudents(users, actor, q), MatchingStudents(users, actor, q);
      r.Success? && r.value.total == |matches| && r.value.users == matches[..Min(20, |matches|)]
  {
    var matches := MatchingStudents(users, actor, q);
    MongoPageIsSlice(matches, 1, 20);
    PrefixSlice(matches, 20);
  }
}
