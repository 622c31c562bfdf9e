/** The page frame's navigation: the home path of each role, which menu entry
    is highlighted for the current location, and the menu each role gets.
    Line numbers in the comments below refer to frontend/src/components/Layout.jsx. */
module Layout {
  import opened Strings

  /** Lines 28-39. */
  function DashboardPath(role: string): (path: string)
    ensures role == "admin" ==> path == "/admin"
    ensures role == "faculty" ==> path == "/faculty"
    ensures role == "student" ==> path == "/student"
    ensures role != "admin" && role != "faculty" && role != "student" ==> path == "/login"
  {
    if role == "admin" then "/admin"
    else if role == "faculty" then "/faculty"
    else if role == "student" then "/student"
    else "/login"
  }

  /** Lines 41-46: the dashboard entry is highlighted on its own path, with or without a
      trailing slash; every other entry whenever the location starts with its path. */
  predicate IsActive(role: string, pathname: string, path: string)
  {
    if path == DashboardPath(role) then pathname == path || pathname == path + "/"
    else StartsWith(pathname, path)
  }

  /** A menu entry: its path and the `label` it shows (`label` is a keyword here). */
  datatype NavItem = NavItem(path: string, labelText: string)

  /** Lines 48-146, without the icons. */
  function NavItems(role: string): (items: seq<NavItem>)
    ensures |items| >= 3 && items[0] == NavItem(DashboardPath(role), "Dashboard")
  {
    var dashboard := [NavItem(DashboardPath(role), "Dashboard")];
    if role == "admin" then
      dashboard + [NavItem("/admin/users", "Users"), NavItem("/admin/documents", "Documents"),
                   NavItem("/admin/notices", "Notices")]
    else if role == "faculty" then
      dashboard + [NavItem("/faculty/students", "Students"), NavItem("/faculty/notices", "Notices")]
    else
      dashboard + [NavItem("/student/notices", "Notices"), NavItem("/student/documents", "Documents"),
                   NavItem("/student/calendar", "Calendar")]
  }

  /** The menus of the three roles, entry by entry; any other role gets the student menu
      with the login page as its dashboard. */
  lemma NavItemsByRole(role: string)
    ensures role == "admin" ==>
      NavItems(role) == [NavItem("/admin", "Dashboard"), NavItem("/admin/users", "Users"),
                         NavItem("/admin/documents", "Documents"), NavItem("/admin/notices", "Notices")]
    ensures role == "faculty" ==>
      NavItems(role) == [NavItem("/faculty", "Dashboard"), NavItem("/faculty/students", "Students"),
                         NavItem("/faculty/notices", "Notices")]
    ensures role == "student" ==>
      NavItems(role) == [NavItem("/student", "Dashboard"), NavItem("/student/notices", "Notices"),
                         NavItem("/student/documents", "Documents"), NavItem("/student/calendar", "Calendar")]
    ensures role != "admin" && role != "faculty" && role != "student" ==>
      NavItems(role) == [NavItem("/login", "Dashboard")] + NavItems("student")[1..]
  {
  }

  /** The dashboard entry is not highlighted on a page below it. */
  lemma DashboardNotActiveBelow(role: string, rest: string)
    requires |rest| > 0 && rest[0] != '/'
    ensures !IsActive(role, DashboardPath(role) + "/" + rest, DashboardPath(role))
  {
    var d := DashboardPath(role);
    assert |d + "/" + rest| > |d + "/"|;
  }

  /** The prefix test highlights an entry on any location that merely begins with its
      path: `/admin/users` is highlighted on `/admin/usersX`. */
  lemma UsersActiveOnLongerPath()
    ensures IsActive("admin", "/admin/usersX", "/admin/users")
  {
    assert "/admin/usersX"[..|"/admin/users"|] == "/admin/users";
  }

  /** Two paths neither of which begins with the other cannot both begin a location. */
  lemma Incomparable(p: string, a: string, b: string)
    ensures !StartsWith(b, a) && !StartsWith(a, b) ==> !(StartsWith(p, a) && StartsWith(p, b))
  {
    if StartsWith(p, a) && StartsWith(p, b) {
      if |a| <= |b| {
        assert b[..|a|] == p[..|b|][..|a|];
      } else {
        assert a[..|b|] == p[..|a|][..|b|];
      }
    }
  }

  lemma DifferAt(a: string, b: string, k: nat)
    ensures k < |a| && k < |b| && a[k] != b[k] ==> !StartsWith(b, a) && !StartsWith(a, b)
  {
  }

  /** Wherever the user is, at most one menu entry is highlighted. */
  lemma AtMostOneActive(role: string, pathname: string)
    ensures var items := NavItems(role);
      forall i, j :: 0 <= i < j < |items| ==>
        !(IsActive(role, pathname, items[i].path) && IsActive(role, pathname, items[j].path))
  {
    var items := NavItems(role);
    var d := DashboardPath(role);
    forall i, j | 0 <= i < j < |items|
      ensures !(IsActive(role, pathname, items[i].path) && IsActive(role, pathname, items[j].path))
    {
      var a, b := items[i].path, items[j].path;
      assert b != d && |b| > |d| + 1;
      if i > 0 {
        var k := if role == "admin" then 7 else 9;
        assert k < |a| && k < |b| && a[k] != b[k];
        DifferAt(a, b, k);
        Incomparable(pathname, a, b);
      }
    }
  }
}
