/** The persistent state the routes share: the four collections and the set
    of paths present in the upload directory. */
module Database {
  import opened Common
  import opened DocumentModel
  import opened NoticeModel
  import opened CalendarEvent

  class Store {
    var users: seq<User>
    var documents: seq<Document>
    var notices: seq<Notice>
    var events: seq<Event>
    /** The paths `fs.existsSync` answers true for. */
    var files: set<string>

    constructor (users: seq<User>, documents: seq<Document>, notices: seq<Notice>, events: seq<Event>, files: set<string>)
      ensures this.users == users && this.documents == documents && this.notices == notices
      ensures this.events == events && this.files == files
    {
      this.users := users;
      this.documents := documents;
      this.notices := notices;
      this.events := events;
      this.files := files;
    }
  }

  function DocumentId(d: Document): string { d.id }
  function NoticeId(n: Notice): string { n.id }
  function UserId(u: User): string { u.id }
  function EventId(e: Event): string { e.id }

  /** The sequence without its element at `k`, the effect of `deleteOne()`. */
  function RemoveAt<T>(s: seq<T>, k: nat): (r: seq<T>)
    requires k < |s|
    ensures |r| == |s| - 1
    ensures forall j :: 0 <= j < k ==> r[j] == s[j]
    ensures forall j :: k <= j < |r| ==> r[j] == s[j + 1]
  {
    s[..k] + s[k + 1..]
  }
}
