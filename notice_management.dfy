/** The faculty notice form: the state it keeps while a notice is created or
    edited, the removal marks set against the existing attachments, the request
    it submits, and which notices offer Edit and Delete.
    Line numbers in the comments below refer to frontend/src/pages/dashboard/faculty/NoticeManagement.jsx. */
module NoticeManagement {
  import opened Wrappers
  import opened Ordering
  import opened AttachmentEdit

  /** `notice.targetAudience` as the list endpoint delivers it: an array, a plain value,
      or nothing. */
  datatype AudienceValue = AudienceArray(items: seq<string>) | AudienceText(text: string) | AudienceMissing

  /** A notice as the page receives it; dates are day numbers and `postedBy` is the id of
      the poster, whether populated or not. */
  datatype NoticeView = NoticeView(
    id: string, title: string, content: string, category: string, targetAudience: AudienceValue,
    expiryDate: Option<int>, postedBy: Option<string>, attachments: seq<string>)

  /** The form fields; `targetAudience` is `None` where the form holds `undefined`, and
      `expiryDate` is `None` for the empty string. */
  datatype FormData = FormData(
    title: string, content: string, category: string, targetAudience: Option<string>, expiryDate: Option<int>)

  /** The value `resetForm` and the initial state give the form. */
  function BlankForm(): (f: FormData)
    ensures f.category == "general" && f.targetAudience == Some("all")
    ensures f.title == "" && f.content == "" && f.expiryDate.None?
  {
    FormData("", "", "general", Some("all"), None)
  }

  /** Line 64: the first element of an array, otherwise the value itself, falling back
      to `'all'` when that is empty or missing. */
  function EditAudience(a: AudienceValue): (r: Option<string>)
    ensures a.AudienceArray? ==> (r.Some? <==> |a.items| > 0) && (r.Some? ==> r.value == a.items[0])
    ensures a.AudienceText? && a.text != "" ==> r == Some(a.text)
    ensures (a.AudienceText? && a.text == "") || a.AudienceMissing? ==> r == Some("all")
  {
    match a
    case AudienceArray(items) => if |items| > 0 then Some(items[0]) else None
    case AudienceText(text) => Some(if text != "" then text else "all")
    case AudienceMissing => Some("all")
  }

  /** Lines 60-66: the form filled from a notice. */
  function EditForm(n: NoticeView): (f: FormData)
    ensures f.title == n.title && f.content == n.content && f.category == n.category
    ensures f.targetAudience == EditAudience(n.targetAudience) && f.expiryDate == n.expiryDate
  {
    FormData(n.title, n.content, n.category, EditAudience(n.targetAudience), n.expiryDate)
  }

  function Unequal(index: int): int -> bool
  {
    i => i != index
  }

  /** Line 77: the removal marks without any copy of `index`. */
  function Restored(marks: seq<int>, index: int): (r: seq<int>)
    ensures index !in r
    ensures forall i :: i in r <==> i in marks && i != index
  {
    Filter(marks, Unequal(index))
  }

  /** Every other mark keeps its number of copies. */
  lemma RestoredKeepsOthers(marks: seq<int>, index: int, j: int)
    requires j != index
    ensures multiset(Restored(marks, index))[j] == multiset(marks)[j]
  {
    FilterMultiset(marks, Unequal(index), j);
  }

  /** Restoring never introduces a repeated mark. */
  lemma RestoredDistinct(marks: seq<int>, index: int)
    requires NoRepeats(marks)
    ensures NoRepeats(Restored(marks, index))
  {
    NoRepeatsCounts(marks);
    forall x ensures multiset(Restored(marks, index))[x] <= 1 {
      FilterMultiset(marks, Unequal(index), x);
    }
    CountsNoRepeats(Restored(marks, index));
  }

  /** What `handleSubmit` sends: an update of the edited notice or a new notice. */
  datatype Target = UpdateOf(noticeId: string) | CreateNew

  datatype Submission = Submission(
    target: Target, title: string, content: string, category: string, targetAudience: Option<string>,
    expiryDate: Option<int>, removeAttachments: Option<seq<int>>, files: seq<string>)

  /** The signed-in user as the page stores it; an empty string is an absent id. */
  datatype SessionUser = SessionUser(underscoreId: string, id: string)

  /** `user._id || user.id`. */
  function SessionId(u: SessionUser): string
  {
    if u.underscoreId != "" then u.underscoreId else u.id
  }

  /** Lines 149-154: a notice is the user's own when both the poster and the user are
      known and the ids agree; only then are Edit and Delete offered (lines 332-356). */
  function IsOwnNotice(n: NoticeView, user: Option<SessionUser>): (own: bool)
    ensures user.None? || n.postedBy.None? ==> !own
    ensures own <==> user.Some? && n.postedBy == Some(SessionId(user.value))
  {
    if n.postedBy.None? || user.None? then false else n.postedBy.value == SessionId(user.value)
  }

  /** The state of the form component. */
  class NoticeForm {
    var formData: FormData
    var files: seq<string>
    var attachmentsToRemove: seq<int>
    var editingNotice: Option<NoticeView>
    var showForm: bool

    constructor ()
      ensures formData == BlankForm() && files == [] && attachmentsToRemove == []
      ensures editingNotice.None? && !showForm
      ensures Consistent()
    {
      formData := BlankForm();
      files := [];
      attachmentsToRemove := [];
      editingNotice := None;
      showForm := false;
    }

    /** How many attachments the edited notice lists; none while creating. */
    function Listed(): nat
      reads this
    {
      if editingNotice.Some? then |editingNotice.value.attachments| else 0
    }

    /** The marks the page can produce: distinct positions of listed attachments. */
    predicate Consistent()
      reads this
    {
      NoRepeats(attachmentsToRemove) &&
      forall k :: 0 <= k < |attachmentsToRemove| ==> 0 <= attachmentsToRemove[k] < Listed()
    }

    /** Lines 260-297: the Remove button is shown for a listed attachment not yet marked;
        otherwise it is the Restore button. */
    predicate OffersRemove(index: int)
      reads this
    {
      0 <= index < Listed() && index !in attachmentsToRemove
    }

    /** `resetForm`. */
    method Reset()
      modifies this
      ensures formData == BlankForm() && files == [] && attachmentsToRemove == []
      ensures editingNotice.None? && !showForm
      ensures Consistent()
    {
      formData := BlankForm();
      files := [];
      attachmentsToRemove := [];
      editingNotice := None;
      showForm := false;
    }

    /** `handleEdit`. */
    method Edit(n: NoticeView)
      modifies this
      ensures editingNotice == Some(n) && formData == EditForm(n)
      ensures files == [] && attachmentsToRemove == [] && showForm
      ensures Consistent()
    {
      editingNotice := Some(n);
      formData := EditForm(n);
      files := [];
      attachmentsToRemove := [];
      showForm := true;
    }

    /** `handleRemoveAttachment`: the index is appended; clicked from the Remove button the
        marks stay distinct positions of listed attachments. */
    method RemoveAttachment(index: int)
      modifies this
      ensures attachmentsToRemove == old(attachmentsToRemove) + [index]
      ensures formData == old(formData) && files == old(files)
      ensures editingNotice == old(editingNotice) && showForm == old(showForm)
      ensures old(Consistent() && OffersRemove(index)) ==> Consistent()
    {
      attachmentsToRemove := attachmentsToRemove + [index];
    }

    /** `handleRestoreAttachment`: every copy of the index goes, the rest keep their order. */
    method RestoreAttachment(index: int)
      modifies this
      ensures attachmentsToRemove == Restored(old(attachmentsToRemove), index)
      ensures formData == old(formData) && files == old(files)
      ensures editingNotice == old(editingNotice) && showForm == old(showForm)
      ensures old(Consistent()) ==> Consistent()
    {
      var marks := Restored(attachmentsToRemove, index);
      if Consistent() {
        RestoredDistinct(attachmentsToRemove, index);
        forall k | 0 <= k < |marks| ensures 0 <= marks[k] < Listed() {
          assert marks[k] in attachmentsToRemove;
        }
      }
      attachmentsToRemove := marks;
    }

    /** `handleFileChange`. */
    method ChooseFiles(chosen: seq<string>)
      modifies this
      ensures files == chosen
      ensures formData == old(formData) && attachmentsToRemove == old(attachmentsToRemove)
      ensures editingNotice == old(editingNotice) && showForm == old(showForm)
    {
      files := chosen;
    }

    /** Lines 85-112: the request `handleSubmit` sends. The removal marks are sent only
        while editing and when there is at least one; the expiry date only when set. A
        `targetAudience` of `None` is the form's `undefined`, which `FormData.append` sends
        as the string "undefined". */
    function Submitted(): (s: Submission)
      reads this
      ensures s.target.CreateNew? <==> editingNotice.None?
      ensures s.target.UpdateOf? ==> s.target.noticeId == editingNotice.value.id
      ensures s.removeAttachments.Some? <==> (editingNotice.Some? && |attachmentsToRemove| > 0)
      ensures s.removeAttachments.Some? ==> s.removeAttachments.value == attachmentsToRemove
      ensures s.title == formData.title && s.expiryDate == formData.expiryDate && s.files == files
      ensures s.content == formData.content && s.category == formData.category
      ensures s.targetAudience == formData.targetAudience
    {
      Submission(
        if editingNotice.Some? then UpdateOf(editingNotice.value.id) else CreateNew,
        formData.title, formData.content, formData.category, formData.targetAudience, formData.expiryDate,
        if editingNotice.Some? && |attachmentsToRemove| > 0 then Some(attachmentsToRemove) else None,
        files)
    }
  }

  /** The marks a consistent form submits remove, on the server, exactly the attachments
      they point at: the others survive in their order and the list shrinks by the number
      of marks. */
  lemma SubmittedMarksRemoveExactly<T>(attachments: seq<T>, marks: seq<int>)
    requires NoRepeats(marks)
    requires forall k :: 0 <= k < |marks| ==> 0 <= marks[k] < |attachments|
    ensures RemoveAll(attachments, RemovalOrder(marks)) == Keep(attachments, Elems(marks))
    ensures |RemoveAll(attachments, RemovalOrder(marks))| == |attachments| - |marks|
  {
    RemoveDistinctInRange(attachments, marks);
  }

  /** The form as a whole: after editing a notice and any run of clicks on the buttons the
      page offers, the submission carries marks the server applies exactly. */
  datatype Click = RemoveClick(index: int) | RestoreClick(index: int)

  /** The marks after a run of clicks, with a Remove click taking effect only where the page
      shows the Remove button. */
  function AfterClicks(marks: seq<int>, listed: nat, clicks: seq<Click>): seq<int>
    decreases |clicks|
  {
    if clicks == [] then marks
    else
      var next := match clicks[0]
        case RemoveClick(i) => if 0 <= i < listed && i !in marks then marks + [i] else marks
        case RestoreClick(i) => Restored(marks, i);
      AfterClicks(next, listed, clicks[1..])
  }

  lemma {:induction false} AfterClicksConsistent(marks: seq<int>, listed: nat, clicks: seq<Click>)
    requires NoRepeats(marks) && forall k :: 0 <= k < |marks| ==> 0 <= marks[k] < listed
    ensures var r := AfterClicks(marks, listed, clicks);
      NoRepeats(r) && forall k :: 0 <= k < |r| ==> 0 <= r[k] < listed
    decreases |clicks|
  {
    if clicks != [] {
      match clicks[0]
      case RemoveClick(i) =>
        if 0 <= i < listed && i !in marks {
          var next := marks + [i];
          forall a, b | 0 <= a < b < |next| ensures next[a] != next[b] {
            if b == |marks| {
              assert next[a] == marks[a];
            }
          }
          AfterClicksConsistent(next, listed, clicks[1..]);
        } else {
          AfterClicksConsistent(marks, listed, clicks[1..]);
        }
      case RestoreClick(i) =>
        var next := Restored(marks, i);
        RestoredDistinct(marks, i);
        forall k | 0 <= k < |next| ensures 0 <= next[k] < listed {
          assert next[k] in marks;
        }
        AfterClicksConsistent(next, listed, clicks[1..]);
    }
  }

  /** Starting from the empty marks `handleEdit` leaves, any run of offered clicks yields
      marks the server applies exactly. */
  lemma ClickedMarksRemoveExactly<T>(attachments: seq<T>, clicks: seq<Click>)
    ensures var marks := AfterClicks([], |attachments|, clicks);
      RemoveAll(attachments, RemovalOrder(marks)) == Keep(attachments, Elems(marks)) &&
      |RemoveAll(attachments, RemovalOrder(marks))| == |attachments| - |marks|
  {
    AfterClicksConsistent([], |attachments|, clicks);
    SubmittedMarksRemoveExactly(attachments, AfterClicks([], |attachments|, clicks));
  }
}
