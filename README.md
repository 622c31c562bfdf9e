# College portal core: documents, notices, users and calendar

This project models the server routes and client pieces of a college portal. Admins, faculty and students share documents, notices and calendar events there. The model covers:

- **Access rules.** Who may list, read, download, create, change and delete what. This covers role, owner, audience and department gates.
- **Listing pipelines.** The query, filters, sort and pagination, including how the document feed merges notice attachments into the document list.
- **Download counters.** What each download adds to them.
- **Notice editing.** Removing attachments by index.
- **Client state.** The notice management form, the sign-up form, the route guard, the navigation menu, and the academic calendar's day map.

The data lives in `Database.Store`, a class with one sequence per collection and the set of stored file paths. Route handlers that change data are methods on it. Each method is tied to a function stating the reply and the new state, and lemmas state what the routes promise.

Conventions:

- A reply is a `Reply<T>`: `Success`, `NotFound`, `Forbidden`, `BadRequest` or `ServerError`, mirroring the HTTP status sent.
- An id that is not 24 hexadecimal digits fails the ObjectId cast, which the routes report as a server error.
- Request values are `Option<string>`. `Given` is JavaScript truthiness: present and non-empty.
- Time is an integer parameter `now`. The calendar's dates are day numbers.

The modules:

| module | file |
|---|---|
| `Wrappers`, `Strings`, `Ordering`, `Common` | option/reply types; string helpers (digits, split/join, integer parsing); stable descending sort, filter, JavaScript `slice` and skip/limit windows; roles, audiences, id lookup and the edit gate |
| `DocumentModel`, `NoticeModel`, `CalendarEvent`, `Database` | the schemas and the store |
| `DocumentsRoute`, `NoticesRoute`, `AttachmentEdit`, `UsersRoute`, `CalendarRoute` | the server routes |
| `NoticeManagement`, `Signup`, `ProtectedRoute`, `Layout`, `AcademicCalendar` | the client pieces |

Two behaviours are easy to misread, and the model follows the code in both:

- **A faculty member's own notices.** The comment at `backend/routes/notices.js:183` says faculty can always see the notices they created. The code widens only the audience clause, though. The expiry condition and the creator-department filter still apply to the faculty member's own notices (`NoticesRoute.OwnNoticeStillFiltered`).
- **The calendar date bounds.** `startDate` and `endDate` are pushed into one `$or`. An event is listed when it starts on or after `startDate` OR ends on or before `endDate`. The bounds do not form a window (`CalendarRoute.BoundsAreAlternatives`).

## Model

| member | source | states |
|---|---|---|
| Common.Locate | backend/routes/documents.js:229-237 | a malformed id is a server error; a well-formed id gives the index of a stored record with that id, or NotFound exactly when none has it |
| Common.EditGate | backend/routes/documents.js:454-473 | students are refused; for staff an unknown id is NotFound and a malformed one a server error; an admin gets the plain lookup; a faculty member succeeds only on a record they own; success returns the record's index |
| Common.GatesAgree | backend/routes/notices.js:203-229 | the listing's creator filter and the single-item department gate agree whenever the creator exists; a missing creator drops the item from listings but blocks nothing on direct access |
| Common.AudienceListRoundTrip | backend/routes/notices.js:424 | splitting the comma-joined audience names of a non-empty audience list gives that list back |
| Common.ParseEach | backend/routes/notices.js:424 | a parsed list has one entry per part, each the parse of its part; a failure names a part that does not parse |
| DocumentModel.NewDocument | backend/models/Document.js:3-63 | creation succeeds exactly when the title is not blank once trimmed, the other required fields are present and the enums parse; an accepted record has its required strings non-empty, its trimmed fields trimmed, and no 'all' in its access level |
| DocumentModel.NewDocumentFacts | backend/models/Document.js:3-63 | an accepted record stores title, description and department trimmed; the file fields, uploader and tags as given; a given category and access level entry by entry as parsed; and the defaults category other, access for students, zero downloads, active, both timestamps at creation |
| Strings.TrimIsTrimmed | backend/models/Document.js:4-8 | the `trim` setter leaves a value that neither starts nor ends with JavaScript white space |
| Strings.TrimmedIsFixed | backend/models/Document.js:48-51 | a value that is already trimmed passes through the `trim` setter unchanged |
| DocumentModel.ParseDocCategoryName | backend/models/Document.js:38-42 | every category name parses back to its category |
| DocumentModel.ParseAccessEntry | backend/models/Document.js:43-47 | only the three role names are valid access entries; 'all' is rejected |
| DocumentModel.AccessIsRoleOnly | backend/models/Document.js:43-47 | for a document the schema accepts, a role is admitted exactly when the role itself is listed |
| NoticeModel.NewNotice | backend/models/Notice.js:13-48 | creation succeeds exactly when the title is not blank once trimmed, the content is present and the enums parse; title and department are stored trimmed; category defaults to general and audience to ['all']; the other given fields are stored |
| NoticeModel.ParseNoticeCategoryName | backend/models/Notice.js:13-17 | every notice category name parses back to its category |
| NoticeModel.NewAttachment | backend/models/Notice.js:28-37 | an attachment keeps the upload's original name, path, type and size and starts at zero downloads |
| Ordering.SortDescFacts | backend/routes/documents.js:57 | the newest-first sort is sorted, a permutation of its input, and keeps records with equal timestamps in their stored order |
| Ordering.PageWindow | backend/routes/documents.js:86 | `slice((page-1)*limit, page*limit)` for page >= 1 is the clamped index window and holds at most `limit` records |
| Ordering.MongoPageIsSlice | backend/routes/users.js:21-25 | skip/limit paging with page >= 1 and limit > 0 takes the same window as the array slice |
| Ordering.PageZeroIsEmpty | backend/routes/documents.js:86 | page 0 slices to the empty list |
| Database.RemoveAt | backend/routes/documents.js:519-525 | deleting a record keeps every other record, in order |
| DocumentsRoute.VisibleDocumentsFacts | backend/routes/documents.js:11-82 | a document is listed exactly when it matches the query and passes the uploader filter; the list is newest first |
| DocumentsRoute.ListedDocumentForNonAdmin | backend/routes/documents.js:15-82 | a document listed to a non-admin is active and open to their role or to all, matches the search, has a known uploader, and a faculty uploader's department agrees when both departments are set |
| DocumentsRoute.AdminSkipsCreatorFilter | backend/routes/documents.js:61-82 | for an admin, every document matching the query is listed |
| DocumentsRoute.FeedNoticesFacts | backend/routes/documents.js:99-152 | a notice feeds attachments into the list exactly when it matches the notice query and passes the creator filter |
| DocumentsRoute.ProjectAttachments | backend/routes/documents.js:155-199 | the projection loop builds the projections of every attachment the query selects, notice by notice |
| DocumentsRoute.ProjectNotice | backend/routes/documents.js:157-198 | the inner loop projects, in attachment order, exactly the attachments of one notice that the query selects |
| DocumentsRoute.NoticeProjectionsSound | backend/routes/documents.js:155-199 | every projection comes from a selected attachment of its notice, at its own index |
| DocumentsRoute.NoticeProjectionsComplete | backend/routes/documents.js:155-199 | every selected attachment of a notice has its projection |
| DocumentsRoute.NoticeProjectionsOrdered | backend/routes/documents.js:155-199 | a notice's projections appear in attachment order |
| DocumentsRoute.ProjectionsFacts | backend/routes/documents.js:155-199 | the projections are exactly those of the listed notices together |
| DocumentsRoute.ProjectionRecord | backend/routes/documents.js:175-195 | a projection carries the synthetic id `notice_<id>_<index>`, the notice's date and mapped category, the attachment's name and count, and student-only access |
| DocumentsRoute.ListDocuments | backend/routes/documents.js:11-219 | the list request answers the feed: paged documents alone, or merged with projections |
| DocumentsRoute.MergeFacts | backend/routes/documents.js:204-219 | the total counts the visible documents plus all projections; without projections the page is the document page; with them the merged list is newest first and draws only on the page and the projections |
| DocumentsRoute.MergeOrder | backend/routes/documents.js:203-211 | the first `limit` entries of the sorted union are newest first and each is a page document or a projection |
| DocumentsRoute.MergeScenario | backend/routes/documents.js:204-219 | worked example of the merge: a two-document page with one newer projection and limit 2 yields the projection and the newer document, total 3 |
| DocumentsRoute.ProjectionsFillPage | backend/routes/documents.js:204-213 | when at least `limit` projections are all newer than the page, the merged list is their newest `limit` and no document appears |
| DocumentsRoute.ProjectionsRepeatOnEveryPage | backend/routes/documents.js:204-213 | in that case every page of the listing shows the same entries |
| DocumentsRoute.GetDocument | backend/routes/documents.js:229-260 | a document is returned exactly when it exists and its access level admits the role; a refusal means it exists |
| DocumentsRoute.GetDocumentIgnoresDepartmentAndActive | backend/routes/documents.js:240-248 | direct access depends on neither departments nor the active flag |
| DocumentsRoute.ParseDownloadId | backend/routes/documents.js:266-287 | an id starting `notice_` with exactly three `_`-separated parts names a notice attachment, anything else a document |
| DocumentsRoute.SyntheticIdRoundTrip | backend/routes/documents.js:177 | parsing a projection's synthetic id recovers its notice id and attachment index |
| DocumentsRoute.DownloadDecision | backend/routes/documents.js:263-388 | a successful download names a counter that exists in the store; the route never answers bad request |
| DocumentsRoute.AttachmentDownload | backend/routes/documents.js:272-322 | success names an attachment of a stored notice |
| DocumentsRoute.AttachmentOf | backend/routes/documents.js:282-322 | success names an attachment of the notice at `k` |
| DocumentsRoute.DocumentDownload | backend/routes/documents.js:345-388 | success names a stored document |
| DocumentsRoute.DocumentDownloadCases | backend/routes/documents.js:345-388 | an unknown document is NotFound and a malformed id a server error; a located one is Forbidden exactly when its access level admits neither the role nor 'all', or a non-admin meets a faculty uploader's clashing department; it succeeds exactly when allowed and its file exists, naming the located document's counter |
| DocumentsRoute.AttachmentOfCases | backend/routes/documents.js:282-322 | a missing or out-of-range index is NotFound before any access check; Forbidden exactly when a student is outside an audience of 'student' or 'all', or a non-admin meets a faculty creator's clashing department; success exactly when allowed and the file exists, naming attachment `index` |
| DocumentsRoute.AttachmentDownloadCases | backend/routes/documents.js:272-322 | an unknown notice is NotFound and a malformed id a server error; a located notice is handed to the checks on that notice |
| DocumentsRoute.ForbiddenIgnoresFiles | backend/routes/documents.js:291-322 | whether a download is refused does not depend on which files exist on disk |
| DocumentsRoute.FacultyAttachmentIgnoresAudience | backend/routes/documents.js:291-314 | for faculty, a notice attachment's outcome does not depend on the notice's audience |
| DocumentsRoute.AttachmentDownloadIgnoresAudience | backend/routes/documents.js:272-322 | changing one notice's audience leaves every faculty attachment download unchanged |
| DocumentsRoute.FacultyAttachmentOfIgnoresAudience | backend/routes/documents.js:291-314 | the checks on one notice give faculty the same answer whatever its audience |
| DocumentsRoute.ProjectionDownloadsItsAttachment | backend/routes/documents.js:266-330 | downloading by a synthetic id reaches exactly that attachment's counter, or is refused, or reports a missing file |
| DocumentsRoute.MalformedSyntheticIdIsServerError | backend/routes/documents.js:266-287 | a `notice_` id with the wrong number of parts fails the ObjectId cast as a document id: server error |
| DocumentsRoute.BumpDocumentAddsOne | backend/routes/documents.js:390-392 | a document download raises the total of document counters by exactly one and changes no other document |
| DocumentsRoute.BumpAttachmentAddsOne | backend/routes/documents.js:325-330 | an attachment download raises the total of attachment counters by one and changes no other notice or attachment; a missing count counts as zero |
| DocumentsRoute.Download | backend/routes/documents.js:263-410 | the reply is the download decision; success bumps exactly the named counter; a failure changes nothing |
| DocumentsRoute.UploadDefaults | backend/routes/documents.js:411-440 | an upload succeeds only for staff with a file; the new document belongs to the uploader, starts at zero downloads and active, takes the file's path and name, and defaults category, access and tags |
| DocumentsRoute.UploadRejectsAll | backend/routes/documents.js:432 | an access level containing 'all' fails schema validation: server error |
| DocumentsRoute.Upload | backend/routes/documents.js:411-452 | success appends the new document; the file stays on disk whenever staff send one, even when validation fails |
| DocumentsRoute.MergeDocumentFacts | backend/routes/documents.js:473-482 | a successful update keeps identity, uploader, file, counter and creation date; each given field is written (title, description and department trimmed, access level entry by entry, tags split on commas) and each falsy one kept; an update that changes no field returns the stored record, `updatedAt` included, and any other refreshes `updatedAt`; the record stays as the schema writes it |
| DocumentsRoute.EmptyDocumentUpdateKeepsRecord | backend/routes/documents.js:473-482 | an update whose body gives no field returns the stored record unchanged, so the timestamps leave `updatedAt` alone |
| DocumentsRoute.MergeDocumentAccepts | backend/routes/documents.js:473-482 | for a stored document, the update passes validation exactly when a given category and access entries are in their enums and a given title is not blank once trimmed |
| DocumentsRoute.UploadTrims | backend/routes/documents.js:422-435 | an upload whose title is missing or all blanks is a server error; a stored upload has the trimmed title and department |
| DocumentsRoute.UpdateDocument | backend/routes/documents.js:454-500 | success replaces exactly the gated document; a failure changes nothing |
| DocumentsRoute.DeleteDocument | backend/routes/documents.js:501-540 | success removes the gated document and its file; a failure changes nothing |
| NoticesRoute.ListedNoticesFacts | backend/routes/notices.js:133-229 | a notice is listed exactly when it matches the role's query and passes the creator filter; the list is newest first |
| NoticesRoute.AdminListsAllActive | backend/routes/notices.js:137-195 | an admin sees every active, unexpired notice of the chosen category |
| NoticesRoute.StudentListing | backend/routes/notices.js:137-229 | a student sees an active, unexpired notice addressed to students or all, of the category, whose creator's department allows it |
| NoticesRoute.OwnNoticeStillFiltered | backend/routes/notices.js:137-229 | a faculty member's own notice is still hidden when expired or from another department |
| NoticesRoute.OwnNoticePassesAudience | backend/routes/notices.js:137-195 | a faculty member's own notice passes the audience clause whatever its audience |
| NoticesRoute.ListNoticesPage | backend/routes/notices.js:233-234 | the page is `slice((page-1)*limit, page*limit)` of the filtered list, at most `limit` long, and the total counts the whole list |
| NoticesRoute.GetNotice | backend/routes/notices.js:335-383 | a notice is returned exactly when it exists, its creator is known, and the reader is its poster or is admitted by audience and, unless admin, by department; NotFound exactly when absent |
| NoticesRoute.AdminMeetsAudienceOnGet | backend/routes/notices.js:351-352 | an admin is refused a notice whose audience leaves out admins, unless they posted it |
| NoticesRoute.GetNoticeIgnoresActiveAndExpiry | backend/routes/notices.js:335-383 | direct access ignores the active flag and the expiry date |
| NoticesRoute.AttachmentDecision | backend/routes/notices.js:251-318 | a served attachment's file exists; the route never answers bad request |
| NoticesRoute.AttachmentDecisionFacts | backend/routes/notices.js:271-318 | the admin and the poster get the file exactly when it exists; anyone else is refused exactly when audience or department blocks them; whoever is not refused gets that attachment exactly when its file is on disk, and 404 otherwise |
| NoticesRoute.AttachmentDecisionEarlyExits | backend/routes/notices.js:251-275 | a malformed notice id is a 500 and an unknown one a 404; an index that does not parse or names no attachment is a 404 before any access check; a poster with no user record is a 500 for every role, admins included |
| NoticesRoute.AttachmentIndexPastEnd | backend/routes/notices.js:262-269 | a written-out index at or past the end of the attachment list is a 404 |
| NoticesRoute.DownloadAttachment | backend/routes/notices.js:251-330 | the reply is the decision, and a served attachment belongs to a stored notice |
| NoticesRoute.RoutesDisagreeForFaculty | backend/routes/notices.js:277-308 | the same student-only attachment of an admin's notice downloads for faculty through the document route but is refused by the notice route |
| NoticesRoute.DocumentsRouteAllows | backend/routes/documents.js:291-314 | through the documents route, faculty download an existing attachment of an admin's notice whatever its audience |
| NoticesRoute.NoticesRouteRefuses | backend/routes/notices.js:277-292 | through the notices route, faculty who did not post a student-only notice are refused its attachment |
| NoticesRoute.NewAttachments | backend/routes/notices.js:402-413 | one attachment per upload, in upload order |
| NoticesRoute.BuildAttachments | backend/routes/notices.js:402-413 | the loop builds the same attachments |
| NoticesRoute.CreateDepartment | backend/routes/notices.js:416-418 | an admin's given department is used; otherwise the poster's own, or null |
| NoticesRoute.CreateDefaults | backend/routes/notices.js:398-429 | a created notice belongs to its poster, is active with zero-count attachments, has the trimmed non-blank title, defaults category and audience, splits a given audience on commas, and takes the department rule with the department trimmed |
| NoticesRoute.EmailRecipients | backend/routes/notices.js:12-32 | mail goes to exactly the active students, of the notice's department when it has one, and only when the audience includes students or all |
| NoticesRoute.CreateNotice | backend/routes/notices.js:398-452 | success appends the notice and mails the recipients; uploads stay on disk whenever staff send them |
| NoticesRoute.MergeNoticeFacts | backend/routes/notices.js:517-530 | a successful merge of a stored notice keeps identity, poster, attachments and dates; a given title is written trimmed, given content and category are written, a given audience is the comma-split list, a given expiry date is written and a missing one kept; the admin and faculty department rules apply, trimmed; the record stays as the schema writes it |
| NoticesRoute.MergeNoticeAccepts | backend/routes/notices.js:517-532 | for a stored notice, the update passes validation exactly when a given category and audience entries are in their enums and a given title is not blank once trimmed |
| NoticesRoute.AssignedFacts | backend/routes/notices.js:517-530 | the assignments leave the title non-empty exactly when a given title is not blank, write the trimmed given title or keep the old one, and keep the record trimmed |
| NoticesRoute.UpdateOutcome | backend/routes/notices.js:456-540 | students, and faculty on another's notice, are refused; success needs the edit gate |
| NoticesRoute.UpdateAttachmentsDistinct | backend/routes/notices.js:478-515 | with distinct indices, the new attachments are the kept old ones followed by the uploads, and the count drops by the number of in-range indices |
| NoticesRoute.ExpiryNeverCleared | backend/routes/notices.js:521 | an update never removes an existing expiry date |
| NoticesRoute.NoticeDocument.RemoveAttachments | backend/routes/notices.js:478-502 | the loop removes the indices in descending order, splicing out only those in range, and returns the removed paths |
| NoticesRoute.NoticeDocument.AppendFiles | backend/routes/notices.js:505-515 | the uploads are appended after the remaining attachments |
| NoticesRoute.NoticeDocument.AssignFields | backend/routes/notices.js:517-532 | fields change exactly when the merge passes validation, and then to the merged notice |
| NoticesRoute.NoticeDocument.WriteFields | backend/routes/notices.js:517-530 | given fields replace title (trimmed) and content, category and audience take the parsed values, the expiry date is replaced only when given, the department follows the role rule, and nothing else changes |
| NoticesRoute.EditLoaded | backend/routes/notices.js:475-532 | the saved notice is the merged edit of the loaded notice, with `updatedAt` refreshed only when the edit changed something; absent when the schema rejects it; the unlinked paths are those of the removed attachments |
| NoticesRoute.UpdatedNotice | backend/routes/notices.js:475-532 | the saved notice keeps its id and creation date; when nothing but `updatedAt` could differ it is the stored notice itself, and when anything else changed `updatedAt` is the time of the update |
| NoticesRoute.EmptyNoticeUpdateKeepsRecord | backend/routes/notices.js:475-532 | an update that gives no field, removes and uploads nothing and leaves the department alone returns the stored notice unchanged, `updatedAt` included |
| NoticesRoute.UpdateNotice | backend/routes/notices.js:456-547 | success replaces exactly the gated notice; the files left on disk are stated for every outcome |
| NoticesRoute.DeleteGate | backend/routes/notices.js:550-578 | students get 403; an admin gets the lookup; for a faculty member a missing notice is the lookup's error, a poster with no user record is a 500, a poster who is an admin or someone else is a 403, and success means the actor is the notice's non-admin poster |
| NoticesRoute.DeleteGateIsEditGate | backend/routes/notices.js:550-578 | with known users, the delete gate is the shared edit gate |
| NoticesRoute.DeleteNotice | backend/routes/notices.js:550-590 | success removes the notice but leaves its files on disk; a failure changes nothing |
| AttachmentEdit.RemoveDistinct | backend/routes/notices.js:478-502 | for distinct indices, the descending splices keep exactly the attachments whose index is not marked |
| AttachmentEdit.RemoveDistinctInRange | backend/routes/notices.js:478-502 | distinct in-range indices remove exactly that many attachments |
| AttachmentEdit.RemoveAllDescending | backend/routes/notices.js:483-495 | splicing a strictly descending index list keeps the unmarked attachments |
| AttachmentEdit.RepeatedIndexRemovesTwo | backend/routes/notices.js:483-495 | a repeated index splices twice: [1, 1] removes two attachments of three |
| AttachmentEdit.SpliceOut | backend/routes/notices.js:495 | an in-range splice shortens by one; an out-of-range index changes nothing |
| UsersRoute.MatchingUsersFacts | backend/routes/users.js:7-25 | a user matches exactly when role and search agree; the list is newest first |
| UsersRoute.ListUsersFacts | backend/routes/users.js:7-41 | non-admins are refused; for valid paging the page is the window of the matches, at most `limit` long, and the total counts all matches |
| UsersRoute.PageZeroIsServerError | backend/routes/users.js:21-25 | page 0 asks for a negative skip: server error |
| UsersRoute.GetUser | backend/routes/users.js:44-73 | a user is returned exactly when found and the reader is not a student reading someone else; NotFound and Forbidden exactly in their cases |
| UsersRoute.Stripped | backend/routes/users.js:96-99 | a non-admin's update loses role and active flag; an admin's is untouched |
| UsersRoute.UpdateUserFacts | backend/routes/users.js:76-117 | a successful update keeps id and creation date; a non-admin keeps role and active flag; an admin writes a given role and active flag; every other present key is written and every absent one kept; a non-admin changing another user is refused; an allowed update fails only on a role outside the enum |
| UsersRoute.UpdateUser | backend/routes/users.js:76-117 | success replaces exactly that user; a failure changes nothing |
| UsersRoute.DeleteUserGate | backend/routes/users.js:120-131 | only admins may delete; they get the lookup |
| UsersRoute.DeleteUser | backend/routes/users.js:120-143 | success removes exactly that user |
| UsersRoute.DeletedUserIsGone | backend/routes/users.js:120-131 | after deletion the user is not found, so the creator filter of every listing drops their documents and notices |
| UsersRoute.MatchingStudentsFacts | backend/routes/users.js:146-172 | a student record is listed exactly when it lies in the actor's department scope and matches the search |
| UsersRoute.FacultySeesOwnDepartment | backend/routes/users.js:153-155 | a faculty member with a department sees only students of that department, whatever department the query names |
| UsersRoute.FacultyWithoutDepartmentSeesAll | backend/routes/users.js:153-157 | a faculty member without a department sees every student the search matches |
| UsersRoute.ListStudentsDefaultPage | backend/routes/users.js:148-175 | without paging parameters the page is the first 20 matches and the total counts them all |
| CalendarRoute.ListEventsFacts | backend/routes/calendar.js:7-42 | listed events are exactly the active ones of the type and date condition, earliest start first, as a permutation of the filtered events |
| CalendarRoute.BoundsAreAlternatives | backend/routes/calendar.js:17-25 | an event starting after the end bound is still listed when it starts after the start bound |
| CalendarRoute.NoBoundsListsAllActive | backend/routes/calendar.js:11-29 | without bounds every active event of the type is listed |
| CalendarRoute.GetEvent | backend/routes/calendar.js:45-67 | an event is returned exactly when it exists, whatever its active flag; a malformed id is a server error |
| CalendarRoute.CreatedEvent | backend/routes/calendar.js:74-81 | the new event has the creator, is active, and its type defaults to 'other' |
| CalendarRoute.CreateEvent | backend/routes/calendar.js:70-97 | students are refused; staff append exactly the created event |
| CalendarRoute.CreatedEventIsFound | backend/routes/calendar.js:70-97 | a created event can be fetched by its id and is listed without filters |
| CalendarRoute.MergeEvent | backend/routes/calendar.js:121-125 | an update keeps id, creator and active flag |
| CalendarRoute.MergeEventFacts | backend/routes/calendar.js:121-125 | an empty update changes nothing, an empty string means not given, each given field (title, description, start, end, type) is written and each falsy one kept, nothing is cleared, and applying an update twice equals once |
| CalendarRoute.UpdateEvent | backend/routes/calendar.js:100-143 | success replaces the gated event with its merge; a failure passes the gate's reply on and changes nothing |
| CalendarRoute.DeleteEvent | backend/routes/calendar.js:146-177 | success removes exactly the gated event |
| CalendarRoute.EventEditRights | backend/routes/calendar.js:104-117 | faculty may edit only their own event, admins any existing one, students none |
| NoticeManagement.BlankForm | frontend/src/pages/dashboard/faculty/NoticeManagement.jsx:44-56 | the reset form is empty with category general and audience all |
| NoticeManagement.EditAudience | frontend/src/pages/dashboard/faculty/NoticeManagement.jsx:64 | an audience array offers its first entry, or none when empty; a non-empty string is kept; otherwise 'all' |
| NoticeManagement.EditForm | frontend/src/pages/dashboard/faculty/NoticeManagement.jsx:58-70 | editing fills the form from the notice's fields |
| NoticeManagement.Restored | frontend/src/pages/dashboard/faculty/NoticeManagement.jsx:76-78 | restoring drops every mark of that index and keeps the others |
| NoticeManagement.RestoredKeepsOthers | frontend/src/pages/dashboard/faculty/NoticeManagement.jsx:76-78 | restoring one index keeps the multiplicity of every other mark |
| NoticeManagement.RestoredDistinct | frontend/src/pages/dashboard/faculty/NoticeManagement.jsx:76-78 | restoring keeps distinct marks distinct |
| NoticeManagement.IsOwnNotice | frontend/src/pages/dashboard/faculty/NoticeManagement.jsx:149-154 | a notice is the user's own exactly when both poster and user are known and their ids agree |
| NoticeManagement.NoticeForm.constructor | frontend/src/pages/dashboard/faculty/NoticeManagement.jsx:9-22 | the form starts blank, closed, with no files or marks |
| NoticeManagement.NoticeForm.Reset | frontend/src/pages/dashboard/faculty/NoticeManagement.jsx:44-56 | resetting restores the blank, closed form and keeps it consistent |
| NoticeManagement.NoticeForm.Edit | frontend/src/pages/dashboard/faculty/NoticeManagement.jsx:58-70 | editing opens the form on the notice with no files or marks |
| NoticeManagement.NoticeForm.RemoveAttachment | frontend/src/pages/dashboard/faculty/NoticeManagement.jsx:72-74 | a click appends the index; when the button was offered, the marks stay distinct and in range |
| NoticeManagement.NoticeForm.RestoreAttachment | frontend/src/pages/dashboard/faculty/NoticeManagement.jsx:76-78 | a click removes the index's marks and keeps the form consistent |
| NoticeManagement.NoticeForm.ChooseFiles | frontend/src/pages/dashboard/faculty/NoticeManagement.jsx:40-42 | choosing files replaces the file list and nothing else |
| NoticeManagement.NoticeForm.Submitted | frontend/src/pages/dashboard/faculty/NoticeManagement.jsx:80-121 | the request updates the edited notice or creates one; title, content, category and audience are sent as typed (an absent value being JavaScript's `undefined`); removal marks are sent exactly when editing with marks |
| NoticeManagement.SubmittedMarksRemoveExactly | frontend/src/pages/dashboard/faculty/NoticeManagement.jsx:93-95 | distinct in-range marks make the server remove exactly the marked attachments |
| NoticeManagement.AfterClicksConsistent | frontend/src/pages/dashboard/faculty/NoticeManagement.jsx:256-300 | any sequence of Remove and Restore clicks yields distinct, in-range marks |
| NoticeManagement.ClickedMarksRemoveExactly | frontend/src/pages/dashboard/faculty/NoticeManagement.jsx:256-300 | whatever the clicks, the server removes exactly the marked attachments |
| Signup.InitialForm | frontend/src/pages/auth/Signup.jsx:9-18 | the form starts empty with role student |
| Signup.Changed | frontend/src/pages/auth/Signup.jsx:23-45 | a name with a digit is refused; a phone is reduced to its digits and refused beyond ten; other fields take the value |
| Signup.ChangedKeepsTyped | frontend/src/pages/auth/Signup.jsx:23-45 | typing keeps the name digit-free and the phone at most ten digits |
| Signup.InitialFormTyped | frontend/src/pages/auth/Signup.jsx:9-18 | the initial form meets those conditions |
| Signup.Submit | frontend/src/pages/auth/Signup.jsx:47-87 | once the browser's own form checks let it run, the handler sends the registration exactly when all four checks pass; each failure is the first failing check; the student id is sent only for students |
| Signup.TypedFormChecks | frontend/src/pages/auth/Signup.jsx:52-62 | a typed form never fails the name check, and its phone check is a length test |
| Signup.LandingPage | frontend/src/pages/auth/Signup.jsx:91-96 | faculty land on their dashboard, everyone else on the student one |
| Signup.SignupForm.constructor | frontend/src/pages/auth/Signup.jsx:9-19 | the component starts on the initial form, not loading |
| Signup.SignupForm.OnChange | frontend/src/pages/auth/Signup.jsx:23-45 | a keystroke applies the change filter and keeps the form typed |
| Signup.SignupForm.OnSubmit | frontend/src/pages/auth/Signup.jsx:47-87 | submitting answers the checks and leaves loading set exactly when the request goes out |
| ProtectedRoute.Guard | frontend/src/components/ProtectedRoute.jsx:4-16 | the page renders exactly for an authenticated user when the route lists no roles or lists theirs |
| ProtectedRoute.GuardFacts | frontend/src/components/ProtectedRoute.jsx:4-16 | listing more roles admits no fewer; an unrestricted route admits every signed-in user; a user without a role passes only unrestricted routes |
| Layout.DashboardPath | frontend/src/components/Layout.jsx:28-39 | each role has its dashboard path; an unknown role goes to login |
| Layout.NavItems | frontend/src/components/Layout.jsx:48-146 | the menu starts with the dashboard |
| Layout.NavItemsByRole | frontend/src/components/Layout.jsx:48-146 | the whole menu of each role, path and label entry by entry: admins get dashboard, users, documents and notices; faculty dashboard, students and notices; students dashboard, notices, documents and calendar; any other role the student menu with the login page as dashboard |
| Layout.DashboardNotActiveBelow | frontend/src/components/Layout.jsx:41-46 | the dashboard entry is not highlighted on a page below it |
| Layout.UsersActiveOnLongerPath | frontend/src/components/Layout.jsx:41-46 | the prefix test highlights Users on `/admin/usersX` |
| Layout.AtMostOneActive | frontend/src/components/Layout.jsx:41-146 | on any location at most one menu entry is highlighted |
| AcademicCalendar.FreshEntry | frontend/src/pages/dashboard/student/Calendar.jsx:65-74 | a first-seen day has no events, no holiday, and its week's number and month |
| AcademicCalendar.DaysFacts | frontend/src/pages/dashboard/student/Calendar.jsx:63-83 | the day loop adds exactly the week's days and grows each with the week's event |
| AcademicCalendar.MarksFacts | frontend/src/pages/dashboard/student/Calendar.jsx:86-93 | the holiday loop adds no day and marks only listed days already present |
| AcademicCalendar.AddWeekFacts | frontend/src/pages/dashboard/student/Calendar.jsx:59-94 | one week adds its days, then marks its holidays |
| AcademicCalendar.VisitDays | frontend/src/pages/dashboard/student/Calendar.jsx:63-83 | the day loop computes the days map of the week |
| AcademicCalendar.MarkWeekHolidays | frontend/src/pages/dashboard/student/Calendar.jsx:86-93 | the holiday loop computes the marks of the week |
| AcademicCalendar.CalendarDates | frontend/src/pages/dashboard/student/Calendar.jsx:56-97 | the nested loops compute the date map of the whole table |
| AcademicCalendar.DatesKeysAndEvents | frontend/src/pages/dashboard/student/Calendar.jsx:56-97 | a day is in the map exactly when some week covers it, and its events are those of the covering weeks, in table order |
| AcademicCalendar.NoCoverNoEvents | frontend/src/pages/dashboard/student/Calendar.jsx:63-83 | a day no week covers collects no events |
| AcademicCalendar.DatesWeekAndMonth | frontend/src/pages/dashboard/student/Calendar.jsx:65-73 | a day carries the week number and month of the first week covering it |
| AcademicCalendar.NoHolidayUnmarked | frontend/src/pages/dashboard/student/Calendar.jsx:86-93 | a day no week lists as a holiday is not a holiday |
| AcademicCalendar.MarkPersists | frontend/src/pages/dashboard/student/Calendar.jsx:86-93 | a holiday mark survives every later week |
| AcademicCalendar.HolidayMarked | frontend/src/pages/dashboard/student/Calendar.jsx:86-93 | a day listed as a holiday by a week at or after the first week covering it is a holiday |
| AcademicCalendar.HolidayBeforeItsWeekIsLost | frontend/src/pages/dashboard/student/Calendar.jsx:86-93 | a day first covered by week i that no week from i on lists as a holiday ends up unmarked with no type, whatever earlier weeks listed |
| AcademicCalendar.MarksKept | frontend/src/pages/dashboard/student/Calendar.jsx:56-97 | once a day has an entry, weeks that do not list it as a holiday leave its holiday mark and type unchanged |
| AcademicCalendar.LastWeekMarks | frontend/src/pages/dashboard/student/Calendar.jsx:86-93 | a week listing a day that already has an entry marks it as a holiday with that week's type |
| AcademicCalendar.HolidayTypeFromWeek | frontend/src/pages/dashboard/student/Calendar.jsx:86-93 | when week i is the last to list a day that has an entry by week i, the day is a holiday with week i's type, 'H' by default |
| AcademicCalendar.MonthData | frontend/src/pages/dashboard/student/Calendar.jsx:102-108 | each of the seven months maps to exactly the weeks whose month label contains its name |
| AcademicCalendar.SpanningWeekUnderBoth | frontend/src/pages/dashboard/student/Calendar.jsx:106-108 | a week labelled June/July appears under both June and July |
| AcademicCalendar.MonthDataOrder | frontend/src/pages/dashboard/student/Calendar.jsx:106-108 | each month's weeks keep table order |

## Left out

- Regular-expression search: `$regex` with the `i` option is modelled as substring containment after ASCII lower-casing. Regex metacharacters and Unicode case folding are not modelled.
- ProjectNotice: the attachment search of the document feed (`toLowerCase().includes(...)`) lower-cases ASCII letters only. `toLowerCase()` also folds letters outside ASCII, so a search for "É" matches "é" in the source and not in the model.
- Non-numeric `page` and `limit`: query strings that do not parse as integers are not modelled. Page and limit are integers, and absent means the route's default.
- Dates: date parsing, time zones and ISO formatting are not modelled. Timestamps and calendar days are integers, and the calendar loop steps one day number at a time.
- Multer upload middleware: the size cap, the file-type filter and the five-file limit run before the handlers and are not modelled. Uploads arrive as records.
- ObjectIds: only the 24-hex-digit string form is accepted; the 12-byte form is not modelled. Case variants of an id are not normalised.
- Locate: ids are compared as strings. The ObjectId cast ignores the case of the hex letters, so an upper-case spelling of a stored id finds the record in the source and gives NotFound in the model. The same spelling of a student's own id in `GET /api/users/:id` is refused with 403 by the source, because the string comparison with `_id` fails after the lookup succeeds; the model answers 404.
- Password hashing and authentication: the `protect` middleware and token checks are not modelled; the actor is a parameter. `PUT /users/:id` writes whatever fields it is given, and hashing lives in the User model, which is not part of this model.
- Email delivery: the mail transport is not modelled. `NoticesRoute.CreateNotice` returns the recipient list instead of sending.
- Change tracking: whether `save()` sees a modified path is decided by comparing the saved record with the stored one. Mongoose tracks each assignment, and its deep-equality check on an assigned value gives the same answer for the values modelled here.
- Concurrency and file-system streaming: requests are atomic steps, and the disk is a set of paths.
- The sorts: the library's `Array.sort` and the database's sort are modelled as a stable newest-first (or earliest-first) sort function, not as an in-place method. Ties keep stored order.
- The User and CalendarEvent schemas are not part of this model. The `eventType` enum and the required fields are not checked. Users and events are records, with `isActive` taken as given.
- The academic calendar table: its 26 rows are a parameter of the calendar functions, not a constant.
- Rendering: the client pieces are modelled as state and decisions only. Markup, icons, toasts, the logout dialog and the async fetches (including storing the session after sign-up) are left out.
- Submit: HTML constraint validation is not modelled. The sign-up form's attributes make the browser refuse to submit before the handler runs: `required` on the name, email, role, student id (for students), department and both password fields, `pattern="[A-Za-z\s]+"` on the name, `type="email"` on the email, `pattern="[0-9]{10}"` on the phone and `minLength={8}` on both passwords. `Submit` models the handler only, so on the page an empty email or a name such as "José" never reaches it.
- AttachmentDecision: its own contract says only that a served file exists and that the route never answers bad request. The cases are stated by `AttachmentDecisionEarlyExits`, `AttachmentIndexPastEnd` and `AttachmentDecisionFacts`.
- DownloadDecision: its own contract, and those of `AttachmentDownload`, `AttachmentOf` and `DocumentDownload`, say only that success names an existing counter. The authorization cases are stated by `DocumentDownloadCases`, `AttachmentOfCases` and `AttachmentDownloadCases`.
- MergeEvent: its own contract states only the unchanged fields. What happens to each field is stated by `MergeEventFacts`.
- Submit: the password length is counted in Unicode code points. `password.length` counts UTF-16 code units, so a password of four characters outside the Basic Multilingual Plane passes the 8-character check in the browser and fails it in the model.
- UpdateNotice: `removeAttachments` arrives already decoded as a list of integers. `JSON.parse` failures (swallowed by the route), values that are not arrays, and non-integer entries such as 1.5 (with which `splice` misbehaves) are not modelled.
