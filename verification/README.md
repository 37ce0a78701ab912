# be-simanis business rules in Dafny

be-simanis is the backend of an internship management system. It is an Express server over a Prisma/PostgreSQL database. Student groups register with two letters, and staff review them. Accepted participants fill in their biodata, keep a daily logbook and work on tasks that staff give them. At the end they receive a numbered certificate rendered from the active template.

This project models the business rules of the request handlers and middlewares. The database becomes an immutable record of id-keyed maps (`Store.Db`): staff accounts (`Pegawai`), groups (`Kelompok`), participants (`Peserta`, with their `Biodata`), tasks, logbook entries, education-history rows, certificate templates, both kinds of notification, and the set of files on disk. Each handler is a function from a database and a request to a `Step`, which holds the database after the request and the reply, whose tag fixes the HTTP status code.

Each handler's contract states:
- which status code each input leads to;
- which records change and what they become;
- that nothing else changes.

Lemmas relate the operations to each other:
- inverses, such as create-then-delete and the token and file-name round trips;
- invariants: at most one active template, unique e-mails and numbers, at least one Admin;
- idempotence;
- agreement between the two variants of a handler.

The modules follow the source:
- `Sertifikat` and `Numbering`: certificate templates, certificate issue, and participant numbering.
- `Accounts`: staff accounts.
- `RegistrationStatus`, `Approval` and `Registration`: group review, the routed approval handlers, and group registration.
- `TaskProgress` and `TaskManagement`: the participant's and the staff's task handlers.
- `Dashboard`: unit statistics, daily statistics and week arithmetic.
- `Logbooks` and `Monitoring`: the participant's logbook and the staff's monitoring view of it.
- `BiodataManagement` and `BiodataSelf`: the admins' and the participant's biodata handlers.
- `AuthMiddleware` and `AuthController`: the bearer-token gate, and login and refresh.
- `TemplateUpload`, `SuratUpload` and `NodePath`: the two upload middlewares and the `path.extname` they use.
- `Base`, `Text`, `Store`, `Tally` and `RiwayatRows`: shared definitions. These are JavaScript truthiness, `parseInt`, string order, the database, counting and the education-history rows.

Some effects are not modelled as computation; the model takes their outcomes as parameters instead:
- Mail delivery, document rendering and PDF conversion are boolean success flags.
- bcrypt hashing is a symbolic `BcryptOf`.
- JWT verification is a verdict parameter.
- `new Date(text)` is a parameter `dateOf` that returns `None` for an Invalid Date.
- The clock is a parameter `now` or `today`.
- Fresh ids and UUIDs are arbitrary unused strings.

## Model

| member | source | states |
|---|---|---|
| Sertifikat.UploadTemplate | controllers/modul3/sertifikatManagement.js:8-28 | No file: 400 and nothing created. With a file: exactly one new template under a fresh id, holding the given name and stored path, with status 'Tidak Digunakan'; nothing else changes. |
| Sertifikat.UploadKeepsOneActive | controllers/modul3/sertifikatManagement.js:19-25 | An upload keeps "at most one template is active", because a new template is inactive. |
| Sertifikat.GetAllTemplates | controllers/modul3/sertifikatManagement.js:38-47 | Lists exactly the templates, newest `createdAt` first, and reports their number. |
| Sertifikat.ListingAfterUpload | controllers/modul3/sertifikatManagement.js:8-47 | After an upload the template listing holds the earlier templates and the new one, which was not listed before, and its count grows by one. |
| Sertifikat.ResetAll | controllers/modul3/sertifikatManagement.js:63-67 | Every template keeps its id and columns except that its status becomes 'Tidak Digunakan'. |
| Sertifikat.ChooseOneTemplate | controllers/modul3/sertifikatManagement.js:62-83 | Known id: 200, and that template is the only active one. Unknown id: 500, but the reset has already happened, so none is active. Only status columns change. |
| Sertifikat.Chosen | controllers/modul3/sertifikatManagement.js:62-73 | Every template is reset to unused and then the chosen one is set in use: the chosen id is the only active template, and only status columns differ from before. |
| Sertifikat.ChooseKeepsOneActive | controllers/modul3/sertifikatManagement.js:63-73 | Whatever the outcome, at most one template is active after a choice. |
| Sertifikat.DeleteTemplate | controllers/modul3/sertifikatManagement.js:92-111 | Unknown id: 404 and nothing changes. Otherwise only that record and its stored document are removed. |
| Sertifikat.DeleteKeepsOneActive | controllers/modul3/sertifikatManagement.js:107-109 | A deletion keeps "at most one template is active". |
| Sertifikat.ActiveTemplate | controllers/modul3/sertifikatManagement.js:140-142 | Some template is found iff an active one exists, and the one found is active. |
| Sertifikat.CertificatePath | controllers/modul3/sertifikatManagement.js:174 | The rendered document lies under `uploads/sertifikat/` and ends in `-sertifikat.docx`. |
| Sertifikat.GenerateSertifikat | controllers/modul3/sertifikatManagement.js:126-189 | Unknown participant: 500. Empty nickname: 400. With a nickname, a missing active template, template document or group, or a failed rendering, is caught as 500. Success exactly when the active template, its document and the group exist and rendering works. Every failure leaves the store unchanged. Success sets only the participant's number, certificate path and 'Selesai', and records the written file. The number is the text-order maximum of the stored numbers, read by `parseInt`, plus one, padded to three digits. |
| Sertifikat.GenerateSertifikatNumeric | controllers/modul3/sertifikatManagement.js:145-154 | The same outcome and writes as the handler, except the number given out is one more than the numeric maximum, and that number is not already stored. |
| Sertifikat.NumericKeepsNumbersUnique | controllers/modul3/sertifikatManagement.js:145-154 | Issuing with the numeric allocation keeps participant numbers pairwise distinct. |
| Sertifikat.GenerateAgreesBelow1000 | controllers/modul3/sertifikatManagement.js:145-154 | While every stored number is a three-digit padded number below 1000, the handler and the numeric version do exactly the same. |
| Sertifikat.GenerateKeepsNumbersUnique | controllers/modul3/sertifikatManagement.js:145-184 | While every stored number is a three-digit padded number below 1000, issuing a certificate keeps participant numbers pairwise distinct. |
| Sertifikat.GenerateReissues1000 | controllers/modul3/sertifikatManagement.js:145-154 | With "999" and "1000" stored, a successful issue gives "1000" to a second participant, so the numbers are no longer distinct. |
| Sertifikat.CheckSertifikatStatus | controllers/modul3/sertifikatManagement.js:224-253 | Unknown caller: 404. With a certificate: its status and path. Without one: the status, defaulting to 'Belum Digenerate', and no path. |
| Sertifikat.DownloadTarget | controllers/modul3/sertifikatManagement.js:200 | A 'User' always gets their own certificate; any other role gets the one named in the path. |
| Sertifikat.DownloadSertifikat | controllers/modul3/sertifikatManagement.js:200-217 | 404 iff the target has no certificate. A PDF iff the document is on disk and conversion works, and it is converted from that document. Otherwise 500. |
| Sertifikat.GeneratedIsReported | controllers/modul3/sertifikatManagement.js:177-253 | After a successful issue, the owner's status check reports 'Selesai' with the new path, and a download converts that file. |
| Numbering.MaxLex | controllers/modul3/sertifikatManagement.js:145-148 | The top of a descending text sort is a stored number, and no stored number sorts above it. |
| Numbering.MaxParsed | controllers/modul3/sertifikatManagement.js:150-153 | The largest value `parseInt` reads from any stored number (0 when none reads). |
| Numbering.NextNumber | controllers/modul3/sertifikatManagement.js:150-153 | At least 1, and larger than every stored number. |
| Numbering.NextNomorIsNew | controllers/modul3/sertifikatManagement.js:150-154 | The corrected padded number reads back as the allocated value and is not one already stored. |
| Numbering.Pad3Digits | controllers/modul3/sertifikatManagement.js:154 | Below 1000, padding gives exactly three digits that denote the number. |
| Numbering.PaddedOrderIsNumeric | controllers/modul3/sertifikatManagement.js:145-154 | Below 1000, the string order of padded numbers is their numeric order, in both directions. |
| Numbering.AsWrittenAgreesBelow1000 | controllers/modul3/sertifikatManagement.js:145-154 | While every stored number is a padded number below 1000, the string-order allocation equals the numeric one. |
| Numbering.AsWrittenRepeats1000 | controllers/modul3/sertifikatManagement.js:145-154 | With "999" and "1000" stored, the allocation as written gives "1000" again; the corrected one does not. |
| Accounts.ValidEmailMatches | controllers/modul1/pengelolaanAkun.controller.js:7-10 | Every address `validateEmail` accepts matches `^[^\s@]+@[^\s@]+\.[^\s@]+$` read piece by piece. |
| Accounts.PatternIsValid | controllers/modul1/pengelolaanAkun.controller.js:7-10 | Every address matching that pattern is accepted. It has no white space, exactly one '@' with text before it, and a '.' in the domain with text on both sides. |
| Accounts.ValidEmailIsPattern | controllers/modul1/pengelolaanAkun.controller.js:7-10 | `validateEmail` accepts exactly the addresses the pattern matches. |
| Accounts.CreatePegawai | controllers/modul1/pengelolaanAkun.controller.js:14-76 | The checks run in order, and each answer is stated both ways. The answer is a missing field iff one of the six is absent. It is a bad e-mail iff all are present and the address is invalid. It is a taken e-mail iff the address is valid but used, and a taken NIP iff the e-mail is free but the NIP is used. It is Created iff every check passes. Every refusal stores nothing. Success adds exactly one account under a fresh id with the hashed password, and the reply carries every column but the password. |
| Accounts.CreateKeepsUnique | controllers/modul1/pengelolaanAkun.controller.js:30-68 | Creating keeps e-mail addresses and NIPs pairwise distinct among staff accounts. |
| Accounts.GetAllPegawai | controllers/modul1/pengelolaanAkun.controller.js:93-113 | Lists exactly the accounts whose role is not 'Admin', once each, newest `createdAt` first, with no password in any row. |
| Accounts.GetAllAccount | controllers/modul1/pengelolaanAkun.controller.js:133-145 | Lists every account, administrators included, without passwords. |
| Accounts.StaffListingOmitsAdmins | controllers/modul1/pengelolaanAkun.controller.js:93-145 | The staff listing holds exactly the accounts of the full listing that are not administrators, so the two lengths differ by the number of administrators. |
| Accounts.Edited | controllers/modul1/pengelolaanAkun.controller.js:229-250 | An edit replaces name, position and role. A falsy e-mail, NIP or password keeps the old value; a given password is stored hashed; `createdAt` never changes. |
| Accounts.EditPegawai | controllers/modul1/pengelolaanAkun.controller.js:168-271 | Unknown id: 404. For a known id the edit succeeds iff it passes every check, and otherwise answers 400 with the first failed check. Every refusal leaves the store unchanged; success changes only that account. |
| Accounts.EditRefusal | controllers/modul1/pengelolaanAkun.controller.js:179-226 | Each refusal holds iff its check is the first to fail, in order: missing name, position or role; then a changed e-mail that is invalid; then one used by another account; then a changed NIP used by another account. No refusal iff all checks pass. |
| Accounts.EditKeepsUnique | controllers/modul1/pengelolaanAkun.controller.js:186-226 | An edit keeps e-mail addresses and NIPs pairwise distinct. |
| Accounts.DeletePegawai | controllers/modul1/pengelolaanAkun.controller.js:288-341 | Unknown id: 404. The last administrator is kept (400). A record still referenced by tasks or notifications is refused by the foreign key (400). Otherwise exactly that account is removed and its id, e-mail and name are returned. |
| Accounts.ListingAfterDelete | controllers/modul1/pengelolaanAkun.controller.js:288-341 | After a successful deletion the account listing holds every earlier account except the deleted one, and is one shorter. |
| Accounts.DeleteKeepsAnAdmin | controllers/modul1/pengelolaanAkun.controller.js:299-311 | A deletion never takes the number of administrators from one or more down to zero. |
| Accounts.DeleteKeepsUnique | controllers/modul1/pengelolaanAkun.controller.js:314-316 | A deletion keeps e-mail addresses and NIPs pairwise distinct. |
| RegistrationStatus.GetKelompokList | controllers/modul1/statusRegistrasiKelompok.js:13-35 | 404 exactly when no group is registered. Otherwise every group is listed, and the total equals their number and is positive. |
| RegistrationStatus.AddedGroupIsListed | controllers/modul1/statusRegistrasiKelompok.js:13-35 | A group added under a new id appears in the listing, whose total grows by one. |
| RegistrationStatus.Guard | controllers/modul1/statusRegistrasiKelompok.js:45-65 | A missing id: 400. An unknown group: 404. A group already in the target status: 400. It passes exactly when the group exists and is in another status. |
| RegistrationStatus.RejectKelompok | controllers/modul1/statusRegistrasiKelompok.js:43-97 | Past the guard, the mail goes first. A failed mail is 500 with the status unchanged. Otherwise the status becomes 'Ditolak' and nothing else changes. Every refusal leaves the store unchanged. |
| RegistrationStatus.NomorKelompok | controllers/modul1/statusRegistrasiKelompok.js:124 | The group number is the institution, a '-', then the first eight characters of the UUID. When the UUID has at least eight characters, its length is that of the institution plus nine. |
| RegistrationStatus.ApproveKelompok | controllers/modul1/statusRegistrasiKelompok.js:99-169 | Past the guard, the status 'Diterima' and the group number are written before the mail. A failed mail answers 500 but leaves the group approved. Refusals change nothing. |
| RegistrationStatus.OnlySelfTransitionsRefused | controllers/modul1/statusRegistrasiKelompok.js:61-65 | Only a self-transition is refused. A rejected group can be approved, and an approved one rejected. |
| Approval.RejectKelompok | controllers/modul1/approvalKelompok.controller.js:8-56 | The routed rejection has the same guard. A throwing mail is caught (500) before the status write; success sets only 'Ditolak'. |
| Approval.ApproveKelompok | controllers/modul1/approvalKelompok.controller.js:58-115 | The routed approval never changes the store. Refusals are as in the guard, and any group that passes the guard gets 500, because `uuidv4` is not in scope. |
| Approval.RejectAgrees | controllers/modul1/approvalKelompok.controller.js:8-56 | The routed rejection gives exactly the same outcome as the review module's rejection. |
| Approval.ApproveNeverApproves | controllers/modul1/approvalKelompok.controller.js:80-88 | Where the review module's approval changes a group, the routed one answers 500 and changes nothing. Everywhere else the two agree. |
| Registration.Paths | controllers/modul1/registerKelompok.controller.js:14 | The set of stored paths of the uploads, which the cleanup removes. |
| Registration.FindPath | controllers/modul1/registerKelompok.controller.js:32-33 | The path of the first upload with that field name; none iff no upload has it. |
| Registration.RegisterKelompok | controllers/modul1/registerKelompok.controller.js:7-55 | Each answer is stated both ways, as the first failing step of the validation chain: missing field, wrong file count, non-gmail address, member count below 1, address already registered, unreadable member count (500), else Created. A wrong file count, a taken address and an unreadable count remove the uploads; the other refusals leave the store unchanged. Success creates one group with the parsed member count and the letters chosen by field name. |
| Registration.Received | middlewares/multer.middleware.js:23-33 | The request reaches the handler iff every file is declared `application/pdf` and is at most 1 048 576 bytes. The handler then sees every file in order, under its folder and built name. |
| Registration.RegisterRoute | routes/peserta.router.js:6 | The upload middleware runs before the handler. A refused file answers 500 and changes nothing; otherwise the handler runs on the stored letters. A group is created only from exactly two files, each a PDF of at most 1 048 576 bytes. |
| Registration.RegisteredGroupIsListed | controllers/modul1/registerKelompok.controller.js:7-55 | After a successful registration the group listing holds the earlier groups and the new one, and counts one more. |
| Registration.RegisterKeepsEmailsUnique | controllers/modul1/registerKelompok.controller.js:26-30 | Registration keeps group e-mail addresses pairwise distinct. |
| Registration.UploadsRemovedExactlyOnLateFailures | controllers/modul1/registerKelompok.controller.js:13-30 | The uploads are gone afterwards exactly on a wrong file count, a registered address or an unreadable member count. |
| AuthMiddleware.SecondPiece | middlewares/auth.middleware.js:12 | `split(" ")[1]` of the header after "Bearer ": a space-free prefix of the rest, ended by a space or by the end of the header. |
| AuthMiddleware.ExtractToken | middlewares/auth.middleware.js:11-13 | A token is read iff the header starts with "Bearer ". It is then the space-free word after that prefix. |
| AuthMiddleware.ExtractTokenRoundTrip | middlewares/auth.middleware.js:11-13 | A header built as "Bearer " + token, with or without more space-separated text after it, gives back exactly that token. |
| AuthMiddleware.AllowedRoles | middlewares/auth.middleware.js:38 | A single role name becomes a one-element list; a list stays as it is. |
| AuthMiddleware.Auth | middlewares/auth.middleware.js:11-50 | No token: 401. An expired token: 401 with `expired`. Any other verification failure: 401 without it. A verified token passes when the list is empty or holds the user's role; otherwise 403. |
| AuthMiddleware.AccessRule | middlewares/auth.middleware.js:41-50 | The request goes on, carrying the token's claims, exactly when a bearer token verifies and the route allows any role or the caller's one. |
| AuthMiddleware.ExpiredOnlyWhenExpired | middlewares/auth.middleware.js:22-35 | The `expired` flag is set exactly when a token is present and its verification reports expiry. |
| AuthController.GenerateTokens | controllers/modul1/auth.controller.js:7-21 | Both tokens carry exactly the id, e-mail, name and role. The access token lives one day and the refresh token seven. |
| AuthController.SetCookieOptions | controllers/modul1/auth.controller.js:23-28 | Always `httpOnly`. `secure` and sameSite 'Strict' iff the environment is "production", otherwise 'Lax'. `maxAge` is 604 800 000 ms. |
| AuthController.CookieLastsAsLongAsRefreshToken | controllers/modul1/auth.controller.js:16-26 | The cookie's lifetime equals the refresh token's lifetime. |
| AuthController.FindAccount | controllers/modul1/auth.controller.js:37-41 | A participant with the address is found first. A staff account is consulted only when no participant has it. None is found iff neither table has the address. |
| AuthController.Login | controllers/modul1/auth.controller.js:33-62 | Missing e-mail or password: 400. With both present, 404 iff no account has the address. Wrong password: 401 and no token. Otherwise tokens for the found account's claims, with the cookie options of the environment. |
| AuthController.ParticipantShadowsStaff | controllers/modul1/auth.controller.js:37-41 | When a participant uses an address, logging in with it reaches the participant, never a staff account. |
| AuthController.RefreshAccessToken | controllers/modul1/auth.controller.js:90-116 | No cookie: 400. A token that does not verify: 403. Otherwise a new one-day access token with the verified claims. |
| AuthController.Logout | controllers/modul1/auth.controller.js:72-76 | The cleared cookie is `httpOnly` with sameSite always 'Strict', and `secure` iff the environment is "production". |
| AuthController.RefreshRenewsLoginToken | controllers/modul1/auth.controller.js:52-116 | While the refresh token from a login still verifies, refreshing with it gives an access token with the same claims and lifetime as the login's. |
| TemplateUpload.FilterIgnoresCase | middlewares/template.middleware.js:17-27 | The filter accepts a name exactly when it accepts its lower-cased form. |
| TemplateUpload.DocxNamesAccepted | middlewares/template.middleware.js:17-27 | A Word document named `<stem>.docx`, in any letter case, is accepted. The same name with any other declared type is rejected. |
| TemplateUpload.TemplateFileName | middlewares/template.middleware.js:8-11 | The stored name starts with the upload time in milliseconds. |
| TemplateUpload.OriginalName | middlewares/template.middleware.js:10 | What follows the first '-' of a stored name is a suffix of it. |
| TemplateUpload.TemplateFileNameRoundTrip | middlewares/template.middleware.js:8-11 | From the stored name, `parseInt` reads back the upload time, and the text after the first '-' gives back the original name. |
| TemplateUpload.StoredTimeReadBack | middlewares/template.middleware.js:8-11 | `parseInt` of the stored name gives back the upload time. |
| TemplateUpload.StoredNameReadBack | middlewares/template.middleware.js:8-11 | The text after the first '-' of the stored name is the original name. |
| NodePath.LastIndexOf | middlewares/multer.middleware.js:19 | The last position holding the character, or none iff the character does not occur. |
| NodePath.ExtName | middlewares/multer.middleware.js:19 | `path.extname` is empty or a suffix of the path. It starts with its only '.' and contains no '/'. |
| NodePath.ExtNameLower | middlewares/template.middleware.js:20 | The extension of the lower-cased name is the lower-cased extension. |
| NodePath.ExtNameOfPrefixed | middlewares/multer.middleware.js:15-20 | Putting a stem in front of a non-empty extension keeps that extension, as long as the stem does not end in '/' or '.'. |
| SuratUpload.Destination | middlewares/multer.middleware.js:5-14 | 'surat_pengantar' goes to `uploads/suratPengantar`, every other field to `uploads/suratBalasan`. |
| SuratUpload.DateStamp | middlewares/multer.middleware.js:17 | The time stamp keeps its length and every other character, and contains no ':' or '.'. |
| SuratUpload.SuratFileName | middlewares/multer.middleware.js:15-20 | The stored name starts with the field name, '-', the cleaned time stamp and '-'. |
| SuratUpload.SuratFileNameKeepsExtension | middlewares/multer.middleware.js:15-20 | The stored name has the original file's extension, as long as the leader's name does not end in '/' or '.'. |
| TaskProgress.CompletionStatus | controllers/modul2/tugasPeserta.controller.js:71-72 | 'Terlambat' iff the hand-in moment is strictly after the deadline, 'Selesai' iff it is at or before it. |
| TaskProgress.TugasSelesai | controllers/modul2/tugasPeserta.controller.js:51-99 | Unknown task: 404. Someone else's task: 403. Neither changes anything. Otherwise only that task changes: its status is set by the deadline, a note replaces the old one only when given, and every other column stays. Exactly one unread 'Tugas' notification is added for the task's giver. |
| TaskProgress.HandInFinishes | controllers/modul2/tugasPeserta.controller.js:71-94 | Handing in one's own task leaves it 'Selesai' or 'Terlambat' and adds exactly one notification, addressed to the giver. |
| TaskProgress.StatusesOf | controllers/modul2/tugasPeserta.controller.js:136-139 | The status column of the rows, in order. |
| TaskProgress.Summarize | controllers/modul2/tugasPeserta.controller.js:116-153 | No rows: all zeros and an empty summary. The summary has one key per status that occurs and counts its rows, and its counts sum to the total. upcoming + passed equals the total, with a deadline equal to now counted as passed. `completed` counts only 'Selesai', and together with 'Terlambat' it is at most the total. |
| TaskProgress.MyTasks | controllers/modul2/tugasPeserta.controller.js:110-114 | Exactly the tasks given to the caller. |
| TaskProgress.GetPesertaTugasStatistic | controllers/modul2/tugasPeserta.controller.js:107-163 | Over exactly the caller's tasks, the total, upcoming, passed and completed are the numbers of those tasks with each property. The status summary has each status among them once, and its count is the number of the caller's tasks with that status. The counts sum to the total. |
| TaskProgress.StatusesOfListed | controllers/modul2/tugasPeserta.controller.js:107-163 | Whatever order the tasks are listed in, the statuses in the list are exactly those of some selected task. |
| TaskProgress.MarkNotificationAsRead | controllers/modul2/tugasPeserta.controller.js:205-231 | 404 with nothing written unless the notification exists and is addressed to the caller. Otherwise only that notification changes, and it becomes read. |
| TaskProgress.MarkIsIdempotent | controllers/modul2/tugasPeserta.controller.js:219-227 | Marking twice gives the same store and answer as marking once. |
| TaskManagement.CreateTugas | controllers/modul2/managementTugas.controller.js:9-44 | No description or deadline: 400. Unknown participant: 404. A deadline that is no date: 500. None of these writes. Otherwise exactly one new task, given by the caller to the participant in the path, with status 'Pending' and no note. |
| TaskManagement.CreatedTaskIsListed | controllers/modul2/managementTugas.controller.js:9-44 | After a successful creation the task listing holds the earlier tasks and the new one. |
| TaskManagement.Guard | controllers/modul2/managementTugas.controller.js:52-73 | A missing id: 400. An unknown task: 404. A 'Pegawai' who did not give the task: 403. Any other caller passes. |
| TaskManagement.EditedTugas | controllers/modul2/managementTugas.controller.js:75-83 | An omitted description, deadline or status keeps its old value; the owners and the note never change. A given deadline that is no date is refused. |
| TaskManagement.EditTugas | controllers/modul2/managementTugas.controller.js:47-94 | A refusal of the guard changes nothing. Otherwise only that task changes, as above; an unreadable deadline is 500 with nothing written. |
| TaskManagement.DeleteTugas | controllers/modul2/managementTugas.controller.js:97-136 | A refusal of the guard changes nothing. Otherwise exactly that task is removed and every other one is kept. |
| TaskManagement.GetAllTugas | controllers/modul2/managementTugas.controller.js:141-166 | 404 iff there is no task; otherwise every task. |
| TaskManagement.DeletedTaskIsUnlisted | controllers/modul2/managementTugas.controller.js:97-166 | After a successful deletion the task listing holds the other tasks, or answers 404 when the deleted task was the last one. |
| TaskManagement.OnlyGiversOrOthersMayChange | controllers/modul2/managementTugas.controller.js:69-73 | A 'Pegawai' can neither edit nor delete a task someone else gave. An 'Admin' can delete any existing task. An 'Admin' edit succeeds exactly when the form's deadline, if given, reads as a date; otherwise it is 500 with nothing changed. |
| TaskManagement.EmptyEditKeepsTask | controllers/modul2/managementTugas.controller.js:78-80 | An edit with an empty body leaves the store as it was. |
| TaskManagement.CreateThenDelete | controllers/modul2/managementTugas.controller.js:25-33 | Deleting a task just created gives back the store as it was before. |
| Dashboard.InsertAsc | controllers/modul2/dashboard.controller.js:43-45 | Inserting a new unit into an ascending list keeps it ascending, adds exactly that unit, and grows it by one. |
| Dashboard.SortAsc | controllers/modul2/dashboard.controller.js:43-45 | The units, each once, in ascending order. |
| Dashboard.Active | controllers/modul2/dashboard.controller.js:27 | Exactly the participants with status 'Aktif'. |
| Dashboard.UnitsOf | controllers/modul2/dashboard.controller.js:32-42 | Exactly the units that some active participant names. |
| Dashboard.CountIn | controllers/modul2/dashboard.controller.js:24-35 | The number of the given participants whose unit is the given one (or null). |
| Dashboard.UnitEntries | controllers/modul2/dashboard.controller.js:49-52 | One entry per listed unit, in order, paired with the number of the given participants in that unit. |
| Dashboard.EntriesOfNamedUnits | controllers/modul2/dashboard.controller.js:49-52 | For units some active participant names, each entry's key is such a unit and its count of active participants is positive; the keys are the units in order. |
| Dashboard.PartitionSum | controllers/modul2/dashboard.controller.js:66-67 | Over distinct units, the per-unit counts add up to the number of participants in any of them. |
| Dashboard.ActiveSplit | controllers/modul2/dashboard.controller.js:23-42 | The active participants split, without overlap, into those in a named unit and those without one. |
| Dashboard.StatusSplit | controllers/modul2/dashboard.controller.js:7-21 | Every participant is 'Aktif' or 'Nonaktif', never both. |
| Dashboard.GetUnitKerjaStatistics | controllers/modul2/dashboard.controller.js:4-82 | Both statuses are reported, each with its count, and the two add up to all participants. There is one entry per unit named by an active participant, in ascending order, each counting that unit's active participants (never 0). A last 'Tidak Ditentukan' entry appears iff some active participant has no unit. totalDivisi counts the named units only. totalPeserta is the number of active participants and the sum of all entries. |
| Dashboard.NullBucket | controllers/modul2/dashboard.controller.js:55-60 | The null-unit count is positive iff some active participant has no unit. |
| Dashboard.Window | controllers/modul2/dashboard.controller.js:94-104 | Exactly the participants registered at or after the start of the window. |
| Dashboard.DaysOf | controllers/modul2/dashboard.controller.js:110 | The day of each row's registration time, in order. |
| Dashboard.CountDays | controllers/modul2/dashboard.controller.js:109-116 | How often a day occurs among the rows' days is the number of rows registered that day. |
| Dashboard.GetStatistikHarian | controllers/modul2/dashboard.controller.js:92-127 | Over the participants registered in the last seven days: each day occurs once, exactly when someone registered on it. Its count is the number who did, which is positive. The counts add up to everyone in the window. |
| Dashboard.Weekday | controllers/modul2/dashboard.controller.js:158 | `getDay()` of a day number lies between 0 (Sunday) and 6. |
| Dashboard.StartOfWeek | controllers/modul2/dashboard.controller.js:156-164 | The start of a day's week is a Monday, at most six days before the day; a Sunday maps back six days. |
| Dashboard.EndOfWeek | controllers/modul2/dashboard.controller.js:167-173 | Six days after a Monday comes a Sunday. |
| Dashboard.SameWeek | controllers/modul2/dashboard.controller.js:156-173 | A day lies between the start and the end of its week. Two days share a start iff the second lies in the first one's week. |
| Dashboard.MondayIsItsOwnStart | controllers/modul2/dashboard.controller.js:156-164 | Every day from a Monday to the following Sunday has that Monday as its start. |
| Logbooks.ParseRange | controllers/modulTambahan/modulPeserta.controller.js:87-95 | Each date bound is used only when given. A given bound that is not a date makes the whole read fail. |
| Logbooks.AdminsToldOnce | controllers/modulTambahan/modulPeserta.controller.js:42-56 | Announcing a change adds exactly one unread 'Logbook' notification per Admin and nothing else. |
| Logbooks.CreateLogbook | controllers/modulTambahan/modulPeserta.controller.js:4-71 | Without a date or an activity the reply is 400. A caller with no participant record, or a date that is not one, gives 500 and nothing is written. Otherwise exactly one new entry by the caller is added and every Admin is told, in one transaction. |
| Logbooks.Mine | controllers/modulTambahan/modulPeserta.controller.js:120-124 | Exactly the entries the caller wrote. |
| Logbooks.MineIn | controllers/modulTambahan/modulPeserta.controller.js:82-95 | Exactly the caller's entries whose date lies within the bounds, and never an entry of anyone else. |
| Logbooks.GetMyLogbook | controllers/modulTambahan/modulPeserta.controller.js:74-157 | An unreadable bound gives 500. Otherwise the list holds exactly the caller's entries within the bounds, without repeats, latest first. The all-time total counts all of the caller's entries and the month total those of this month, which is never more. With no bounds, the list has all-time-total entries. |
| Logbooks.ListingAfterCreate | controllers/modulTambahan/modulPeserta.controller.js:4-157 | When an entry of the caller's is added under a new id, which is what a successful creation does, the caller's unfiltered listing afterwards holds the earlier entries and the new one. The new one was not listed before, and the all-time total grows by one. |
| Logbooks.EditLogbook | controllers/modulTambahan/modulPeserta.controller.js:160-238 | A missing date or activity gives 400 and an entry the caller does not own gives 404; neither writes anything. An unreadable date gives 500 with nothing written. Otherwise the entry gets the new date and activity. The Admins are told only when the caller has a participant record or there is no Admin; otherwise the reply is 500 with the edit already saved. |
| Logbooks.DeleteLogbook | controllers/modulTambahan/modulPeserta.controller.js:240-299 | An entry the caller does not own gives 404 with nothing written. Otherwise exactly that entry goes, every other entry is kept unchanged, and every Admin is told. |
| Logbooks.OthersCannotTouch | controllers/modulTambahan/modulPeserta.controller.js:174-187 | Someone else's entry can be neither edited nor deleted, whatever the form. |
| Logbooks.CreateThenDelete | controllers/modulTambahan/modulPeserta.controller.js:32-57 | Writing an entry and then deleting it restores the logbooks, with two notifications per Admin. |
| Monitoring.Selected | controllers/modulTambahan/monitoringLogbook.controller.js:9-47 | Exactly the entries that meet every given filter. |
| Monitoring.GetAllLogbooks | controllers/modulTambahan/monitoringLogbook.controller.js:4-108 | An unreadable bound gives 500. Otherwise the list holds exactly the entries meeting every filter, without repeats, latest first. The total is its length. The today count is the entries meeting the search and unit filters that are dated today. |
| Monitoring.NoFilterListsAll | controllers/modulTambahan/monitoringLogbook.controller.js:9 | With no filter, every entry is selected. |
| Monitoring.FiltersCombine | controllers/modulTambahan/monitoringLogbook.controller.js:12-47 | An entry is selected iff the search filter, the unit filter and the date filter, each asked alone, select it. |
| Monitoring.SearchIgnoresCase | controllers/modulTambahan/monitoringLogbook.controller.js:12-28 | Lower-casing the search text does not change which entries match. |
| BiodataManagement.GetAllBiodata | controllers/modul3/managementBiodata.js:4-26 | Lists every participant, and the total is their number. |
| BiodataManagement.DateOrKeep | controllers/modul3/managementBiodata.js:49 | A date field left out keeps the stored date. A given field is the date it reads as, or fails. |
| BiodataManagement.IntOrKeep | controllers/modul3/managementBiodata.js:50-51 | A number field left out keeps the stored value. A given field is what `parseInt` reads, and fails when that is NaN. |
| BiodataManagement.Updated | controllers/modul3/managementBiodata.js:44-69 | The update fails iff a given date or number is unreadable. A given date or number is written as read; fields left out keep their stored values. The GPA and the photo are written only when given. Each text column is the given text or else the stored one. |
| BiodataManagement.Typed | controllers/modul3/managementBiodata.js:44-69 | The typed columns fail iff a given date or number is unreadable. Otherwise each date and number is the given one or the stored one. The GPA and the photo are written only when given. The text columns are untouched. |
| BiodataManagement.AddBiodata | controllers/modul3/managementBiodata.js:29-100 | Gives 500 with nothing written iff the history is unreadable, the participant is unknown, a value is refused, or a history row would belong to a participant who does not exist. Otherwise only that participant's biodata and the history rows change, and the participant's name, e-mail, number and statuses stay. |
| BiodataManagement.RiwayatReplacement | controllers/modul3/managementBiodata.js:71-86 | A value left out or falsy keeps every row. Another truthy value clears the participant's rows. An array then writes its entries, each row taking the entry's own `id_peserta` when it has one. Every other participant keeps their rows and gains the rows of entries naming them, so one whom no entry names is untouched. When no entry names somebody else, the participant's rows are exactly the entries. |
| BiodataManagement.ListingUnchangedByBiodata | controllers/modul3/managementBiodata.js:4-148 | Neither an update nor a clearing changes who the biodata listing lists or its total. |
| BiodataManagement.EmptyUpdateKeepsAll | controllers/modul3/managementBiodata.js:44-69 | An update with no field, no file and no history leaves the database as it was. |
| BiodataManagement.DeleteBiodata | controllers/modul3/managementBiodata.js:103-148 | An unknown participant gives 500 with nothing written. Otherwise every biodata column becomes null and the participant's rows go. The name, e-mail, number, certificate and statuses stay, as do everyone else's records and rows. |
| BiodataManagement.DeleteIsIdempotent | controllers/modul3/managementBiodata.js:103-138 | Clearing twice is the same as clearing once. |
| BiodataSelf.DateOf | controllers/modul3/biodataPeserta.controller.js:27 | A date field left out is an Invalid Date. A given one is the date it reads as. |
| BiodataSelf.IntOrNull | controllers/modul3/biodataPeserta.controller.js:28-29 | A falsy number field is stored as null. A truthy one is what `parseInt` reads, and fails when that is NaN. |
| BiodataSelf.Updated | controllers/modul3/biodataPeserta.controller.js:22-47 | The update fails iff one of the three dates is missing or unreadable or a number is NaN. The dates are those given. Numbers and the GPA left out become null. The photo is kept unless a file came. Each text column is the given text or else the stored one. |
| BiodataSelf.AddBiodata | controllers/modul3/biodataPeserta.controller.js:4-76 | No caller id gives 400. An unreadable history, an unknown caller, a refused value or a history row for a participant who does not exist gives 500. Neither writes anything. Otherwise only the caller's biodata and the history rows change. |
| BiodataSelf.OnlyOwnRecord | controllers/modul3/biodataPeserta.controller.js:21-63 | Every other participant keeps their record. Their history keeps its rows and gains exactly the written rows that land on them, which come from entries naming them; one whom no entry names is untouched. |
| BiodataSelf.HistoryAlwaysCleared | controllers/modul3/biodataPeserta.controller.js:49-62 | After the update, the caller's history is the rows of the array that land on the caller, and empty for any other value. When no entry names somebody else, it is exactly the array's entries. |
| BiodataSelf.AbsentNumbersNulled | controllers/modul3/biodataPeserta.controller.js:28-30 | For number and GPA fields left out, the participant's update writes null where the admins' update keeps the stored value. |
| BiodataSelf.DeleteBiodata | controllers/modul3/biodataPeserta.controller.js:79-126 | No caller id gives 400 and an unknown caller 500, both with nothing written. Otherwise the caller's biodata is all null, everything else of their record stays, their history is empty, and others' rows are kept. |
| RiwayatRows.Replace | controllers/modul3/managementBiodata.js:72-84 | With rows built as `{ ...rp, id_peserta }`, so that every row belongs to the participant, deleting their rows and appending the new ones gives them exactly the new rows and leaves everyone else's. |
| RiwayatRows.ReplaceAsWritten | controllers/modul3/managementBiodata.js:72-84 | As written, deleting and appending leaves the participant none of their old rows, every other participant their old rows, and each participant gains the new rows that land on them. |
| RiwayatRows.RowsFor | controllers/modul3/managementBiodata.js:78-83 | Each row keeps its entry's columns. It belongs to the participant being updated iff the entry carries no `id_peserta` or carries that one; otherwise it belongs to the one the entry names. |
| RiwayatRows.AsWrittenIsOwnIff | controllers/modul3/managementBiodata.js:78-83 | The rows as written equal the rows with the owner forced iff no entry names another participant. |
| RiwayatRows.OfRowsForUnnamed | controllers/modul3/managementBiodata.js:78-83 | A participant other than the one updated, whom no entry names, gets none of the written rows. |
| RiwayatRows.EntryRetargets | controllers/modul3/biodataPeserta.controller.js:55-60 | An entry naming another participant adds a row to that participant's history, and the participant being updated gets nothing from it. |
| RiwayatRows.WithoutTwice | controllers/modul3/managementBiodata.js:108-110 | Deleting a participant's rows a second time changes nothing. |

## Left out

- Routing and server wiring (`app.js`, the route tables, CORS, static files) only connect handlers, and the model calls the handlers directly. As written, the server cannot start. routes/admin.router.js:4 takes `getKelompokList` from `approvalKelompok.controller.js`, which exports only the approval and rejection handlers (line 117). Line 12 therefore registers an undefined handler, Express throws while app.js:13 loads that router, and no route is reachable. The model assumes the evidently intended wiring. The list route reaches the `getKelompokList` of `statusRegistrasiKelompok.js` (`RegistrationStatus.GetKelompokList`). The approve and reject routes reach `approvalKelompok.controller.js` (`Approval`), as the route table says.
- The seeder and the mail transport configuration are one-shot setup. Each mail send is a success flag.
- bcrypt and JWT are cryptographic libraries. Hashing is an uninterpreted `BcryptOf`, and token verification is a parameter that says valid, expired or invalid.
- Certificate rendering (docxtemplater, PizZip), PDF conversion and file reads and writes are foreign libraries. Their outcomes are flags, and the files on disk are a set of paths.
- `updatedAt` is not part of any record. `createdAt` is kept as an integer on staff accounts, participants and certificate templates, where listings sort by it and the dashboard filters on it; the other tables do not carry it.
- Numbering.MaxParsed: JavaScript's `parseInt` yields a double, which is exact only up to 2^53. The model reads every stored number as an exact integer. Stored numbers come only from this handler, one per issued certificate, so such values are not reached.
- Numbering.NextNumber: `parseInt(...) + 1` is a double. Above 2^53 the +1 can be lost, and from 10^21 `String()` writes exponent notation. The model's unbounded integers keep both exact, for the same reason as above.
- Dates are integers: milliseconds for logbooks and deadlines, and day numbers for the dashboard. Time zones and local-time conversion are not modelled.
- Dashboard.StartOfWeek: works on day numbers rather than local-time `Date` objects, so daylight-saving shifts are out of scope.
- The dashboard's ISO week number, `getStatistikMingguan`'s grouping and sorting, and the raw-SQL statistics are left out. They need floating-point and SQL semantics.
- TaskProgress.Summarize: the status tally is a list of (status, count) pairs in first-seen order. The handler's plain JavaScript object differs for a status an edit can write that is integer-like (such keys come first, in numeric order) or names an `Object.prototype` property: "__proto__" is dropped, so the counts no longer add up to the total, and "toString" gives a concatenated string. The model does not cover such statuses.
- GetPesertaTugasStatistic: its status summary rests on `TaskProgress.Summarize` and has the same gap for integer-like and `Object.prototype`-named statuses.
- TaskProgress.Summarize: the completion percentage is `toFixed(2)` of a float, so it is kept symbolic and only the integer counts are stated.
- BiodataManagement.Updated: the GPA is `parseFloat` of the text, kept symbolic as `ParseFloatOf`.
- Locale formatting (`toLocaleDateString`) and the Indonesian message and e-mail texts are left out. The notifications carry only recipient, type and read flag.
- Concurrency is not modelled. The race in number allocation and the reset-then-set in `chooseOneTemplate` are modelled as single sequential requests.
- `getPesertaTugas` and `getPesertaNotifications` are plain listings of the caller's rows with no rule beyond the owner filter, which `TaskProgress.MyTasks` states.
- Monitoring.SearchIgnoresCase: case folding covers ASCII letters only, not Unicode `toLowerCase`. The same holds for the extension check of the template upload.
- Text.ParseInt: reads an optional sign and decimal digits after leading spaces. The `0x` prefix is not read.
- The database's text order is assumed to be code-point order.
- A request field that is `null` is treated like one left out.
- BiodataManagement.AddBiodata: an education-history entry is its own `id_peserta`, if any, plus opaque other columns. A column the table lacks, or an `id_peserta` that is null or not text, would make Prisma refuse the rows; the model does not cover these.
- The upload middleware names a letter from `req.body` as parsed when the file arrives. The model uses the form's `instansi` and `nama_ketua`, i.e. it assumes they are sent before the files.
- A Prisma error on a value the database refuses, such as NaN or an Invalid Date, is modelled as 500 with nothing written. The width of the integer columns is not: the schema is not in the modelled files, so a `parseInt` result too large for a 32-bit column is accepted by the model.
- Registration.RegisterKelompok: a member count of 2^31 or more is Created in the model, while a 32-bit `jumlah_anggota` column would refuse it with 500 after the uploads are unlinked.
- BiodataManagement.IntOrKeep: `anak_ke` and `jumlah_saudara` of 2^31 or more are accepted; a 32-bit column would refuse them with 500. The same holds for BiodataSelf.IntOrNull.
- BiodataSelf.IntOrNull: accepts values of 2^31 or more, as above. Errors from foreign keys when notifications or tasks are created are not modelled.
- TemplateUpload: the destination callback of the template middleware never calls back, so no template upload reaches its handler. The model states the filter and the filename, which are the parts with logic.
- The participant's own biodata handlers (`biodataPeserta.controller.js`) are not reachable from any route table. They are modelled as written.
- NodePath.ExtName: follows POSIX `path.extname` except that trailing slashes are not stripped. Upload names carry no slashes.

## Findings

| source | as written | input that shows it | evidently intended | confidence | as-written member | corrected member |
|---|---|---|---|---|---|---|
| controllers/modul3/sertifikatManagement.js:145-154 | The latest participant number is found by sorting `nomor_peserta` as text in descending order, and then incremented. | Stored numbers "999" and "1000". Text order puts "999" first, so the next number is "1000", which is already taken. | The next number is one more than the numerically largest stored number. | high, not executed | Sertifikat.GenerateReissues1000 | Sertifikat.NumericKeepsNumbersUnique |
| controllers/modul3/biodataPeserta.controller.js:55-60 | Each history row is built as `{ id_peserta: <owner>, ...rp, createdAt, updatedAt }`, so an `id_peserta` inside the entry overrides the owner. The admins' handler builds its rows the same way (controllers/modul3/managementBiodata.js:78-83). | A participant sends `riwayat_pendidikan` = `[{"id_peserta": "<id of another existing participant>", …}]`. The row is written into the other participant's history, and the caller's own history is left empty. | Every row belongs to the participant being updated, as `{ ...rp, id_peserta: <owner> }` would give. | medium, not executed | RiwayatRows.EntryRetargets | RiwayatRows.Replace |
| controllers/modul1/approvalKelompok.controller.js:80 | `approveKelompok` calls `uuidv4()`, but the file never imports it. | Any group whose status is not 'Diterima'. The call throws a ReferenceError, which is caught as 500, and the group stays unapproved. | As in `statusRegistrasiKelompok.js`, which imports `uuid`: the group becomes 'Diterima' with its group number. | high, not executed | Approval.ApproveNeverApproves | RegistrationStatus.ApproveKelompok |

Notes on the code as modelled:
- `generateSertifikat` writes only `nomor_peserta`, `sertifikat` and `status_sertifikat` (controllers/modul3/sertifikatManagement.js:177-184). It leaves `status_peserta` unchanged and sends no notification.
- With no active template, `generateSertifikat` fails when it reads `activeTemplate.file_path` (line 157), and the outer handler answers 500.
- The routed `approveKelompok` would build the group number as the institution followed directly by eight UUID characters, with no dash (controllers/modul1/approvalKelompok.controller.js:80). It never gets that far; see Findings.
