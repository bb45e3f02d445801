# HFiles medical dashboard — a Dafny model of the file and account APIs

HFiles is a small medical-records dashboard. An ASP.NET Core API lets a
registered user upload medical files (PDF and image scans), list them,
fetch their metadata, download them and delete them. It also lets the user
register, log in and edit a profile, including a profile image. A React
front end shows the files in a list with an icon per file and an in-page
viewer.

This project models the request-handling logic of the two API controllers,
`MedicalFilesController` and `AuthController`, and the pure logic of the
front end's `FileList` component. Each controller's state is one immutable
value: the database table, the files on disk (a map from path to bytes) and
the next identity value. Every handler is a pure function of that value and
the request. The handlers behind `[Authorize]` also receive the caller's
user id; `Register` and `Login` do not. A handler that changes the store
(`UploadFile`, `DeleteFile`, `Register`, `UpdateProfile`,
`UpdateProfileImage`) returns a response plus the next store. A query
(`GetUserFiles`, `GetFileById`, `DownloadFile`, `GetProfile`, `Login`)
returns a response only.
`Guid.NewGuid()`, `DateTime.UtcNow`, BCrypt and the database's
`DbUpdateException` become parameters of the handlers.

Modules, one per file:

- `Results` (`results.dfy`): `Option`, and the `Ok` / `BadRequest` /
  `Unauthorized` / `NotFound` responses.
- `Seqs` (`seqs.dfy`): `Where`/`filter`, `FirstOrDefault` and a stable
  `OrderByDescending`, with the lemmas the handlers need about them.
- `Text` (`text.dfy`): ASCII lower-casing, the .NET `Path.GetExtension`,
  JavaScript's `split('.').pop()`, and the `includes`/`startsWith`/`endsWith`
  tests.
- `Storage` (`storage.dfy`): uploaded form files, the disk, `Path.Combine`,
  and the text shape of a GUID.
- `MedicalFiles` (`medical_files.dfy`): the medical-file endpoints.
- `Auth` (`auth.dfy`): the account endpoints.
- `FileList` (`file_list.dfy`): the viewer's content type, the list icon,
  and the list update after a delete.

The central property of the file API is ownership isolation. Every per-file
handler looks a row up by `Id == id && UserId == caller`, so a file owned by
someone else behaves exactly like a missing one. `CallerSeesOnlyOwnFiles`
states this as non-interference: two stores that agree on the caller's rows
and payloads give the caller the same answers.

## Model

| member | source | states |
|---|---|---|
| MedicalFiles.UploadFile | Hfiles/MedicalDashboardAPI/controllers/MedicalFilesController.cs:24-62 | Succeeds exactly when a non-empty file with a lower-cased extension in {.pdf, .jpg, .jpeg, .png} is sent. A missing or empty file gives "No file uploaded"; a present file with any other extension gives "Invalid file type". Any failure leaves the store unchanged. On success exactly one row is appended: it belongs to the caller, carries the form's type and name, the client's file name, a stored name of GUID + lower-cased extension under uploads/, and the upload time; the payload is written at that path. The body also carries the message "File uploaded successfully". |
| MedicalFiles.GetUserFiles | Hfiles/MedicalDashboardAPI/controllers/MedicalFilesController.cs:68-74 | The listing holds exactly the caller's rows, each as often as in the table, ordered by upload time, most recent first. |
| MedicalFiles.GetFileById | Hfiles/MedicalDashboardAPI/controllers/MedicalFilesController.cs:115-133 | Succeeds exactly when the caller owns a row with that id, and then returns that row's metadata. A missing id and another user's id give the same "File not found". |
| MedicalFiles.DownloadFile | Hfiles/MedicalDashboardAPI/controllers/MedicalFilesController.cs:99-109 | "File not found" exactly when the caller owns no row with that id. "File not found on server" when the row exists but its path is not on disk. Otherwise it returns the bytes at that path as application/octet-stream, named with the original file name. |
| MedicalFiles.DeleteFile | Hfiles/MedicalDashboardAPI/controllers/MedicalFilesController.cs:80-93 | Succeeds exactly when the caller owns a row with that id. It then removes that one row, keeps the others in order, and deletes its payload if present; a missing payload is not an error, and it answers "File deleted successfully". On failure it answers "File not found" and changes nothing. |
| MedicalFiles.Lookup | Hfiles/MedicalDashboardAPI/controllers/MedicalFilesController.cs:81 | The per-id lookup finds a row of the caller with that id, and finds nothing exactly when there is none. |
| MedicalFiles.UploadPreservesValid | Hfiles/MedicalDashboardAPI/controllers/MedicalFilesController.cs:49-60 | An upload keeps row ids unique and below the next identity value. |
| MedicalFiles.DeletePreservesValid | Hfiles/MedicalDashboardAPI/controllers/MedicalFilesController.cs:90-91 | A delete keeps row ids unique and below the next identity value. |
| MedicalFiles.RemoveAtKeepsIds | Hfiles/MedicalDashboardAPI/controllers/MedicalFilesController.cs:90 | Removing one row keeps the remaining ids unique and below the counter. |
| MedicalFiles.StoredNameKeepsExtension | Hfiles/MedicalDashboardAPI/controllers/MedicalFilesController.cs:29-42 | The stored name is the GUID followed by the lower-cased client extension. Its own extension, and that of the path on disk, is that lower-cased extension, and nothing else of the client's name survives. |
| MedicalFiles.UploadThenRead | Hfiles/MedicalDashboardAPI/controllers/MedicalFilesController.cs:41-62 | After an upload the owner sees the new row in the listing, gets its metadata by id, and downloads the uploaded bytes under the client's file name. |
| MedicalFiles.FreshIdIsUnique | Hfiles/MedicalDashboardAPI/controllers/MedicalFilesController.cs:59-60 | A row appended with an id at or above the counter is the only row with that id. |
| MedicalFiles.NewUploadListedFirst | Hfiles/MedicalDashboardAPI/controllers/MedicalFilesController.cs:69-72 | When the clock has moved past every earlier upload, the new upload heads its owner's listing. |
| MedicalFiles.DeletedFileIsGone | Hfiles/MedicalDashboardAPI/controllers/MedicalFilesController.cs:81-91 | After a successful delete no row has that id. The listing omits it, and metadata and download both answer "File not found". |
| MedicalFiles.RemovedIdIsGone | Hfiles/MedicalDashboardAPI/controllers/MedicalFilesController.cs:90 | With unique ids, removing the row at k removes its id from the table. |
| MedicalFiles.LookupSeesOnlyOwnRows | Hfiles/MedicalDashboardAPI/controllers/MedicalFilesController.cs:81 | The per-id lookup gives the same result on the whole table as on the caller's rows alone. |
| MedicalFiles.CallerSeesOnlyOwnFiles | Hfiles/MedicalDashboardAPI/controllers/MedicalFilesController.cs:70-117 | Two stores that agree on the caller's rows and their payloads give the caller the same listing, metadata, download and delete answers. |
| MedicalFiles.ForeignRowIsInvisible | Hfiles/MedicalDashboardAPI/controllers/MedicalFilesController.cs:81-117 | Adding a row owned by another user changes none of the caller's answers: a foreign file behaves exactly like a missing one. |
| MedicalFiles.DeleteLeavesOthersListing | Hfiles/MedicalDashboardAPI/controllers/MedicalFilesController.cs:81-91 | A delete by one user leaves every other user's listing unchanged. |
| MedicalFiles.UploadLeavesOthersListing | Hfiles/MedicalDashboardAPI/controllers/MedicalFilesController.cs:49-60 | An upload by one user leaves every other user's listing unchanged. |
| Auth.Register | Hfiles/MedicalDashboardAPI/controllers/AuthController.cs:28-44 | Fails with "User already exists" exactly when the email is taken, and then changes nothing. Otherwise it appends one user holding the input's name, email, gender and phone, the hash of the password, no image and the current time. It issues a token naming the new id and the email, expiring seven days later, and returns the user without a password. |
| Auth.Login | Hfiles/MedicalDashboardAPI/controllers/AuthController.cs:50-55 | Succeeds exactly when the first user with that email verifies the password. An unknown email and a wrong password give the same "Invalid credentials". On success it returns a token naming that user's id and email, expiring in seven days, and the user without a password. |
| Auth.IssueToken | Hfiles/MedicalDashboardAPI/controllers/AuthController.cs:64-69 | The token's claims name the user by id and email, and it expires exactly 604800 seconds (seven days) after issue. |
| Auth.TokenNamesItsUser | Hfiles/MedicalDashboardAPI/controllers/AuthController.cs:64-69 | Two tokens have the same claims exactly when they were issued to the same id and email at the same instant. |
| Auth.LoginWithUniqueEmails | Hfiles/MedicalDashboardAPI/controllers/AuthController.cs:50-52 | While emails are unique, a login succeeds exactly when some user with that email verifies the password, whichever matching row the lookup returns. |
| Auth.GetProfile | Hfiles/MedicalDashboardAPI/controllers/AuthController.cs:82-99 | Succeeds exactly when the caller's row exists, and then returns its profile fields; otherwise "User not found". |
| Auth.UpdateProfile | Hfiles/MedicalDashboardAPI/controllers/AuthController.cs:106-125 | Answers "User not found" for an unknown caller, and the database's error message when saving fails; both leave the store unchanged. On success it answers "Profile updated successfully", and only the caller's email, gender and phone number change. Name, hash, image, creation time, every other user and the disk stay as they were. |
| Auth.UpdateProfileImage | Hfiles/MedicalDashboardAPI/controllers/AuthController.cs:132-176 | Checks in order: the user exists, an image was sent, its extension is .jpg/.jpeg/.png/.gif, and it is at most 2 MiB. Each failure has its own message and leaves the store unchanged. On success it stores the image under profile-images/ with a GUID name and the extension, removes the previous image from disk if there was one, and points the user's ProfileImage at the new path. The body carries the message "Profile image updated successfully" and the new path. |
| Auth.RegisterPreservesValid | Hfiles/MedicalDashboardAPI/controllers/AuthController.cs:40-41 | Registration keeps user ids unique and below the next identity value. |
| Auth.UpdateProfilePreservesValid | Hfiles/MedicalDashboardAPI/controllers/AuthController.cs:113-119 | A profile update keeps user ids unique and below the counter. |
| Auth.UpdateProfileImagePreservesValid | Hfiles/MedicalDashboardAPI/controllers/AuthController.cs:170-171 | An image update keeps user ids unique and below the counter. |
| Auth.RegisterTwiceConflicts | Hfiles/MedicalDashboardAPI/controllers/AuthController.cs:28-29 | Once an email is registered, registering it again fails with "User already exists" and changes nothing. |
| Auth.RegisterKeepsEmailsUnique | Hfiles/MedicalDashboardAPI/controllers/AuthController.cs:28-41 | Registration keeps emails unique. |
| Auth.RegisterThenLogin | Hfiles/MedicalDashboardAPI/controllers/AuthController.cs:28-69 | With a hash that verifies its own password, whoever registers can log in with the same email and password. The token names the new account and expires seven days after the login, and the returned user is the one registration returned. |
| Auth.RegisterKeepsOnlyHash | Hfiles/MedicalDashboardAPI/controllers/AuthController.cs:37-44 | Registration depends on the password only through its hash: two passwords with the same hash give the same response and store. |
| Auth.ProfileHidesPassword | Hfiles/MedicalDashboardAPI/controllers/AuthController.cs:85-93 | The profile answer does not depend on any stored password hash. |
| Auth.ProfileShowsUpdate | Hfiles/MedicalDashboardAPI/controllers/AuthController.cs:107-120 | After a successful profile update the caller's profile equals the previous one with the new email, gender and phone number; name and image are unchanged. |
| Auth.UpdateProfileMayDuplicateEmail | Hfiles/MedicalDashboardAPI/controllers/AuthController.cs:113-119 | A profile update can give a user an email another user already has, so email uniqueness is not an invariant of the account store. |
| Auth.UserRowUnique | Hfiles/MedicalDashboardAPI/controllers/AuthController.cs:133 | With unique ids, the by-id lookup finds the caller's one row. |
| Auth.ProfileImageReplaced | Hfiles/MedicalDashboardAPI/controllers/AuthController.cs:156-170 | With a fresh name, a successful image update leaves the new bytes at the new path and the previous image gone. In both directions, every other file is untouched: nothing else appears or changes, and every file other than the new path and the caller's previous image is still on disk with the same bytes. |
| Auth.ReplaceImageEffect | Hfiles/MedicalDashboardAPI/controllers/AuthController.cs:159-168 | Writing a fresh path and then deleting the old image leaves exactly that change on the disk: the new bytes at the new path, the old image gone, no other file added or altered, and every other file kept. |
| Auth.ProfileShowsNewImage | Hfiles/MedicalDashboardAPI/controllers/AuthController.cs:170 | After a successful image update the caller's profile equals the previous profile with the new image path. |
| Auth.ImageSizeBoundary | Hfiles/MedicalDashboardAPI/controllers/AuthController.cs:148-149 | The 2 MiB ceiling is inclusive: an image of exactly 2·1024·1024 bytes passes, one byte more fails. |
| FileList.TypeForSegment | HFilesweb/medical-dashboard-frontend/components/Dashboard/FileList.tsx:71-80 | The content type is application/pdf exactly for pdf, image/jpeg exactly for jpg and jpeg, image/png exactly for png, image/gif exactly for gif, and application/octet-stream otherwise. |
| FileList.ContentTypeFor | HFilesweb/medical-dashboard-frontend/components/Dashboard/FileList.tsx:68-80 | The content type of a file name is chosen by the same table from the last '.'-segment of the lower-cased name: pdf, jpg/jpeg, png and gif each get their own type, anything else octet-stream. |
| FileList.SegmentClassification | HFilesweb/medical-dashboard-frontend/components/Dashboard/FileList.tsx:71-80 | isImageFile holds exactly for jpg, jpeg, png and gif; isPdfFile exactly for pdf; and neither holds exactly for octet-stream. |
| FileList.ViewerClassification | HFilesweb/medical-dashboard-frontend/components/Dashboard/FileList.tsx:68-80 | For a file name, the viewer shows an image exactly when the lower-cased last '.'-segment is jpg, jpeg, png or gif, and a PDF exactly when it is pdf; everything else is octet-stream. |
| FileList.KnownSegments | HFilesweb/medical-dashboard-frontend/components/Dashboard/FileList.tsx:71-80 | Only the five recognised words get a type other than octet-stream. |
| FileList.NameWithoutDot | HFilesweb/medical-dashboard-frontend/components/Dashboard/FileList.tsx:68 | A name with no '.' is its own extension: it gets a specific type exactly when, lower-cased, it is one of the recognised words. |
| FileList.AcceptedUploadIsPreviewable | HFilesweb/medical-dashboard-frontend/components/Dashboard/FileList.tsx:68-80 | Every name the upload endpoint accepts opens in the viewer: as a PDF exactly for .pdf, as an image otherwise. |
| FileList.FileIcon | HFilesweb/medical-dashboard-frontend/components/Dashboard/FileList.tsx:112-116 | Case-insensitively, the document icon is shown exactly when ".pdf" occurs anywhere in the name. The picture icon is shown exactly when it does not and the name ends in .jpg, .jpeg, .png or .gif. Otherwise the folder icon is shown. |
| FileList.IconEndings | HFilesweb/medical-dashboard-frontend/components/Dashboard/FileList.tsx:114 | The icon's image test is the four endings .jpg, .jpeg, .png and .gif. |
| FileList.ImageEndingIsImageSegment | HFilesweb/medical-dashboard-frontend/components/Dashboard/FileList.tsx:68-114 | For a name holding a '.', the icon's image endings match exactly the viewer's image segments. |
| FileList.PictureIconMatchesViewer | HFilesweb/medical-dashboard-frontend/components/Dashboard/FileList.tsx:68-118 | For a name holding a '.' and no ".pdf", the picture icon is shown exactly when the viewer renders an image. |
| FileList.PdfViewerImpliesDocumentIcon | HFilesweb/medical-dashboard-frontend/components/Dashboard/FileList.tsx:68-119 | A dotted name the viewer opens as a PDF gets the document icon. |
| FileList.DocumentIconForNonPdf | HFilesweb/medical-dashboard-frontend/components/Dashboard/FileList.tsx:72-113 | The converse fails: "scan.pdf.png" gets the document icon but is viewed as image/png. |
| FileList.RemoveById | HFilesweb/medical-dashboard-frontend/components/Dashboard/FileList.tsx:33 | The local list after a delete holds no entry with that id, and every other entry as often as before. |
| FileList.RemoveByIdKeepsOrder | HFilesweb/medical-dashboard-frontend/components/Dashboard/FileList.tsx:33 | The local removal works piecewise on any split of the list, so the survivors keep their relative order. |
| FileList.ClientListMatchesServer | HFilesweb/medical-dashboard-frontend/components/Dashboard/FileList.tsx:32-33 | After a successful delete, the list the client computes locally equals the listing the server now returns. |
| Text.Lower | Hfiles/MedicalDashboardAPI/controllers/MedicalFilesController.cs:29 | Lower-casing keeps the length and maps each ASCII capital to its small letter, leaving every other character unchanged. |
| Text.LowerConcat | Hfiles/MedicalDashboardAPI/controllers/MedicalFilesController.cs:29 | Lower-casing distributes over concatenation. |
| Text.Contains | HFilesweb/medical-dashboard-frontend/components/Dashboard/FileList.tsx:113 | `includes` holds exactly when the pattern occurs at some index. |
| Text.ExtensionFrom | Hfiles/MedicalDashboardAPI/controllers/MedicalFilesController.cs:29 | The backward scan returns either an extension-shaped suffix or "", and "" only when no suffix has extension shape. |
| Text.GetExtension | Hfiles/MedicalDashboardAPI/controllers/MedicalFilesController.cs:29 | `Path.GetExtension` is either "" or a suffix made of '.' and at least one further character with no '.' or '/'. It is "" only when the path has no such suffix. |
| Text.ExtensionSuffixUnique | Hfiles/MedicalDashboardAPI/controllers/MedicalFilesController.cs:29 | A path has at most one suffix of extension shape. |
| Text.GetExtensionOfSuffix | Hfiles/MedicalDashboardAPI/controllers/MedicalFilesController.cs:29-41 | Whenever a path has an extension-shaped suffix, that suffix is its extension. |
| Text.SegmentFrom | HFilesweb/medical-dashboard-frontend/components/Dashboard/FileList.tsx:68 | The backward scan returns a '.'-free suffix that is either the whole string or preceded by a '.'. |
| Text.LastSegment | HFilesweb/medical-dashboard-frontend/components/Dashboard/FileList.tsx:68 | `split('.').pop()` is a '.'-free suffix that is either the whole string or preceded by a '.'. |
| Text.LastSegmentAfterDot | HFilesweb/medical-dashboard-frontend/components/Dashboard/FileList.tsx:68 | The last segment of prefix + "." + tail, for a '.'-free tail, is tail. |
| Text.LowerKeepsDots | HFilesweb/medical-dashboard-frontend/components/Dashboard/FileList.tsx:68 | Lower-casing neither creates nor removes a '.'. |
| Text.LastSegmentWithoutDot | HFilesweb/medical-dashboard-frontend/components/Dashboard/FileList.tsx:68 | A string without '.' is its own last segment. |
| Text.LastSegmentOfSuffix | HFilesweb/medical-dashboard-frontend/components/Dashboard/FileList.tsx:68 | An extension-shaped suffix, lower-cased and without its '.', is the last segment of the lower-cased path. |
| Text.LastSegmentOfExtension | HFilesweb/medical-dashboard-frontend/components/Dashboard/FileList.tsx:68 | The server's lower-cased extension without its '.' is the client's last segment of the lower-cased name. |
| Text.EndsWithDotSegment | HFilesweb/medical-dashboard-frontend/components/Dashboard/FileList.tsx:114 | For a '.'-free word, a string ends in '.' + word exactly when it holds a '.' and the word is its last segment. |
| Text.EndsWithExtension | HFilesweb/medical-dashboard-frontend/components/Dashboard/FileList.tsx:114 | The same equivalence for an ending written with its leading '.'. |
| Storage.DeleteIfExists | Hfiles/MedicalDashboardAPI/controllers/MedicalFilesController.cs:87-88 | After the guarded delete the path is gone and every other path keeps its presence and contents. |
| Storage.GuidHasNoDotOrSlash | Hfiles/MedicalDashboardAPI/controllers/MedicalFilesController.cs:41 | The text of a GUID holds neither '.' nor '/'. |
| Seqs.Filter | Hfiles/MedicalDashboardAPI/controllers/MedicalFilesController.cs:70 | `Where` never lengthens the sequence. |
| Seqs.FilterMultiset | Hfiles/MedicalDashboardAPI/controllers/MedicalFilesController.cs:70 | `Where` keeps each satisfying value as often as the input holds it, and nothing else. |
| Seqs.FilterConcat | HFilesweb/medical-dashboard-frontend/components/Dashboard/FileList.tsx:33 | Filtering distributes over concatenation. |
| Seqs.FilterKeepsAll | HFilesweb/medical-dashboard-frontend/components/Dashboard/FileList.tsx:33 | Filtering with a predicate every element satisfies is the identity. |
| Seqs.FilterCommutes | Hfiles/MedicalDashboardAPI/controllers/MedicalFilesController.cs:70 | Two filters commute. |
| Seqs.RemoveAt | Hfiles/MedicalDashboardAPI/controllers/MedicalFilesController.cs:90 | Removing the element at k shortens the sequence by one and shifts the later elements down. |
| Seqs.FilterAppendDropped | Hfiles/MedicalDashboardAPI/controllers/MedicalFilesController.cs:59-70 | Appending an element the filter drops does not change the filtered sequence. |
| Seqs.FilterRemoveAt | Hfiles/MedicalDashboardAPI/controllers/MedicalFilesController.cs:70-90 | Removing an element the filter drops does not change the filtered sequence. |
| Seqs.FilterSkipsDropped | Hfiles/MedicalDashboardAPI/controllers/MedicalFilesController.cs:70 | A dropped element in the middle does not contribute to the filtered sequence. |
| Seqs.FilterDropsOnly | HFilesweb/medical-dashboard-frontend/components/Dashboard/FileList.tsx:33 | A filter that rejects exactly the element at k removes exactly that element. |
| Seqs.FindIndex | Hfiles/MedicalDashboardAPI/controllers/MedicalFilesController.cs:81 | The search returns the first index that satisfies the predicate, or nothing exactly when no element satisfies it. |
| Seqs.First | Hfiles/MedicalDashboardAPI/controllers/MedicalFilesController.cs:81 | `FirstOrDefault` returns a satisfying element of the sequence, or nothing exactly when none satisfies the predicate. |
| Seqs.FirstCons | Hfiles/MedicalDashboardAPI/controllers/MedicalFilesController.cs:81 | The search tests the head before the tail. |
| Seqs.FirstThroughFilter | Hfiles/MedicalDashboardAPI/controllers/MedicalFilesController.cs:81 | Searching through a filter that keeps every match finds the same element. |
| Seqs.InsertDesc | Hfiles/MedicalDashboardAPI/controllers/MedicalFilesController.cs:71 | Inserting into a descending sequence keeps it descending and adds exactly the new element. |
| Seqs.SortDesc | Hfiles/MedicalDashboardAPI/controllers/MedicalFilesController.cs:71 | `OrderByDescending` returns a permutation of its input, sorted largest key first. |
| Seqs.FilterDescending | Hfiles/MedicalDashboardAPI/controllers/MedicalFilesController.cs:70-71 | Filtering keeps a descending sequence descending. |
| Seqs.HeadIsLargest | Hfiles/MedicalDashboardAPI/controllers/MedicalFilesController.cs:71 | The head of a descending sequence has the largest key. |
| Seqs.FilterInsertFront | Hfiles/MedicalDashboardAPI/controllers/MedicalFilesController.cs:70-71 | Filtering after an insertion at the front equals inserting into the filtered sequence. |
| Seqs.FilterCons | Hfiles/MedicalDashboardAPI/controllers/MedicalFilesController.cs:70 | Filtering a sequence with a head keeps the head exactly when it satisfies the predicate. |
| Seqs.InsertDescCons | Hfiles/MedicalDashboardAPI/controllers/MedicalFilesController.cs:71 | Inserting behind a larger head keeps that head first. |
| Seqs.FilterInsertBehindKept | Hfiles/MedicalDashboardAPI/controllers/MedicalFilesController.cs:70-71 | Filtering commutes with an insertion behind a kept head. |
| Seqs.FilterInsertBehindDropped | Hfiles/MedicalDashboardAPI/controllers/MedicalFilesController.cs:70-71 | Filtering commutes with inserting an element the filter drops. |
| Seqs.FilterInsertBehindHeadDropped | Hfiles/MedicalDashboardAPI/controllers/MedicalFilesController.cs:70-71 | Filtering commutes with an insertion behind a dropped head. |
| Seqs.FilterInsertBehind | Hfiles/MedicalDashboardAPI/controllers/MedicalFilesController.cs:70-71 | Filtering commutes with an insertion behind the head. |
| Seqs.FilterInsert | Hfiles/MedicalDashboardAPI/controllers/MedicalFilesController.cs:70-71 | Filtering commutes with sorted insertion. |
| Seqs.FilterSortDesc | Hfiles/MedicalDashboardAPI/controllers/MedicalFilesController.cs:70-71 | Filtering commutes with the stable descending sort, so filtering before or after `OrderByDescending` gives the same list. |

## Left out

- Persistence: Entity Framework, SQL and `SaveChangesAsync` are an in-memory table. The only save failure modelled is the `DbUpdateException` of the profile update, as a parameter. A failing save elsewhere, e.g. after the upload's payload was written, is not modelled.
- The filesystem: the disk is a map from relative path to bytes. `Directory.CreateDirectory`, the content root, partial writes, I/O errors and orphaned payloads are not modelled.
- BCrypt: hashing and verification are parameters. The one property assumed of them is that a password verifies against its own hash. Salts and cost are not modelled.
- JWT: a token is its claims (subject id, email, expiry). Signing, issuer, audience, the configuration keys and token validation are not modelled.
- Authentication: `[Authorize]` and `int.Parse` of the name-identifier claim are framework code. Each handler simply receives the caller's id.
- `Guid.NewGuid()` and `DateTime.UtcNow` are parameters. GUID uniqueness cannot be proved, so lemmas that need a fresh name take it as a hypothesis. Timestamps are whole seconds.
- Text.Lower: only ASCII letters are lower-cased, as in the invariant culture. The model assumes the server runs under a non-Turkic culture. C#'s `ToLower()` is culture-sensitive even for ASCII: under tr-TR, 'I' becomes the dotless 'ı', so ".GIF" would be refused at AuthController.cs:144-145 while the model accepts it. Culture-sensitive lower-casing of non-ASCII characters is not modelled either.
- Text.GetExtension: follows `Path.GetExtension` on Unix, where only '/' separates directories. The Windows separator '\\' is not modelled.
- Auth.Login: checks the password against the first row with that email in table order. The database's `FirstOrDefaultAsync` has no ordering, so when a profile update has left two users with the same email the row it returns is unspecified; Auth.LoginWithUniqueEmails shows the choice does not matter while emails are unique.
- Email comparisons are exact string equality; the database collation is not part of this model.
- Seqs.SortDesc: is a stable sort. The database's `ORDER BY ... DESC` leaves the order of equal timestamps unspecified, so FileList.ClientListMatchesServer holds for the stable order only.
- Model binding and the `[Required]`/`[EmailAddress]` checks on the DTOs are framework behaviour and are not modelled.
- The foreign key from files to users is not modelled; the two stores are independent.
- The rest of `FileList.tsx`: fetching, rendering, `confirm`/`alert`, `handleDownload`, blob URLs and `closeViewer` are user-interface effects and are not modelled.
- Concurrency between requests: each handler is one atomic transition.
