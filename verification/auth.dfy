/** The account API (`AuthController`): registration, login, and the
    authenticated profile endpoints. The Users table and the profile-image
    directory are one immutable value; password hashing and token signing are
    parameters the handlers receive. */
module Auth {
  import opened Results
  import opened Seqs
  import opened Text
  import opened Storage

  /** A row of the Users table. `password` holds the hash, never the password;
      `createdAt` is a timestamp in seconds. */
  datatype User = User(
    id: int,
    fullName: string,
    email: string,
    gender: string,
    phoneNumber: string,
    password: string,
    profileImage: Option<string>,
    createdAt: int)

  /** The table, the disk, and the next identity value the database assigns. */
  datatype UserStore = UserStore(users: seq<User>, disk: Disk, nextId: int)

  datatype RegisterDto = RegisterDto(fullName: string, email: string, gender: string, phoneNumber: string, password: string)

  datatype LoginDto = LoginDto(email: string, password: string)

  datatype UpdateProfileDto = UpdateProfileDto(email: string, gender: string, phoneNumber: string)

  /** The user object returned with a token: no password hash, no image. */
  datatype PublicUser = PublicUser(id: int, fullName: string, email: string, gender: string, phoneNumber: string)

  /** The body of `GET /auth/profile`: no password hash. */
  datatype UserProfile = UserProfile(
    id: int, fullName: string, email: string, gender: string, phoneNumber: string, profileImage: Option<string>)

  /** The claims of an issued token: the user id as name identifier, the
      email, and the expiry instant in seconds. The signature is not modelled. */
  datatype Token = Token(subject: int, email: string, expires: int)

  /** The body of a successful register or login. */
  datatype Session = Session(token: Token, user: PublicUser)

  /** The body of a successful profile image update: a confirmation and the
      image's new path. */
  datatype ImageUpdated = ImageUpdated(message: string, imagePath: string)

  /** BCrypt's `HashPassword` and `Verify`, as opaque functions. */
  datatype Crypto = Crypto(hash: string -> string, verify: (string, string) -> bool)

  /** The one property of the password hash the handlers rely on: a password
      verifies against its own hash. */
  ghost predicate Sound(c: Crypto) {
    forall p :: c.verify(p, c.hash(p))
  }

  /** A handler's response together with the store it leaves behind. */
  datatype AuthStep<T> = AuthStep(response: Response<T>, after: UserStore)

  /** `DateTime.UtcNow.AddDays(7)`, in seconds. */
  const TokenLifetime: int := 7 * 24 * 60 * 60

  /** Extensions (after lower-casing) a profile image may carry. */
  const ProfileImageExtensions: set<string> := {".jpg", ".jpeg", ".png", ".gif"}

  /** The profile-image size ceiling: 2 MiB, inclusive. */
  const MaxProfileImageBytes: int := 2 * 1024 * 1024

  /** Identity values are distinct and below the next one to be assigned. */
  predicate ValidUsers(s: UserStore) {
    && (forall i, j :: 0 <= i < j < |s.users| ==> s.users[i].id != s.users[j].id)
    && (forall i :: 0 <= i < |s.users| ==> s.users[i].id < s.nextId)
  }

  /** No two users share an email. Registration keeps this; a profile update
      need not. */
  predicate UniqueEmails(s: UserStore) {
    forall i, j :: 0 <= i < j < |s.users| ==> s.users[i].email != s.users[j].email
  }

  function HasEmail(email: string): User -> bool {
    (u: User) => u.email == email
  }

  function HasId(id: int): User -> bool {
    (u: User) => u.id == id
  }

  /** `users[i]` is the first user with this email: the row `FirstOrDefault`
      returns. */
  predicate FirstWithEmail(users: seq<User>, email: string, i: int) {
    && 0 <= i < |users| && users[i].email == email
    && forall j :: 0 <= j < i ==> users[j].email != email
  }

  function PublicView(u: User): PublicUser {
    PublicUser(u.id, u.fullName, u.email, u.gender, u.phoneNumber)
  }

  function ProfileView(u: User): UserProfile {
    UserProfile(u.id, u.fullName, u.email, u.gender, u.phoneNumber, u.profileImage)
  }

  /** `GenerateJwtToken`: the claims of the token issued to `u` at `now`. The
      token names its holder by id and email and lapses exactly seven days
      (604800 seconds) after issue. */
  function IssueToken(u: User, now: int): (t: Token)
    ensures t.subject == u.id && t.email == u.email
    ensures t.expires - now == 604800
  {
    Token(u.id, u.email, now + TokenLifetime)
  }

  /** `POST /auth/register`. */
  function Register(s: UserStore, dto: RegisterDto, crypto: Crypto, now: int): (r: AuthStep<Session>)
    ensures r.response.Error? <==> exists u :: u in s.users && u.email == dto.email
    ensures r.response.Error? ==> r.after == s && r.response == Error(BadRequest("User already exists"))
    ensures r.response.Ok? ==>
              && |r.after.users| == |s.users| + 1
              && r.after.users[..|s.users|] == s.users
              && r.after.disk == s.disk
              && var u := r.after.users[|s.users|];
                 && u.fullName == dto.fullName && u.email == dto.email
                 && u.gender == dto.gender && u.phoneNumber == dto.phoneNumber
                 && u.password == crypto.hash(dto.password)
                 && u.profileImage == None && u.createdAt == now
                 && s.nextId <= u.id < r.after.nextId
                 && r.response.value.token.subject == u.id
                 && r.response.value.token.email == dto.email
                 && r.response.value.token.expires == now + TokenLifetime
                 && r.response.value.user == PublicView(u)
  {
    match FindIndex(s.users, HasEmail(dto.email))
    case Some(_) => AuthStep(Error(BadRequest("User already exists")), s)
    case None =>
      var u := User(s.nextId, dto.fullName, dto.email, dto.gender, dto.phoneNumber,
                    crypto.hash(dto.password), None, now);
      var after := s.(users := s.users + [u], nextId := s.nextId + 1);
      assert after.users[..|s.users|] == s.users;
      AuthStep(Ok(Session(IssueToken(u, now), PublicView(u))), after)
  }

  /** `POST /auth/login`: an unknown email and a wrong password give the same
      answer. */
  function Login(s: UserStore, dto: LoginDto, crypto: Crypto, now: int): (r: Response<Session>)
    ensures r.Ok? <==>
              exists i :: FirstWithEmail(s.users, dto.email, i) && crypto.verify(dto.password, s.users[i].password)
    ensures r.Error? ==> r == Error(Unauthorized("Invalid credentials"))
    ensures r.Ok? ==>
              exists i :: && FirstWithEmail(s.users, dto.email, i)
                          && r.value.token.subject == s.users[i].id
                          && r.value.token.email == dto.email
                          && r.value.token.expires == now + TokenLifetime
                          && r.value.user == PublicView(s.users[i])
  {
    match FindIndex(s.users, HasEmail(dto.email))
    case None => Error(Unauthorized("Invalid credentials"))
    case Some(i) =>
      var u := s.users[i];
      if !crypto.verify(dto.password, u.password) then
        assert forall k :: FirstWithEmail(s.users, dto.email, k) ==> k == i;
        Error(Unauthorized("Invalid credentials"))
      else
        assert FirstWithEmail(s.users, dto.email, i);
        Ok(Session(IssueToken(u, now), PublicView(u)))
  }

  /** `GET /auth/profile`. */
  function GetProfile(s: UserStore, caller: int): (r: Response<UserProfile>)
    ensures r.Ok? <==> exists u :: u in s.users && u.id == caller
    ensures r.Ok? ==> exists u :: u in s.users && u.id == caller && r.value == ProfileView(u)
    ensures r.Error? ==> r == Error(NotFound("User not found"))
  {
    match First(s.users, HasId(caller))
    case None => Error(NotFound("User not found"))
    case Some(u) => Ok(ProfileView(u))
  }

  /** `PUT /auth/profile`. `saveError` is the message of the
      `DbUpdateException` the database raised on saving, if it raised one. */
  function UpdateProfile(s: UserStore, caller: int, dto: UpdateProfileDto, saveError: Option<string>): (r: AuthStep<string>)
    ensures r.response.Ok? <==> (exists u :: u in s.users && u.id == caller) && saveError.None?
    ensures (forall u :: u in s.users ==> u.id != caller) ==> r.response == Error(NotFound("User not found"))
    ensures (exists u :: u in s.users && u.id == caller) && saveError.Some? ==>
              r.response == Error(BadRequest("Error updating profile: " + saveError.value))
    ensures r.response.Error? ==> r.after == s
    ensures r.response.Ok? ==> r.response.value == "Profile updated successfully"
    ensures r.response.Ok? ==>
              && r.after.disk == s.disk && r.after.nextId == s.nextId
              && |r.after.users| == |s.users|
              && exists k :: && 0 <= k < |s.users| && s.users[k].id == caller
                             && (forall j :: 0 <= j < |s.users| && j != k ==> r.after.users[j] == s.users[j])
                             && var (prior, updated) := (s.users[k], r.after.users[k]);
                                && updated.email == dto.email
                                && updated.gender == dto.gender
                                && updated.phoneNumber == dto.phoneNumber
                                && updated.id == prior.id
                                && updated.fullName == prior.fullName
                                && updated.password == prior.password
                                && updated.profileImage == prior.profileImage
                                && updated.createdAt == prior.createdAt
  {
    match FindIndex(s.users, HasId(caller))
    case None => AuthStep(Error(NotFound("User not found")), s)
    case Some(k) =>
      if saveError.Some? then
        AuthStep(Error(BadRequest("Error updating profile: " + saveError.value)), s)
      else
        var u := s.users[k];
        var updated := u.(email := dto.email, gender := dto.gender, phoneNumber := dto.phoneNumber);
        AuthStep(Ok("Profile updated successfully"), s.(users := s.users[k := updated]))
  }

  /** The disk after writing the new image and then deleting the old one, if
      the user had one and it is present. */
  function ReplaceImage(disk: Disk, oldImage: Option<string>, path: string, content: seq<byte>): Disk {
    var written := disk[path := content];
    if oldImage.Some? && oldImage.value != "" then DeleteIfExists(written, oldImage.value) else written
  }

  /** The image checks pass, in order: present and non-empty, an allowed
      extension, at most 2 MiB. */
  predicate AcceptableImage(image: Option<FormFile>) {
    && image.Some? && |image.value.content| > 0
    && Lower(GetExtension(image.value.fileName)) in ProfileImageExtensions
    && |image.value.content| <= MaxProfileImageBytes
  }

  /** `POST /auth/profile-image`: checks, in this order, that the user exists,
      that an image was sent, its extension, and its size; then stores it under
      a fresh name and removes the previous image. */
  function UpdateProfileImage(s: UserStore, caller: int, image: Option<FormFile>, guid: string): (r: AuthStep<ImageUpdated>)
    ensures r.response.Ok? <==> (exists u :: u in s.users && u.id == caller) && AcceptableImage(image)
    ensures r.response.Error? ==> r.after == s
    ensures (forall u :: u in s.users ==> u.id != caller) ==>
              r.response == Error(NotFound("User not found"))
    ensures (exists u :: u in s.users && u.id == caller) ==>
              && (image.None? || |image.value.content| == 0 ==>
                    r.response == Error(BadRequest("No image provided")))
              && (image.Some? && |image.value.content| > 0
                  && Lower(GetExtension(image.value.fileName)) !in ProfileImageExtensions ==>
                    r.response == Error(BadRequest("Invalid image type. Allowed: JPG, JPEG, PNG, GIF")))
              && (image.Some? && Lower(GetExtension(image.value.fileName)) in ProfileImageExtensions
                  && |image.value.content| > MaxProfileImageBytes ==>
                    r.response == Error(BadRequest("Image size too large. Maximum 2MB allowed.")))
    ensures r.response.Ok? ==> r.response.value.message == "Profile image updated successfully"
    ensures r.response.Ok? ==>
              var path := r.response.value.imagePath;
              && path == Combine(ProfileImagesDir, guid + Lower(GetExtension(image.value.fileName)))
              && r.after.nextId == s.nextId
              && |r.after.users| == |s.users|
              && exists k :: && 0 <= k < |s.users| && s.users[k].id == caller
                             && r.after.users == s.users[k := s.users[k].(profileImage := Some(path))]
                             && r.after.disk == ReplaceImage(s.disk, s.users[k].profileImage, path, image.value.content)
  {
    match FindIndex(s.users, HasId(caller))
    case None => AuthStep(Error(NotFound("User not found")), s)
    case Some(k) =>
      if image.None? || |image.value.content| == 0 then
        AuthStep(Error(BadRequest("No image provided")), s)
      else
        var ext := Lower(GetExtension(image.value.fileName));
        if ext !in ProfileImageExtensions then
          AuthStep(Error(BadRequest("Invalid image type. Allowed: JPG, JPEG, PNG, GIF")), s)
        else if |image.value.content| > MaxProfileImageBytes then
          AuthStep(Error(BadRequest("Image size too large. Maximum 2MB allowed.")), s)
        else
          var user := s.users[k];
          var path := Combine(ProfileImagesDir, guid + ext);
          var disk := ReplaceImage(s.disk, user.profileImage, path, image.value.content);
          AuthStep(Ok(ImageUpdated("Profile image updated successfully", path)), UserStore(s.users[k := user.(profileImage := Some(path))], disk, s.nextId))
  }

  // ---------------------------------------------------------------------
  // Invariant preservation

  lemma RegisterPreservesValid(s: UserStore, dto: RegisterDto, crypto: Crypto, now: int)
    requires ValidUsers(s)
    ensures ValidUsers(Register(s, dto, crypto, now).after)
  {
    var r := Register(s, dto, crypto, now);
    if r.response.Ok? {
      assert forall i :: 0 <= i < |s.users| ==> r.after.users[i] == s.users[i] by {
        assert r.after.users[..|s.users|] == s.users;
        forall i | 0 <= i < |s.users| ensures r.after.users[i] == s.users[i] {
          assert r.after.users[..|s.users|][i] == r.after.users[i];
        }
      }
    }
  }

  lemma UpdateProfilePreservesValid(s: UserStore, caller: int, dto: UpdateProfileDto, saveError: Option<string>)
    requires ValidUsers(s)
    ensures ValidUsers(UpdateProfile(s, caller, dto, saveError).after)
  {
  }

  lemma UpdateProfileImagePreservesValid(s: UserStore, caller: int, image: Option<FormFile>, guid: string)
    requires ValidUsers(s)
    ensures ValidUsers(UpdateProfileImage(s, caller, image, guid).after)
  {
  }

  // ---------------------------------------------------------------------
  // Registration and login

  /** A registered email cannot be registered again. */
  lemma RegisterTwiceConflicts(s: UserStore, dto: RegisterDto, dto2: RegisterDto, crypto: Crypto, now: int, now2: int)
    requires Register(s, dto, crypto, now).response.Ok?
    requires dto2.email == dto.email
    ensures var t := Register(s, dto, crypto, now).after;
            Register(t, dto2, crypto, now2) == AuthStep(Error(BadRequest("User already exists")), t)
  {
  }

  /** Registration keeps emails unique. */
  lemma RegisterKeepsEmailsUnique(s: UserStore, dto: RegisterDto, crypto: Crypto, now: int)
    requires UniqueEmails(s)
    ensures UniqueEmails(Register(s, dto, crypto, now).after)
  {
  }

  /** Whoever registers can log in with the same email and password, and the
      token names the new account. */
  lemma RegisterThenLogin(s: UserStore, dto: RegisterDto, crypto: Crypto, now: int, later: int)
    requires Sound(crypto)
    requires Register(s, dto, crypto, now).response.Ok?
    ensures var r := Register(s, dto, crypto, now);
            var l := Login(r.after, LoginDto(dto.email, dto.password), crypto, later);
            && l.Ok?
            && l.value.token.subject == r.after.users[|s.users|].id
            && l.value.token.expires == later + TokenLifetime
            && l.value.user == r.response.value.user
  {
  }

  /** The store a registration leaves depends on the password only through its
      hash: the plaintext is never kept. */
  lemma RegisterKeepsOnlyHash(s: UserStore, dto: RegisterDto, p1: string, p2: string, crypto: Crypto, now: int)
    requires crypto.hash(p1) == crypto.hash(p2)
    ensures Register(s, dto.(password := p1), crypto, now) == Register(s, dto.(password := p2), crypto, now)
  {
  }

  /** Two tokens with the same claims were issued to the same id and email at
      the same instant: the claims identify their holder. */
  lemma TokenNamesItsUser(u: User, v: User, now: int, later: int)
    ensures IssueToken(u, now) == IssueToken(v, later) <==> u.id == v.id && u.email == v.email && now == later
  {
    if IssueToken(u, now) == IssueToken(v, later) {
      assert IssueToken(u, now).expires == IssueToken(v, later).expires;
    }
  }

  /** While emails are unique, which matching row the lookup returns does not
      matter: a login succeeds exactly when some user with that email
      verifies the password. */
  lemma LoginWithUniqueEmails(s: UserStore, dto: LoginDto, crypto: Crypto, now: int)
    requires UniqueEmails(s)
    ensures Login(s, dto, crypto, now).Ok? <==>
              exists u :: u in s.users && u.email == dto.email && crypto.verify(dto.password, u.password)
  {
    if exists u :: u in s.users && u.email == dto.email && crypto.verify(dto.password, u.password) {
      var u :| u in s.users && u.email == dto.email && crypto.verify(dto.password, u.password);
      var j :| 0 <= j < |s.users| && s.users[j] == u;
      assert FirstWithEmail(s.users, dto.email, j);
    }
  }

  /** The profile answer does not depend on any stored password hash. */
  lemma ProfileHidesPassword(s: UserStore, caller: int, k: int, hash: string)
    requires 0 <= k < |s.users|
    ensures GetProfile(s.(users := s.users[k := s.users[k].(password := hash)]), caller) == GetProfile(s, caller)
  {
    var t := s.users[k := s.users[k].(password := hash)];
    var a := FindIndex(s.users, HasId(caller));
    var b := FindIndex(t, HasId(caller));
    assert forall j :: 0 <= j < |t| ==> t[j].id == s.users[j].id;
    if a.Some? && b.Some? {
      assert a.value == b.value;
    }
  }

  /** After a successful profile update the caller's profile shows the new
      email, gender and phone number, and nothing else about it changes. */
  lemma ProfileShowsUpdate(s: UserStore, caller: int, dto: UpdateProfileDto)
    requires ValidUsers(s)
    requires UpdateProfile(s, caller, dto, None).response.Ok?
    ensures var before := GetProfile(s, caller);
            && before.Ok?
            && GetProfile(UpdateProfile(s, caller, dto, None).after, caller)
               == Ok(before.value.(email := dto.email, gender := dto.gender, phoneNumber := dto.phoneNumber))
  {
    var r := UpdateProfile(s, caller, dto, None);
    var k :| && 0 <= k < |s.users| && s.users[k].id == caller
             && (forall j :: 0 <= j < |s.users| && j != k ==> r.after.users[j] == s.users[j])
             && r.after.users[k] == s.users[k].(email := dto.email, gender := dto.gender, phoneNumber := dto.phoneNumber);
    UserRowUnique(s.users, k, caller);
    UpdateProfilePreservesValid(s, caller, dto, None);
    UserRowUnique(r.after.users, k, caller);
  }

  /** Email uniqueness is not an invariant of the account store: a profile
      update may take an email another user already has, since the handler
      does not check for one. */
  lemma UpdateProfileMayDuplicateEmail()
    ensures var s := UserStore([User(1, "Ann", "a@x.com", "F", "1", "h1", None, 0),
                                User(2, "Bob", "b@x.com", "M", "2", "h2", None, 0)], map[], 3);
            var r := UpdateProfile(s, 2, UpdateProfileDto("a@x.com", "M", "2"), None);
            && UniqueEmails(s) && r.response.Ok? && !UniqueEmails(r.after)
  {
    var s := UserStore([User(1, "Ann", "a@x.com", "F", "1", "h1", None, 0),
                        User(2, "Bob", "b@x.com", "M", "2", "h2", None, 0)], map[], 3);
    var r := UpdateProfile(s, 2, UpdateProfileDto("a@x.com", "M", "2"), None);
    assert s.users[1].id == 2;
    assert r.after.users[0].email == r.after.users[1].email;
  }

  // ---------------------------------------------------------------------
  // Profile image

  /** In a valid store a user id names one row, which every by-id lookup finds. */
  lemma UserRowUnique(users: seq<User>, k: int, caller: int)
    requires forall i, j :: 0 <= i < j < |users| ==> users[i].id != users[j].id
    requires 0 <= k < |users| && users[k].id == caller
    ensures FindIndex(users, HasId(caller)) == Some(k)
    ensures forall u :: u in users && u.id == caller ==> u == users[k]
  {
  }

  /** With a fresh name, a successful image update leaves the new image on
      disk, the previous one gone, and every other file untouched. */
  lemma ProfileImageReplaced(s: UserStore, caller: int, image: Option<FormFile>, guid: string)
    requires ValidUsers(s)
    requires UpdateProfileImage(s, caller, image, guid).response.Ok?
    requires var path := UpdateProfileImage(s, caller, image, guid).response.value.imagePath;
             path !in s.disk && forall u :: u in s.users ==> u.profileImage != Some(path)
    ensures var r := UpdateProfileImage(s, caller, image, guid);
            var path := r.response.value.imagePath;
            && path in r.after.disk && r.after.disk[path] == image.value.content
            && (forall u :: u in s.users && u.id == caller && u.profileImage.Some? && u.profileImage.value != "" ==>
                  u.profileImage.value !in r.after.disk)
            && (forall p :: p != path && p in r.after.disk ==> p in s.disk && r.after.disk[p] == s.disk[p])
            && (forall p ::
                  (p != path && p in s.disk && forall u :: u in s.users && u.id == caller ==> u.profileImage != Some(p)) ==>
                  p in r.after.disk && r.after.disk[p] == s.disk[p])
  {
    var r := UpdateProfileImage(s, caller, image, guid);
    var path := r.response.value.imagePath;
    var k :| && 0 <= k < |s.users| && s.users[k].id == caller
             && r.after.disk == ReplaceImage(s.disk, s.users[k].profileImage, path, image.value.content);
    UserRowUnique(s.users, k, caller);
    assert s.users[k] in s.users;
    ReplaceImageEffect(s.disk, s.users[k].profileImage, path, image.value.content);
  }

  /** Writing a fresh path and deleting the previous image, on the disk alone. */
  lemma ReplaceImageEffect(disk: Disk, oldImage: Option<string>, path: string, content: seq<byte>)
    requires path !in disk && oldImage != Some(path)
    ensures var d := ReplaceImage(disk, oldImage, path, content);
            && path in d && d[path] == content
            && (oldImage.Some? && oldImage.value != "" ==> oldImage.value !in d)
            && (forall p :: p != path && p in d ==> p in disk && d[p] == disk[p])
            && (forall p :: p != path && p in disk && oldImage != Some(p) ==> p in d && d[p] == disk[p])
  {
  }

  /** After a successful image update the caller's profile shows the new image
      and nothing else about it changes. */
  lemma ProfileShowsNewImage(s: UserStore, caller: int, image: Option<FormFile>, guid: string)
    requires ValidUsers(s)
    requires UpdateProfileImage(s, caller, image, guid).response.Ok?
    ensures var r := UpdateProfileImage(s, caller, image, guid);
            var before := GetProfile(s, caller);
            before.Ok? && GetProfile(r.after, caller) == Ok(before.value.(profileImage := Some(r.response.value.imagePath)))
  {
    var r := UpdateProfileImage(s, caller, image, guid);
    var path := r.response.value.imagePath;
    var k :| && 0 <= k < |s.users| && s.users[k].id == caller
             && r.after.users == s.users[k := s.users[k].(profileImage := Some(path))];
    UserRowUnique(s.users, k, caller);
    UpdateProfileImagePreservesValid(s, caller, image, guid);
    UserRowUnique(r.after.users, k, caller);
  }

  /** The size ceiling is inclusive: an otherwise acceptable image of exactly
      2 MiB is taken, one byte more is refused. */
  lemma ImageSizeBoundary(name: string, content: seq<byte>)
    requires Lower(GetExtension(name)) in ProfileImageExtensions
    ensures |content| == MaxProfileImageBytes ==> AcceptableImage(Some(FormFile(name, content)))
    ensures |content| == MaxProfileImageBytes + 1 ==> !AcceptableImage(Some(FormFile(name, content)))
  {
  }
}
