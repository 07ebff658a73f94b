/**
  The Google OAuth provider's profile mapper: a decoded Google profile is
  validated and projected onto the server's user record.

  Inputs the mapper does not compute are parameters: the outcome of JSON
  decoding, the username sanitiser `CleanUsername` (defined elsewhere in the
  server), and the address the Go allocator gives the new `AuthData` string.
*/
module Google {
  import opened Wrappers
  import Strings
  import Decimal

  /** Go's `int64`. */
  type Int64 = x: int | -0x8000_0000_0000_0000 <= x <= 0x7fff_ffff_ffff_ffff

  /** `model.ServiceGoogle`, the tag every user built by this provider carries. */
  const ServiceGoogle: string := "google"

  /** The decoded user-info response (the unused `Picture` field is dropped). */
  datatype GoogleUser = GoogleUser(
    id: Int64,        // JSON key "sub"
    username: string, // JSON key "username"
    login: string,    // JSON key "login"
    email: string,    // JSON key "email"
    name: string      // JSON key "name"
  )

  /** A Go `*string`: where the string lives and what it holds. */
  datatype StringPtr = StringPtr(addr: nat, target: string)

  /** The fields of `model.User` this provider sets; `authData` is a nilable pointer. */
  datatype User = User(
    username: string,
    firstName: string,
    lastName: string,
    email: string,
    authData: Option<StringPtr>,
    authService: string
  )

  /** The two ways `IsValid` rejects a profile. */
  datatype ValidationError = ZeroId | EmptyEmail {
    /** The text of the Go error value. */
    function Message(): string
    {
      match this
      case ZeroId => "user id can't be 0"
      case EmptyEmail => "user e-mail should not be empty"
    }
  }

  /** The two error texts are non-empty and tell the two failures apart. */
  lemma MessagesIdentifyError(a: ValidationError, b: ValidationError)
    ensures a.Message() != ""
    ensures a.Message() == b.Message() <==> a == b
  {
  }

  /** Errors `GetUserFromJSON` returns: the decoder's, passed through, or a validation error. */
  datatype Error = DecodeFailed(reason: string) | Invalid(cause: ValidationError)

  /** A Go `(*model.User, error)` return pair; either half may be nil. */
  datatype Reply = Reply(user: Option<User>, err: Option<Error>)

  /**
    `GoogleUser.IsValid`: a profile is accepted exactly when its id is
    non-zero and its e-mail is non-empty; the id is checked first, so a
    profile failing both reports the id.
  */
  function IsValid(glu: GoogleUser): (r: Option<ValidationError>)
    ensures r.None? <==> glu.id != 0 && glu.email != ""
    ensures glu.id == 0 ==> r == Some(ZeroId)
    ensures r == Some(EmptyEmail) <==> glu.id != 0 && glu.email == ""
  {
    if glu.id == 0 then Some(ZeroId)
    else if glu.email == "" then Some(EmptyEmail)
    else None
  }

  /**
    `getAuthData`: the id in base 10. The result is a non-empty canonical
    decimal (a sign only for negative ids, no leading zero), at most 20
    characters long, and reads back as the id.
  */
  function AuthData(glu: GoogleUser): (r: string)
    ensures r != ""
    ensures Decimal.Canonical(r)
    ensures r[0] == '-' <==> glu.id < 0
    ensures Decimal.Parse(r) == Some(glu.id as int)
    ensures |r| <= 20
  {
    Decimal.FormatInt64Length(glu.id);
    Decimal.FormatInt(glu.id)
  }

  /** Profiles with different ids never share an `AuthData` string. */
  lemma AuthDataInjective(a: GoogleUser, b: GoogleUser)
    ensures AuthData(a) == AuthData(b) <==> a.id == b.id
  {
    Decimal.FormatIntInjective(a.id, b.id);
  }

  /** The username before cleaning: `Username` when it is set, otherwise `Login`. */
  function RawUsername(glu: GoogleUser): (r: string)
    ensures r == glu.username || r == glu.login
    ensures glu.username != "" ==> r == glu.username
    ensures r == "" <==> glu.username == "" && glu.login == ""
  {
    if glu.username == "" then glu.login else glu.username
  }

  /**
    The first/last name split of `userFromGoogleUser`, with its three
    branches on the number of space-separated pieces.
  */
  function SplitName(name: string): (r: (string, string))
    ensures ' ' !in name ==> r == (name, "")
    ensures ' ' in name ==> ' ' !in r.0 && r.0 + " " + r.1 == name
    ensures ' ' in name ==> r.0 == name[..Strings.IndexOf(name, ' ')]
  {
    var parts := Strings.Split(name, ' ');
    if |parts| == 2 then
      Strings.SplitAtFirst(name, ' ');
      (parts[0], parts[1])
    else if |parts| >= 2 then
      Strings.SplitAtFirst(name, ' ');
      (parts[0], Strings.Join(parts[1..], " "))
    else
      (name, "")
  }

  /**
    The name split is the unique decomposition into a space-free first name,
    one space, and the rest: the first name is the text before the first
    space and the last name everything after it, empty pieces included.
  */
  lemma SplitNameUnique(name: string, first: string, last: string)
    requires ' ' !in first && first + " " + last == name
    ensures SplitName(name) == (first, last)
  {
    var f := SplitName(name).0;
    var l := SplitName(name).1;
    assert name[|first|] == ' ';
    assert ' ' in name;
    assert forall k :: 0 <= k < |first| ==> name[k] == first[k];
    assert forall k :: 0 <= k < |f| ==> name[k] == f[k];
    assert name[|f|] == ' ';
    assert f == name[..|f|] == first;
    assert l == name[|f| + 1..] == last;
  }

  /** The two-piece branch agrees with the general branch: joining one piece is that piece. */
  lemma TwoPieceBranchAgrees(name: string)
    requires |Strings.Split(name, ' ')| == 2
    ensures Strings.Join(Strings.Split(name, ' ')[1..], " ") == Strings.Split(name, ' ')[1]
  {
  }

  /**
    `userFromGoogleUser`: the cleaned username, the split name, the
    lower-cased e-mail, a freshly allocated `AuthData` string at `alloc`
    holding the id in base 10, and the Google service tag.
  */
  function UserFromGoogleUser(glu: GoogleUser, clean: string -> string, alloc: nat): (u: User)
    ensures u.username == clean(RawUsername(glu))
    ensures ' ' !in glu.name ==> u.firstName == glu.name && u.lastName == ""
    ensures ' ' in glu.name ==> ' ' !in u.firstName && u.firstName + " " + u.lastName == glu.name
    ensures |u.email| == |glu.email|
    ensures forall k :: 0 <= k < |u.email| ==> !Strings.IsUpperAscii(u.email[k])
    ensures forall k :: 0 <= k < |u.email| ==> (u.email[k] == glu.email[k] <==> !Strings.IsUpperAscii(glu.email[k]))
    ensures forall k :: 0 <= k < |u.email| && Strings.IsUpperAscii(glu.email[k]) ==> u.email[k] as int == glu.email[k] as int + 32
    ensures u.email == Strings.ToLowerAscii(glu.email)
    ensures u.authData.Some? && u.authData.value.addr == alloc
    ensures Decimal.Parse(u.authData.value.target) == Some(glu.id as int)
    ensures Decimal.Canonical(u.authData.value.target)
    ensures u.authData.value.target == AuthData(glu)
    ensures u.authData.value.target != ""
    ensures u.authService == ServiceGoogle
  {
    var (first, last) := SplitName(glu.name);
    User(
      username := clean(RawUsername(glu)),
      firstName := first,
      lastName := last,
      email := Strings.ToLowerAscii(glu.email),
      authData := Some(StringPtr(alloc, AuthData(glu))),
      authService := ServiceGoogle
    )
  }

  /** The e-mail a projected user carries is already lower-case: lowering it again changes nothing. */
  lemma EmailStable(glu: GoogleUser, clean: string -> string, alloc: nat)
    ensures Strings.ToLowerAscii(UserFromGoogleUser(glu, clean, alloc).email) == UserFromGoogleUser(glu, clean, alloc).email
  {
    Strings.LowerIdempotent(glu.email);
  }

  /**
    `GetUserFromJSON`: decode, validate, project. It is all-or-nothing: a
    user comes back, with no error, exactly when decoding succeeded and the
    profile is valid; otherwise the decoder's or the validator's error comes
    back with no user.
  */
  function GetUserFromJSON(decoded: Result<GoogleUser, string>, clean: string -> string, alloc: nat): (r: Reply)
    ensures r.user.Some? <==> r.err.None?
    ensures r.user.Some? <==> decoded.Success? && decoded.value.id != 0 && decoded.value.email != ""
    ensures decoded.Failure? ==> r.err == Some(DecodeFailed(decoded.error))
    ensures decoded.Success? && decoded.value.id == 0 ==> r.err == Some(Invalid(ZeroId))
    ensures decoded.Success? && decoded.value.id != 0 && decoded.value.email == "" ==> r.err == Some(Invalid(EmptyEmail))
    ensures r.user.Some? ==> r.user.value == UserFromGoogleUser(decoded.value, clean, alloc)
    ensures r.user.Some? ==> r.user.value.authService == ServiceGoogle
    ensures r.user.Some? ==> r.user.value.authData == Some(StringPtr(alloc, Decimal.FormatInt(decoded.value.id)))
  {
    match decoded
    case Failure(e) => Reply(None, Some(DecodeFailed(e)))
    case Success(glu) =>
      match IsValid(glu)
      case Some(v) => Reply(None, Some(Invalid(v)))
      case None => Reply(Some(UserFromGoogleUser(glu, clean, alloc)), None)
  }

  /** `GetUserFromIdToken` is a stub: no user and no error, whatever the token. */
  function GetUserFromIdToken(idToken: string): (r: Reply)
    ensures r.user.None? && r.err.None?
  {
    Reply(None, None)
  }

  /** The Go `==` on two `*string` values: both nil, or the same address. */
  predicate SamePointer(p: Option<StringPtr>, q: Option<StringPtr>): (r: bool)
    ensures r ==> (p.None? <==> q.None?)
    ensures p.Some? && q.Some? ==> (r <==> p.value.addr == q.value.addr)
    ensures p.None? && q.None? ==> r
  {
    match (p, q)
    case (None, None) => true
    case (Some(a), Some(b)) => a.addr == b.addr
    case _ => false
  }

  /**
    `IsSameUser` as written: it compares the two `AuthData` pointers, not the
    strings they point to, so two users whose `AuthData` was allocated
    separately are never the same, and two users without `AuthData` always are.
  */
  function IsSameUserAsWritten(dbUser: User, oauthUser: User): (r: bool)
    ensures r ==> (dbUser.authData.Some? <==> oauthUser.authData.Some?)
    ensures dbUser.authData.None? && oauthUser.authData.None? ==> r
    ensures dbUser.authData.Some? && oauthUser.authData.Some? && dbUser.authData.value.addr != oauthUser.authData.value.addr ==> !r
    ensures dbUser.authData.Some? && oauthUser.authData.Some? && dbUser.authData.value.addr == oauthUser.authData.value.addr ==> r
  {
    SamePointer(dbUser.authData, oauthUser.authData)
  }

  /** The same Google account, projected twice into separately allocated users, is not recognised. */
  lemma SeparateProjectionsNeverSame(glu: GoogleUser, clean: string -> string, a1: nat, a2: nat)
    requires a1 != a2
    ensures !IsSameUserAsWritten(UserFromGoogleUser(glu, clean, a1), UserFromGoogleUser(glu, clean, a2))
  {
  }

  /** A concrete case: account 42 logging in again is not matched to its stored user. */
  lemma SameAccountNotRecognised()
    ensures var glu := GoogleUser(42, "jdoe", "", "jdoe@example.com", "Jane Doe");
      var stored := UserFromGoogleUser(glu, s => s, 1);
      var incoming := GetUserFromJSON(Success(glu), s => s, 2);
      && incoming.user.Some?
      && stored.authData.value.target == incoming.user.value.authData.value.target
      && !IsSameUserAsWritten(stored, incoming.user.value)
  {
  }

  /**
    `IsSameUser` as intended: both users carry `AuthData` and the strings
    pointed to are equal.
  */
  function IsSameUser(dbUser: User, oauthUser: User): (r: bool)
    ensures r <==> dbUser.authData.Some? && oauthUser.authData.Some?
                   && dbUser.authData.value.target == oauthUser.authData.value.target
  {
    match (dbUser.authData, oauthUser.authData)
    case (Some(a), Some(b)) => a.target == b.target
    case _ => false
  }

  /**
    Users built by this provider are the same, under the intended comparison,
    exactly when they come from the same Google id, whatever the other profile
    fields and wherever their `AuthData` was allocated.
  */
  lemma SameUserIffSameId(g1: GoogleUser, g2: GoogleUser, clean: string -> string, a1: nat, a2: nat)
    ensures IsSameUser(UserFromGoogleUser(g1, clean, a1), UserFromGoogleUser(g2, clean, a2)) <==> g1.id == g2.id
  {
    AuthDataInjective(g1, g2);
  }

  /**
    When pointers determine their targets (one address, one string), the
    as-written comparison never claims a match the intended one rejects.
  */
  lemma AsWrittenWithinIntended(dbUser: User, oauthUser: User)
    requires dbUser.authData.Some? && oauthUser.authData.Some?
    requires dbUser.authData.value.addr == oauthUser.authData.value.addr ==> dbUser.authData == oauthUser.authData
    ensures IsSameUserAsWritten(dbUser, oauthUser) ==> IsSameUser(dbUser, oauthUser)
  {
  }

  /** A two-piece name splits into its two pieces. */
  lemma TwoPieceExample()
    ensures SplitName("Jane Doe") == ("Jane", "Doe")
  {
    SplitNameUnique("Jane Doe", "Jane", "Doe");
  }

  /** A three-piece name keeps the last two pieces together as the last name. */
  lemma ThreePieceExample()
    ensures SplitName("Jane Q Doe") == ("Jane", "Q Doe")
  {
    SplitNameUnique("Jane Q Doe", "Jane", "Q Doe");
  }

  /** Repeated spaces leave the extra space at the start of the last name. */
  lemma DoubleSpaceExample()
    ensures SplitName("Jane  Doe") == ("Jane", " Doe")
  {
    SplitNameUnique("Jane  Doe", "Jane", " Doe");
  }

  /** A single-piece name, the empty one included, is all first name. */
  lemma OnePieceExamples()
    ensures SplitName("Prince") == ("Prince", "")
    ensures SplitName("") == ("", "")
  {
    var prince := "Prince";
    assert forall k :: 0 <= k < |prince| ==> prince[k] != ' ';
    assert ' ' !in prince;
    assert ' ' !in "";
  }
}
