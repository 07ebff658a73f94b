# Google OAuth profile mapper

A Dafny model of the Google OAuth provider of the Mattermost server
(`server/channels/app/oauthproviders/google/google.go`). The provider takes
the Google user-info response, already decoded into a `GoogleUser` record
(id, username, login, e-mail, name), checks that the id is non-zero and the
e-mail non-empty, and projects it onto the server's user record: username
(falling back from `Username` to `Login`, then cleaned), first and last name
(split on spaces), lower-cased e-mail, `AuthData` (the id in base 10) and
`AuthService` (`"google"`). It also has a stub `GetUserFromIdToken` and an
`IsSameUser` comparison.

Modules:

- `Wrappers` (`wrappers.dfy`): `Option` and `Result`.
- `Strings` (`strings.dfy`): Go's `strings.Split` and `strings.Join` for a
  one-character separator, and ASCII lower-casing, with the split/join
  round trip in both directions.
- `Decimal` (`decimal.dfy`): `strconv.FormatInt(n, 10)` and a reader for
  the same notation, proved to be inverse bijections between the integers
  and the canonical decimal strings, plus the 20-character bound for
  64-bit values.
- `Google` (`google.dfy`): the profile record, validation, the user
  projection, the decode–validate–project pipeline, the id-token stub and
  the user comparison.

Things the model takes as parameters rather than computing: the result of
JSON decoding (a `Result<GoogleUser, string>`, the string standing for the
decoder's error), the username sanitiser `model.CleanUsername` (a function
`clean`, since it is defined elsewhere in the server), and the address the
Go allocator gives the new `AuthData` string (`alloc`). A Go
`(*model.User, error)` pair is the datatype `Reply(user, err)`, so that
"exactly one of the two is set" is a property to prove rather than a given.

The username falls back to `Login` only (never to the e-mail), and
validation rejects a zero numeric id. `IsSameUser` compares `AuthData`
pointers, not the strings they point to (see Findings).

## Model

| member | source | states |
|---|---|---|
| Google.IsValid | server/channels/app/oauthproviders/google/google.go:69-79 | a profile passes exactly when its id is non-zero and its e-mail non-empty; a zero id is reported first, so the e-mail error appears only for a non-zero id with an empty e-mail |
| Google.AuthData | server/channels/app/oauthproviders/google/google.go:81-83 | the auth identifier is non-empty canonical decimal, starts with '-' exactly for negative ids, has no leading zero unless it is "0", is at most 20 characters, and parses back to the id |
| Google.AuthDataInjective | server/channels/app/oauthproviders/google/google.go:81-83 | two profiles get the same auth identifier if and only if they have the same id |
| Google.RawUsername | server/channels/app/oauthproviders/google/google.go:35-38 | the username before cleaning is `Username` when that is set and `Login` otherwise; it is empty only when both are |
| Google.SplitName | server/channels/app/oauthproviders/google/google.go:40-49 | a name with no space is all first name with an empty last name (the empty name included); otherwise the first name is the text before the first space, has no space itself, and first name, one space and last name rebuild the name |
| Google.SplitNameUnique | server/channels/app/oauthproviders/google/google.go:40-49 | the split is the only decomposition into a space-free first name, a space and a rest, so the first name is the text before the first space and the last name all text after it, extra spaces included |
| Google.TwoPieceBranchAgrees | server/channels/app/oauthproviders/google/google.go:41-46 | for a two-piece name the dedicated branch and the general join branch give the same last name |
| Google.TwoPieceExample | server/channels/app/oauthproviders/google/google.go:41-43 | "Jane Doe" splits into "Jane" and "Doe" |
| Google.ThreePieceExample | server/channels/app/oauthproviders/google/google.go:44-46 | "Jane Q Doe" splits into "Jane" and "Q Doe" |
| Google.DoubleSpaceExample | server/channels/app/oauthproviders/google/google.go:44-46 | "Jane  Doe" splits into "Jane" and " Doe": the empty piece survives into the last name |
| Google.OnePieceExamples | server/channels/app/oauthproviders/google/google.go:47-48 | "Prince" and "" are kept whole as the first name with an empty last name |
| Google.UserFromGoogleUser | server/channels/app/oauthproviders/google/google.go:33-57 | the projected user has the cleaned username, the name split as above, the lower-cased e-mail (every ASCII capital replaced by its small letter, nothing else changed), a newly allocated `AuthData` holding the canonical decimal id that parses back to the id, and the Google service tag |
| Google.EmailStable | server/channels/app/oauthproviders/google/google.go:50-51 | lower-casing the projected user's e-mail again changes nothing |
| Google.GetUserFromJSON | server/channels/app/oauthproviders/google/google.go:85-95 | a user is returned, with no error, exactly when decoding succeeded and the profile is valid; then its service is Google and its `AuthData` is the decimal id; the user is the projection of the decoded profile; otherwise no user is returned, with the decoder's error or the first validation error |
| Google.GetUserFromIdToken | server/channels/app/oauthproviders/google/google.go:101-103 | whatever the token, no user and no error |
| Google.IsSameUserAsWritten | server/channels/app/oauthproviders/google/google.go:105-107 | the comparison as written is reference identity: true for two users without `AuthData` or whose `AuthData` pointers share an address, false when only one is nil or the addresses differ, whatever strings they hold |
| Google.SeparateProjectionsNeverSame | server/channels/app/oauthproviders/google/google.go:105-107 | one profile projected twice, with two allocations, is not the same user under the comparison as written |
| Google.SameAccountNotRecognised | server/channels/app/oauthproviders/google/google.go:105-107 | account 42 stored and then returned by `GetUserFromJSON` carries the same identifier string but is not recognised as the same user |
| Google.IsSameUser | server/channels/app/oauthproviders/google/google.go:105-107 | the intended comparison holds exactly when both users carry `AuthData` and the two strings are equal |
| Google.SameUserIffSameId | server/channels/app/oauthproviders/google/google.go:105-107 | two users built by this provider are the same under the intended comparison if and only if their Google ids are equal |
| Google.AsWrittenWithinIntended | server/channels/app/oauthproviders/google/google.go:105-107 | when each address holds one string, a match under the comparison as written is a match under the intended one |
| Google.MessagesIdentifyError | server/channels/app/oauthproviders/google/google.go:70-76 | the two validation error texts are non-empty and differ, so the text tells which check failed |
| Google.SamePointer | server/channels/app/oauthproviders/google/google.go:106 | Go's `==` on two `*string` values: true for two nils, false for a nil and a non-nil, and for two non-nil pointers true exactly when the addresses agree |
| Strings.Join | server/channels/app/oauthproviders/google/google.go:46 | no pieces join to the empty string; otherwise the result has the pieces' total length plus one separator between each pair, and starts with the first piece |
| Strings.Split | server/channels/app/oauthproviders/google/google.go:40 | splitting gives at least one piece, exactly one when the separator is absent, no piece holds the separator, and joining the pieces with it gives the input back |
| Strings.SplitOfJoin | server/channels/app/oauthproviders/google/google.go:40-46 | splitting the join of one or more separator-free pieces gives those pieces back |
| Strings.SplitAtFirst | server/channels/app/oauthproviders/google/google.go:44-46 | when the separator occurs, the first piece is the text before its first occurrence and the rest, joined, is the text after it |
| Strings.ToLowerAscii | server/channels/app/oauthproviders/google/google.go:51 | lower-casing keeps the length, leaves no ASCII capital, changes a character exactly when it is a capital, and moves a capital to its small letter |
| Strings.LowerFixedPoint | server/channels/app/oauthproviders/google/google.go:51 | lower-casing leaves a string unchanged if and only if it has no ASCII capital |
| Strings.LowerIdempotent | server/channels/app/oauthproviders/google/google.go:51 | lower-casing twice equals lower-casing once |
| Decimal.FormatNat | server/channels/app/oauthproviders/google/google.go:82 | a natural number renders as non-empty digits with no leading zero unless it is "0", whose value is the number |
| Decimal.FormatInt | server/channels/app/oauthproviders/google/google.go:82 | an integer renders in canonical form, with a leading '-' exactly when it is negative, and parses back to itself |
| Decimal.FormatIntInjective | server/channels/app/oauthproviders/google/google.go:82 | two integers render alike if and only if they are equal |
| Decimal.FormatOfParse | server/channels/app/oauthproviders/google/google.go:82 | every canonical decimal string parses, and rendering the parsed value gives the string back |
| Decimal.FormatNatOfDigits | server/channels/app/oauthproviders/google/google.go:82 | rendering the value of canonical digits gives those digits back |
| Decimal.FormatNatLength | server/channels/app/oauthproviders/google/google.go:82 | a number below 10^k renders in at most k digits |
| Decimal.FormatInt64Length | server/channels/app/oauthproviders/google/google.go:20 | every `int64` id renders in at most 20 characters |

## Left out

- JSON decoding (`getGoogleUserFromJSON`, google.go:59-67): it is a call into `encoding/json`; `GetUserFromJSON` takes the decoded record or the decoder's error instead.
- `model.CleanUsername` (google.go:39): defined outside this file; it is the parameter `clean`, about which nothing is assumed.
- Strings.ToLowerAscii: lowers ASCII capitals only, because Go's `strings.ToLower` applies Unicode case mapping to non-ASCII letters, which is not modelled; non-ASCII characters are left unchanged.
- Go strings are byte sequences; the model uses character sequences. Splitting on the ASCII space gives the same pieces either way.
- Provider registration in `init` (google.go:28-31): a write to a global registry, outside the mapper's logic.
- `GetSSOSettings` (google.go:97-99): returns a field of the configuration unchanged.
- The logger and request context (`mlog`, `request.CTX`), and the `Picture` field, which is decoded but never used.
- Google.UserFromGoogleUser: the rest of `model.User` is left at Go's zero values by the source and is not modelled; only the six fields the provider sets are.

## Findings

| source | as written | input that shows it | evidently intended | confidence | as-written member | corrected member |
|---|---|---|---|---|---|---|
| server/channels/app/oauthproviders/google/google.go:105-107 | `dbUser.AuthData == oauthUser.AuthData` compares two `*string` pointers, so it is true only for the same allocation (or two nil pointers) | a stored user and a freshly returned user for the same Google id 42: both hold "42" in separately allocated strings, and the comparison is false | compare the strings the two pointers point to, so users with the same Google id match | medium (not executed; `AuthData` is the account's only identifier, set at google.go:52-53 from a fresh local, and two separately allocated `*string` values never compare equal, so as written the method can match only two users that both lack `AuthData`) | Google.SameAccountNotRecognised | Google.SameUserIffSameId |
