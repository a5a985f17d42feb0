/**
 Identity value types, the record-type decoder, the `Authorization` header and
 the login information of the inventory client (src/model.rs).
 */
module Model {
  import opened Wrappers

  /** True iff `prefix` is an initial segment of `s` (Rust's `str::starts_with`). */
  predicate StartsWith(s: string, prefix: string) {
    |prefix| <= |s| && s[..|prefix|] == prefix
  }

  // ---------------------------------------------------------------------------
  // Identity types
  // ---------------------------------------------------------------------------

  /** A user id. The `U-` prefix is enforced by `ParseUserId` only: the wire
      decoder of the source wraps any string, so the wrapper itself is unconstrained. */
  datatype UserId = UserId(value: string)

  /** A group id, `G-` prefixed when it comes from `ParseGroupId`. */
  datatype GroupId = GroupId(value: string)

  datatype Password = Password(value: string)
  datatype SessionToken = SessionToken(value: string)
  datatype OneTimePassword = OneTimePassword(value: string)

  /** An e-mail address; its syntax check belongs to a foreign library and is not modelled. */
  datatype EmailAddress = EmailAddress(value: string)

  /** Why a prefixed identifier was refused: a fixed message per identifier
      kind, which does not mention the refused input. */
  datatype ParseError = MissingPrefix(message: string)

  const UserIdPrefix: string := "U-"
  const GroupIdPrefix: string := "G-"
  const UserIdPrefixMessage: string := "An UserId must be prefixed with `U-`"
  const GroupIdPrefixMessage: string := "A valid GroupId must be prefixed with `G-`"

  /** The check shared by both prefix-validating parsers: accept `s` unchanged
      when it begins with `prefix`, refuse it with `message` otherwise. */
  function ParsePrefixed(s: string, prefix: string, message: string): (r: Result<string, ParseError>)
    ensures r.Success? <==> StartsWith(s, prefix)
    ensures r.Success? ==> r.value == s
    ensures r.Failure? ==> r.error == MissingPrefix(message)
  {
    if StartsWith(s, prefix) then Success(s)
    else Failure(MissingPrefix(message))
  }

  /** `UserId::from_str`: succeeds exactly on strings whose first two characters
      are `U` and `-`, and then keeps the whole input. */
  function ParseUserId(s: string): (r: Result<UserId, ParseError>)
    ensures r.Success? <==> |s| >= 2 && s[0] == 'U' && s[1] == '-'
    ensures r.Success? ==> r.value.value == s
    ensures r.Failure? ==> r.error == MissingPrefix(UserIdPrefixMessage)
  {
    match ParsePrefixed(s, UserIdPrefix, UserIdPrefixMessage)
    case Success(v) => Success(UserId(v))
    case Failure(e) => Failure(e)
  }

  /** `GroupId::from_str`: succeeds exactly on strings starting `G-`, keeping the input. */
  function ParseGroupId(s: string): (r: Result<GroupId, ParseError>)
    ensures r.Success? <==> |s| >= 2 && s[0] == 'G' && s[1] == '-'
    ensures r.Success? ==> r.value.value == s
    ensures r.Failure? ==> r.error == MissingPrefix(GroupIdPrefixMessage)
  {
    match ParsePrefixed(s, GroupIdPrefix, GroupIdPrefixMessage)
    case Success(v) => Success(GroupId(v))
    case Failure(e) => Failure(e)
  }

  /** Every `U-`-prefixed user id displays to a string that parses back to it. */
  lemma UserIdRoundTrip(u: UserId)
    requires StartsWith(u.value, UserIdPrefix)
    ensures ParseUserId(u.value) == Success(u)
  {
  }

  /** Every `G-`-prefixed group id displays to a string that parses back to it. */
  lemma GroupIdRoundTrip(g: GroupId)
    requires StartsWith(g.value, GroupIdPrefix)
    ensures ParseGroupId(g.value) == Success(g)
  {
  }

  /** No string is both a user id and a group id. */
  lemma UserAndGroupIdsDisjoint(s: string)
    ensures !(ParseUserId(s).Success? && ParseGroupId(s).Success?)
  {
  }

  // ---------------------------------------------------------------------------
  // Record type
  // ---------------------------------------------------------------------------

  datatype RecordType = Directory | Object | Texture | Audio | Link

  /** A refused record type: the decoder reports a fixed message listing the
      accepted kinds, not the string it was given. */
  datatype DecodeError = UnknownRecordType(message: string)

  const RecordTypeMessage: string := "dir | obj | text | aud | lnk"

  /** The name the derived serialiser writes: the variant name, capitalised. */
  function SerializedName(t: RecordType): (r: string)
    ensures |r| >= 4 && 'A' <= r[0] <= 'Z'
    ensures forall i :: 1 <= i < |r| ==> 'a' <= r[i] <= 'z'
  {
    match t
    case Directory => "Directory"
    case Object => "Object"
    case Texture => "Texture"
    case Audio => "Audio"
    case Link => "Link"
  }

  /** ASCII lower-casing of one character. */
  function LowerAscii(c: char): char {
    if 'A' <= c <= 'Z' then (c as int + 32) as char else c
  }

  /** ASCII lower-casing of a string, character by character. */
  function ToLowerAscii(s: string): string {
    seq(|s|, i requires 0 <= i < |s| => LowerAscii(s[i]))
  }

  /** The lower-case spelling of a record type, as the backend usually sends it. */
  function LowercaseName(t: RecordType): string {
    ToLowerAscii(SerializedName(t))
  }

  lemma LowercaseNames()
    ensures LowercaseName(Directory) == "directory"
    ensures LowercaseName(Object) == "object"
    ensures LowercaseName(Texture) == "texture"
    ensures LowercaseName(Audio) == "audio"
    ensures LowercaseName(Link) == "link"
  {
  }

  /** The hand-written decoder of `RecordType`: both the lower-case and the
      capitalised spelling of each variant are accepted, anything else is an error. */
  function DecodeRecordType(s: string): (r: Result<RecordType, DecodeError>)
    ensures r.Success? ==> s == SerializedName(r.value) || s == LowercaseName(r.value)
    ensures forall t :: s == SerializedName(t) || s == LowercaseName(t) ==> r == Success(t)
    ensures r.Failure? ==> r.error == UnknownRecordType(RecordTypeMessage)
  {
    LowercaseNames();
    if s == "directory" || s == "Directory" then Success(Directory)
    else if s == "object" || s == "Object" then Success(Object)
    else if s == "texture" || s == "Texture" then Success(Texture)
    else if s == "audio" || s == "Audio" then Success(Audio)
    else if s == "link" || s == "Link" then Success(Link)
    else Failure(UnknownRecordType(RecordTypeMessage))
  }

  /** A string decodes to `t` iff it is the capitalised or the lower-case name of `t`. */
  lemma DecodeRecordTypeIff(s: string, t: RecordType)
    ensures DecodeRecordType(s) == Success(t) <==> (s == SerializedName(t) || s == LowercaseName(t))
  {
    LowercaseNames();
  }

  /** Decoding what the serialiser writes gives the variant back. */
  lemma RecordTypeRoundTrip(t: RecordType)
    ensures DecodeRecordType(SerializedName(t)) == Success(t)
    ensures DecodeRecordType(LowercaseName(t)) == Success(t)
  {
    DecodeRecordTypeIff(SerializedName(t), t);
    DecodeRecordTypeIff(LowercaseName(t), t);
  }

  // ---------------------------------------------------------------------------
  // Authorization
  // ---------------------------------------------------------------------------

  /** The credential pair attached to every authenticated request of a session. */
  datatype AuthorizationInfo = AuthorizationInfo(ownerId: UserId, token: SessionToken)

  /** The body of a successful `POST /userSessions`. */
  datatype UserLoginPostResponse = UserLoginPostResponse(userId: UserId, token: SessionToken)

  const AuthorizationScheme: string := "neos"

  /** The `Authorization` header value: the scheme, a space, the owner id, a
      colon and the token, with nothing escaped. */
  function AuthorizationHeaderValue(a: AuthorizationInfo): (r: string)
    ensures StartsWith(r, "neos ")
    ensures |r| == 6 + |a.ownerId.value| + |a.token.value|
    ensures r[5..5 + |a.ownerId.value|] == a.ownerId.value
    ensures r[5 + |a.ownerId.value|] == ':'
    ensures r[6 + |a.ownerId.value|..] == a.token.value
  {
    AuthorizationScheme + " " + a.ownerId.value + ":" + a.token.value
  }

  /** `to_authorization_info`: the session credentials are the response's user
      id and token, copied unchanged. */
  function ToAuthorizationInfo(resp: UserLoginPostResponse): (r: AuthorizationInfo)
    ensures r.ownerId == resp.userId && r.token == resp.token
  {
    AuthorizationInfo(resp.userId, resp.token)
  }

  /** Splits `s` at the first occurrence of `c`, if any. */
  function SplitAtFirst(s: string, c: char): (r: Option<(string, string)>)
    ensures r.None? <==> c !in s
    ensures r.Some? ==> c !in r.value.0 && s == r.value.0 + [c] + r.value.1
  {
    if |s| == 0 then None
    else if s[0] == c then Some(([], s[1..]))
    else
      match SplitAtFirst(s[1..], c)
      case None => None
      case Some((before, after)) => Some(([s[0]] + before, after))
  }

  /** A reader of header values, the inverse of `AuthorizationHeaderValue`: the
      owner id runs up to the first colon after the scheme. */
  function ParseAuthorizationHeaderValue(h: string): (r: Option<AuthorizationInfo>)
    ensures r.Some? ==> StartsWith(h, "neos ") && AuthorizationHeaderValue(r.value) == h
    ensures r.Some? ==> ':' !in r.value.ownerId.value
  {
    if StartsWith(h, "neos ") then
      match SplitAtFirst(h[5..], ':')
      case None => None
      case Some((owner, token)) =>
        assert h == h[..5] + h[5..];
        Some(AuthorizationInfo(UserId(owner), SessionToken(token)))
    else None
  }

  /** The header value determines the credentials whenever the owner id holds no colon. */
  lemma AuthorizationHeaderRoundTrip(a: AuthorizationInfo)
    requires ':' !in a.ownerId.value
    ensures ParseAuthorizationHeaderValue(AuthorizationHeaderValue(a)) == Some(a)
  {
  }

  /** Without that condition two different sessions can share one header value. */
  lemma AuthorizationHeaderAmbiguousWithColon()
    ensures AuthorizationHeaderValue(AuthorizationInfo(UserId("U-a:b"), SessionToken("c")))
         == AuthorizationHeaderValue(AuthorizationInfo(UserId("U-a"), SessionToken("b:c")))
  {
  }

  /** The session built from a login response authenticates as that response's
      user with that response's token. */
  lemma LoginResponseHeader(resp: UserLoginPostResponse)
    ensures AuthorizationHeaderValue(ToAuthorizationInfo(resp))
         == "neos " + resp.userId.value + ":" + resp.token.value
  {
  }

  // ---------------------------------------------------------------------------
  // Login information
  // ---------------------------------------------------------------------------

  /** How a password login names its user: by e-mail or by user id, never both. */
  datatype UserIdentifyPointer =
    | EmailPointer(email: EmailAddress)
    | UserIdPointer(userId: UserId)

  datatype LoginInfo =
    | ByPassword(identify: UserIdentifyPointer, password: Password, totp: Option<OneTimePassword>)
    | ByTokenFromStdin(userId: UserId)

  /** The one-time password that accompanies a login, if any: only password
      logins carry one. */
  function GetTotp(info: LoginInfo): (r: Option<OneTimePassword>)
    ensures r.Some? ==> info.ByPassword?
    ensures info.ByTokenFromStdin? ==> r == None
    ensures info.ByPassword? ==> r == info.totp
  {
    match info
    case ByPassword(_, _, totp) => totp
    case ByTokenFromStdin(_) => None
  }
}
