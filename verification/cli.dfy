/**
 Validation of the parsed command line (src/cli.rs:12-129): the credential
 options become an optional `LoginInfo`, the colour policy a flag, the platform
 a supported platform. The subcommand is opaque (`S`) and the "is standard
 output a terminal" query is the parameter `stdoutIsTerminal`.
 */
module Cli {
  import opened Wrappers
  import opened Model
  import Logging

  datatype ColorPolicy = Always | Auto | Never

  datatype Platform = Neos | Resonite

  /** The options as the command-line parser delivers them. */
  datatype Args<S> = Args(
    email: Option<EmailAddress>,
    password: Option<Password>,
    totp: Option<OneTimePassword>,
    userId: Option<UserId>,
    logLevel: Logging.LogLevel,
    readTokenFromStdin: bool,
    keepRecordId: bool,
    colorPolicy: ColorPolicy,
    platform: Option<Platform>,
    subCommand: S)

  /** The options after validation. */
  datatype AfterArgs<S> = AfterArgs(
    loginInfo: Option<LoginInfo>,
    subCommand: S,
    logLevel: Logging.LogLevel,
    readTokenFromStdin: bool,
    keepRecordId: bool,
    colored: bool,
    platform: Platform)

  /** The reasons `validate` gives up, one per `bail!`. */
  datatype ValidationError =
    | BothEmailAndUserId
    | PasswordWithoutIdentifier
    | StdinTokenWithoutUserId
    | PlatformNotSupported(platform: Platform)

  /** The credential rules, stated on their own: a password needs exactly one of
      e-mail and user id; without a password, a token from standard input needs
      a user id. */
  predicate CredentialsAdmissible<S>(args: Args<S>) {
    && (args.password.Some? ==> args.email.Some? != args.userId.Some?)
    && (args.password.None? && args.readTokenFromStdin ==> args.userId.Some?)
  }

  /** The login part of `validate`. A password takes precedence over the
      standard-input flag. */
  function ResolveLoginInfo<S>(args: Args<S>): (r: Result<Option<LoginInfo>, ValidationError>)
    ensures r.Success? <==> CredentialsAdmissible(args)
  {
    if args.password.Some? then
      match (args.email, args.userId)
      case (Some(_), Some(_)) => Failure(BothEmailAndUserId)
      case (Some(email), None) => Success(Some(ByPassword(EmailPointer(email), args.password.value, args.totp)))
      case (None, Some(userId)) => Success(Some(ByPassword(UserIdPointer(userId), args.password.value, args.totp)))
      case (None, None) => Failure(PasswordWithoutIdentifier)
    else if args.readTokenFromStdin then
      if args.userId.Some? then Success(Some(ByTokenFromStdin(args.userId.value)))
      else Failure(StdinTokenWithoutUserId)
    else Success(Option.None)
  }

  /** Whether output is coloured: always, never, or when standard output is a terminal. */
  function ResolveColored(policy: ColorPolicy, stdoutIsTerminal: bool): (colored: bool)
    ensures colored ==> policy != Never
    ensures policy != Auto ==> (colored <==> policy == Always)
    ensures policy == Auto ==> colored == stdoutIsTerminal
  {
    match policy
    case Always => true
    case Auto => stdoutIsTerminal
    case Never => false
  }

  /** The platform: absent means Neos (with a deprecation warning), Resonite is refused. */
  function ResolvePlatform(platform: Option<Platform>): (r: Result<Platform, ValidationError>)
    ensures r.Success? ==> r.value == Neos
    ensures r.Failure? <==> platform == Some(Resonite)
  {
    match platform
    case None => Success(Neos)
    case Some(Neos) => Success(Neos)
    case Some(Resonite) => Failure(PlatformNotSupported(Resonite))
  }

  /** `Args::validate`. Credentials are checked first, then the platform. */
  function Validate<S>(args: Args<S>, stdoutIsTerminal: bool): (r: Result<AfterArgs<S>, ValidationError>)
    ensures r.Success? <==> CredentialsAdmissible(args) && args.platform != Some(Resonite)
    ensures r.Success? ==> r.value.platform == Neos
    ensures r.Success? ==>
      && r.value.subCommand == args.subCommand
      && r.value.logLevel == args.logLevel
      && r.value.readTokenFromStdin == args.readTokenFromStdin
      && r.value.keepRecordId == args.keepRecordId
    ensures r.Success? ==>
      (r.value.colored <==> args.colorPolicy == Always || (args.colorPolicy == Auto && stdoutIsTerminal))
    ensures r.Failure? && CredentialsAdmissible(args) ==> r.error == PlatformNotSupported(Resonite)
  {
    match ResolveLoginInfo(args)
    case Failure(e) => Failure(e)
    case Success(loginInfo) =>
      var colored := ResolveColored(args.colorPolicy, stdoutIsTerminal);
      match ResolvePlatform(args.platform)
      case Failure(e) => Failure(e)
      case Success(platform) =>
        Success(AfterArgs(loginInfo, args.subCommand, args.logLevel, args.readTokenFromStdin,
                          args.keepRecordId, colored, platform))
  }

  // ---------------------------------------------------------------------------
  // The decision table, branch by branch
  // ---------------------------------------------------------------------------

  /** A password with both an e-mail and a user id is refused, whatever else is given. */
  lemma ValidateRejectsBothIdentifiers<S>(args: Args<S>, stdoutIsTerminal: bool)
    requires args.password.Some? && args.email.Some? && args.userId.Some?
    ensures Validate(args, stdoutIsTerminal) == Failure(BothEmailAndUserId)
  {
  }

  /** A password with neither identifier is refused. */
  lemma ValidateRejectsPasswordWithoutIdentifier<S>(args: Args<S>, stdoutIsTerminal: bool)
    requires args.password.Some? && args.email.None? && args.userId.None?
    ensures Validate(args, stdoutIsTerminal) == Failure(PasswordWithoutIdentifier)
  {
  }

  /** A password with exactly one identifier logs in by password with that
      identifier, the password and the one-time password unchanged. */
  lemma ValidatePasswordLogin<S>(args: Args<S>, stdoutIsTerminal: bool)
    requires args.password.Some? && args.email.Some? != args.userId.Some?
    requires args.platform != Some(Resonite)
    ensures var r := Validate(args, stdoutIsTerminal);
      && r.Success?
      && r.value.loginInfo.Some?
      && r.value.loginInfo.value.ByPassword?
      && r.value.loginInfo.value.password == args.password.value
      && r.value.loginInfo.value.totp == args.totp
      && GetTotp(r.value.loginInfo.value) == args.totp
      && (args.email.Some? ==> r.value.loginInfo.value.identify == EmailPointer(args.email.value))
      && (args.userId.Some? ==> r.value.loginInfo.value.identify == UserIdPointer(args.userId.value))
  {
  }

  /** With a password the standard-input flag is not consulted for the login:
      flipping it changes neither the verdict nor the login information. */
  lemma ValidatePasswordTakesPrecedence<S>(args: Args<S>, stdoutIsTerminal: bool)
    requires args.password.Some?
    ensures var r := Validate(args, stdoutIsTerminal);
            var r' := Validate(args.(readTokenFromStdin := !args.readTokenFromStdin), stdoutIsTerminal);
      && (r.Success? <==> r'.Success?)
      && (r.Success? ==> r.value.loginInfo == r'.value.loginInfo)
      && (r.Failure? ==> r.error == r'.error)
  {
  }

  /** Without a password, the standard-input flag asks for a user id and logs in
      with it; the e-mail is ignored and no one-time password is carried. */
  lemma ValidateStdinToken<S>(args: Args<S>, stdoutIsTerminal: bool)
    requires args.password.None? && args.readTokenFromStdin
    ensures var r := Validate(args, stdoutIsTerminal);
      && (args.userId.None? ==> r == Failure(StdinTokenWithoutUserId))
      && (args.userId.Some? && args.platform != Some(Resonite) ==>
            r.Success? && r.value.loginInfo == Some(ByTokenFromStdin(args.userId.value))
            && GetTotp(r.value.loginInfo.value) == Option.None)
  {
  }

  /** Without a password or the standard-input flag there is no login, whatever
      e-mail or user id were given. */
  lemma ValidateAnonymous<S>(args: Args<S>, stdoutIsTerminal: bool)
    requires args.password.None? && !args.readTokenFromStdin
    ensures var r := Validate(args, stdoutIsTerminal);
      r.Success? ==> r.value.loginInfo == Option.None
    ensures Validate(args, stdoutIsTerminal).Success? <==> args.platform != Some(Resonite)
  {
  }

  /** Every successful validation targets Neos, and Resonite is always refused. */
  lemma ValidatePlatform<S>(args: Args<S>, stdoutIsTerminal: bool)
    ensures Validate(args, stdoutIsTerminal).Success? ==> Validate(args, stdoutIsTerminal).value.platform == Neos
    ensures args.platform == Some(Resonite) ==> Validate(args, stdoutIsTerminal).Failure?
    ensures args.platform.None? && CredentialsAdmissible(args) ==> Validate(args, stdoutIsTerminal).Success?
  {
  }

  /** The terminal is consulted only under the `Auto` policy. */
  lemma ValidateColourIgnoresTerminalUnlessAuto<S>(args: Args<S>)
    requires args.colorPolicy != Auto
    ensures Validate(args, true) == Validate(args, false)
  {
  }

  // ---------------------------------------------------------------------------
  // The caller's expectation
  // ---------------------------------------------------------------------------

  /** What the program's entry point assumes of a validated argument set
      (src/main.rs:29-41): when the standard-input flag is set, the login
      information is a token-from-standard-input login. */
  predicate AgreesWithTokenSource<S>(after: AfterArgs<S>): (ok: bool)
    ensures !after.readTokenFromStdin ==> ok
    ensures after.readTokenFromStdin && after.loginInfo.Some? && after.loginInfo.value.ByPassword? ==> !ok
  {
    after.readTokenFromStdin ==> after.loginInfo.Some? && after.loginInfo.value.ByTokenFromStdin?
  }

  /** `validate` as written accepts a password login together with the
      standard-input flag, which the entry point treats as unreachable. */
  lemma ValidateAdmitsPasswordWithStdinFlag()
    ensures var args := Args(Some(EmailAddress("a@b.com")), Some(Password("pw")), Option.None,
                             Option.None, Logging.LogLevel.Warn, true, false, Never, Some(Neos), 0);
            var r := Validate(args, false);
      r.Success? && !AgreesWithTokenSource(r.value)
  {
  }

  /** The error for the combination the entry point cannot handle. */
  datatype TokenSourceError = Validation(error: ValidationError) | PasswordWithStdinToken

  /** `validate` with the combination the entry point cannot handle refused up front. */
  function ValidateTokenSource<S>(args: Args<S>, stdoutIsTerminal: bool): (r: Result<AfterArgs<S>, TokenSourceError>)
    ensures r.Success? ==> AgreesWithTokenSource(r.value)
    ensures (r.Failure? && r.error == PasswordWithStdinToken) <==> args.password.Some? && args.readTokenFromStdin
  {
    if args.password.Some? && args.readTokenFromStdin then Failure(PasswordWithStdinToken)
    else
      match Validate(args, stdoutIsTerminal)
      case Success(after) => Success(after)
      case Failure(e) => Failure(Validation(e))
  }

  /** The corrected validator differs from `validate` only on that combination. */
  lemma ValidateTokenSourceAgreesOtherwise<S>(args: Args<S>, stdoutIsTerminal: bool)
    requires !(args.password.Some? && args.readTokenFromStdin)
    ensures var r := Validate(args, stdoutIsTerminal);
            var r' := ValidateTokenSource(args, stdoutIsTerminal);
      && (r.Success? <==> r'.Success?)
      && (r.Success? ==> r'.value == r.value)
      && (r.Failure? ==> r'.error == Validation(r.error))
  {
  }
}
