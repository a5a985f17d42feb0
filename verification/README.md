# reinventory-manager: identity types, inventory paths and argument validation

A Dafny model of the two pure cores of `reinventory-manager`, a command-line
client for the inventory of a Neos user:

- **Identity and path value types** (`src/model.rs`): the prefix-checking
  parsers of `UserId` (`U-`) and `GroupId` (`G-`); the case-tolerant decoder of
  `RecordType`; `AbsoluteInventoryPath`, which `from_str` splits on `/` with `.`
  and `..` kept as literal names, and which serialises either with `/` (the
  metadata endpoint and `Display`) or with `%5C` (the directory-listing query);
  the `Authorization` header value `neos <owner>:<token>`; `LoginInfo::get_totp`
  and `UserLoginPostResponse::to_authorization_info`.
- **Argument validation** (`src/cli.rs`): `Args::validate`, the decision table
  that turns password / e-mail / user id / token-from-stdin into an optional
  `LoginInfo`, the colour policy into a flag and the platform into `Neos` or a
  refusal; and the `LogLevel` to `LevelFilter` translation.

Files and modules:

| file | module | models |
|---|---|---|
| `wrappers.dfy` | `Wrappers` | Rust's `Option` and `Result` |
| `model.dfy` | `Model` | identity types, `RecordType`, authorization, `LoginInfo` |
| `path.dfy` | `InventoryPath` | `AbsoluteInventoryPath`, Rust's `split` and `join` |
| `logging.dfy` | `Logging` | `LogLevel`, `LevelFilter` and the map between them |
| `cli.dfy` | `Cli` | `Args`, `AfterArgs`, `Args::validate` |

Modelling choices:

- Strings are `seq<char>`. Rust's `starts_with`, `split(char)` and `join`
  work on UTF-8 bytes, but for the ASCII separators used here they agree with
  the character-level definitions.
- `UserId` is a plain wrapper and not a subset type. The source derives
  `Deserialize` for it, and that bypasses the prefix check. Only
  `ParseUserId` guarantees the prefix, and the same holds for `GroupId`.
- `EmailAddress`, `Password`, `OneTimePassword` and `SessionToken` wrap a
  string without checks. The e-mail syntax check is foreign code.
- The subcommand is opaque: it is the type parameter `S` of `Args` and
  `AfterArgs`, and `validate` only passes it through.
- The terminal query of `ColorPolicy::Auto` is the parameter `stdoutIsTerminal`.
- Each `bail!` of `validate` is one constructor of `ValidationError`. Log
  messages (`debug!`, `warn!`) have no effect on results and are left out.
- Some definitions exist only as partners for the source's operations, so
  their properties can be stated. `ParseAuthorizationHeaderValue` reads a
  header value back. `FromLevelFilter` inverts the log-level map.
  `CredentialsAdmissible` states the credential rules independently of
  `validate`'s nested branches. `Replace` states what re-joining a split
  string with another separator does.
- `AbsoluteInventoryPath::default()` has no segments. It prints as `""`, and
  `""` parses to one empty segment (`DefaultNotRestored`). The command line
  uses this default for `base_dir` (`src/cli.rs:138-139`, `src/cli.rs:144-145`).
  Both values serialise to `""`, so the endpoints see the same path either way.
- A header value can only be read back when the owner id contains no colon.
  `UserId::from_str` checks only the prefix (`src/model.rs:22`), so a colon
  can reach the unescaped `format!` at `src/model.rs:155`.
  `AuthorizationHeaderAmbiguousWithColon` shows two sessions that share one
  header value.
- The query form escapes nothing inside a segment either. A segment that
  itself contains `%5C` gives the same query value as two segments
  (`QueryValueAmbiguous`).

## Model

| member | source | states |
|---|---|---|
| Model.ParseUserId | src/model.rs:21-24 | succeeds iff the input's first two characters are `U` and `-`; on success the id is the whole input unchanged; otherwise the fixed message "An UserId must be prefixed with `U-`" |
| Model.ParseGroupId | src/model.rs:38-41 | succeeds iff the input starts with `G-`; on success the id is the input unchanged; otherwise the fixed message "A valid GroupId must be prefixed with `G-`" |
| Model.UserIdRoundTrip | src/model.rs:15-24 | a prefixed user id's displayed string parses back to the same id |
| Model.GroupIdRoundTrip | src/model.rs:32-41 | a prefixed group id's displayed string parses back to the same id |
| Model.UserAndGroupIdsDisjoint | src/model.rs:21-41 | no string is accepted by both the user-id and the group-id parser |
| Model.SerializedName | src/model.rs:187-194 | the derived serialiser writes the variant name capitalised: an upper-case first letter and lower-case letters after it; `RecordTypeRoundTrip` shows the decoder takes it back |
| Model.DecodeRecordType | src/model.rs:196-208 | a decoded string is the capitalised or lower-case name of the variant it decodes to; each variant's two names decode to that variant; every other string is refused with one fixed message that lists the five kinds (`dir`, `obj`, `text`, `aud`, `lnk`) and does not contain the input |
| Model.DecodeRecordTypeIff | src/model.rs:198-207 | a string decodes to a variant iff it is that variant's capitalised name or its ASCII-lower-cased name; every other string is an error |
| Model.RecordTypeRoundTrip | src/model.rs:187-207 | decoding the serialised (capitalised) name or the lower-case name of a variant gives that variant back |
| Model.AuthorizationHeaderValue | src/model.rs:154-158 | the header value starts `neos `, then holds the owner id, one colon and the token, and nothing else |
| Model.AuthorizationHeaderRoundTrip | src/model.rs:154-155 | when the owner id has no colon, the header value determines the owner id and token it was built from |
| Model.AuthorizationHeaderAmbiguousWithColon | src/model.rs:155 | two different credential pairs give the same header value when an owner id contains a colon |
| Model.ToAuthorizationInfo | src/model.rs:139-144 | the session's owner id and token are the login response's user id and token, unchanged |
| Model.LoginResponseHeader | src/model.rs:139-155 | the header value sent after a login is `neos ` + response user id + `:` + response token |
| Model.GetTotp | src/model.rs:70-76 | a password login yields its stored one-time password; a token-from-stdin login yields none |
| InventoryPath.Split | src/model.rs:351 | splitting gives one piece more than there are separators, and no piece contains the separator |
| InventoryPath.Parse | src/model.rs:350-352 | parsing never fails; the result has one segment more than the input has slashes, so at least one, and no segment contains a slash |
| InventoryPath.ToAbsolutePath | src/model.rs:342-344 | for every path `from_str` can produce, splitting the slash form on `/` gives the segments back; with `ParseThenToAbsolutePath`, the slash form of `from_str(s)` is `s` |
| InventoryPath.ToUriQueryValue | src/model.rs:338-340 | for every path `from_str` can produce, the query form is the slash form with each `/` replaced by `%5C`, so both list the same segments in the same order (see also `SerialisationsAgree`) |
| InventoryPath.Display | src/model.rs:356-359 | for every path `from_str` can produce, parsing the displayed text gives the path back; `ParseThenToAbsolutePath` shows `Display(from_str(s)) == s` |
| InventoryPath.Default | src/model.rs:332 | the derived default has no segments: both serialisations give the empty string and it is not a path `from_str` can produce (see `DefaultNotRestored`) |
| InventoryPath.JoinSplitIsReplace | src/model.rs:338-351 | splitting on a separator and joining with a string equals replacing each separator by that string |
| InventoryPath.SplitJoin | src/model.rs:342-351 | joining a non-empty list of slash-free pieces with `/` and splitting again gives the pieces back |
| InventoryPath.ParseThenToAbsolutePath | src/model.rs:330-359 | for every string, `to_absolute_path(from_str(s))` and its `Display` equal `s`, including `.`, `..` and empty segments |
| InventoryPath.ToAbsolutePathThenParse | src/model.rs:342-352 | every path `from_str` can produce is the parse of its own `/` form |
| InventoryPath.ParseThenToUriQueryValue | src/model.rs:338-352 | the query form of a parsed string is that string with each `/` written `%5C` |
| InventoryPath.SerialisationsAgree | src/model.rs:338-359 | for a parsed path the query form is the slash form with every `/` replaced by `%5C` (same segments, same order), and `Display` equals the slash form |
| InventoryPath.DefaultNotRestored | src/model.rs:332-359 | the default (empty) path prints as the empty string, which parses to one empty segment and not back to the default |
| InventoryPath.QueryValueAmbiguous | src/model.rs:338-351 | `a%5Cb` parses to one segment whose query form equals that of the two segments `a` and `b` |
| InventoryPath.DotsAreLiteral | src/model.rs:330-352 | `Inventory/../.` parses to the three segments `Inventory`, `..`, `.` |
| Logging.ToLevelFilter | src/cli.rs:191-201 | every level maps to the filter of the same rank, `None` and only `None` maps to `Off`, and `Trace` is never produced |
| Logging.LevelFilterRoundTrip | src/cli.rs:191-201 | mapping a level to a filter and back gives the level, so the mapping is total and injective |
| Logging.ToLevelFilterInjectiveMonotone | src/cli.rs:177-201 | distinct levels give distinct filters, and a more verbose level never gives a quieter filter |
| Cli.ResolveLoginInfo | src/cli.rs:55-90 | the login part succeeds iff a password comes with exactly one identifier, or there is no password and the stdin flag is absent or has a user id |
| Cli.ResolveColored | src/cli.rs:92-96 | colour is on for `Always`, off for `Never`, and only under `Auto` does it depend on the terminal |
| Cli.ResolvePlatform | src/cli.rs:98-106 | an absent platform and `Neos` give `Neos`; only `Resonite` is refused |
| Cli.Validate | src/cli.rs:54-117 | success iff the credential rules hold and the platform is not Resonite; on success the platform is `Neos`, the subcommand, log level, stdin flag and keep-record-id flag are passed through, and colour follows the policy; with valid credentials the only failure is the unsupported platform |
| Cli.ValidateRejectsBothIdentifiers | src/cli.rs:55-59 | a password with both e-mail and user id is refused, whatever else is given |
| Cli.ValidateRejectsPasswordWithoutIdentifier | src/cli.rs:74-76 | a password with neither e-mail nor user id is refused |
| Cli.ValidatePasswordLogin | src/cli.rs:60-73 | a password with exactly one identifier logs in by password with that identifier, the password and the one-time password unchanged |
| Cli.ValidatePasswordTakesPrecedence | src/cli.rs:55-78 | with a password, flipping the stdin flag changes neither the verdict, nor the error, nor the login information |
| Cli.ValidateStdinToken | src/cli.rs:78-86 | without a password the stdin flag logs in by token with the given user id, or is refused when no user id is given |
| Cli.ValidateAnonymous | src/cli.rs:87-90 | without a password or stdin flag there is no login whatever e-mail or user id were given, and only the platform can make it fail |
| Cli.ValidatePlatform | src/cli.rs:98-106 | every successful validation targets Neos, Resonite is always refused, and an absent platform with valid credentials succeeds |
| Cli.ValidateColourIgnoresTerminalUnlessAuto | src/cli.rs:92-96 | under `Always` or `Never` the result does not depend on whether standard output is a terminal |
| Cli.AgreesWithTokenSource | src/main.rs:29-41 | the entry point's expectation holds whenever the stdin flag is off, and fails for a password login with the stdin flag set, the case that reaches `unreachable!` |
| Cli.ValidateAdmitsPasswordWithStdinFlag | src/cli.rs:55-78 | a password, an e-mail and the stdin flag together pass validation with a password login, which the entry point does not expect |
| Cli.ValidateTokenSource | src/main.rs:29-41 | the corrected validator fails with `PasswordWithStdinToken` exactly when a password comes with the stdin flag, and every result it accepts has a token login whenever the stdin flag is set |
| Cli.ValidateTokenSourceAgreesOtherwise | src/cli.rs:54-117 | on every other input the corrected validator gives the same result as `validate` |

## Left out

- `src/operation.rs`: every operation is an HTTP request whose transport and JSON errors end the process. This is I/O. Its path joins (`src/operation.rs:55`, `src/operation.rs:84`) call `join("%5C")` and `join("/")` directly on a `Vec<String>`; they repeat the joins of the two serialisers modelled in `InventoryPath` rather than calling them.
- `src/main.rs`: reading the token from standard input, login, logout and printing JSON are I/O. Its expectation of `validate` is modelled as `Cli.AgreesWithTokenSource`.
- The move operation: `Operation::move_records` is called by the entry point, but its definition is not part of this model.
- `UserLoginPostBody::create`: it draws a random UUID, base64-encodes it and lower-cases it through external libraries. It is nondeterministic and library-bound.
- Record and directory-metadata decoding: serde field defaults, the untagged `RecordOwner` and `UserIdentifyPointer` forms, and the `fallback_to_utc` timestamp parser rely on serde and chrono behaviour that is not visible here. `Record.rating` is also a float.
- `RecordId`: no modelled operation takes or returns one (it appears only in the move subcommand and in records), and its derived `FromStr` accepts every string.
- `Password` and `SessionToken` parsing: the derived `FromStr` accepts every string, so these are plain wrappers.
- `init_fern` and the clap/strum-derived parsers (case-insensitive `ColorPolicy`, `LogLevel` names, `EmailAddress` validation): logging sinks and macro-generated or foreign code.

## Findings

| source | as written | input that shows it | evidently intended | confidence | as-written member | corrected member |
|---|---|---|---|---|---|---|
| src/cli.rs:55-78 with src/main.rs:29-41 | `validate` checks the password first and never looks at `--read-token-from-stdin` when a password is present, so it accepts the combination and returns a password login with `read_token_from_stdin = true`; the entry point branches on that flag, expects a token-from-stdin login and otherwise reaches `unreachable!("Arguments validation must be done at this point")` | `--email a@b.com --password pw --read-token-from-stdin list` (a subcommand is required by the command-line parser) | validation refuses a password together with the stdin flag, so every validated argument set with the flag carries a token-from-stdin login | medium, not executed | Cli.ValidateAdmitsPasswordWithStdinFlag | Cli.ValidateTokenSource |
