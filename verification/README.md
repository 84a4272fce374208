# YAFM backend: verified model

A Dafny model of the parts of YAFM (a self-hosted file manager: Rust backend, generated TypeScript
client) that decide what a user may see, how requests and cookies are read, and how logins proceed.
`dafny verify dfyconfig.toml` checks everything.

A Rust `str` is a Dafny `string` (both are sequences of Unicode scalar values); bytes are obtained with
the UTF-8 functions of `Utf8.dfy`. Code that walks or accumulates in loops is a method proved against a
function; code made of expressions is a function.

| module | models |
|---|---|
| `Utf8`, `Text`, `Seqs`, `Sorting` | `str` and slice operations the rest relies on: UTF-8, split/join/trim, numbers, byte order |
| `DenyPatterns`, `GlobCharacters`, `Access` | the glob and `**` matchers, what they mean in characters, the allow/deny evaluation, config path validation |
| `AccessCheck`, `AccessReport`, `AccessOrder`, `AccessWalk` | the `--check-access` walk: the tree, the recursive preorder it reports, the stack walk with rule flags |
| `Percent`, `Paths`, `Requests` | percent codec, path validation and decoding, gate, listing and delete decisions |
| `ShareTree`, `Reach`, `Vouching`, `VouchedCases`, `RequestWitnesses` | how the tree answers for a path, the entries a served request can reach, and when the rules permit all of them |
| `Download`, `Etag` | byte ranges, weak entity tags, the download decisions |
| `Session`, `ReturnTo` | session and login cookie payloads, the auth gate, the return-to path |
| `OidcFlow`, `OidcRuns`, `OidcOutcomes`, `OidcProgress`, `OidcRetry` | login, callback and logout requests sharing the refreshable provider cache behind its lock: one step, every run, how requests end, progress, the retry |
| `SchemaSort` | the topological sort of the client generator |
| `AccessLog` | access-log lines and the parser that undoes them |

## Where the code and its documentation differ

The model follows the code; the lemma named states exactly when the documented behaviour holds.

- The walk says that everything under a hidden directory is blocked by the same verdict. Only a deny is
  inherited; a path hidden for want of an allow can have visible paths below it
  (`Access.NoAllowNotInherited`, `Access.NoAllowBelow`), and the walk then misses them
  (`AccessReport.MissedIff`).
- `?` in a deny pattern is documented to match one character; it matches one byte. A pattern matches
  the names it is documented to match iff every `?` stands next to a `*` and no run of wildcards has two
  (`GlobCharacters.PatternAgreesIff`); every pattern reads a name as documented iff the name is ASCII
  (`GlobCharacters.NameAgreesIff`).
- An allow of `.` is documented to address the root; it is kept as the path `.` (`Access.RootAllow`).
- The callback's retry is documented to validate against re-discovered keys. It reads the shared cache,
  which another request may meanwhile have filled with keys it asked for before the clearing: possible iff
  some request then has a discovery under way or not stored (`OidcRetry.StaleRetryIff`), and it does
  happen (`OidcRetry.StaleRetryHappens`).
- Malformed ranges are documented to be ignored. They are, unless the file is empty or the text begins
  with a position behind its end (`Download.RangeAnswered`, `Download.MalformedRefused`).
- `validate_relative_path` is not idempotent (`Paths.NotIdempotent`, `Paths.ValidatedTwice`), so a listed
  entry whose path begins or ends with white space is not addressed by its own path
  (`Requests.ListedButRefused`, `Paths.ChildUnchangedIff`).
- A path is documented to be judged in every form the handlers can open. The rules judge it literally and,
  if all of it decodes to text, decoded; the handlers then resolve a decoded `.`, open what does not decode
  to text as well (the documentation has them reject it), and a deletion resolves the directory and the
  name separately. A served request is led only to entries whose listed path the rules permit, whatever the
  rules and the tree, iff the judged forms vouch for every path it can reach
  (`Vouching.ReachesPermittedIff`). For requests that decode to text this means no decoded `.`, and for a
  deletion a directory or name that decodes to itself (`VouchedCases.TextRequestIff`,
  `VouchedCases.TextRemovalIff`, which also give the corner cases). A request of which some component
  decodes to bytes that are no text must be spelled exactly as its entry is listed; one with a component that
  does not decode at all reaches only its literal path, but for a deletion this holds of directory and name
  separately (`VouchedCases.BinaryRequestIff`, `VouchedCases.BinaryRemovalIff`). Concrete inputs that fail:
  `a/%2E/b` (`RequestWitnesses.DotRequest`), `%61/%FF` (`RequestWitnesses.BinaryRequest`) and `%ff`, which
  leads to the entry listed as `%FF` (`RequestWitnesses.SpellingRequest`).
- Listings and downloads are documented not to drift apart. A listing judges the listed name, which may
  decode once more: `%2561` leads to an entry named `%61`, which is not listed where `a` is denied
  (`RequestWitnesses.TwiceRequest`). Requests are led only to entries that listings show iff the judged forms
  vouch for that reading, too (`Vouching.ReachesShownIff`, `VouchedCases.TextShownIff`).
- An entry that is not UTF-8 is documented to resolve back from its listed name. It does iff the names of
  the directories above it decode to themselves (`Paths.NonUtf8OpenedIff`, `Paths.NonUtf8Unopened`).
- The groups `[""]` come back from the session cookie as `[]` (`Session.SessionRoundTripIff`); no verdict
  changes by it (`Session.SessionKeepsAccess`).
- A listed name of a non-UTF-8 entry can coincide with the literal name of another entry
  (`Percent.ListedNameCollisions`, and `Percent.ListedNameCollides` for the smallest case).

## Model

| member | source | states |
|---|---|---|
| `DenyPatterns.GlobDecides` | backend/src/access.rs:375-406 | the backtracking matcher accepts a segment iff it is a row of pieces, one per pattern symbol: any run for `*`, one symbol for `?`, the symbol itself otherwise; symbols are bytes in the code, characters in its documentation |
| `DenyPatterns.MatchesDecides` | backend/src/access.rs:424-467 | a deny pattern matches iff some prefix of the path is a row of runs, one per pattern segment (a middle `**` any run, a final one a non-empty run), or, for a bare name, some segment at any depth matches |
| `DenyPatterns.MatchesExtends` | backend/src/access.rs:437-442 | a pattern that matches a path matches everything below it |
| `GlobCharacters.PatternAgreesIff` | backend/src/access.rs:366-406 | a pattern matches exactly the names it is documented to match, `?` standing for one character, iff each `?` is next to a `*` and no run of wildcards has two of them |
| `GlobCharacters.NameAgreesIff` | backend/src/access.rs:366-406 | all patterns match a name as documented iff the name is ASCII |
| `GlobCharacters.ReadsCharacters` | backend/src/access.rs:366-406 | in particular a pattern without `?`, and any pattern on an ASCII name, matches as documented |
| `GlobCharacters.QuestionMarkIsOneByte` | backend/src/access.rs:389-396 | the smallest case: `?` is documented to match every one-character name and matches the ASCII ones |
| `DenyPatterns.ValidatedDeny` | backend/src/access.rs:309-351 | no validated deny pattern matches the root; it is anchored iff its normalized text has a slash |
| `DenyPatterns.ValidatedMatches` | backend/src/access.rs:338-467 | what an accepted deny text matches, told by the text alone: one component matches any single segment it globs; several match component by component from the beginning, `**` standing for any run of segments, a non-empty one at the end |
| `DenyPatterns.DenyRefusedIff` | backend/src/access.rs:309-337 | which deny texts are refused with which complaint, and which are accepted |
| `DenyPatterns.FirstBadIs` | backend/src/access.rs:325-336 | the complaint about a component is about the first bad one |
| `DenyPatterns.DenyCompiled` | backend/src/access.rs:338-350 | an accepted text is compiled to its components in order, spanning iff the component is `**`, anchored iff there are two or more |
| `DenyPatterns.NormalizeIff` | backend/src/access.rs:355-364 | normalizing cuts off white space and the longest of `/`, `./`, `/./` at the front, and nothing else |
| `Access.AllowCoversPrefix` | backend/src/access.rs:472-484 | an allow covers a path iff its segments are a prefix of the path's |
| `Access.Evaluate` | backend/src/access.rs:493-581 | the evaluation with its loops computes the specification function `Decide` |
| `Access.VisibleIff` | backend/src/access.rs:486-581 | set semantics: the root is visible iff some allow applies; another path iff an applicable allow covers it, no global deny matches it and no deny scoped to a covering allow of the user matches it; it is hidden for want of an allow iff none covers it |
| `Access.DecisionWitness` | backend/src/access.rs:124-148 | the rule a decision names is a rule of the configuration that applies to the user and covers or matches the path |
| `Access.DecisionNamesFirst` | backend/src/access.rs:517-581 | of several rules that apply the decision names the first: a global deny or allow before one of a grant, then the first in the order of grants, entries and patterns |
| `Access.OrderDoesNotMatter` | backend/src/access.rs:16-21 | reordering or repeating allows, denies, grants or groups, and groups no grant names, never change a verdict |
| `Access.AddedGroupHides` | backend/src/access.rs:551-565 | joining a group hides a visible path iff that group's own grant denies it under a covering allow |
| `Access.DeniedBelow` | backend/src/access.rs:93-105 | whatever lies under a denied path is denied |
| `Access.HiddenRoot` | backend/src/access.rs:494-515 | a hidden root means that every path is hidden |
| `Access.NoAllowBelow` | backend/src/access.rs:539-541 | the verdict "no allow" is inherited by everything below a path iff no applicable allow lies strictly below it |
| `Access.NoAllowNotInherited` | backend/src/access.rs:742-745 | the concrete case: with the allow `a/b`, `a` is hidden and `a/b` is visible |
| `Access.RootAllow` | backend/src/access.rs:277-302 | exactly the spellings of the root that validate to the root; a single dot does not |
| `Access.AllowPathIff` | backend/src/access.rs:277-302 | which allow texts are accepted, and that an accepted one is kept as it is normalized |
| `AccessReport.VisitedIff` | backend/src/access.rs:711-825 | the check visits exactly the root and the directories reachable through visible ones |
| `AccessReport.VisitsAscend` | backend/src/access.rs:808-824 | visits come in strictly ascending order, a directory before what is below it, and at the first difference the smaller byte of the names first; no two share a path |
| `AccessReport.VisitFaithful` | backend/src/access.rs:724-821 | each visit is the account of the directory found at its path |
| `AccessReport.BlockedExact` | backend/src/access.rs:786-819 | the blocked list is exactly the hidden named entries with their kind and denial, the smaller byte at the first difference coming first |
| `AccessReport.VisitSays` | backend/src/access.rs:724-751 | a visit gives the verdict on its directory; it is not entered iff that is hidden, and fails iff it is visible and cannot be read; otherwise its named entries are evaluated |
| `AccessReport.MissedIff` | backend/src/access.rs:742-745 | a visible directory is missed by the walk iff a directory above it is hidden for want of an allow |
| `AccessOrder.ReportIsStable` | backend/src/access.rs:808-811 | trees that differ only in the order of their entries make the check fail on the same directory, or print the same visits and report the same unmatched rules |
| `AccessWalk.RunAccessCheck` | backend/src/access.rs:711-847 | the stack walk ends on every tree; its visits are the recursive preorder, cut short by the first unreadable directory; the unmatched rules are exactly those that cover or match no evaluated path |
| `AccessWalk.CheckFailsIff` | backend/src/access.rs:747-750 | the check fails iff it gets to a visible directory it cannot read, and then on the first one in the order of the report |
| `AccessWalk.EvaluatedIff` | backend/src/access.rs:732-784 | the evaluated paths, said of the tree alone: the root and every named entry of a reached, visible, readable directory |
| `AccessWalk.FlagsStep` | backend/src/access.rs:727-738 | one visit keeps the flags exact although denies are not tried on the visited directory itself |
| `AccessWalk.CheckRules` | backend/src/access.rs:866-906 | the tracked rules are exactly the allows and denies of the configuration with their origin |
| `AccessWalk.VisitDirectory` | backend/src/access.rs:725-824 | one round of the walk yields the account of the directory, the sorted subdirectory paths and the flags |
| `AccessWalk.SortPaths` | backend/src/access.rs:822-824 | sorting full paths sorts the subdirectories by name |
| `Percent.PercentDecodeBytes` | backend/src/lib.rs:627-651 | the index loop computes the decoding in which malformed escapes stand for themselves |
| `Percent.DecodeBytesIff` | backend/src/lib.rs:627-651 | decoding reads a text as a row of pieces: `%` and two hexadecimal digits of either case for the byte they denote, any other byte for itself, also a `%` not followed by two digits |
| `Percent.DecodeEscaped` | backend/src/lib.rs:604-623 | decoding undoes escaping, for every byte string and both character sets |
| `Percent.PercentEncodeEntryName` | backend/src/lib.rs:608-623 | the encoding loop computes the listed name |
| `Percent.EscapeByteIs` | backend/src/lib.rs:616-621 | which bytes stand for themselves in a listed name and in a claim; any other is written as `%` and two upper-case digits |
| `Percent.ListedNameCollisions` | backend/src/lib.rs:604-607 | two different entries share a listed name iff one is not UTF-8 and the other is literally its escaped form |
| `Percent.ListedNameCollides` | backend/src/lib.rs:604-607 | the concrete case: the one-byte name 0xFF and the name `%FF` |
| `Paths.ValidateRelativePath` | backend/src/lib.rs:477-504 | the validation loop computes `Normalized` |
| `Paths.ValidatedIsCanonical` | backend/src/lib.rs:477-504 | every accepted path is made of non-empty components other than `.` and `..` without NUL, backslash or slash |
| `Paths.AcceptedIff` | backend/src/lib.rs:477-504 | a request is refused exactly for NUL, backslash, a leading slash (400) or otherwise a `..` component (404); an accepted path's segments are the request's components without empty ones and `.` |
| `Paths.AcceptedPaths` | backend/src/lib.rs:477-504 | the accepted paths are exactly those made of such components, with white space at their ends or without |
| `Paths.UnchangedIff` | backend/src/lib.rs:477-504 | validation leaves a path unchanged iff it is canonical and has no white space at its ends |
| `Paths.ValidatedTwice` | backend/src/lib.rs:477-504 | validating again changes nothing iff the accepted path has no white space at its ends |
| `Paths.NotIdempotent` | backend/src/lib.rs:478-499 | the concrete case `./ x` |
| `Paths.PercentDecodeRelativePath` | backend/src/lib.rs:658-675 | the decoding loop computes the pushed components or the first error |
| `Paths.DecodeRefused` | backend/src/lib.rs:661-670 | the first component that must not be decoded decides between 400 and 404 |
| `Paths.DecodeEquivalent` | backend/src/access.rs:624-644 | the loop computes the decoded form |
| `Paths.DecodeAgreement` | backend/src/access.rs:615-644 | the decoded form exists iff the handlers decode the path to UTF-8 components, and its segments are these components, as many as the literal ones |
| `Paths.ChildUnchangedIff` | backend/src/lib.rs:1079-1085 | an entry's path is left alone by validation iff its name has no backslash and no white space where the path begins or ends |
| `Paths.NonUtf8Decodes` | backend/src/lib.rs:604-675 | a non-UTF-8 entry's listed path validates unchanged and decodes iff the directory's path does, to its decoded components followed by the raw name |
| `Paths.NonUtf8OpenedIff` | backend/src/lib.rs:677-697 | a request for that path opens the entry iff the directory's own names decode to themselves, whatever else exists, a literally so named entry excepted |
| `Paths.NonUtf8Unopened` | backend/src/lib.rs:677-697 | the concrete case of a directory named `%41` |
| `Paths.NonUtf8Distinct` | backend/src/lib.rs:604-607 | two non-UTF-8 entries never share a listed name |
| `Requests.VisibleInBothForms` | backend/src/access.rs:646-661 | a path counts as visible iff its literal segments are visible and so are the texts of the components the handlers would decode it to |
| `Requests.CheckAgreesWithServer` | backend/src/access.rs:653-669 | on a path without `%` the rules' verdict is the run-time visibility; on any other path the server can only hide more |
| `Requests.ServedIff` | backend/src/lib.rs:1469-1512 | a request reaches the file system iff its validated path is visible, non-root where a file is wanted, and deletable for a deletion |
| `Requests.RefusedIff` | backend/src/lib.rs:1169-1198 | which status answers a request that is not served: 400, 403 or 404 |
| `Requests.DeletableIff` | backend/src/access.rs:583-604 | a path may be deleted iff it is visible, not the root, and under an allow of a delete-enabled grant of the user |
| `Requests.DeletedOnlyIfGranted` | backend/src/access.rs:583-604 | a path that may be deleted is canonical, non-root, under an allow of a delete-enabled grant of the user, and neither it nor its decoded form is denied; the allow covers the decoded form too if its own path has no `%` |
| `Reach.CanReachIff` | backend/src/lib.rs:677-697 | the paths a request can reach, read off the request alone, are exactly those its handler reaches in some tree: literal, or decoded and resolved, and for a deletion every mix of directory and name |
| `Reach.ReachedIff` | backend/src/lib.rs:677-697 | in a given tree a request leads to its literal path if that is of the wanted kind, and to the decoded one only if the literal one is missing; a deletion goes by the directory, then by the name in it |
| `ShareTree.WalkIsLookup` | backend/src/lib.rs:677-697 | a path of names leads to the entry found by looking them up one by one, and is broken iff a file stands in its way |
| `Reach.DeletedUnderAllow` | backend/src/access.rs:583-604 | a served deletion is covered by a delete-enabled allow of the user's groups, and if its path has no `%`, so is every file the deletion can lead to, in whatever tree |
| `Vouching.LeadsToIff` | backend/src/lib.rs:1469-1512 | some request for a path is served and, in some tree, led to an entry iff the path can reach it, is visible, and may be deleted where it is to be |
| `Vouching.ReachesPermittedIff` | backend/src/access.rs:646-661 | whatever the rules and the tree, a served request is led only to entries whose path, by listed names, the rules show, iff each path it can reach is by listed names the root, the request's segments or their decoded texts |
| `Vouching.ReachesShownIff` | backend/src/lib.rs:1079-1092 | it is led only to entries that a listing does not withhold for access reasons iff the same holds also of the decoded texts of those listed names |
| `Vouching.ConfiguredPermittedIff` | backend/src/access.rs:277-302 | the condition of `ReachesPermittedIff` is as exact when only rules that passed validation count, for forms that do not end in white space |
| `VouchedCases.TextRequestIff` | backend/src/access.rs:615-644 | a listing or download that decodes to text is led to permitted entries only iff no component decodes to `.`, the root and paths that cannot be reached that way aside |
| `VouchedCases.TextShownIff` | backend/src/lib.rs:1079-1092 | a listing or download that decodes to text without `.` is led only to what listings show iff its decoded form decodes to itself, to the literal form, or not to text |
| `VouchedCases.TextRemovalIff` | backend/src/lib.rs:1205-1234 | a deletion that decodes to text is led to permitted files only iff directory or name decodes to itself, if nothing in the directory decodes to `.`; otherwise only where its other forms cannot be reached |
| `VouchedCases.BinaryRequestIff` | backend/src/access.rs:636-640 | a listing or download that does not decode to text is led to permitted entries only iff it does not decode at all or each component is spelled as its entry is listed; a download also if it ends in a decoded `.` |
| `VouchedCases.BinaryRemovalIff` | backend/src/lib.rs:1205-1234 | a deletion that does not decode to text is led to permitted files only iff the directory is spelled as listed, does not decode or cannot be reached so, and likewise the name |
| `VouchedCases.ListedDirectory` | backend/src/lib.rs:652-657 | in a directory spelled as listed every endpoint is led to permitted entries only, if the name is so spelled or does not decode, or everything decodes to text and the name not to `.` |
| `RequestWitnesses.DotRequest` | backend/src/lib.rs:658-675 | the concrete case `a/%2E/b` with `a/b` denied: served, and led to `a/b` |
| `RequestWitnesses.BinaryRequest` | backend/src/access.rs:636-640 | the concrete case `%61/%FF` with `a` denied: served, and led into `a` |
| `RequestWitnesses.SpellingRequest` | backend/src/access.rs:636-640 | the concrete case `%ff` with `%FF` denied: served, and led to the entry 0xFF, which is listed as `%FF` and withheld from the listing |
| `RequestWitnesses.TwiceRequest` | backend/src/lib.rs:1079-1096 | the concrete case `%2561` with `a` denied: served, and led to the entry `%61`, which is withheld from the listing |
| `Requests.ListDirectory` | backend/src/lib.rs:1065-1139 | the listing loop computes `Listing` |
| `Requests.ListedIff` | backend/src/lib.rs:1073-1130 | an entry is listed iff some item has its listed name and its kind, the name does not begin with `.` unless such names are shown, and its path is visible; it is deletable iff it is a file the user may delete |
| `Requests.ListingConcat` | backend/src/lib.rs:1065-1139 | entries are listed once for each item, in the order of the items |
| `Requests.ListingAgrees` | backend/src/lib.rs:1087-1130 | for entries whose path validation leaves alone: listed entries can be opened, listed files are deletable exactly as listed (403 otherwise), withheld entries answer 404 |
| `Requests.ListedButRefused` | backend/src/lib.rs:1079-1096 | the concrete case without that condition |
| `Requests.SameAnswers` | backend/src/access.rs:29-33 | group lists that agree on the named groups are answered alike on every endpoint |
| `Download.RangeAnswered` | backend/src/lib.rs:731-784 | for every header and file size: a header that denotes a byte range is answered with exactly the positions it selects (section 14.1.2 of RFC 9110) and refused iff it selects none; any other is ignored, unless it asks for bytes and the file is empty or the text begins with a position behind the end |
| `Download.PrintDenotes` | backend/src/lib.rs:727-730 | every valid range with 64-bit bounds can be asked for |
| `Download.MalformedRefused` | backend/src/lib.rs:764-770 | the concrete case: `9-x` is ignored for ten bytes and refused for five |
| `Download.BodyMatchesHeaders` | backend/src/lib.rs:1408-1451 | a partial body is exactly the bytes its Content-Range names and as long as its Content-Length, inside the file; a full body is the file |
| `Download.FailedIfRange` | backend/src/lib.rs:1378-1399 | a failed If-Range widens a range to the whole file and leaves a refusal alone |
| `Download.AnsweredIff` | backend/src/lib.rs:1363-1399 | the answer to every request: not modified iff an If-None-Match matches the tag, else the part the Range header comes to unless an If-Range failed, a refusal as it is, or the whole file |
| `Download.HonouredIfRange` | backend/src/lib.rs:1385-1399 | an If-Range that matches answers like none |
| `Download.ChunksReassemble` | backend/src/lib.rs:731-784 | downloading chunk by chunk from the printed range headers reassembles the file, for every content and chunk size |
| `Download.ChunkRefusedIff` | backend/src/lib.rs:767-769 | a chunk request is refused iff its offset is at or behind the end |
| `Download.RevalidationIff` | backend/src/lib.rs:1363-1376 | sending back a remembered tag yields "not modified" iff the length and, to the nanosecond, the modification time are unchanged, all times before the epoch being one |
| `Etag.TagsIdentifyStates` | backend/src/lib.rs:789-810 | two computed tags match weakly iff lengths and, to the nanosecond, modification times are equal, all times before the epoch being one |
| `Etag.RememberedMatchIff` | backend/src/lib.rs:812-822 | a list of remembered tags with any padding matches iff one remembered state is the current one |
| `Etag.ContainedTagMatches` | backend/src/lib.rs:812-822 | a comma-joined list that contains the current tag, weak or strong and padded, matches wherever the tag stands and whatever the other parts are |
| `Etag.OpaqueOfTag` | backend/src/lib.rs:799-805 | weak and strong form of a tag, padded or not, have the same opaque value |
| `Etag.HeaderMatchesIff` | backend/src/lib.rs:812-822 | any header matches iff it is a star or some part between commas is the tag's opaque value with or without white space, `W/` and quotes around it |
| `Etag.TagText` | backend/src/lib.rs:789-797 | the tag spells nanoseconds since the epoch and length in hexadecimal |
| `Session.SessionReadBack` | backend/src/auth.rs:436-493 | the result of parsing a minted session in every case: expired, unrecognizable, or its claims |
| `Session.SessionRoundTripIff` | backend/src/auth.rs:286-309 | the claims survive iff the session is unexpired, has a subject and its groups are not one empty name |
| `Session.SessionAcceptedIff` | backend/src/auth.rs:436-493 | a payload is accepted for exactly the claims its six fields spell, with version, future expiration and a subject |
| `Session.SessionExpiredIff` | backend/src/auth.rs:436-455 | it is refused as expired iff it has the version and a number that is not in the future |
| `Session.DecodeClaimIff` | backend/src/auth.rs:418-429 | a claim reads as exactly the text whose bytes its characters and escapes denote |
| `Session.SessionLifetime` | backend/src/auth.rs:573-596 | a minted session opens the gate to its own identity iff it has not expired |
| `Session.GateIff` | backend/src/auth.rs:573-600 | the gate for every state, path and payload: public login endpoints, disabled and missing authentication, claims of a payload that parses, 401 under `/api/`, else the login page |
| `Session.SessionKeepsAccess` | backend/src/auth.rs:474-485 | a user's answers on all data endpoints are the same with the groups read back from the cookie |
| `ReturnTo.LoginRoundTripIff` | backend/src/auth.rs:331-340 | login data survives its cookie iff state, nonce and verifier are non-empty and free of the separator |
| `ReturnTo.LoginReadIff` | backend/src/auth.rs:495-512 | a login payload is read as exactly the data its fields spell |
| `ReturnTo.SanitizeIsSafe` | backend/src/auth.rs:660-677 | the sanitized path begins with one slash and has no backslash; exactly such paths are kept, anything else becomes the root; sanitizing is idempotent |
| `ReturnTo.QueryReadIs` | backend/src/auth.rs:928-953 | the path the login endpoint reads from a query: plus signs are spaces, escapes are decoded, and what is then no text counts as missing |
| `ReturnTo.ReturnsToTarget` | backend/src/auth.rs:642-658 | gate redirect, query decoding, login cookie and callback together lead to the sanitized original target |
| `OidcFlow.StepKeepsLocal` | backend/src/auth.rs:1026-1168 | every atomic step keeps the per-request invariant, whatever the cache holds and the network answers |
| `OidcRuns.CacheHoldsDiscovered` | backend/src/auth.rs:803-817 | in every reachable state the cache is empty or holds a provider some discovery returned |
| `OidcRuns.WorkIsBounded` | backend/src/auth.rs:1105-1120 | per request at most one exchange, one clearing, two discoveries, two validations; the cache is cleared iff the verifier found no matching key for the exchanged token in keys some discovery returned |
| `OidcRuns.SessionIsProven` | backend/src/auth.rs:1020-1080 | a session is minted only with a verified login cookie, matching state, acceptance of the ID token its own exchange returned under the login's nonce by discovered keys, and after a retry by keys stored or fetched since the clearing |
| `OidcOutcomes.FailuresAreReported` | backend/src/auth.rs:1105-1168 | told by the run: login and callback end in "provider unavailable" iff a discovery or exchange failed or there is no token endpoint; a callback ends unauthorized iff it has no code, no verified login, no ID token, a rejected token or one the retry does not accept; anything else succeeds |
| `OidcOutcomes.LogoutGoesThere` | backend/src/auth.rs:1238-1260 | a logout ends with the end-session address of the provider it got, and with none if the discovery failed |
| `OidcOutcomes.LoginTakesAlong` | backend/src/auth.rs:1003-1018 | a login takes along its own random state, nonce and verifier and the sanitized return-to path |
| `OidcOutcomes.VerifiedLoginIff` | backend/src/auth.rs:1026-1060 | the login a callback relies on: a code, a cookie that reads as login data, and the state the callback brings |
| `OidcOutcomes.PastIsRun` | backend/src/auth.rs:1026-1168 | the stages a request carries are exactly the points of the run at which it went on, with what it was given |
| `OidcProgress.NoGuardAcrossAwait` | backend/src/auth.rs:773-778 | a request holding a guard is not awaiting the network, can go on at once and then holds none; a writer excludes all others |
| `OidcProgress.NeverBlocked` | backend/src/auth.rs:786-802 | a request waits for others only to give back a guard: one step each of guard holders, without the network, lets it go on |
| `OidcProgress.RunsAreShort` | backend/src/auth.rs:1026-1168 | every run takes at most seventeen steps per request |
| `OidcProgress.CanFinish` | backend/src/auth.rs:786-802 | from every reachable state all requests can be completed |
| `OidcRetry.StaleRetryIff` | backend/src/auth.rs:1150-1165 | the retry can end up with a provider no discovery begun since the clearing returned, iff at the clearing some request has a discovery under way or its result not stored |
| `OidcRetry.StaleRetryHappens` | backend/src/auth.rs:1105-1110 | two requests started together reach such a state, for every provider whose keys lack the token's key |
| `OidcRuns.HitIsFresh` | backend/src/auth.rs:1158-1160 | a cache hit after the request's own clearing yields a provider stored after it |
| `SchemaSort.CollectSchemaRefs` | scripts/generate-openapi-client.mjs:105-119 | the recursive collection appends exactly the references of the schema, in order |
| `SchemaSort.RefsExact` | scripts/generate-openapi-client.mjs:105-119 | the collected references are exactly the `$ref` strings found anywhere in the schema |
| `SchemaSort.RefsInOrder` | scripts/generate-openapi-client.mjs:105-119 | each node with a reference contributes it once, a node before what is in it, children from left to right |
| `SchemaSort.OwnRefIff` | scripts/generate-openapi-client.mjs:110-112 | an object refers to what its member `$ref` says if that is a string |
| `SchemaSort.RefNamesIff` | scripts/generate-openapi-client.mjs:24-31 | the supported references and the names in them |
| `SchemaSort.DependenciesOf` | scripts/generate-openapi-client.mjs:126-138 | the dependencies are the known schemas referred to, each once, in order of first mention, or an unsupported reference is reported |
| `SchemaSort.Sorter.Visit` | scripts/generate-openapi-client.mjs:140-159 | a visit appends what its dependencies need, in their order, then the schema itself, or reports a true cause |
| `SchemaSort.OrderedIsAcyclic` | scripts/generate-openapi-client.mjs:145-149 | a dependency-first order of all schemas rules out every cycle |
| `SchemaSort.TopologicallySortSchemas` | scripts/generate-openapi-client.mjs:121-166 | it succeeds iff all references are supported and no schema lies on a cycle, then with a permutation in which dependencies come first and before each name stands only what it or an earlier name needs; a reported cycle or reference is real |
| `AccessLog.EscapeField` | backend/src/access_log.rs:104-131 | the escaping loop computes `Escape` |
| `AccessLog.EscapeCharIs` | backend/src/access_log.rs:104-131 | how each character is written: quotes and backslashes behind a backslash, controls in two and separators in four digits, anything else as it is |
| `AccessLog.RenderIs` | backend/src/access_log.rs:145-160 | the line is `ip - "user" [time] "event" status bytes "referer" "user-agent"` with escaped fields |
| `AccessLog.FieldRoundTrip` | backend/src/access_log.rs:98-103 | an escaped field followed by a quote reads back as the field |
| `AccessLog.LineRoundTrip` | backend/src/access_log.rs:133-160 | a rendered line parses back to exactly its fields and timestamp |
| `AccessLog.LinesUnambiguous` | backend/src/access_log.rs:98-103 | different entries never render to the same line |
| `AccessLog.LineIsOneLine` | backend/src/access_log.rs:104-131 | no rendered line contains a control character or Unicode line separator |
| `Utf8.DecodeEncode` | backend/src/lib.rs:608-612 | UTF-8 decoding undoes encoding |
| `Text.ParseNumeral` | backend/src/lib.rs:764-770 | a printed `u64` parses back |
| `Text.SpacesAre` | backend/src/lib.rs:478 | the twenty-five characters that trimming removes |
| `Text.SplitNJoin` | backend/src/auth.rs:495-500 | `splitn` undoes `join` when only the last piece may contain the separator |

## Left out

- File system: the share is an immutable finite tree; canonicalization, symlinks, device and inode checks and their races are not modelled, nor is an entry whose type cannot be read (the walk treats it as a file).
- Cryptography and third-party code: cookie signatures, ID-token verification, discovery and the token endpoint are inputs or parameters; the cookie crate's own encoding of values is taken as exact.
- AccessWalk.RunAccessCheck: the report's wording and the final sorting of the unmatched labels are not modelled; unmatched rules are given as a list characterised by its members.
- `validate_access_config` as a whole: its loops apply the two validators modelled here; `RunAccessCheck` asks for validated deny patterns and `SessionKeepsAccess` for non-empty group names, which that function guarantees.
- Requests.Handler: the state without authentication or access configuration (tests only) appears as a missing context; everything after the decision to turn to the file system is not modelled.
- Requests.ListDirectory: the display order of the entries (directories first, names compared in lower case) is not modelled.
- Requests.CanDelete: as in the code, the delete-enabled allow is looked up for the literal path only; it covers the decoded path and all that the request leads to under the condition of `DeletedOnlyIfGranted` and `Reach.DeletedUnderAllow`.
- Reach.Reached: the tree knows directories and regular files; symbolic links, permissions, and errors other than a missing entry or a path through a file are not modelled, nor are the entries a listing shows, which are judged by the requested path.
- Vouching.ConfiguredPermittedIff: leaves out requests of which a judged form ends in white space, because validation trims allow paths and such a path cannot be configured as it stands; for rules in general `ReachesPermittedIff` covers them.
- Vouching.ReachesShownIff: the hiding of names that begin with `.`, a display option, is not a matter of access and not counted as withholding.
- Download.Respond: whether an If-Range validator matches (tag or date) is an input; the file name header is not modelled.
- ReturnTo.QueryValue: only the gate's own query is of interest; a query that names the path several times is third-party parsing, and the model takes the first.
- ReturnTo.FormDecode: the replacement characters a query value that is not UTF-8 decodes to are not modelled; such a value counts as missing.
- Session.MintSession: the overflow of `now + max_age` is not modelled; expirations are `u64` values.
- OidcFlow.Advance: the lock has guards, holders and exclusion, but no queue or preference among waiting requests; a poisoned lock (a panic while a guard is held) is not modelled.
- Text.Trim: white space is the Unicode property as of the code points in `SpacesAre`.
- SchemaSort: rendering of schemas and operations; parsing of YAML.
- Client address resolution, user labels, breadcrumbs, entry sizes, configuration fields, the frontend: single-branch code that would only add easy members.
