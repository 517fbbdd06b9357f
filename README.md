# Link and destination classifiers

This project models the classifiers a mirror/leech bot uses to decide what a
user-supplied string is. It covers `bot/helper/ext_utils/links_utils.py` and
no other file. The module has:

- link classifiers: a BitTorrent magnet URI, a URL, a Google Drive link, a
  Telegram message link, a share-host link, and a bare Google Drive ID;
- destination classifiers: an rclone remote path, the special value `rcl`,
  and a `local:` directory on the bot's own disk;
- `get_local_path`, which extracts the directory from a `local:` destination;
- `validate_local_path`, which checks that such a directory can be written to.

No function in the module has side effects; `validate_local_path` only
reads the filesystem. The model is datatypes, functions,
predicates and lemmas, in four modules:

- `Text` (`text.dfy`) has the string building blocks:
  - ASCII character classes;
  - `startswith`, `in`, and `str.split(sep, 1)`;
  - what `.` and `$` mean in a pattern compiled without flags. `.` is any
    character but a line feed. `$` holds at the end, or just before one
    final line feed.
- `Links` (`links.dfy`) has the six link classifiers. Each regular
  expression the bot passes to `re.match` is a predicate over the places
  where its groups begin and end, with one predicate per alternative. A
  plainer, independent description is then proved equivalent, or the
  promised consequence is proved.
- `Paths` (`paths.dfy`) has `is_rclone_path`, `is_local_path` and
  `get_local_path`.
- `LocalPathValidation` (`validate.dfy`) has `validate_local_path`. The
  filesystem queries and the path helpers are parameters. The model states
  which answers lead to which result, and in which order the checks are
  made.

Behaviour of the code that the model makes explicit:

- `is_rclone_path` backtracks over its optional `mrcc:` group. So
  `mrcc:tp:x` is accepted, as remote `mrcc` with path `tp:x`, although
  `tp:` is a reserved prefix (`MrccBeforeReserved`).
- `local:tmp` is accepted as a path on a remote named `local`, not as a
  local root (`LocalWithoutSlashIsRemote`).
- Every `$` also accepts one final line feed. So `rcl\n` and
  `<id>\n` are accepted (`RclExactly`, `GdriveIdTrailingNewline`).
- In `is_magnet`, the `[a-z2-7]{32}` alternative accepts nothing the
  `[a-zA-Z0-9]{32,40}` one does not. The upper bound 40 restricts nothing:
  the pattern has no end anchor, so the match may stop after 32 characters
  whatever follows them (`HashAlternatives`).
- `get_local_path` only strips the `local:` prefix; it does not resolve
  the rest against a base or working directory.

## Model

| member | source | states |
|---|---|---|
| Links.IsMagnet | bot/helper/ext_utils/links_utils.py:5-6 | an accepted string starts with `magnet:?` and is long enough to hold the prefix, an exact topic and a 32-character hash |
| Links.Base32HashSubsumed | bot/helper/ext_utils/links_utils.py:6 | wherever the `[a-z2-7]{32}` hash alternative matches, the alphanumeric one matches too |
| Links.HashAlternatives | bot/helper/ext_utils/links_utils.py:6 | the two hash alternatives together match exactly when 32 ASCII letters or digits follow |
| Links.MagnetCharacterization | bot/helper/ext_utils/links_utils.py:5-6 | a string is a magnet link if and only if it starts with `magnet:?` and later on the same line has `xt=urn:btih:` or `xt=urn:btmh:` followed by at least 32 letters or digits |
| Links.MagnetFromParts | bot/helper/ext_utils/links_utils.py:5-6 | a `magnet:?` line with a v1 or v2 exact topic and a 32-character alphanumeric hash is accepted, whatever text follows the hash |
| Links.MagnetExamplesAccepted | bot/helper/ext_utils/links_utils.py:5-6 | a btih link whose hash is 32 `A`s, and a btmh link with a base32 hash behind another parameter, are accepted |
| Links.MagnetExamplesRejected | bot/helper/ext_utils/links_utils.py:5-6 | a topic with a short hash is refused, and so is an https URL that carries a topic |
| Links.IsUrl | bot/helper/ext_utils/links_utils.py:9-15 | an accepted string never starts with `/` and has at least three characters |
| Links.EmptyPasswordRejected | bot/helper/ext_utils/links_utils.py:12 | `u:@example.com` is no URL: the password group `[^/@]+` needs at least one character, and without credentials the host stops at the colon |
| Links.UrlHasDottedHost | bot/helper/ext_utils/links_utils.py:12 | every accepted URL has a dot with host characters on both sides of it |
| Links.UrlWwwRedundant | bot/helper/ext_utils/links_utils.py:12 | the optional `www.` group never decides acceptance: a string is a URL if and only if it is one with that group empty |
| Links.ParseExtends | bot/helper/ext_utils/links_utils.py:12 | a reading of a URL stays a reading when text is appended whose own tail is a well-formed path, query or fragment |
| Links.UrlAcceptsScheme | bot/helper/ext_utils/links_utils.py:12 | a URL read without a scheme stays a URL behind any of the seven accepted schemes |
| Links.UrlAcceptsPath | bot/helper/ext_utils/links_utils.py:12 | a URL that ends after its host or port accepts any path after a `/` |
| Links.UrlExampleBareHost | bot/helper/ext_utils/links_utils.py:9-15 | `example.com` is a URL and `/just/a/path` is not |
| Links.UrlExampleWithPath | bot/helper/ext_utils/links_utils.py:9-15 | `https://example.com/path?q=1#frag` is a URL |
| Links.UrlExampleFull | bot/helper/ext_utils/links_utils.py:9-15 | a URL with credentials, `www.`, port, query and fragment is accepted with and without the `ftp://` scheme |
| Links.IsGdriveLink | bot/helper/ext_utils/links_utils.py:18-19 | the body is the two substring tests; an accepted string is at least as long as `drive.google.com` (the tests are characterised by GdriveLinkInContext and GdriveHostsIndependent) |
| Links.GdriveLinkInContext | bot/helper/ext_utils/links_utils.py:18-19 | a Drive link stays one with any text added before or after it |
| Links.GdriveHostsIndependent | bot/helper/ext_utils/links_utils.py:18-19 | each Drive host name is accepted alone and does not contain the other, so both tests are needed |
| Links.GdriveLinkExamples | bot/helper/ext_utils/links_utils.py:18-19 | a `drive.google.com` file link is accepted and `https://example.com` is not |
| Links.IsTelegramLink | bot/helper/ext_utils/links_utils.py:22-23 | the body is the two prefix tests; an accepted string has at least 13 characters and starts with `h` or `t` (see TelegramLinkExtends and TelegramLinkNotMagnet) |
| Links.TelegramLinkExtends | bot/helper/ext_utils/links_utils.py:22-23 | whatever follows a Telegram prefix is accepted |
| Links.TelegramLinkNotMagnet | bot/helper/ext_utils/links_utils.py:22-23 | no Telegram link is taken for a magnet link |
| Links.TelegramLinkExamples | bot/helper/ext_utils/links_utils.py:22-23 | a `https://t.me/` and a `tg://openmessage?user_id=` link are accepted, and the `http://t.me/` form is not |
| Links.IsShareLink | bot/helper/ext_utils/links_utils.py:26-32 | an accepted string starts with `http://` or `https://` |
| Links.ShareLinkExtends | bot/helper/ext_utils/links_utils.py:29 | with no end anchor, any text appended to a share link keeps it one |
| Links.ShareLinkExamples | bot/helper/ext_utils/links_utils.py:26-32 | a gdtot link and a gdflix link are accepted, and an `ftp://` gdtot link is not |
| Links.IsGdriveId | bot/helper/ext_utils/links_utils.py:107-113 | the body is the three anchored alternatives with `$` allowing one final line feed; an accepted string has between 3 and 38 characters (exact description in GdriveIdShapes and GdriveIdTrailingNewline) |
| Links.GdriveIdShapes | bot/helper/ext_utils/links_utils.py:107-113 | the pattern's alternatives accept exactly `gdl`, `root`, `tp:root` and `mtp:root`, a 19- or 33-character token, or such a token behind `tp:`, `sa:` or `mtp:` |
| Links.BareGdriveIdNoNewline | bot/helper/ext_utils/links_utils.py:110 | no alternative accepts a string ending in a line feed |
| Links.GdriveIdTrailingNewline | bot/helper/ext_utils/links_utils.py:107-113 | a string followed by one line feed is accepted exactly when one of the alternatives matches the string, and on a string without a final line feed the pattern is exactly its alternatives |
| Links.GdriveIdRootExamples | bot/helper/ext_utils/links_utils.py:107-113 | `root`, `tp:root` and `gdl` are IDs, and `sa:root` is not |
| Links.GdriveIdPrefixedExample | bot/helper/ext_utils/links_utils.py:107-113 | a 19-character token behind `mtp:` is an ID |
| Links.GdriveIdShortRejected | bot/helper/ext_utils/links_utils.py:107-113 | a 17-character token is not an ID |
| Paths.IsRclonePath | bot/helper/ext_utils/links_utils.py:35-49 | the body is the three alternatives, the first read with and without its optional `mrcc:` group as `re` backtracks; an accepted string has at least two characters and does not start with `-` or a space (exact description in RclonePathCharacterization) |
| Paths.NoDoubleSlashOnLine | bot/helper/ext_utils/links_utils.py:46 | on one line, the lookahead `(?!.*\/\/)` holds exactly when the rest contains no `//` |
| Paths.FirstColonAfterName | bot/helper/ext_utils/links_utils.py:46 | a colon that ends a run of remote-name characters is the first colon after the name's start |
| Paths.RemoteAtFirstColon | bot/helper/ext_utils/links_utils.py:46 | the remote-path alternative matches exactly when the name up to the first colon is valid and unreserved, and the rest is one line without `//` |
| Paths.RclExactly | bot/helper/ext_utils/links_utils.py:46 | `^rcl$` accepts exactly `rcl` and `rcl` plus a line feed |
| Paths.RclonePathCharacterization | bot/helper/ext_utils/links_utils.py:35-49 | a destination is accepted exactly when it is a remote path (possibly behind `mrcc:`), `rcl`, or one line starting `local:/` |
| Paths.LocalRootAccepted | bot/helper/ext_utils/links_utils.py:46 | every one-line string starting `local:/` is accepted |
| Paths.ReservedPrefixRejected | bot/helper/ext_utils/links_utils.py:46 | no string beginning with `magnet:`, `mtp:`, `sa:` or `tp:` is accepted |
| Paths.MrccBeforeReserved | bot/helper/ext_utils/links_utils.py:46 | `mrcc:tp:x` is accepted, though not as a user path behind `mrcc:` |
| Paths.RemoteExample | bot/helper/ext_utils/links_utils.py:35-49 | `gdrive:Movies/2024` is accepted |
| Paths.LocalAndRclExamples | bot/helper/ext_utils/links_utils.py:35-49 | `local:/home/user/files`, `rcl` and `rcl` plus a line feed are accepted |
| Paths.DashRemoteRejected | bot/helper/ext_utils/links_utils.py:46 | a remote name may not start with `-` |
| Paths.HttpsLinkRejected | bot/helper/ext_utils/links_utils.py:46 | no `https://` link is a destination |
| Paths.LocalWithoutSlashIsRemote | bot/helper/ext_utils/links_utils.py:46 | `local:tmp` is accepted, as a remote path and not under the local root |
| Text.SplitOnce | bot/helper/ext_utils/links_utils.py:66 | `split(sep, 1)` gives one part exactly when `sep` does not occur, and otherwise the text before its first occurrence and the text after it |
| Paths.IsLocalPath | bot/helper/ext_utils/links_utils.py:52-57 | the body is the case-sensitive `local:` prefix test; an accepted string has at least six characters and starts with `l` (GetLocalPath returns None exactly off this test) |
| Paths.GetLocalPath | bot/helper/ext_utils/links_utils.py:52-67 | the result is None exactly when the destination does not start with `local:` (case-sensitive), and otherwise is the text that follows the prefix |
| Paths.GetLocalPathRoundTrip | bot/helper/ext_utils/links_utils.py:60-67 | prefixing any text with `local:` and extracting it gives the text back |
| Paths.GetLocalPathExamples | bot/helper/ext_utils/links_utils.py:52-67 | `local:/home/user/files` gives `/home/user/files`, and `Local:/x` gives None |
| LocalPathValidation.Message | bot/helper/ext_utils/links_utils.py:75-102 | every refusal carries a non-empty message |
| LocalPathValidation.Check | bot/helper/ext_utils/links_utils.py:70-104 | a path is accepted only if it is absolute |
| LocalPathValidation.ValidateLocalPath | bot/helper/ext_utils/links_utils.py:70-104 | the flag is true exactly when the message is empty, and the empty path gives `(False, "Empty path provided")` |
| LocalPathValidation.RefusedBeforeFilesystem | bot/helper/ext_utils/links_utils.py:75-80 | an empty or relative path is refused with the same answer on every filesystem and for every path helper, with the relative-path message |
| LocalPathValidation.OnlyPathAndParentQueried | bot/helper/ext_utils/links_utils.py:83-102 | only the filesystem's answers about the normalised path and its parent affect the result |
| LocalPathValidation.ValidExactly | bot/helper/ext_utils/links_utils.py:83-104 | the result is `(True, "")` exactly when the path is absolute and its normalised form is a writable directory, or does not exist and its parent is one |
| LocalPathValidation.FailureOrder | bot/helper/ext_utils/links_utils.py:75-104 | each failure is reported exactly when the checks before it passed and its own check fails, in the order empty, relative, parent missing, parent not a directory, parent not writable, not a directory, not writable |

## Left out

- Python's regular-expression engine is not modelled. Each pattern is
  written out by hand as a predicate, and its equivalence with `re` is not
  proved.
- `\s` and `\d` are taken as ASCII whitespace and ASCII digits. On `str`
  patterns Python also matches Unicode whitespace and Unicode decimal
  digits.
- The filesystem queries (`os.path.exists`, `os.path.isdir`,
  `os.access(_, W_OK)`) are opaque read-only parameters. Permissions,
  symbolic links, and the filesystem changing between two checks are not
  modelled.
- `os.path.normpath`, `os.path.abspath` and `os.path.dirname` are opaque
  parameters. `os.path.isabs` is the POSIX test "starts with `/`"; Windows
  drive letters are not modelled.
- Resolving a relative `local:` destination against a base or working
  directory is not part of this model, because `get_local_path` does not
  do it.
- `IsMagnet`, `IsUrl`, `IsShareLink`, `IsGdriveLink`, `IsTelegramLink`,
  `IsGdriveId`, `IsRclonePath` and `IsLocalPath`: their own contracts state
  only necessary conditions. The full descriptions are
  `MagnetCharacterization`, `GdriveIdShapes` and
  `RclonePathCharacterization`. `IsGdriveLink`, `IsTelegramLink` and
  `IsLocalPath` are one-line substring or prefix tests. `IsUrl` and
  `IsShareLink` are described by the lemmas beside them, not by an
  equivalent plain grammar.
