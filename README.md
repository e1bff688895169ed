# BrowsersVersions in Dafny

The PHP class `BrowsersVersions` (`lib/BrowsersVersions.php`) answers "what is the latest
Firefox version for this operating system and language?". Its one public method `get` works in
three steps:

1. It stores the operating system in the field `_os`. Only "Windows" and "Mac OS X" are
   accepted; anything else throws.
2. It stores the language in `_language` as given.
3. It dispatches on the browser. Only "Firefox" is supported.

`_getFirefoxVersion` then maps the OS to a directory segment (`win32` or `mac`) and to an
installer-name pattern. It logs in anonymously to Mozilla's FTP server and lists
`/pub/mozilla.org/firefox/releases/latest/<segment>/<language>`. It returns the version read
from the first name the pattern matches, written with `%d` as "major.minor" or
"major.minor.patch".

The model has five modules, one per file:

- `Options` (`options.dfy`): the `Option` type that stands for PHP's absent values (null, an
  omitted argument, an unset group).
- `Digits` (`digits.dfy`): decimal digit strings.
  - `Value` is the number PHP reads from a numeric string.
  - `Decimal` is the text `sprintf('%d', n)` writes.
  - Lemmas relate the two, including the loss of leading zeros.
- `FilePattern` (`file_pattern.dfy`): a matcher for the one regular-expression shape the class
  uses, `/<prefix>(([0-9]+)\.([0-9]+)(\.([0-9]+))?).<suffix>/`.
  - `Match` explores the expression in the order PHP's backtracking matcher (PCRE) does:
    - start positions from left to right;
    - the greedy digit groups from their longest run down;
    - the optional group before its absence;
    - the unescaped `.` taking any character but a newline.
  - `Valid` says independently which placements of the groups are matches, and `Preferred`
    gives the order in which the matcher meets them.
  - `MatchSpec` proves that `Match` returns the first valid placement in that order.
- `BrowsersVersions` (`browsers_versions.dfy`) contains:
  - the errors the class throws, one variant per message;
  - the OS switch (`OsTarget`) and the directory path;
  - the version read from one name (`ExtractVersion`) and its rendering (`VersionString`);
  - the scan over the listing (`FindVersion`);
  - the class itself, with the fields `os` and `language`. Its methods `SetOs`,
    `SetLanguage`, `FirefoxVersion` and `Get` update those fields as the PHP methods do.
    `FirefoxVersion` and `Get` are proved equal to the functions `FirefoxLookup` and
    `Resolve`, and the listed properties are proved about those functions. `SetOs` and
    `SetLanguage` state their new fields directly in their contracts.
  - the getters `_getOs` and `_getLanguage`, which are `GetOs` and `GetLanguage`. The
    contracts of the setters and of `Get` are stated through them.
- `ReleaseNames` (`release_names.dfy`): installer names as they appear on the server, with the
  versions proved to be read from them.

The FTP server is not I/O here. A `Server` value is an input to `Get` and says three things:

- whether `ftp_connect` succeeds;
- whether the anonymous `ftp_login` succeeds;
- which names `ftp_nlist` returns for each directory.

An argument of `get` given as `None` is omitted and takes its PHP default ("Windows", "en").

## Model

| member | source | states |
|---|---|---|
| `BrowsersVersions.BrowsersVersions.constructor` | lib/BrowsersVersions.php:51-59 | a new object has neither an OS nor a language stored (PHP null) |
| `BrowsersVersions.BrowsersVersions.SetOs` | lib/BrowsersVersions.php:92-103 | succeeds exactly for "Windows" and "Mac OS X" and stores that value; any other value gives UnsupportedOperatingSystem and leaves the stored OS unchanged |
| `BrowsersVersions.BrowsersVersions.SetLanguage` | lib/BrowsersVersions.php:123-126 | stores the language verbatim, whatever string it is |
| `BrowsersVersions.BrowsersVersions.FirefoxVersion` | lib/BrowsersVersions.php:146-202 | the loop over the listing returns the result of `FirefoxLookup` on the stored fields: OS error, then connection error, then login error, then the first match in the listing of the computed directory, else NothingFound |
| `BrowsersVersions.BrowsersVersions.Get` | lib/BrowsersVersions.php:70-82 | the result is `Resolve` of the arguments with their defaults; with a supported OS both fields hold the new OS and language, and with an unsupported one neither field changes |
| `BrowsersVersions.BrowsersVersions.GetOs` | lib/BrowsersVersions.php:111-114 | returns the stored OS; it has no contract of its own, and the contracts of `SetOs` and `Get` state the stored OS through it |
| `BrowsersVersions.BrowsersVersions.GetLanguage` | lib/BrowsersVersions.php:134-137 | returns the stored language; it has no contract of its own, and the contracts of `SetLanguage` and `Get` state the stored language through it |
| `BrowsersVersions.Resolve` | lib/BrowsersVersions.php:70-82 | `get` on its arguments: a result is returned only for Firefox with a supported OS on a reachable server that accepts the anonymous login; its cases are stated by `RejectedBeforeNetwork`, `ResolveFirefox`, `ResolveWindows` and `ResolveMac` |
| `BrowsersVersions.FirefoxLookup` | lib/BrowsersVersions.php:146-202 | `_getFirefoxVersion` on the stored fields: its errors are only the unsupported OS, the failed connection, the failed login and NothingFound, and a result needs a supported OS, a reachable server and a successful login |
| `BrowsersVersions.OsTarget` | lib/BrowsersVersions.php:149-162 | the switch selects a target exactly for a supported OS, and fails only with UnsupportedOperatingSystem; "Windows" maps to the segment `win32` with the pattern "Firefox Setup " ... "exe", and "Mac OS X" to `mac` with "Firefox " ... "dmg" |
| `BrowsersVersions.LanguageText` | lib/BrowsersVersions.php:179 | the stored language as `sprintf('%s')` writes it, with an unset language written as the empty string; `LanguageVerbatim` states that a given language reaches the path unchanged |
| `BrowsersVersions.DirectoryPath` | lib/BrowsersVersions.php:179 | every listed directory lies under "/pub/mozilla.org/firefox/releases/latest/", followed by the segment, "/" and the language |
| `BrowsersVersions.ResolveWindows` | lib/BrowsersVersions.php:149-182 | for Firefox on Windows the result is the scan of the listing of "/pub/mozilla.org/firefox/releases/latest/win32/" followed by the language, with the "Firefox Setup " ... "exe" pattern |
| `BrowsersVersions.ResolveMac` | lib/BrowsersVersions.php:155-182 | for Firefox on Mac OS X the result is the scan of the listing of "/pub/mozilla.org/firefox/releases/latest/mac/" followed by the language, with the "Firefox " ... "dmg" pattern |
| `BrowsersVersions.DirectoryPathInjective` | lib/BrowsersVersions.php:179 | different (OS, language) pairs never share a directory path |
| `BrowsersVersions.DefaultLanguagePath` | lib/BrowsersVersions.php:70 | omitting the language lists the same directory as passing "en" |
| `BrowsersVersions.RejectedBeforeNetwork` | lib/BrowsersVersions.php:70-81 | an unsupported OS gives UnsupportedOperatingSystem for every browser, and with a supported OS any browser but Firefox gives UnsupportedBrowser; neither outcome depends on the server |
| `BrowsersVersions.ResolveFirefox` | lib/BrowsersVersions.php:164-183 | for Firefox with a supported OS, the connection is tried first, then the login, and then only the listing of the OS's directory for the language matters |
| `BrowsersVersions.LanguageVerbatim` | lib/BrowsersVersions.php:179 | the language, the empty string included, is appended to the path unchanged |
| `BrowsersVersions.VersionString` | lib/BrowsersVersions.php:191-198 | the text `sprintf` writes for a version, with the patch part exactly when the version has one; `ParseVersionString` states that it reads back as the numbers it was written from |
| `BrowsersVersions.VersionOf` | lib/BrowsersVersions.php:186-193 | the numbers `%d` reads from the captured groups; `RenderCanonicalGroups` and `Digits.LeadingZerosIgnored` state what is kept of them |
| `BrowsersVersions.ExtractVersion` | lib/BrowsersVersions.php:183-193 | a name yields a version exactly when `Match` finds a placement, and the version has a patch number exactly when the optional group matched |
| `BrowsersVersions.ParseVersionString` | lib/BrowsersVersions.php:195-197 | the version text reads back as the numbers it was written from |
| `BrowsersVersions.RenderCanonicalGroups` | lib/BrowsersVersions.php:189-198 | groups without leading zeros are written back as "major.minor" or "major.minor.patch" exactly as captured, with the patch exactly when the optional group matched |
| `BrowsersVersions.ExtractVersionSpec` | lib/BrowsersVersions.php:183-187 | a name yields a version exactly when the pattern matches somewhere in it, and the version comes from the placement the matcher reaches first |
| `BrowsersVersions.ExtractVersionOfMatch` | lib/BrowsersVersions.php:183-193 | the version is read from the groups of the placement `Match` returns |
| `BrowsersVersions.VersionAtStart` | lib/BrowsersVersions.php:183-193 | a name that starts with the prefix, with groups that take whole digit runs, yields the version of those groups |
| `BrowsersVersions.ExtractVersionIgnoresDirectory` | lib/BrowsersVersions.php:180-183 | a name listed behind a directory that does not contain the prefix's first letter yields the same version as the bare name |
| `BrowsersVersions.FindVersion` | lib/BrowsersVersions.php:182-201 | the scan of the listing fails only with NothingFound; `FindVersionFirst`, `FindVersionSound`, `FindVersionNothing` and `FindVersionIgnoresRest` state which entry decides |
| `BrowsersVersions.FindVersionHead` | lib/BrowsersVersions.php:182-199 | a listing whose first name matches gives that name's version |
| `BrowsersVersions.FindVersionFirst` | lib/BrowsersVersions.php:182-199 | the first matching entry decides the result |
| `BrowsersVersions.FindVersionSound` | lib/BrowsersVersions.php:182-199 | a returned version was read from an entry i that matches, and no entry before i matches |
| `BrowsersVersions.FindVersionIgnoresRest` | lib/BrowsersVersions.php:182-199 | entries after the first match do not affect the result |
| `BrowsersVersions.FindVersionNothing` | lib/BrowsersVersions.php:182-201 | the scan's only error is NothingFound, and it happens exactly when no entry matches, the empty listing included |
| `FilePattern.MatchSpec` | lib/BrowsersVersions.php:152 | `Match` finds nothing exactly when no placement is valid; otherwise it returns a valid placement that comes before every other valid one in the matcher's order |
| `FilePattern.Match` | lib/BrowsersVersions.php:152 | `preg_match` with the pattern: a returned placement is always a valid match; `MatchSpec` states that it is the first one in the matcher's order and that nothing is returned only when no placement is valid |
| `FilePattern.MajorIsWholeRun` | lib/BrowsersVersions.php:152 | the major group is always the whole digit run after the prefix |
| `FilePattern.MatchIsUnbeaten` | lib/BrowsersVersions.php:152 | a valid placement that no valid placement is preferred over is the match |
| `FilePattern.MatchAtStart` | lib/BrowsersVersions.php:152 | a valid placement at the start whose minor group, and patch group when present, take whole digit runs, and whose absent patch group could not have matched, is the match |
| `FilePattern.ShortStringNoMatch` | lib/BrowsersVersions.php:152 | a string shorter than the prefix, the suffix and four more characters has no match |
| `FilePattern.MatchIgnoresDirectory` | lib/BrowsersVersions.php:183 | text in front of a name that cannot start the prefix shifts the match and changes nothing else |
| `FilePattern.GroupsShift` | lib/BrowsersVersions.php:189-193 | the groups captured behind a directory are the groups captured from the bare name |
| `FilePattern.SearchSpec` | lib/BrowsersVersions.php:183 | the scan over start positions from i returns a valid placement at i or later that no valid placement at i or later is preferred over, and nothing only when every valid placement starts before i |
| `FilePattern.StartAtSpec` | lib/BrowsersVersions.php:152 | the attempt at one start position returns a valid placement there that no other placement there is preferred over, and nothing only when no placement there is valid |
| `FilePattern.TryMajorSpec` | lib/BrowsersVersions.php:152 | trying the major group from n digits down returns a valid placement that no valid placement with at most n major digits is preferred over, and nothing only when every valid placement there has more than n |
| `FilePattern.TryMinorSpec` | lib/BrowsersVersions.php:152 | trying the minor group from m digits down returns a valid placement that no valid placement with at most m minor digits is preferred over, and nothing only when every valid placement there has more than m |
| `FilePattern.MinorStepSpec` | lib/BrowsersVersions.php:152 | for one minor length, the result is a valid placement with the longest patch group among those with that minor length, and nothing only when no placement with that minor length is valid |
| `FilePattern.TryPatchSpec` | lib/BrowsersVersions.php:152 | the patch length found is at most k, is followed by the unescaped `.` and the suffix when it is not zero, and no longer length up to k is |
| `FilePattern.GroupsOf` | lib/BrowsersVersions.php:189-193 | the captured groups are non-empty digit strings, and the patch group is present exactly when the optional group matched |
| `FilePattern.MatchedText` | lib/BrowsersVersions.php:152 | the matched text is the prefix, the version text of the groups, one character and the suffix |
| `Digits.Decimal` | lib/BrowsersVersions.php:195-197 | `%d` writes digits without a leading zero, and "0" exactly for zero |
| `Digits.ValueOfDecimal` | lib/BrowsersVersions.php:195-197 | reading back what `%d` wrote gives the number |
| `Digits.DecimalOfValue` | lib/BrowsersVersions.php:195-197 | writing with `%d` the number of a digit string without leading zeros gives that string |
| `Digits.LeadingZerosIgnored` | lib/BrowsersVersions.php:189-190 | leading zeros do not change the number a digit string denotes |
| `Digits.CanonicalRendering` | lib/BrowsersVersions.php:195-197 | `%d` on a captured group drops its leading zeros and keeps the rest ("064" is written "64") |
| `ReleaseNames.WindowsPatchRelease` | lib/BrowsersVersions.php:152 | "Firefox Setup 64.0.2.exe" gives "64.0.2" |
| `ReleaseNames.WindowsMinorRelease` | lib/BrowsersVersions.php:152 | "Firefox Setup 64.0.exe" gives "64.0" |
| `ReleaseNames.MacPatchRelease` | lib/BrowsersVersions.php:157 | "Firefox 63.0.3.dmg" gives "63.0.3" |
| `ReleaseNames.LeadingZerosRelease` | lib/BrowsersVersions.php:195-197 | "Firefox Setup 064.00.exe" gives "64.0" |
| `ReleaseNames.AnyCharacterRelease` | lib/BrowsersVersions.php:152 | "Firefox Setup 64.05exe" gives "64.0": the `.` before "exe" takes the "5" |
| `ReleaseNames.ListedWithDirectory` | lib/BrowsersVersions.php:179-183 | "/pub/mozilla.org/firefox/releases/latest/win32/en/Firefox Setup 64.0.exe" gives "64.0" |
| `ReleaseNames.FirstMatchingName` | lib/BrowsersVersions.php:182-199 | in the listing "README.txt", "Firefox Setup 64.0.2.exe", "Firefox Setup 64.0.exe" the first name is passed over and the second decides: "64.0.2" |
| `ReleaseNames.WindowsEndToEnd` | lib/BrowsersVersions.php:70-198 | a server whose Windows directory for "en" lists only "Firefox Setup 64.0.2.exe" gives "64.0.2" for Firefox on Windows |
| `ReleaseNames.MacEndToEnd` | lib/BrowsersVersions.php:70-198 | a server whose Mac directory for "en" lists only "Firefox 63.0.3.dmg" gives "63.0.3" for Firefox on Mac OS X |

## Left out

- The FTP session: `ftp_connect`, `ftp_login` and `ftp_nlist` on releases.mozilla.org (lines 165-180) are network I/O. They are replaced by the `Server` input. The host name, the user "Anonymous" and the empty password are not modelled.
- `ftp_nlist` returning `false`: the `foreach` then warns and the method throws "Nothing found". The model's listing is always a sequence of names.
- The FTP session is never closed by the class; resource handling is outside the model.
- General PCRE semantics: only the one expression shape the class uses is modelled. Strings are sequences of characters, while PCRE without the `u` flag works on bytes, so the unescaped `.` takes one character here where PCRE takes one byte.
- `%d` on digit strings too long for a PHP integer (overflow to the largest integer or float conversion): the groups are read as unbounded natural numbers.
- PHP's loose comparison in the `switch` statements for arguments that are not strings (numbers, booleans, null): arguments are strings here. Passing `null` explicitly instead of omitting an argument is not modelled.
- The `@` error-suppression operator, the `Exception` class and its message texts: each message is an `Error` variant.
- The language is not validated: the code stores and uses any string, the empty one included, and the model does the same (`BrowsersVersions.LanguageVerbatim`).
