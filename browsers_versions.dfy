/** The library class `BrowsersVersions` (lib/BrowsersVersions.php): it finds the latest released
    Firefox version for an operating system and a language by listing a directory of Mozilla's
    FTP server and reading the version out of the first installer name there.

    The FTP session is not modelled as I/O: a `Server` value says whether the connection and
    the anonymous login succeed and which names `ftp_nlist` returns for a directory. */
module BrowsersVersions {
  import opened Options
  import opened Digits
  import opened FilePattern

  const FIREFOX: string := "Firefox"
  const WINDOWS: string := "Windows"
  const MACOSX: string := "Mac OS X"
  const DEFAULT_LANGUAGE: string := "en"

  /** The fixed part of the directory format `/pub/mozilla.org/firefox/releases/latest/%s/%s`. */
  const RELEASES_DIR: string := "/pub/mozilla.org/firefox/releases/latest/"

  /** `/Firefox Setup (([0-9]+)\.([0-9]+)(\.([0-9]+))?).exe/` */
  const WINDOWS_PATTERN: Pattern := Pattern("Firefox Setup ", "exe")
  /** `/Firefox (([0-9]+)\.([0-9]+)(\.([0-9]+))?).dmg/` */
  const MAC_PATTERN: Pattern := Pattern("Firefox ", "dmg")

  /** The exceptions the class throws, one variant per message. */
  datatype Error =
    | UnsupportedOperatingSystem  // 'Unsupported operating system'
    | UnsupportedBrowser          // 'Unsupported browser'
    | ConnectionFailed            // 'Unable to connect to Mozilla'
    | LoginFailed                 // 'Unable to login to Mozilla'
    | NothingFound                // 'Nothing found'

  datatype Result<T> = Ok(value: T) | Err(error: Error)

  /** The FTP server releases.mozilla.org as the class meets it: whether `ftp_connect` succeeds,
      whether `ftp_login` as "Anonymous" with an empty password succeeds, and what
      `ftp_nlist` returns for each directory. */
  datatype Server = Server(reachable: bool, acceptsAnonymous: bool, listing: string -> seq<string>)

  /** What the OS switch of `_getFirefoxVersion` selects: the directory segment and the file pattern. */
  datatype Target = Target(segment: string, pattern: Pattern)

  predicate IsSupportedOs(os: string) {
    os == WINDOWS || os == MACOSX
  }

  /** The OS switch of `_getFirefoxVersion`, on the value of the `_os` field (None is PHP's null). */
  function OsTarget(os: Option<string>): (r: Result<Target>)
    ensures r.Ok? <==> os.Some? && IsSupportedOs(os.value)
    ensures r.Err? ==> r.error == UnsupportedOperatingSystem
    ensures os == Some(WINDOWS) ==> r == Ok(Target("win32", WINDOWS_PATTERN))
    ensures os == Some(MACOSX) ==> r == Ok(Target("mac", MAC_PATTERN))
  {
    if os == Some(WINDOWS) then Ok(Target("win32", WINDOWS_PATTERN))
    else if os == Some(MACOSX) then Ok(Target("mac", MAC_PATTERN))
    else Err(UnsupportedOperatingSystem)
  }

  /** `%s` of the `_language` field: PHP prints null as the empty string. */
  function LanguageText(language: Option<string>): string {
    language.GetOr("")
  }

  /** The directory that is listed for an OS segment and a language. */
  function DirectoryPath(segment: string, language: string): (r: string)
    ensures RELEASES_DIR <= r && r[|RELEASES_DIR|..] == segment + "/" + language
  {
    RELEASES_DIR + segment + "/" + language
  }

  /** Different (OS, language) pairs never share a directory: the path determines both. */
  lemma DirectoryPathInjective(os1: string, os2: string, language1: string, language2: string)
    requires IsSupportedOs(os1) && IsSupportedOs(os2)
    requires DirectoryPath(OsTarget(Some(os1)).value.segment, language1)
          == DirectoryPath(OsTarget(Some(os2)).value.segment, language2)
    ensures os1 == os2 && language1 == language2
  {
    var seg1, seg2 := OsTarget(Some(os1)).value.segment, OsTarget(Some(os2)).value.segment;
    var path1, path2 := DirectoryPath(seg1, language1), DirectoryPath(seg2, language2);
    var n := |RELEASES_DIR|;
    assert path1[n] == seg1[0] && path2[n] == seg2[0];
    assert seg1 == seg2;
    assert path1[n + |seg1| + 1..] == language1;
    assert path2[n + |seg2| + 1..] == language2;
  }

  /** Omitting the language argument of `get` lists the same directory as passing "en". */
  lemma DefaultLanguagePath(segment: string)
    ensures DirectoryPath(segment, None.GetOr(DEFAULT_LANGUAGE)) == DirectoryPath(segment, "en")
  {
  }

  // Versions

  datatype VersionNumber = VersionNumber(major: nat, minor: nat, patch: Option<nat>)

  /** `sprintf('%d.%d.%d', ...)` with a patch number, `sprintf('%d.%d', ...)` without one. */
  function VersionString(v: VersionNumber): string {
    Decimal(v.major) + "." + Decimal(v.minor) + if v.patch.Some? then "." + Decimal(v.patch.value) else ""
  }

  /** Reads a version string "major.minor" or "major.minor.patch" of decimal numbers back. */
  function ParseVersion(s: string): Option<VersionNumber> {
    var n := DigitRun(s, 0);
    DigitsPrefix(s, n);
    if n == 0 || n == |s| || s[n] != '.' then None
    else ParseMinor(Value(s[..n]), s[n + 1..])
  }

  /** The part of ParseVersion after "major.". */
  function ParseMinor(major: nat, s: string): Option<VersionNumber> {
    var n := DigitRun(s, 0);
    DigitsPrefix(s, n);
    if n == 0 || (n < |s| && s[n] != '.') then None
    else if n == |s| then Some(VersionNumber(major, Value(s[..n]), None))
    else ParsePatch(major, Value(s[..n]), s[n + 1..])
  }

  /** The part of ParseVersion after "major.minor.". */
  function ParsePatch(major: nat, minor: nat, s: string): Option<VersionNumber> {
    var n := DigitRun(s, 0);
    DigitsPrefix(s, n);
    if n == 0 || n < |s| then None
    else Some(VersionNumber(major, minor, Some(Value(s[..n]))))
  }

  lemma DigitsPrefix(s: string, n: nat)
    requires n <= |s| && DigitsIn(s, 0, n)
    ensures IsDigits(s[..n])
  {
    forall k | 0 <= k < n
      ensures IsDigit(s[..n][k])
    {
      assert s[..n][k] == s[k];
    }
  }

  /** The digit run at the start of d + rest is d, when rest does not start with a digit. */
  lemma RunOfDigits(d: string, rest: string)
    requires IsDigits(d) && (rest == [] || !IsDigit(rest[0]))
    ensures DigitRun(d + rest, 0) == |d| && (d + rest)[..|d|] == d && (d + rest)[|d|..] == rest
  {
    var s := d + rest;
    forall j | 0 <= j < |d|
      ensures IsDigit(s[j])
    {
      assert s[j] == d[j];
    }
    RunBound(s, 0, |d|);
    if rest != [] {
      assert s[|d|] == rest[0];
    }
  }

  /** A rendered version reads back as the same numbers. */
  lemma ParseVersionString(v: VersionNumber)
    ensures ParseVersion(VersionString(v)) == Some(v)
  {
    var a := Decimal(v.major);
    var rest := Decimal(v.minor) + if v.patch.Some? then "." + Decimal(v.patch.value) else "";
    assert VersionString(v) == a + ("." + rest);
    ParseMajorStep(a, rest);
    ValueOfDecimal(v.major);
    ParseMinorString(v);
  }

  lemma ParseMajorStep(a: string, rest: string)
    requires IsCanonical(a)
    ensures ParseVersion(a + ("." + rest)) == ParseMinor(Value(a), rest)
  {
    RunOfDigits(a, "." + rest);
    assert (a + ("." + rest))[|a| + 1..] == rest;
  }

  lemma ParseMinorString(v: VersionNumber)
    ensures ParseMinor(v.major, Decimal(v.minor) + if v.patch.Some? then "." + Decimal(v.patch.value) else "")
         == Some(v)
  {
    var b := Decimal(v.minor);
    ValueOfDecimal(v.minor);
    if v.patch.Some? {
      var c := Decimal(v.patch.value);
      RunOfDigits(b, "." + c);
      assert (b + ("." + c))[|b| + 1..] == c;
      ValueOfDecimal(v.patch.value);
      RunOfDigits(c, "");
      assert c + "" == c;
    } else {
      RunOfDigits(b, "");
      assert b + "" == b;
    }
  }

  // Reading the version out of one file name

  /** The numbers `%d` reads out of the captured groups. */
  function VersionOf(g: Groups): VersionNumber
    requires IsDigits(g.major) && IsDigits(g.minor) && (g.patch.Some? ==> IsDigits(g.patch.value))
  {
    VersionNumber(Value(g.major), Value(g.minor), if g.patch.Some? then Some(Value(g.patch.value)) else None)
  }

  /** Groups without leading zeros are rendered as they were captured. */
  lemma RenderCanonicalGroups(g: Groups)
    requires IsCanonical(g.major) && IsCanonical(g.minor) && (g.patch.Some? ==> IsCanonical(g.patch.value))
    ensures VersionString(VersionOf(g)) == VersionText(g)
  {
    DecimalOfValue(g.major);
    DecimalOfValue(g.minor);
    if g.patch.Some? {
      DecimalOfValue(g.patch.value);
    }
  }

  /** One pass of the loop body: `preg_match` on the file name; when both `$matches[2]` and
      `$matches[3]` are set, the version the groups denote. */
  function ExtractVersion(file: string, pat: Pattern): (r: Option<VersionNumber>)
    ensures r.Some? <==> Match(file, pat).Some?
    ensures r.Some? ==> (r.value.patch.Some? <==> Match(file, pat).value.patchLen > 0)
  {
    match Match(file, pat)
    case None => None
    case Some(c) =>
      MatchSpec(file, pat);
      Some(VersionOf(GroupsOf(file, pat, c)))
  }

  /** A name matches exactly when it contains the pattern somewhere, and the version is read from
      the match the backtracking matcher reaches first. */
  lemma ExtractVersionSpec(file: string, pat: Pattern)
    ensures ExtractVersion(file, pat).Some? <==> Matches(file, pat)
    ensures ExtractVersion(file, pat).Some? ==>
      exists c :: Valid(file, pat, c)
        && (forall d :: Valid(file, pat, d) ==> d == c || Preferred(c, d))
        && ExtractVersion(file, pat).value == VersionOf(GroupsOf(file, pat, c))
  {
    MatchSpec(file, pat);
  }

  /** The version is read from the placement `Match` returns. */
  lemma ExtractVersionOfMatch(file: string, pat: Pattern, c: Candidate)
    requires Match(file, pat) == Some(c)
    ensures Valid(file, pat, c) && ExtractVersion(file, pat) == Some(VersionOf(GroupsOf(file, pat, c)))
  {
    MatchSpec(file, pat);
  }

  /** `ExtractVersion` for a match at the start of the name whose groups take whole digit runs. */
  lemma VersionAtStart(file: string, pat: Pattern, c: Candidate)
    requires Valid(file, pat, c) && c.start == 0
    requires !IsDigit(file[MinorEnd(pat, c)])
    requires c.patchLen > 0 ==> !IsDigit(file[AnyPos(pat, c)])
    requires c.patchLen == 0 ==> file[MinorEnd(pat, c)] != '.' || MinorEnd(pat, c) + 1 == |file|
                                 || !IsDigit(file[MinorEnd(pat, c) + 1])
    ensures ExtractVersion(file, pat) == Some(VersionOf(GroupsOf(file, pat, c)))
  {
    MatchAtStart(file, pat, c);
    ExtractVersionOfMatch(file, pat, c);
  }

  /** Whether `ftp_nlist` returns bare names or names behind their directory does not matter,
      as long as the directory does not contain the first character of the prefix ('F'). */
  lemma ExtractVersionIgnoresDirectory(dir: string, name: string, pat: Pattern)
    requires |pat.prefix| > 0 && pat.prefix[0] !in dir
    ensures ExtractVersion(dir + name, pat) == ExtractVersion(name, pat)
  {
    MatchIgnoresDirectory(dir, name, pat);
    if Match(name, pat).Some? {
      MatchSpec(name, pat);
      GroupsShift(dir, name, pat, Match(name, pat).value);
    }
  }

  // The scan over the directory listing

  /** The `foreach` over the listing: the version of the first name that matches, or NothingFound. */
  function FindVersion(files: seq<string>, pat: Pattern): (r: Result<string>)
    ensures r.Err? ==> r.error == NothingFound
    decreases |files|
  {
    if files == [] then Err(NothingFound)
    else
      match ExtractVersion(files[0], pat)
      case Some(v) => Ok(VersionString(v))
      case None => FindVersion(files[1..], pat)
  }

  /** A listing whose first entry matches gives that entry's version. */
  lemma FindVersionHead(files: seq<string>, pat: Pattern, v: VersionNumber)
    requires |files| >= 1 && ExtractVersion(files[0], pat) == Some(v)
    ensures FindVersion(files, pat) == Ok(VersionString(v))
  {
  }

  /** The first matching entry decides the result. */
  lemma {:induction false} FindVersionFirst(files: seq<string>, pat: Pattern, i: nat)
    requires i < |files| && ExtractVersion(files[i], pat).Some?
    requires forall j :: 0 <= j < i ==> ExtractVersion(files[j], pat).None?
    ensures FindVersion(files, pat) == Ok(VersionString(ExtractVersion(files[i], pat).value))
    decreases i
  {
    if i > 0 {
      FindVersionFirst(files[1..], pat, i - 1);
    }
  }

  /** A version comes from an entry that matches, after entries that all do not. */
  lemma {:induction false} FindVersionSound(files: seq<string>, pat: Pattern)
    ensures FindVersion(files, pat).Ok? ==>
      exists i :: 0 <= i < |files| && ExtractVersion(files[i], pat).Some?
        && (forall j :: 0 <= j < i ==> ExtractVersion(files[j], pat).None?)
        && FindVersion(files, pat).value == VersionString(ExtractVersion(files[i], pat).value)
    decreases |files|
  {
    if files != [] && ExtractVersion(files[0], pat).None? {
      FindVersionSound(files[1..], pat);
      if FindVersion(files, pat).Ok? {
        var i :| 0 <= i < |files[1..]| && ExtractVersion(files[1..][i], pat).Some?
          && (forall j :: 0 <= j < i ==> ExtractVersion(files[1..][j], pat).None?)
          && FindVersion(files[1..], pat).value == VersionString(ExtractVersion(files[1..][i], pat).value);
        assert forall j :: 0 <= j < i + 1 ==> ExtractVersion(files[j], pat).None? by {
          forall j | 0 <= j < i + 1
            ensures ExtractVersion(files[j], pat).None?
          {
            if j > 0 {
              assert files[j] == files[1..][j - 1];
            }
          }
        }
      }
    }
  }

  /** The only error of the scan is NothingFound, and it happens exactly when no entry matches
      (in particular for an empty listing). */
  lemma {:induction false} FindVersionNothing(files: seq<string>, pat: Pattern)
    ensures FindVersion(files, pat).Err? ==> FindVersion(files, pat).error == NothingFound
    ensures FindVersion(files, pat).Err? <==> forall j :: 0 <= j < |files| ==> !Matches(files[j], pat)
    decreases |files|
  {
    if files != [] {
      ExtractVersionSpec(files[0], pat);
      FindVersionNothing(files[1..], pat);
      forall j | 0 <= j < |files[1..]|
        ensures Matches(files[1..][j], pat) == Matches(files[j + 1], pat)
      {
      }
    }
  }

  /** Entries after the first match do not affect the result. */
  lemma {:induction false} FindVersionIgnoresRest(files: seq<string>, rest: seq<string>, pat: Pattern)
    requires FindVersion(files, pat).Ok?
    ensures FindVersion(files + rest, pat) == FindVersion(files, pat)
    decreases |files|
  {
    assert (files + rest)[0] == files[0];
    if ExtractVersion(files[0], pat).None? {
      assert (files + rest)[1..] == files[1..] + rest;
      FindVersionIgnoresRest(files[1..], rest, pat);
    }
  }

  // The public operation

  /** `_getFirefoxVersion` on the field values `os` and `language`. */
  function FirefoxLookup(os: Option<string>, language: Option<string>, server: Server): (r: Result<string>)
    ensures r.Err? ==> r.error in {UnsupportedOperatingSystem, ConnectionFailed, LoginFailed, NothingFound}
    ensures r.Ok? ==> os.Some? && IsSupportedOs(os.value) && server.reachable && server.acceptsAnonymous
  {
    match OsTarget(os)
    case Err(e) => Err(e)
    case Ok(target) =>
      if !server.reachable then Err(ConnectionFailed)
      else if !server.acceptsAnonymous then Err(LoginFailed)
      else FindVersion(server.listing(DirectoryPath(target.segment, LanguageText(language))), target.pattern)
  }

  /** `get($browser, $os, $language)` with both optional arguments given. */
  function Resolve(browser: string, os: string, language: string, server: Server): (r: Result<string>)
    ensures r.Ok? ==> browser == FIREFOX && IsSupportedOs(os) && server.reachable && server.acceptsAnonymous
  {
    if !IsSupportedOs(os) then Err(UnsupportedOperatingSystem)
    else if browser != FIREFOX then Err(UnsupportedBrowser)
    else FirefoxLookup(Some(os), Some(language), server)
  }

  /** An unsupported OS is reported whatever the browser; with a supported OS any browser but
      Firefox is reported as unsupported. Neither case depends on the server. */
  lemma RejectedBeforeNetwork(browser: string, os: string, language: string, server1: Server, server2: Server)
    requires !IsSupportedOs(os) || browser != FIREFOX
    ensures Resolve(browser, os, language, server1) == Resolve(browser, os, language, server2)
    ensures Resolve(browser, os, language, server1)
         == Err(if IsSupportedOs(os) then UnsupportedBrowser else UnsupportedOperatingSystem)
  {
  }

  /** For a valid query the connection is tried first, then the login, then one directory is
      listed: the one `DirectoryPath` names for the OS and the language, and only that listing matters. */
  lemma ResolveFirefox(os: string, language: string, server: Server)
    requires IsSupportedOs(os)
    ensures var target := OsTarget(Some(os)).value;
      Resolve(FIREFOX, os, language, server)
      == if !server.reachable then Err(ConnectionFailed)
         else if !server.acceptsAnonymous then Err(LoginFailed)
         else FindVersion(server.listing(DirectoryPath(target.segment, language)), target.pattern)
  {
  }

  /** The language is passed through unchecked: every string, the empty one included, lists
      `<segment>/<language>` verbatim. */
  lemma LanguageVerbatim(os: string, language: string, server: Server)
    requires IsSupportedOs(os) && server.reachable && server.acceptsAnonymous
    ensures var target := OsTarget(Some(os)).value;
      Resolve(FIREFOX, os, language, server)
      == FindVersion(server.listing(RELEASES_DIR + target.segment + "/" + language), target.pattern)
  {
  }

  /** Firefox on Windows lists `<releases>/win32/<language>` and reads it with the
      "Firefox Setup ...exe" pattern. */
  lemma ResolveWindows(language: string, server: Server)
    requires server.reachable && server.acceptsAnonymous
    ensures Resolve(FIREFOX, WINDOWS, language, server)
         == FindVersion(server.listing("/pub/mozilla.org/firefox/releases/latest/win32/" + language), WINDOWS_PATTERN)
  {
    assert DirectoryPath("win32", language) == "/pub/mozilla.org/firefox/releases/latest/win32/" + language;
  }

  /** Firefox on Mac OS X lists `<releases>/mac/<language>` and reads it with the
      "Firefox ...dmg" pattern. */
  lemma ResolveMac(language: string, server: Server)
    requires server.reachable && server.acceptsAnonymous
    ensures Resolve(FIREFOX, MACOSX, language, server)
         == FindVersion(server.listing("/pub/mozilla.org/firefox/releases/latest/mac/" + language), MAC_PATTERN)
  {
    assert DirectoryPath("mac", language) == "/pub/mozilla.org/firefox/releases/latest/mac/" + language;
  }

  /** The class, with the two fields `get` sets before it looks anything up. */
  class BrowsersVersions {
    /** `$_os`; None is PHP's initial null. */
    var os: Option<string>
    /** `$_language`; None is PHP's initial null. */
    var language: Option<string>

    constructor ()
      ensures GetOs() == None && GetLanguage() == None
    {
      os := None;
      language := None;
    }

    function GetOs(): Option<string>
      reads this
    {
      os
    }

    function GetLanguage(): Option<string>
      reads this
    {
      language
    }

    /** `_setOs`: stores a supported OS; anything else throws before the field is written. */
    method SetOs(newOs: string) returns (r: Result<()>)
      modifies this`os
      ensures r.Ok? <==> IsSupportedOs(newOs)
      ensures r.Err? ==> r.error == UnsupportedOperatingSystem
      ensures GetOs() == if r.Ok? then Some(newOs) else old(GetOs())
    {
      if newOs == WINDOWS || newOs == MACOSX {
        os := Some(newOs);
        r := Ok(());
      } else {
        r := Err(UnsupportedOperatingSystem);
      }
    }

    /** `_setLanguage`: stores the language as given, without any check. */
    method SetLanguage(newLanguage: string)
      modifies this`language
      ensures GetLanguage() == Some(newLanguage)
    {
      language := Some(newLanguage);
    }

    /** `_getFirefoxVersion`: the OS switch, the FTP session and the scan of the listing. */
    method FirefoxVersion(server: Server) returns (r: Result<string>)
      ensures r == FirefoxLookup(os, language, server)
    {
      var target := OsTarget(os);
      if target.Err? {
        return Err(UnsupportedOperatingSystem);
      }
      if !server.reachable {
        return Err(ConnectionFailed);
      }
      if !server.acceptsAnonymous {
        return Err(LoginFailed);
      }
      var pat := target.value.pattern;
      var files := server.listing(DirectoryPath(target.value.segment, LanguageText(language)));
      var i := 0;
      while i < |files|
        invariant i <= |files|
        invariant FindVersion(files[i..], pat) == FindVersion(files, pat)
      {
        var found := ExtractVersion(files[i], pat);
        if found.Some? {
          return Ok(VersionString(found.value));
        }
        assert files[i..][1..] == files[i + 1..];
        i := i + 1;
      }
      return Err(NothingFound);
    }

    /** `get`: sets the OS (which may throw), then the language, then dispatches on the browser.
        An argument given as None is omitted and takes its default. */
    method Get(browser: string, osArg: Option<string>, languageArg: Option<string>, server: Server)
      returns (r: Result<string>)
      modifies this
      ensures r == Resolve(browser, osArg.GetOr(WINDOWS), languageArg.GetOr(DEFAULT_LANGUAGE), server)
      ensures IsSupportedOs(osArg.GetOr(WINDOWS)) ==>
        GetOs() == Some(osArg.GetOr(WINDOWS)) && GetLanguage() == Some(languageArg.GetOr(DEFAULT_LANGUAGE))
      ensures !IsSupportedOs(osArg.GetOr(WINDOWS)) ==>
        GetOs() == old(GetOs()) && GetLanguage() == old(GetLanguage())
    {
      var stored := SetOs(osArg.GetOr(WINDOWS));
      if stored.Err? {
        return Err(stored.error);
      }
      SetLanguage(languageArg.GetOr(DEFAULT_LANGUAGE));
      if browser == FIREFOX {
        r := FirefoxVersion(server);
      } else {
        r := Err(UnsupportedBrowser);
      }
    }
  }
}
