/** Installer names as they appear in Mozilla's release directories, and what the class reads
    from them. Each name is a parameter fixed by the precondition, so that the verifier reasons
    about it through the lemmas of the matcher rather than by evaluating the matcher on it. */
module ReleaseNames {
  import opened Options
  import opened Digits
  import opened FilePattern
  import opened BrowsersVersions

  /** What a listing made of one name reads from it, for a match at the start of the name whose
      groups take whole digit runs. */
  lemma ReadAtStart(s: string, pat: Pattern, c: Candidate, g: Groups, v: VersionNumber, text: string)
    requires Valid(s, pat, c) && c.start == 0
    requires !IsDigit(s[MinorEnd(pat, c)])
    requires c.patchLen > 0 ==> !IsDigit(s[AnyPos(pat, c)])
    requires c.patchLen == 0 ==> s[MinorEnd(pat, c)] != '.' || MinorEnd(pat, c) + 1 == |s|
                                 || !IsDigit(s[MinorEnd(pat, c) + 1])
    requires GroupsOf(s, pat, c) == g && VersionOf(g) == v && VersionString(v) == text
    ensures ExtractVersion(s, pat) == Some(v)
    ensures FindVersion([s], pat) == Ok(text)
  {
    VersionAtStart(s, pat, c);
    FindVersionHead([s], pat, v);
  }

  /** The digit strings of the names below and the numbers `%d` reads from them. */
  lemma SmallValues()
    ensures Value("0") == 0 && Value("00") == 0 && Value("2") == 2 && Value("3") == 3
    ensures Value("64") == 64 && Value("064") == 64 && Value("63") == 63
  {
    assert Value("64") == 10 * Value("6") + 4;
    assert Value("63") == 10 * Value("6") + 3;
    assert Value("06") == 10 * Value("0") + 6;
    assert Value("064") == 10 * Value("06") + 4;
  }

  /** The version texts of the names below. */
  lemma SmallTexts()
    ensures VersionString(VersionNumber(64, 0, Some(2))) == "64.0.2"
    ensures VersionString(VersionNumber(64, 0, None)) == "64.0"
    ensures VersionString(VersionNumber(63, 0, Some(3))) == "63.0.3"
  {
    SmallValues();
    RenderCanonicalGroups(Groups("64", "0", Some("2")));
    RenderCanonicalGroups(Groups("64", "0", None));
    RenderCanonicalGroups(Groups("63", "0", Some("3")));
    assert VersionOf(Groups("64", "0", Some("2"))) == VersionNumber(64, 0, Some(2));
    assert VersionOf(Groups("64", "0", None)) == VersionNumber(64, 0, None);
    assert VersionOf(Groups("63", "0", Some("3"))) == VersionNumber(63, 0, Some(3));
  }

  // "Firefox Setup 64.0.2.exe": a Windows release with a patch number.

  lemma WindowsPatchLayout(s: string)
    requires s == "Firefox Setup 64.0.2.exe"
    ensures Valid(s, WINDOWS_PATTERN, Candidate(0, 2, 1, 1))
    ensures !IsDigit(s[MinorEnd(WINDOWS_PATTERN, Candidate(0, 2, 1, 1))])
    ensures !IsDigit(s[AnyPos(WINDOWS_PATTERN, Candidate(0, 2, 1, 1))])
    ensures GroupsOf(s, WINDOWS_PATTERN, Candidate(0, 2, 1, 1)) == Groups("64", "0", Some("2"))
  {
    assert s[14..16] == "64" && s[17..18] == "0" && s[19..20] == "2";
  }

  lemma WindowsPatchRelease(s: string)
    requires s == "Firefox Setup 64.0.2.exe"
    ensures ExtractVersion(s, WINDOWS_PATTERN) == Some(VersionNumber(64, 0, Some(2)))
    ensures FindVersion([s], WINDOWS_PATTERN) == Ok("64.0.2")
  {
    var g, v := Groups("64", "0", Some("2")), VersionNumber(64, 0, Some(2));
    WindowsPatchLayout(s);
    SmallValues();
    SmallTexts();
    ReadAtStart(s, WINDOWS_PATTERN, Candidate(0, 2, 1, 1), g, v, "64.0.2");
  }

  // "Firefox Setup 64.0.exe": a Windows release without a patch number. The optional group
  // cannot take part: after "64.0." comes a letter.

  lemma WindowsMinorLayout(s: string)
    requires s == "Firefox Setup 64.0.exe"
    ensures Valid(s, WINDOWS_PATTERN, Candidate(0, 2, 1, 0))
    ensures !IsDigit(s[MinorEnd(WINDOWS_PATTERN, Candidate(0, 2, 1, 0))])
    ensures !IsDigit(s[MinorEnd(WINDOWS_PATTERN, Candidate(0, 2, 1, 0)) + 1])
    ensures GroupsOf(s, WINDOWS_PATTERN, Candidate(0, 2, 1, 0)) == Groups("64", "0", None)
  {
    assert s[14..16] == "64" && s[17..18] == "0";
  }

  lemma WindowsMinorRelease(s: string)
    requires s == "Firefox Setup 64.0.exe"
    ensures ExtractVersion(s, WINDOWS_PATTERN) == Some(VersionNumber(64, 0, None))
    ensures FindVersion([s], WINDOWS_PATTERN) == Ok("64.0")
  {
    var g, v := Groups("64", "0", None), VersionNumber(64, 0, None);
    WindowsMinorLayout(s);
    SmallValues();
    SmallTexts();
    ReadAtStart(s, WINDOWS_PATTERN, Candidate(0, 2, 1, 0), g, v, "64.0");
  }

  // "Firefox 63.0.3.dmg": a Mac release.

  lemma MacPatchLayout(s: string)
    requires s == "Firefox 63.0.3.dmg"
    ensures Valid(s, MAC_PATTERN, Candidate(0, 2, 1, 1))
    ensures !IsDigit(s[MinorEnd(MAC_PATTERN, Candidate(0, 2, 1, 1))])
    ensures !IsDigit(s[AnyPos(MAC_PATTERN, Candidate(0, 2, 1, 1))])
    ensures GroupsOf(s, MAC_PATTERN, Candidate(0, 2, 1, 1)) == Groups("63", "0", Some("3"))
  {
    assert s[8..10] == "63" && s[11..12] == "0" && s[13..14] == "3";
  }

  lemma MacPatchRelease(s: string)
    requires s == "Firefox 63.0.3.dmg"
    ensures ExtractVersion(s, MAC_PATTERN) == Some(VersionNumber(63, 0, Some(3)))
    ensures FindVersion([s], MAC_PATTERN) == Ok("63.0.3")
  {
    var g, v := Groups("63", "0", Some("3")), VersionNumber(63, 0, Some(3));
    MacPatchLayout(s);
    SmallValues();
    SmallTexts();
    ReadAtStart(s, MAC_PATTERN, Candidate(0, 2, 1, 1), g, v, "63.0.3");
  }

  // "Firefox Setup 064.00.exe": `%d` drops the leading zeros of both groups.

  lemma LeadingZerosLayout(s: string)
    requires s == "Firefox Setup 064.00.exe"
    ensures Valid(s, WINDOWS_PATTERN, Candidate(0, 3, 2, 0))
    ensures !IsDigit(s[MinorEnd(WINDOWS_PATTERN, Candidate(0, 3, 2, 0))])
    ensures !IsDigit(s[MinorEnd(WINDOWS_PATTERN, Candidate(0, 3, 2, 0)) + 1])
    ensures GroupsOf(s, WINDOWS_PATTERN, Candidate(0, 3, 2, 0)) == Groups("064", "00", None)
  {
    assert s[14..17] == "064" && s[18..20] == "00";
  }

  lemma LeadingZerosRelease(s: string)
    requires s == "Firefox Setup 064.00.exe"
    ensures ExtractVersion(s, WINDOWS_PATTERN) == Some(VersionNumber(64, 0, None))
    ensures FindVersion([s], WINDOWS_PATTERN) == Ok("64.0")
  {
    var g, v := Groups("064", "00", None), VersionNumber(64, 0, None);
    LeadingZerosLayout(s);
    SmallValues();
    SmallTexts();
    ReadAtStart(s, WINDOWS_PATTERN, Candidate(0, 3, 2, 0), g, v, "64.0");
  }

  // "Firefox Setup 64.05exe": the minor group gives up its second digit to the unescaped `.`,
  // because with both digits no character is left for the `.` in front of "exe".

  lemma AnyCharacterLayout(s: string)
    requires s == "Firefox Setup 64.05exe"
    ensures Valid(s, WINDOWS_PATTERN, Candidate(0, 2, 1, 0))
    ensures DigitRun(s, MinorPos(WINDOWS_PATTERN, Candidate(0, 2, 1, 0))) == 2
    ensures GroupsOf(s, WINDOWS_PATTERN, Candidate(0, 2, 1, 0)) == Groups("64", "0", None)
  {
    assert s[14..16] == "64" && s[17..18] == "0";
    RunBound(s, 17, 2);
    assert !IsDigit(s[19]);
  }

  lemma AnyCharacterUnbeaten(s: string, d: Candidate)
    requires s == "Firefox Setup 64.05exe" && Valid(s, WINDOWS_PATTERN, d)
    ensures !Preferred(d, Candidate(0, 2, 1, 0))
  {
    AnyCharacterLayout(s);
    if d.start == 0 {
      MajorIsWholeRun(s, WINDOWS_PATTERN, d);
      MajorIsWholeRun(s, WINDOWS_PATTERN, Candidate(0, 2, 1, 0));
      RunUpTo(s, MinorPos(WINDOWS_PATTERN, d), d.minorLen);
    }
  }

  lemma AnyCharacterRelease(s: string)
    requires s == "Firefox Setup 64.05exe"
    ensures ExtractVersion(s, WINDOWS_PATTERN) == Some(VersionNumber(64, 0, None))
    ensures FindVersion([s], WINDOWS_PATTERN) == Ok("64.0")
  {
    var c := Candidate(0, 2, 1, 0);
    AnyCharacterLayout(s);
    forall d | Valid(s, WINDOWS_PATTERN, d)
      ensures !Preferred(d, c)
    {
      AnyCharacterUnbeaten(s, d);
    }
    MatchIsUnbeaten(s, WINDOWS_PATTERN, c);
    ExtractVersionOfMatch(s, WINDOWS_PATTERN, c);
    SmallValues();
    SmallTexts();
    FindVersionHead([s], WINDOWS_PATTERN, VersionNumber(64, 0, None));
  }

  // A name listed behind its directory.

  lemma DirectoryPieces()
    ensures 'F' !in "/pub/mozilla.org/" && 'F' !in "firefox/releases/" && 'F' !in "latest/"
    ensures 'F' !in "win32" && 'F' !in "/" && 'F' !in DEFAULT_LANGUAGE
  {
  }

  lemma NoPrefixLetterInDirectory()
    ensures 'F' !in DirectoryPath("win32", DEFAULT_LANGUAGE) + "/"
  {
    DirectoryPieces();
    assert RELEASES_DIR == "/pub/mozilla.org/" + "firefox/releases/" + "latest/";
  }

  /** "/pub/mozilla.org/firefox/releases/latest/win32/en/Firefox Setup 64.0.exe" reads as
      "Firefox Setup 64.0.exe" does: the match is found inside the longer name. */
  lemma ListedWithDirectory(name: string)
    requires name == "Firefox Setup 64.0.exe"
    ensures ExtractVersion(DirectoryPath("win32", DEFAULT_LANGUAGE) + "/" + name, WINDOWS_PATTERN)
         == Some(VersionNumber(64, 0, None))
    ensures FindVersion([DirectoryPath("win32", DEFAULT_LANGUAGE) + "/" + name], WINDOWS_PATTERN) == Ok("64.0")
  {
    var dir := DirectoryPath("win32", DEFAULT_LANGUAGE) + "/";
    NoPrefixLetterInDirectory();
    ExtractVersionIgnoresDirectory(dir, name, WINDOWS_PATTERN);
    WindowsMinorRelease(name);
    SmallTexts();
    FindVersionHead([dir + name], WINDOWS_PATTERN, VersionNumber(64, 0, None));
  }

  // A listing: names that do not match are passed over, and the first one that does decides.

  lemma FirstMatchingName(readme: string, first: string, second: string)
    requires readme == "README.txt" && first == "Firefox Setup 64.0.2.exe" && second == "Firefox Setup 64.0.exe"
    ensures FindVersion([readme, first, second], WINDOWS_PATTERN) == Ok("64.0.2")
  {
    ShortStringNoMatch(readme, WINDOWS_PATTERN);
    WindowsPatchRelease(first);
    SmallTexts();
    FindVersionFirst([readme, first, second], WINDOWS_PATTERN, 1);
  }

  // End to end: the directory each operating system lists, and the release read from it.

  /** A server whose Windows directory for "en" lists only "Firefox Setup 64.0.2.exe"
      gives "64.0.2" for Firefox on Windows. */
  lemma WindowsEndToEnd(name: string, server: Server)
    requires name == "Firefox Setup 64.0.2.exe"
    requires server.reachable && server.acceptsAnonymous
    requires server.listing("/pub/mozilla.org/firefox/releases/latest/win32/" + DEFAULT_LANGUAGE) == [name]
    ensures Resolve(FIREFOX, WINDOWS, DEFAULT_LANGUAGE, server) == Ok("64.0.2")
  {
    ResolveWindows(DEFAULT_LANGUAGE, server);
    WindowsPatchRelease(name);
  }

  /** A server whose Mac directory for "en" lists only "Firefox 63.0.3.dmg" gives "63.0.3"
      for Firefox on Mac OS X. */
  lemma MacEndToEnd(name: string, server: Server)
    requires name == "Firefox 63.0.3.dmg"
    requires server.reachable && server.acceptsAnonymous
    requires server.listing("/pub/mozilla.org/firefox/releases/latest/mac/" + DEFAULT_LANGUAGE) == [name]
    ensures Resolve(FIREFOX, MACOSX, DEFAULT_LANGUAGE, server) == Ok("63.0.3")
  {
    ResolveMac(DEFAULT_LANGUAGE, server);
    MacPatchRelease(name);
  }
}
