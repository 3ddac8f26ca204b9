/**
 * The data-recovery scan of the security test suite: a heuristic that walks
 * the files found under a search root and reports those that look like
 * journal files and those that look like encrypted (base64-like) data.
 * Directory enumeration and file reading are abstracted into the input
 * sequence; console output becomes a sequence of `Report` records.
 */
module DataRecovery {
  import opened Wrappers
  import opened Strings

  // ----- LooksLikeEncryptedData -----

  /** Length a text must exceed to look like encrypted data. */
  const MinEncryptedLength := 100
  /** Most `=` padding characters that base64 text carries. */
  const MaxPadding := 2

  /**
   * A character of a base64-like text: letter, digit, `+`, `/`, `=` or white
   * space. A character outside the Basic Multilingual Plane never is one:
   * the `All` callback sees its two surrogate units, and each of them fails.
   */
  predicate IsEncodingChar(t: CharTables, c: char) {
    IsUtf16Unit(c) &&
    (t.isLetterOrDigit(c) || c == '+' || c == '/' || c == '=' || t.isWhiteSpace(c))
  }

  /** LINQ `All`: every character is an encoding character. */
  predicate AllEncodingChars(t: CharTables, s: string) {
    forall i :: 0 <= i < |s| ==> IsEncodingChar(t, s[i])
  }

  /** LINQ `Count(c => c == '=')`, enumerated front to back. */
  function CountPadding(s: string): nat
    decreases |s|
  {
    if s == [] then 0 else (if s[0] == '=' then 1 else 0) + CountPadding(s[1..])
  }

  /** The enumeration of `Count` yields the multiplicity of `=` in the text. */
  lemma {:induction false} CountPaddingIsMultiplicity(s: string)
    ensures CountPadding(s) == multiset(s)['=']
    decreases |s|
  {
    if s != [] {
      CountPaddingIsMultiplicity(s[1..]);
      assert s == [s[0]] + s[1..];
      assert multiset(s) == multiset([s[0]]) + multiset(s[1..]);
    }
  }

  /** The heuristic of `LooksLikeEncryptedData`: long, base64 alphabet, little padding. */
  predicate LooksLikeEncryptedData(t: CharTables, content: string) {
    |content| > MinEncryptedLength &&
    AllEncodingChars(t, content) &&
    CountPadding(content) <= MaxPadding
  }

  /** A text of at most `MinEncryptedLength` characters never looks encrypted. */
  lemma ShortTextNotEncrypted(t: CharTables, s: string)
    requires |s| <= MinEncryptedLength
    ensures !LooksLikeEncryptedData(t, s)
  {
  }

  /** One character outside the base64 alphabet and white space rules a text out. */
  lemma ForeignCharNotEncrypted(t: CharTables, s: string, i: nat)
    requires i < |s| && !IsEncodingChar(t, s[i])
    ensures !LooksLikeEncryptedData(t, s)
  {
  }

  /** A character outside the Basic Multilingual Plane rules a text out, whatever the tables say about it. */
  lemma NonBmpCharNotEncrypted(t: CharTables, s: string, i: nat)
    requires i < |s| && !IsUtf16Unit(s[i])
    ensures !LooksLikeEncryptedData(t, s)
  {
    assert !IsEncodingChar(t, s[i]);
  }

  /**
   * Worked example for any tables, even ones that call U+1D400 (MATHEMATICAL
   * BOLD CAPITAL A) a letter: 101 of them never look encrypted.
   */
  lemma ExampleMathLettersNotEncrypted(t: CharTables)
    ensures !LooksLikeEncryptedData(t, seq(101, _ => '\U{1D400}'))
  {
    NonBmpCharNotEncrypted(t, seq(101, _ => '\U{1D400}'), 0);
  }

  /** More than `MaxPadding` `=` characters rule a text out. */
  lemma ExcessPaddingNotEncrypted(t: CharTables, s: string)
    requires multiset(s)['='] > MaxPadding
    ensures !LooksLikeEncryptedData(t, s)
  {
    CountPaddingIsMultiplicity(s);
  }

  /** `LooksLikeEncryptedData` is exactly the conjunction of its three conditions. */
  lemma LooksLikeEncryptedDataIff(t: CharTables, s: string)
    ensures LooksLikeEncryptedData(t, s) <==>
      |s| > MinEncryptedLength &&
      (forall i :: 0 <= i < |s| ==> IsEncodingChar(t, s[i])) &&
      multiset(s)['='] <= MaxPadding
  {
    CountPaddingIsMultiplicity(s);
  }

  /** Dropping leading white space keeps the alphabet test and the padding count. */
  lemma {:induction false} TrimStartKeepsAlphabetAndPadding(t: CharTables, s: string)
    requires WellFormed(t)
    ensures AllEncodingChars(t, TrimStart(t, s)) == AllEncodingChars(t, s)
    ensures CountPadding(TrimStart(t, s)) == CountPadding(s)
    decreases |s|
  {
    if s != [] && t.isWhiteSpace(s[0]) {
      var rest := s[1..];
      TrimStartKeepsAlphabetAndPadding(t, rest);
      assert forall i :: 1 <= i < |s| ==> s[i] == rest[i - 1];
    }
  }

  /** Dropping trailing white space keeps the alphabet test and the padding count. */
  lemma {:induction false} TrimEndKeepsAlphabetAndPadding(t: CharTables, s: string)
    requires WellFormed(t)
    ensures AllEncodingChars(t, TrimEnd(t, s)) == AllEncodingChars(t, s)
    ensures CountPadding(TrimEnd(t, s)) == CountPadding(s)
    decreases |s|
  {
    if s != [] && t.isWhiteSpace(s[|s| - 1]) {
      var init := s[..|s| - 1];
      TrimEndKeepsAlphabetAndPadding(t, init);
      CountPaddingIsMultiplicity(s);
      CountPaddingIsMultiplicity(init);
      assert s == init + [s[|s| - 1]];
      assert multiset(s) == multiset(init) + multiset([s[|s| - 1]]);
    }
  }

  /**
   * Trimming only removes white space, which is in the alphabet and is not
   * padding, so on the trimmed text only the length condition can change.
   */
  lemma TrimmedLooksEncryptedIff(t: CharTables, s: string)
    requires WellFormed(t)
    ensures LooksLikeEncryptedData(t, Trim(t, s)) <==>
      |Trim(t, s)| > MinEncryptedLength && AllEncodingChars(t, s) && CountPadding(s) <= MaxPadding
  {
    TrimStartKeepsAlphabetAndPadding(t, s);
    TrimEndKeepsAlphabetAndPadding(t, TrimStart(t, s));
  }

  // ----- classification of one file -----

  /** Content length a journal candidate must exceed. */
  const MinCandidateLength := 100
  /** Untrimmed content length an encrypted file must exceed. */
  const MinEncryptedFileLength := 500
  /** Characters of content shown with a journal candidate. */
  const PreviewLength := 200
  /** Characters of content shown with an encrypted file. */
  const ExcerptLength := 100

  /** The name fragments that mark a potential journal file. */
  const Keywords: seq<string> := ["journal", "sophic", "entries", "data"]

  /** An already lower-cased name contains one of the keywords. */
  predicate MentionsKeyword(lowerName: string) {
    exists keyword :: keyword in Keywords && Contains(lowerName, keyword)
  }

  /** The lower-cased file name contains one of the keywords. */
  predicate NameSuggestsJournal(t: CharTables, fileName: string) {
    MentionsKeyword(Lower(t, fileName))
  }

  /** The rule for a "potential journal file" report. */
  predicate IsJournalCandidate(t: CharTables, path: string, content: string) {
    NameSuggestsJournal(t, FileName(t, path)) && |content| > MinCandidateLength
  }

  /** The rule for an "encrypted file found" report; the name plays no part. */
  predicate IsEncryptedFile(t: CharTables, content: string) {
    |content| > MinEncryptedFileLength && LooksLikeEncryptedData(t, Trim(t, content))
  }

  function Min(a: int, b: int): int {
    if a <= b then a else b
  }

  /** 1 for a rule that holds, 0 for one that does not. */
  function Bit(b: bool): nat {
    if b then 1 else 0
  }

  /** `content.Substring(0, Math.Min(bound, content.Length))`: the longest prefix of at most `bound` characters. */
  function Truncate(content: string, bound: nat): (r: string)
    ensures r <= content && |r| <= bound
    ensures |r| == bound || r == content
  {
    content[..Min(bound, |content|)]
  }

  /** What the scan prints, as records. */
  datatype Report =
    | JournalCandidate(path: string, size: nat, preview: string, encrypted: bool)
    | EncryptedFile(path: string, size: nat, excerpt: string)

  /** A file found under a search root; `None` when reading it failed. */
  datatype DataFile = DataFile(path: string, content: Option<string>)

  /**
   * The reports printed for a readable file, given the outcome of the
   * candidate rule, of the encryption test on the untrimmed content, and of
   * the encrypted-file rule: candidate report first.
   */
  function ReportsOf(path: string, content: string, candidate: bool, flagged: bool, encrypted: bool): seq<Report> {
    (if candidate then [JournalCandidate(path, |content|, Truncate(content, PreviewLength), flagged)] else []) +
    (if encrypted then [EncryptedFile(path, |content|, Truncate(content, ExcerptLength))] else [])
  }

  /** The reports one file produces. */
  function FileReports(t: CharTables, f: DataFile): seq<Report> {
    match f.content
    case None => []
    case Some(content) =>
      ReportsOf(f.path, content, IsJournalCandidate(t, f.path, content),
                LooksLikeEncryptedData(t, content), IsEncryptedFile(t, content))
  }

  /** The reports of a whole listing: each file's reports, in listing order. */
  function ScanReports(t: CharTables, files: seq<DataFile>): seq<Report>
    decreases |files|
  {
    if files == [] then []
    else ScanReports(t, files[..|files| - 1]) + FileReports(t, files[|files| - 1])
  }

  // ----- properties of one file's reports -----

  /** `keyword` matches `name` at index `i`, ignoring case. */
  predicate MatchesAt(t: CharTables, name: string, keyword: string, i: int) {
    0 <= i && i + |keyword| <= |name| && Lower(t, name[i..i + |keyword|]) == keyword
  }

  /** A keyword occurs in the lower-cased name exactly where some spelling of it occurs in the name. */
  lemma KeywordInLowerIff(t: CharTables, name: string, keyword: string)
    ensures Contains(Lower(t, name), keyword) <==> exists i :: MatchesAt(t, name, keyword, i)
  {
    if i :| 0 <= i <= |name| - |keyword| && OccursAt(Lower(t, name), keyword, i) {
      LowerSlice(t, name, i, i + |keyword|);
      assert MatchesAt(t, name, keyword, i);
    }
    if i :| MatchesAt(t, name, keyword, i) {
      LowerSlice(t, name, i, i + |keyword|);
      assert OccursAt(Lower(t, name), keyword, i);
    }
  }

  /**
   * The name test is case-insensitive: a name qualifies exactly when some
   * stretch of it lowers to one of the keywords.
   */
  lemma NameSuggestsJournalIff(t: CharTables, name: string)
    ensures NameSuggestsJournal(t, name) <==>
      exists keyword, i :: keyword in Keywords && MatchesAt(t, name, keyword, i)
  {
    KeywordInLowerIff(t, name, "journal");
    KeywordInLowerIff(t, name, "sophic");
    KeywordInLowerIff(t, name, "entries");
    KeywordInLowerIff(t, name, "data");
    if keyword, i :| keyword in Keywords && MatchesAt(t, name, keyword, i) {
      assert keyword == "journal" || keyword == "sophic" || keyword == "entries" || keyword == "data";
    }
  }

  /** A name holding any spelling of a keyword that lowers to the keyword qualifies. */
  lemma SpellingOfKeywordQualifies(t: CharTables, name: string, spelling: string, keyword: string)
    requires keyword in Keywords && Lower(t, spelling) == keyword
    requires Contains(name, spelling)
    ensures NameSuggestsJournal(t, name)
  {
    var i :| 0 <= i <= |name| - |spelling| && OccursAt(name, spelling, i);
    assert MatchesAt(t, name, keyword, i);
    NameSuggestsJournalIff(t, name);
  }

  /** With any well-formed tables, a name that holds a keyword in lower case qualifies. */
  lemma LowerCaseKeywordQualifies(t: CharTables, name: string, keyword: string)
    requires WellFormed(t) && keyword in Keywords && Contains(name, keyword)
    ensures NameSuggestsJournal(t, name)
  {
    assert Lower(t, keyword) == keyword;
    SpellingOfKeywordQualifies(t, name, keyword, keyword);
  }

  /**
   * How the three outcomes shape a readable file's reports: one report per
   * rule that holds, the candidate report first and every later one an
   * encrypted-file report; a candidate report exactly when the candidate
   * rule holds, an encrypted-file report exactly when that rule holds, each
   * carrying the path, the untrimmed length and a bounded prefix of the
   * content.
   */
  lemma ReportsOfShape(path: string, content: string, candidate: bool, flagged: bool, encrypted: bool)
    ensures var reports := ReportsOf(path, content, candidate, flagged, encrypted);
      |reports| == Bit(candidate) + Bit(encrypted) &&
      (candidate ==> reports[0].JournalCandidate?) &&
      (forall i :: 0 < i < |reports| ==> reports[i].EncryptedFile?) &&
      ((exists r :: r in reports && r.JournalCandidate?) <==> candidate) &&
      ((exists r :: r in reports && r.EncryptedFile?) <==> encrypted) &&
      (forall r :: r in reports && r.JournalCandidate? ==>
         r.path == path && r.size == |content| && r.encrypted == flagged &&
         r.preview <= content && |r.preview| == Min(PreviewLength, |content|)) &&
      (forall r :: r in reports && r.EncryptedFile? ==>
         r.path == path && r.size == |content| &&
         r.excerpt <= content && |r.excerpt| == Min(ExcerptLength, |content|))
  {
    var preview, excerpt := Truncate(content, PreviewLength), Truncate(content, ExcerptLength);
    var c := if candidate then [JournalCandidate(path, |content|, preview, flagged)] else [];
    var e := if encrypted then [EncryptedFile(path, |content|, excerpt)] else [];
    assert ReportsOf(path, content, candidate, flagged, encrypted) == c + e;
    assert forall r :: r in c + e <==> r in c || r in e;
    if candidate {
      assert c[0] in c + e;
    }
    if encrypted {
      assert e[0] in c + e;
    }
  }

  /**
   * A readable file gets a "potential journal file" report exactly when its
   * name qualifies and its content is over `MinCandidateLength` characters;
   * it is the first report and the only one of its kind; it carries the
   * path, the content length, a preview of the first
   * min(`PreviewLength`, length) characters and whether the untrimmed
   * content looks encrypted.
   */
  lemma CandidateReportIff(t: CharTables, path: string, content: string)
    ensures (exists r :: r in FileReports(t, DataFile(path, Some(content))) && r.JournalCandidate?) <==>
      NameSuggestsJournal(t, FileName(t, path)) && |content| > MinCandidateLength
    ensures var reports := FileReports(t, DataFile(path, Some(content)));
      forall i :: 0 < i < |reports| ==> !reports[i].JournalCandidate?
    ensures forall r :: r in FileReports(t, DataFile(path, Some(content))) && r.JournalCandidate? ==>
      r.path == path && r.size == |content| &&
      r.preview <= content && |r.preview| == Min(PreviewLength, |content|) &&
      r.encrypted == LooksLikeEncryptedData(t, content)
  {
    ReportsOfShape(path, content, IsJournalCandidate(t, path, content),
                   LooksLikeEncryptedData(t, content), IsEncryptedFile(t, content));
  }

  /**
   * A readable file gets an "encrypted file found" report exactly when its
   * untrimmed content is over `MinEncryptedFileLength` characters and its
   * trimmed content looks encrypted, whatever its name; it is the last
   * report and the only one of its kind; it carries the path, the untrimmed
   * length and the first `ExcerptLength` characters.
   */
  lemma EncryptedFileReportIff(t: CharTables, path: string, content: string)
    ensures (exists r :: r in FileReports(t, DataFile(path, Some(content))) && r.EncryptedFile?) <==>
      |content| > MinEncryptedFileLength && LooksLikeEncryptedData(t, Trim(t, content))
    ensures var reports := FileReports(t, DataFile(path, Some(content)));
      forall i :: 0 <= i < |reports| - 1 ==> !reports[i].EncryptedFile?
    ensures forall r :: r in FileReports(t, DataFile(path, Some(content))) && r.EncryptedFile? ==>
      r.path == path && r.size == |content| && r.excerpt <= content &&
      |r.excerpt| == Min(ExcerptLength, |content|)
  {
    ReportsOfShape(path, content, IsJournalCandidate(t, path, content),
                   LooksLikeEncryptedData(t, content), IsEncryptedFile(t, content));
  }

  /** The encrypted-file rule ignores the name: two files with the same content agree on it. */
  lemma EncryptedFileRuleIgnoresName(t: CharTables, path1: string, path2: string, content: string)
    ensures (exists r :: r in FileReports(t, DataFile(path1, Some(content))) && r.EncryptedFile?) <==>
            (exists r :: r in FileReports(t, DataFile(path2, Some(content))) && r.EncryptedFile?)
  {
    EncryptedFileReportIff(t, path1, content);
    EncryptedFileReportIff(t, path2, content);
  }

  /** A file whose content could not be read gets no report. */
  lemma UnreadableFileNoReports(t: CharTables, path: string)
    ensures FileReports(t, DataFile(path, None)) == []
  {
  }

  /** A report of one file is about that file, and the file was readable. */
  lemma FileReportsNameTheirFile(t: CharTables, f: DataFile, r: Report)
    requires r in FileReports(t, f)
    ensures f.content.Some? && r.path == f.path
  {
    if f.content.Some? {
      var content := f.content.value;
      ReportsOfShape(f.path, content, IsJournalCandidate(t, f.path, content),
                     LooksLikeEncryptedData(t, content), IsEncryptedFile(t, content));
    }
  }

  /**
   * For a candidate, an "encrypted file found" report implies that its
   * "potential journal file" report is flagged encrypted: trimming can only
   * shorten the text.
   */
  lemma EncryptedFileFlagsCandidate(t: CharTables, path: string, content: string)
    requires WellFormed(t)
    requires IsJournalCandidate(t, path, content) && IsEncryptedFile(t, content)
    ensures FileReports(t, DataFile(path, Some(content))) == [
      JournalCandidate(path, |content|, Truncate(content, PreviewLength), true),
      EncryptedFile(path, |content|, Truncate(content, ExcerptLength))]
  {
    TrimmedLooksEncryptedIff(t, content);
    TrimIsInner(t, content);
    assert |Trim(t, content)| <= |content|;
    assert LooksLikeEncryptedData(t, content);
  }

  /** A text made only of white space trims to the empty text. */
  lemma TrimAllWhiteSpace(t: CharTables, s: string)
    requires WhiteSpaceBetween(t, s, 0, |s|)
    ensures Trim(t, s) == []
  {
    TrimIsInner(t, s);
    if Trim(t, s) != [] {
      assert false;
    }
  }

  /** A text in the alphabet without padding looks encrypted once it is over `MinEncryptedLength` characters. */
  lemma UnpaddedAlphabetLooksEncrypted(t: CharTables, s: string)
    requires |s| > MinEncryptedLength
    requires forall i :: 0 <= i < |s| ==> IsEncodingChar(t, s[i]) && s[i] != '='
    ensures LooksLikeEncryptedData(t, s)
  {
    CountPaddingIsMultiplicity(s);
    assert '=' !in s;
  }

  /** 600 letters look encrypted, before and after trimming, with ASCII tables. */
  lemma LettersLookEncrypted()
    ensures var text := seq(600, _ => 'A');
      LooksLikeEncryptedData(Ascii, text) && Trim(Ascii, text) == text
  {
    var text := seq(600, _ => 'A');
    UnpaddedAlphabetLooksEncrypted(Ascii, text);
    assert TrimStart(Ascii, text) == text;
    assert TrimEnd(Ascii, text) == text;
  }

  /**
   * Worked example with ASCII tables: 600 letters qualify under both rules in
   * a file whose name mentions a keyword in capitals.
   */
  lemma ExampleLettersInJournalFile()
    ensures var text := seq(600, _ => 'A');
      FileReports(Ascii, DataFile("/home/user/SOPHIC_BACKUP.DAT", Some(text))) == [
        JournalCandidate("/home/user/SOPHIC_BACKUP.DAT", 600, text[..200], true),
        EncryptedFile("/home/user/SOPHIC_BACKUP.DAT", 600, text[..100])]
  {
    var text := seq(600, _ => 'A');
    var path := "/home/user/SOPHIC_BACKUP.DAT";
    LettersLookEncrypted();
    assert path == "/home/user/" + "SOPHIC_BACKUP.DAT";
    FileNameOfJoin(Ascii, "/home/user/", "SOPHIC_BACKUP.DAT");
    assert OccursAt("SOPHIC_BACKUP.DAT", "SOPHIC", 0);
    assert Lower(Ascii, "SOPHIC") == "sophic";
    SpellingOfKeywordQualifies(Ascii, "SOPHIC_BACKUP.DAT", "SOPHIC", "sophic");
    AsciiIsWellFormed();
    EncryptedFileFlagsCandidate(Ascii, path, text);
  }

  /**
   * Worked example with ASCII tables: the same 600 letters in a file whose
   * name mentions no keyword qualify under the encrypted-file rule alone.
   */
  lemma ExampleLettersInOtherFile()
    ensures var text := seq(600, _ => 'A');
      FileReports(Ascii, DataFile("/home/user/photo.png", Some(text))) == [
        EncryptedFile("/home/user/photo.png", 600, text[..100])]
  {
    LettersLookEncrypted();
    assert "/home/user/photo.png" == "/home/user/" + "photo.png";
    FileNameOfJoin(Ascii, "/home/user/", "photo.png");
    assert Lower(Ascii, "photo.png") == "photo.png";
    forall keyword | keyword in Keywords
      ensures !Contains("photo.png", keyword)
    {
      MissingFirstCharNotContained("photo.png", keyword);
    }
    assert !MentionsKeyword("photo.png");
  }

  /**
   * Worked example with ASCII tables: 501 spaces in a journal file are
   * flagged encrypted as a candidate, yet get no "encrypted file found"
   * report, because trimming leaves nothing.
   */
  lemma ExampleBlankJournal()
    ensures var text := seq(501, _ => ' ');
      FileReports(Ascii, DataFile("journal.txt", Some(text))) == [
        JournalCandidate("journal.txt", 501, text[..200], true)]
  {
    var text := seq(501, _ => ' ');
    UnpaddedAlphabetLooksEncrypted(Ascii, text);
    TrimAllWhiteSpace(Ascii, text);
    FileNameOfJoin(Ascii, "", "journal.txt");
    assert "" + "journal.txt" == "journal.txt";
    assert Lower(Ascii, "journal.txt") == "journal.txt";
    assert OccursAt("journal.txt", "journal", 0);
    assert "journal" in Keywords;
    assert MentionsKeyword("journal.txt");
  }

  // ----- properties of the whole scan -----

  lemma AppendIsAssociative<T>(a: seq<T>, b: seq<T>, c: seq<T>)
    ensures a + b + c == a + (b + c)
  {
  }

  /** The reports of two listings one after the other are the reports of each, in order. */
  lemma {:induction false} ScanReportsAppend(t: CharTables, a: seq<DataFile>, b: seq<DataFile>)
    ensures ScanReports(t, a + b) == ScanReports(t, a) + ScanReports(t, b)
    decreases |b|
  {
    if b == [] {
      assert a + b == a;
    } else {
      var init, last := b[..|b| - 1], b[|b| - 1];
      ScanReportsAppend(t, a, init);
      assert (a + b)[..|a + b| - 1] == a + init;
      assert (a + b)[|a + b| - 1] == last;
      AppendIsAssociative(ScanReports(t, a), ScanReports(t, init), FileReports(t, last));
    }
  }

  /** A file that cannot be read is skipped, and the scan goes on with the rest. */
  lemma UnreadableFileSkipped(t: CharTables, before: seq<DataFile>, path: string, after: seq<DataFile>)
    ensures ScanReports(t, before + [DataFile(path, None)] + after) ==
      ScanReports(t, before) + ScanReports(t, after)
  {
    var skipped := [DataFile(path, None)];
    ScanReportsAppend(t, before + skipped, after);
    ScanReportsAppend(t, before, skipped);
    assert skipped[..0] == [];
    assert ScanReports(t, skipped) == [];
    assert ScanReports(t, before) + [] == ScanReports(t, before);
  }

  /** Every report comes from a readable file of the listing, and names that file. */
  lemma {:induction false} ReportsComeFromReadableFiles(t: CharTables, files: seq<DataFile>, r: Report)
    requires r in ScanReports(t, files)
    ensures exists j :: 0 <= j < |files| && files[j].content.Some? &&
                        r.path == files[j].path && r in FileReports(t, files[j])
    decreases |files|
  {
    if files == [] {
      assert false;
    }
    var n := |files| - 1;
    if r in FileReports(t, files[n]) {
      FileReportsNameTheirFile(t, files[n], r);
    } else {
      ReportsComeFromReadableFiles(t, files[..n], r);
      var j :| 0 <= j < n && files[..n][j].content.Some? &&
        r.path == files[..n][j].path && r in FileReports(t, files[..n][j]);
      assert files[..n][j] == files[j];
    }
  }

  /** The number of rules a file meets; none when it cannot be read. */
  function RulesMet(t: CharTables, f: DataFile): nat {
    match f.content
    case None => 0
    case Some(content) => Bit(IsJournalCandidate(t, f.path, content)) + Bit(IsEncryptedFile(t, content))
  }

  /** The number of rules met, summed over a listing. */
  function TotalRulesMet(t: CharTables, files: seq<DataFile>): nat
    decreases |files|
  {
    if files == [] then 0
    else TotalRulesMet(t, files[..|files| - 1]) + RulesMet(t, files[|files| - 1])
  }

  /**
   * The scan prints one report for every rule met by every readable file,
   * hence at most two per file.
   */
  lemma {:induction false} ScanReportsBound(t: CharTables, files: seq<DataFile>)
    ensures |ScanReports(t, files)| == TotalRulesMet(t, files)
    ensures |ScanReports(t, files)| <= 2 * |files|
    decreases |files|
  {
    if files != [] {
      var last := files[|files| - 1];
      ScanReportsBound(t, files[..|files| - 1]);
      if last.content.Some? {
        var content := last.content.value;
        ReportsOfShape(last.path, content, IsJournalCandidate(t, last.path, content),
                       LooksLikeEncryptedData(t, content), IsEncryptedFile(t, content));
      }
    }
  }

  // ----- the scan -----

  /**
   * The body of the per-file loop of `SearchForDataFiles` once the content
   * has been read: both rules are checked, candidate first.
   */
  method ReportFile(t: CharTables, path: string, content: string) returns (found: seq<Report>)
    ensures found == FileReports(t, DataFile(path, Some(content)))
  {
    var fileName := Lower(t, FileName(t, path));
    found := [];
    var isCandidate := MentionsKeyword(fileName) && |content| > MinCandidateLength;
    if isCandidate {
      var encrypted := LooksLikeEncryptedData(t, content);
      found := found + [JournalCandidate(path, |content|, Truncate(content, PreviewLength), encrypted)];
    }
    var isEncrypted := |content| > MinEncryptedFileLength && LooksLikeEncryptedData(t, Trim(t, content));
    if isEncrypted {
      found := found + [EncryptedFile(path, |content|, Truncate(content, ExcerptLength))];
    }
    assert found == ReportsOf(path, content, isCandidate, LooksLikeEncryptedData(t, content), isEncrypted);
  }

  /**
   * The per-file loop of `SearchForDataFiles`: a file that cannot be read is
   * skipped, every other one is checked against both rules.
   */
  method SearchForDataFiles(t: CharTables, files: seq<DataFile>) returns (reports: seq<Report>)
    ensures reports == ScanReports(t, files)
  {
    reports := [];
    for i := 0 to |files|
      invariant reports == ScanReports(t, files[..i])
    {
      assert files[..i + 1][..i] == files[..i];
      var file := files[i];
      var content := "";
      match file.content {
        case None =>
          continue;
        case Some(text) =>
          content := text;
      }
      var found := ReportFile(t, file.path, content);
      reports := reports + found;
    }
    assert files[..|files|] == files;
  }
}
