# Data-recovery scan of the Sophic journal security tests

The security test suite of the Sophic journal application has a recovery
helper, `DataRecoveryTests`. It walks every file under a set of search
roots and reports two kinds of file:

- a **potential journal file**: the lower-cased file name contains `journal`,
  `sophic`, `entries` or `data`, and the content is over 100 characters long.
  The report shows the path, the size, a preview of at most 200 characters,
  and whether the content looks encrypted;
- an **encrypted file**: the untrimmed content is over 500 characters long and
  the trimmed content looks encrypted. The name plays no part. The report
  shows the path, the size and the first 100 characters.

"Looks encrypted" is the heuristic `LooksLikeEncryptedData`. A text looks
encrypted when it is over 100 characters long, every character is a letter,
a digit, `+`, `/`, `=` or white space, and it has at most two `=` characters.
C# tests each UTF-16 unit, and a surrogate unit passes none of these tests.
So a character outside the Basic Multilingual Plane always fails the
alphabet test, whatever the Unicode tables say about it.

The model has three modules:

- `Wrappers` (wrappers.dfy): the `Option` type. A file whose content could
  not be read has `None` as its content.
- `Strings` (strings.dfy): the .NET operations the scan calls. These are
  `ToLower`, `Trim`, ordinal `Contains` and `Path.GetFileName`. The
  culture- and platform-dependent parts are the record `CharTables`:
  `char.IsLetterOrDigit`, `char.IsWhiteSpace`, per-character lower-casing and
  the directory-separator test. `WellFormed` states the three facts the lemmas
  need: `=` is not white space, `a`–`z` lower to themselves, and no character
  outside the Basic Multilingual Plane is white space (its surrogate units
  are not). `Ascii` is
  an ASCII instance with `/` as separator, used by the worked examples.
- `DataRecovery` (data_recovery.dfy): the heuristic, both rules, the report
  records, and the scan. The scan is the method `SearchForDataFiles`, a loop
  over the listing that skips unreadable files with `continue`. It is proved
  equal to the specification function `ScanReports`. Lemmas about
  `ScanReports` and `FileReports` state what the scan promises.

Console output is modelled as a sequence of `Report` records.
`JournalCandidate` is the "POTENTIAL JOURNAL FILE" block and `EncryptedFile`
is the "ENCRYPTED FILE FOUND" block.

## Model

| member | source | states |
|---|---|---|
| `DataRecovery.LooksLikeEncryptedDataIff` | SecurityTests/DataRecoveryTests.cs:100-102 | the heuristic holds exactly when the text is over 100 characters, every character is a single UTF-16 unit that is a letter, digit, `+`, `/`, `=` or white space, and `=` occurs at most twice |
| `DataRecovery.ShortTextNotEncrypted` | SecurityTests/DataRecoveryTests.cs:100 | a text of at most 100 characters never looks encrypted |
| `DataRecovery.ForeignCharNotEncrypted` | SecurityTests/DataRecoveryTests.cs:101 | one character outside the alphabet and white space rules the text out |
| `DataRecovery.NonBmpCharNotEncrypted` | SecurityTests/DataRecoveryTests.cs:101 | a character outside the Basic Multilingual Plane rules the text out under any tables, because both of its surrogate units fail the `All` callback |
| `DataRecovery.ExampleMathLettersNotEncrypted` | SecurityTests/DataRecoveryTests.cs:100-102 | under any tables, even ones that call U+1D400 a letter, 101 copies of U+1D400 do not look encrypted |
| `DataRecovery.ExcessPaddingNotEncrypted` | SecurityTests/DataRecoveryTests.cs:102 | more than two `=` characters rule the text out |
| `DataRecovery.CountPaddingIsMultiplicity` | SecurityTests/DataRecoveryTests.cs:102 | the front-to-back `Count` of `=` is the number of `=` in the text |
| `DataRecovery.TrimStartKeepsAlphabetAndPadding` | SecurityTests/DataRecoveryTests.cs:82 | dropping leading white space changes neither the alphabet test nor the `=` count |
| `DataRecovery.TrimEndKeepsAlphabetAndPadding` | SecurityTests/DataRecoveryTests.cs:82 | dropping trailing white space changes neither the alphabet test nor the `=` count |
| `DataRecovery.TrimmedLooksEncryptedIff` | SecurityTests/DataRecoveryTests.cs:82 | the trimmed text looks encrypted exactly when it is over 100 characters and the untrimmed text passes the alphabet and padding tests |
| `DataRecovery.KeywordInLowerIff` | SecurityTests/DataRecoveryTests.cs:53-67 | a keyword occurs in the lower-cased name exactly where some stretch of the original name lowers to it |
| `DataRecovery.NameSuggestsJournalIff` | SecurityTests/DataRecoveryTests.cs:53-67 | the name test holds exactly when some stretch of the name lowers to `journal`, `sophic`, `entries` or `data` (case-insensitive match) |
| `DataRecovery.SpellingOfKeywordQualifies` | SecurityTests/DataRecoveryTests.cs:53-67 | a name holding any spelling that lowers to a keyword (for example `SOPHIC`) qualifies |
| `DataRecovery.LowerCaseKeywordQualifies` | SecurityTests/DataRecoveryTests.cs:66-67 | under well-formed tables, a name holding a keyword in lower case qualifies |
| `DataRecovery.Truncate` | SecurityTests/DataRecoveryTests.cs:72 | `Substring(0, Math.Min(bound, Length))` is a prefix of the content of at most `bound` characters, and is the whole content when that is shorter; it never indexes out of bounds |
| `DataRecovery.ReportsOfShape` | SecurityTests/DataRecoveryTests.cs:66-88 | given the three rule outcomes, there is exactly one report per rule that holds; the candidate report comes first and every later report is an encrypted-file report; a candidate report exists exactly when the candidate rule holds, and an encrypted-file report exactly when that rule holds; each report carries the path, the untrimmed size and a prefix of length min(200, size) or min(100, size) |
| `DataRecovery.CandidateReportIff` | SecurityTests/DataRecoveryTests.cs:66-77 | a readable file gets a potential-journal report exactly when its lower-cased name has a keyword and its content is over 100 characters; it is the first report and the only one of its kind; it has the path, the size, a preview that is the first min(200, size) characters, and the encryption flag of the untrimmed content |
| `DataRecovery.EncryptedFileReportIff` | SecurityTests/DataRecoveryTests.cs:82-87 | a readable file gets an encrypted-file report exactly when its untrimmed length is over 500 and its trimmed content looks encrypted; it is the last report and the only one of its kind; it has the path, the untrimmed size and an excerpt that is the first min(100, size) characters |
| `DataRecovery.EncryptedFileRuleIgnoresName` | SecurityTests/DataRecoveryTests.cs:82 | two files with the same content agree on the encrypted-file report whatever their names |
| `DataRecovery.UnreadableFileNoReports` | SecurityTests/DataRecoveryTests.cs:56-63 | a file whose read fails gets no report |
| `DataRecovery.FileReportsNameTheirFile` | SecurityTests/DataRecoveryTests.cs:70-84 | every report of a file names that file's path, and only readable files have reports |
| `DataRecovery.EncryptedFileFlagsCandidate` | SecurityTests/DataRecoveryTests.cs:74-84 | a candidate that also gets an encrypted-file report gets both reports, in that order, and its candidate report is flagged encrypted |
| `DataRecovery.TrimAllWhiteSpace` | SecurityTests/DataRecoveryTests.cs:82 | a text of white space only trims to the empty text |
| `DataRecovery.UnpaddedAlphabetLooksEncrypted` | SecurityTests/DataRecoveryTests.cs:100-102 | a text of over 100 alphabet characters with no `=` looks encrypted |
| `DataRecovery.LettersLookEncrypted` | SecurityTests/DataRecoveryTests.cs:100-102 | with ASCII tables, 600 letters look encrypted and are unchanged by trimming |
| `DataRecovery.ExampleLettersInJournalFile` | SecurityTests/DataRecoveryTests.cs:66-88 | with ASCII tables, 600 letters in `/home/user/SOPHIC_BACKUP.DAT` get both reports, the candidate flagged encrypted; one file can produce both reports (an instance of `EncryptedFileFlagsCandidate` under the ASCII tables) |
| `DataRecovery.ExampleLettersInOtherFile` | SecurityTests/DataRecoveryTests.cs:82-87 | with ASCII tables, the same content in `/home/user/photo.png` gets the encrypted-file report alone |
| `DataRecovery.ExampleBlankJournal` | SecurityTests/DataRecoveryTests.cs:66-82 | with ASCII tables, 501 spaces in `journal.txt` get a candidate report flagged encrypted but no encrypted-file report, because the flag tests the untrimmed text and the second rule the trimmed one |
| `DataRecovery.ScanReportsAppend` | SecurityTests/DataRecoveryTests.cs:51-89 | the reports of two listings in sequence are the reports of each, in listing order |
| `DataRecovery.UnreadableFileSkipped` | SecurityTests/DataRecoveryTests.cs:56-63 | an unreadable file in the middle of a listing adds nothing, and the files after it are still scanned |
| `DataRecovery.ReportsComeFromReadableFiles` | SecurityTests/DataRecoveryTests.cs:51-88 | every report of the scan names a readable file of the listing and is one of that file's reports |
| `DataRecovery.ScanReportsBound` | SecurityTests/DataRecoveryTests.cs:51-88 | the scan produces exactly one report for each rule met by each readable file (`TotalRulesMet`), and so at most two per file |
| `DataRecovery.ReportFile` | SecurityTests/DataRecoveryTests.cs:53-88 | once a file's content is read, the per-file body produces exactly that file's reports (`FileReports`) |
| `DataRecovery.SearchForDataFiles` | SecurityTests/DataRecoveryTests.cs:51-89 | the per-file loop, skipping unreadable files, produces exactly `ScanReports` of the listing |
| `Strings.Lower` | SecurityTests/DataRecoveryTests.cs:53 | `ToLower` keeps the length of the name |
| `Strings.AsciiIsWellFormed` | SecurityTests/DataRecoveryTests.cs:53 | the ASCII tables meet `WellFormed`: `=` is not white space and `a`–`z` lower to themselves |
| `Strings.LowerSlice` | SecurityTests/DataRecoveryTests.cs:53 | lower-casing commutes with taking a slice |
| `Strings.MissingFirstCharNotContained` | SecurityTests/DataRecoveryTests.cs:66-67 | a text lacking the first character of a keyword does not contain the keyword |
| `Strings.TrimStartIsSuffix` | SecurityTests/DataRecoveryTests.cs:82 | `TrimStart` leaves a suffix after white space only, and that suffix does not start with white space |
| `Strings.TrimEndIsPrefix` | SecurityTests/DataRecoveryTests.cs:82 | `TrimEnd` leaves a prefix before white space only, and that prefix does not end with white space |
| `Strings.TrimIsInner` | SecurityTests/DataRecoveryTests.cs:82 | `Trim` leaves a contiguous part of the text with only white space around it, neither starting nor ending with white space |
| `Strings.FileNameIsLastComponent` | SecurityTests/DataRecoveryTests.cs:53 | `Path.GetFileName` is the longest suffix of the path free of directory separators |
| `Strings.FileNameOfJoin` | SecurityTests/DataRecoveryTests.cs:53 | a separator-free name after a directory ending in a separator is that path's file name |

## Left out

- The search driver `FindEncryptedJournalFiles` is not modelled (SecurityTests/DataRecoveryTests.cs:12-43). This covers the home directory lookup, the fixed search roots, the `Directory.Exists` test and its outer `catch`. It is environment and file-system access.
- Directory enumeration is not modelled. `Directory.GetFiles` with `AllDirectories` becomes the input listing. Its failure, and the "Error searching" message of the surrounding `catch`, are not modelled.
- File reading is not modelled. `File.ReadAllText` becomes the `Option` content: the decoded text, or `None` when the read throws. Encoding detection is not modelled.
- Console output text is not modelled. Each block of lines is one `Report` record, and the blank separator lines are dropped.
- Unicode and culture tables are not modelled. `char.IsLetterOrDigit`, `char.IsWhiteSpace`, culture-specific lower-casing and the directory-separator test are parameters, because they depend on the Unicode tables and the platform. The tables are consulted only for characters inside the Basic Multilingual Plane. In the alphabet test, any other character fails outright. For trimming, `WellFormed` requires that no such character is white space.
- Path.GetFileName: the model takes the text after the last separator. Windows root and volume handling is not modelled beyond what the separator test says.
- `ToLower` is modelled as a per-character mapping. Mappings that depend on context are not modelled.
- Lengths count Dafny characters, which are Unicode scalar values. C# `Length` counts UTF-16 units, so text outside the Basic Multilingual Plane has a larger `Length` in C# than `size` in the model. Such a character makes any text fail the encrypted-data test, so this difference can change only the reported size and where the preview and excerpt cut off. The encrypted-file rule therefore decides the same way as in C#. The candidate rule's `content.Length > 100` is compared on the model's length. So a file with a matching name, at most 100 characters and some non-BMP text can be reported by C# but not by the model.
- LINQ's lazy, short-circuiting enumeration in `All` and `Count` is not modelled. The model states them as a bounded quantifier and a count. Neither callback has side effects, so the order does not change the result.
- The other test files are not modelled: SecurityTests/AppSettingsSecurityTests.cs, SecurityTests/EncryptionSecurityTests.cs, SecurityTests/EntryEditorPenetrationTests.cs and both CategorySecurityTests.cs files. They only assert things about `AppSettings`, `AppSettingsService`, `EncryptionService`, `CategoryService`, `EntryEditorViewModel` and `JournalEntry`. The implementations of those classes are not part of this model, so their validation, sanitising, encryption, concurrency and memory behaviour are not modelled either.
