# a11y-statements-monitor, modelled in Dafny

The monitor is one script, `app.js`. Each run it fetches a fixed list of
accessibility-statement pages and saves each page body into a dated folder,
`statements/<yyyy-MM-dd>/`. It then finds the earlier capture date nearest to
today. For each file present in both folders it renders the character diff as
an HTML report.

This project models the deterministic logic around the script's I/O. Inputs
are abstract: folder listings are sequences of names, dates are integers,
diff results are sequences of `(op, text)` tuples, and the filesystem is an
in-memory map.

- `save_name.dfy`, module `SaveRule`: the save-name rule of `saveHTML`. A name
  is kept when the unanchored regular expression `/.html/` matches it, and
  gets `.html` appended otherwise. JavaScript's `.` matches any character
  except a line terminator (`\n`, `\r`, U+2028, U+2029), and the model says so.
  `Search` is the regex search as a left-to-right scan.
- `baseline.dfy`, module `Baseline`: the loop that drops today's folder name
  and parses the other names into dates. It also holds the contract of
  `datefns.closestTo`: the chosen date is one of the candidates, and no
  candidate is strictly nearer to now. Ties are left open.
- `intersection.dfy`, module `Intersection`: the names in today's listing that
  the previous listing includes, in today's order.
- `diff_report.dfy`, module `DiffReport`: the report text. It is the file name
  and a line break, then one fragment per tuple, then the fixed style block.
  For op 0 the fragment is `<span></span>text</span>`, reproduced as written.
  Op 1 gives `<span class="added">text</span>` and op -1 gives
  `<span class="removed">text</span>`. Any other op adds nothing, and text is
  not escaped.
- `snapshot_store.dfy`, module `SnapshotStore`: a class `Store` over a map from
  directory path to folder contents. It has the `js-better-fs` calls that
  `folderSetup` and `saveHTML` make (`exists`, `createDir`, `rmDirectory`,
  `writeFile`), and `saveHTML`, `folderSetup` and `scrape` themselves. `rmDirectory` is
  taken to remove a folder recursively, so subfolders of today's folder
  disappear too; that is assumed of the library (see "## Left out").
- `sequences.dfy`, module `Sequences`: order-preserving `Filter` and `FlatMap`
  with their lemmas, shared by the modules above.
- `options.dfy`, module `Options`: the `Option` datatype.

Three details of `app.js` that the model keeps as written:
- The unchanged-text fragment is the malformed `<span></span>text</span>`
  (app.js:101).
- The report starts with the bare file name and a line break (app.js:98).
- Ties between equally near dates are whatever `closestTo` returns
  (app.js:72), and the model leaves them open.

## Model

| member | source | states |
|---|---|---|
| SaveRule.IsLineTerminator | app.js:45 | definition: the characters the `.` of `/.html/` refuses without the s flag: `\n`, `\r`, U+2028 and U+2029 |
| SaveRule.MatchesAt | app.js:45 | definition: `/.html/` matches at index i: a character other than a line terminator, then "html" exactly (case-sensitive) |
| SaveRule.Matches | app.js:45 | definition: `fileName.match(/.html/)` succeeds: the unanchored pattern matches at some index |
| SaveRule.Search | app.js:45 | the leftmost index at or after `from` where `/.html/` matches, with no match before it; None exactly when no index matches |
| SaveRule.SaveName | app.js:45 | the name is returned unchanged when `/.html/` matches somewhere in it, and with ".html" appended when it matches nowhere |
| SaveRule.SaveNameMatches | app.js:45 | every saved name matches `/.html/` |
| SaveRule.SaveNameIdempotent | app.js:45 | applying the rule twice equals applying it once |
| SaveRule.LeadingHtmlIsExtended | app.js:45 | "html-guide" becomes "html-guide.html", because nothing precedes its "html" |
| SaveRule.InnerHtmlIsKept | app.js:45 | "my-html-page" is kept as it is |
| SaveRule.LineBreakBeforeHtmlIsExtended | app.js:45 | a line break does not satisfy `.`, so "\nhtml" gets the suffix |
| Baseline.ParseAll | app.js:67 | the parsed dates have the names' length, and date k is the parse of name k |
| Baseline.Differs | app.js:66 | definition: the test `folderName !== todayDateString` |
| Baseline.PreviousNames | app.js:64-69 | definition: the listed folder names other than today's date string, in listing order; the names the loop turns into dates |
| Baseline.PreviousNamesMembers | app.js:64-69 | a name is a candidate exactly when it is listed and differs from today's date string |
| Baseline.TodayNeverCandidate | app.js:66 | today's folder name is never a candidate |
| Baseline.PreviousNamesInOrder | app.js:63-69 | the candidates keep listing order: those of a split listing are those of the first part followed by those of the second |
| Baseline.NoTodayKeepsAll | app.js:64-69 | when today's name is not listed, every listed name is a candidate, in the same order |
| Baseline.PreviousScrapeDates | app.js:63-69 | the loop's array is the parse of every listed name other than today's, in listing order, and is no longer than the listing |
| Baseline.Dist | app.js:72 | definition: the absolute distance between two dates by which `closestTo` compares candidates |
| Baseline.IsClosest | app.js:72 | definition: the contract of the library call `datefns.closestTo`, not its code; the chosen date is one of the dates and none is strictly nearer to now, with ties left open |
| Baseline.ClosestExists | app.js:72 | every non-empty list of dates has a date that is a member and no farther from now than any other |
| Baseline.ClosestIsUnique | app.js:72 | a date strictly nearer than all others is the only date the closestTo contract allows |
| Baseline.NearestOfThree | app.js:72 | with candidates 1, 10 and 20 and now 12, the baseline is 10 |
| Baseline.SelectBaseline | app.js:61-72 | None exactly when no folder other than today's is listed; otherwise a candidate date at minimal distance from now, parsed from a listed name other than today's |
| Intersection.InPrevious | app.js:85 | definition: the test `prevFiles.includes(file)` |
| Intersection.Common | app.js:83-88 | definition: today's file names that the previous listing includes, in today's order |
| Intersection.CommonMembers | app.js:83-88 | a name is diffed exactly when it is in today's listing and in the previous one |
| Intersection.CommonInOrder | app.js:83-88 | the diffed names follow today's order: splitting today's listing splits the result |
| Intersection.OneSidedFilesSkipped | app.js:83-88 | with previous {a.html, b.html} and today {b.html, c.html}, exactly b.html is diffed |
| Intersection.FilesToDiff | app.js:83-88 | the pushed array equals today's names filtered by membership in the previous listing, and each of its names is in both listings |
| DiffReport.Opening | app.js:101-103 | definition: the opening tag for ops 0, 1 and -1: `<span></span>`, `<span class="added">`, `<span class="removed">` |
| DiffReport.Close | app.js:101-103 | definition: the closing tag `</span>` after every recognised tuple's text |
| DiffReport.Fragment | app.js:101-103 | definition: what one tuple appends: its opening tag, its text and the closing tag for ops 0, 1 and -1, nothing for any other op |
| DiffReport.StyleBlock | app.js:105-111 | definition: the style block appended after the last fragment, character for character |
| DiffReport.Body | app.js:100-104 | definition: the fragments the loop appends, one per tuple, in tuple order |
| DiffReport.Report | app.js:97-111 | definition: the whole report: the file name, a line break, the fragments of all tuples in order, then the style block |
| DiffReport.FragmentCases | app.js:101-103 | the fragment of op 0, 1 and -1 is the tag, the text and `</span>` exactly as each line appends it; any other op gives nothing |
| DiffReport.FragmentShape | app.js:101-103 | a recognised tuple's fragment is its opening tag (13, 20 or 22 characters) and `</span>` around its unaltered text, which starts right after the opening tag; any other op gives the empty string |
| DiffReport.BodyConcat | app.js:100-104 | the fragments of a concatenation of tuple sequences are the two bodies joined |
| DiffReport.BodyLength | app.js:100-104 | the body's length is the sum of the wrapper lengths plus the texts of recognised tuples |
| DiffReport.LayoutLength | app.js:97-111 | the layout's length is the file name, 1 for the line break, the wrappers, the recognised texts and the trailing block |
| DiffReport.ReportLength | app.js:97-111 | the report's length is the file name, 1, the wrappers, the recognised texts and the style block |
| DiffReport.LayoutTextAt | app.js:101-103 | each recognised tuple's text appears unaltered in the layout, right after its opening tag |
| DiffReport.ReportTextAt | app.js:101-103 | each recognised tuple's text appears unaltered in the report: nothing is escaped |
| DiffReport.UnknownOpsIgnored | app.js:100-104 | tuples whose op is not 0, 1 or -1 contribute nothing: the body equals the body of the recognised tuples alone |
| DiffReport.AppendFragment | app.js:101-103 | the three independent tests on one tuple's op append exactly that tuple's fragment |
| DiffReport.AppendFragments | app.js:100-104 | the loop appends exactly the fragments of all tuples, in order, to the text built so far |
| DiffReport.RenderReport | app.js:97-111 | `newFileTxt` ends as the file name, a line break, the fragments and the style block |
| SnapshotStore.Join | app.js:13 | definition: a folder path and a name joined by "/", as `path.join(rootFolder, todayDateString)` builds today's folder (and `${folder}/${saveName}` at line 46 builds a file path) |
| SnapshotStore.NameOf | app.js:52-54 | definition: the name `saveHTML` (app.js:45) saves a statement under: the save rule applied to the slug of its description |
| SnapshotStore.RemoveTree | app.js:38 | definition: the tree without the removed directory and everything beneath it, all other directories kept with their contents |
| SnapshotStore.SetUp | app.js:28-41 | definition: the tree `folderSetup` leaves: the root created if missing, today's folder created, or removed with everything beneath it and created again, empty |
| SnapshotStore.SetUpEffect | app.js:28-41 | the root exists; today's folder exists and is empty; nothing beneath an existing today's folder survives; every folder outside it keeps its contents; only the root can be new |
| SnapshotStore.SetUpClearsToday | app.js:35-39 | on a well-formed tree (every directory's enclosing directories exist), nothing but today's folder itself lies within today's folder after the setup |
| SnapshotStore.SetUpIdempotent | app.js:28-41 | on a well-formed tree, a second setup changes nothing |
| SnapshotStore.Delivered | app.js:51-55 | the number of leading successful fetches: all before it succeeded, and the one at it failed |
| SnapshotStore.Written | app.js:51-55 | definition: the files that saving the statements in order writes: each under the save name of its slug with its fetched body, a later one replacing an earlier one of the same name |
| SnapshotStore.AfterScrape | app.js:50-56 | definition: the tree after `scrape`: today's folder gains the files of the statements fetched before the first failure, and nothing else changes |
| SnapshotStore.WrittenNames | app.js:51-55 | today's folder receives exactly the save names of the scraped statements |
| SnapshotStore.WrittenLastWins | app.js:51-55 | a file holds the body of the last statement saved under its name |
| SnapshotStore.WrittenNamesMatch | app.js:44-55 | every name `scrape` writes matches `/.html/`, so saving under it again keeps it |
| SnapshotStore.RunReplacesEarlierRun | app.js:28-55 | after setup and scrape, today's folder holds exactly this run's files, whatever an earlier run left there |
| SnapshotStore.Store.Exists | app.js:30-33 | true exactly when the directory exists |
| SnapshotStore.Store.CreateDir | app.js:31 | adds the missing directory, empty, and changes nothing else |
| SnapshotStore.Store.RmDirectory | app.js:38 | removes the directory and everything beneath it, and nothing else |
| SnapshotStore.Store.WriteFile | app.js:46 | sets one file of an existing folder, replacing a file of the same name, and changes nothing else |
| SnapshotStore.Store.SaveHtml | app.js:44-47 | writes the text under the save name of the given name, in the given folder |
| SnapshotStore.Store.FolderSetup | app.js:28-41 | the new tree is the setup of the old one: root present, today's folder present and empty, folders outside today's folder unchanged |
| SnapshotStore.Store.Scrape | app.js:50-56 | succeeds exactly when every fetch succeeds; today's folder gains the files of the statements fetched before the first failure, and nothing else changes |
| SnapshotStore.Store.SetUpAndScrape | app.js:117-119 | setup then scrape; when every fetch succeeds, today's folder holds exactly the saved statements |

## Left out

- HTTP fetching with `got` (app.js:53) is not modelled. The outcome of each fetch is an input, `Some(body)` or `None` for a rejection. A rejection ends the scrape with the earlier files kept. The top-level promise rejection that follows is not modelled.
- `slugify` (app.js:52) is a library. It is the uninterpreted parameter `slug`, and nothing is claimed about collisions.
- The diff algorithm of `fast-diff` (app.js:94) is a library. The renderer takes any tuple sequence, and properties about rebuilding either text belong to that library.
- `Date.parse`, `datefns.format`, time zones and names that parse to `NaN` (app.js:10-11, 67, 73) are not modelled. Dates are integers, `parse` is a parameter, and turning the baseline date back into a folder name (line 73) is not modelled.
- Baseline.SelectBaseline: returns None when no candidate exists. In that case the source passes an empty array to `closestTo` and then formats its result. What those library calls do then is library-defined and not modelled. Ties between equally near dates are not specified.
- Directory and file listings via `fs.lsDir` (app.js:61-62, 75-80) are not modelled. They are inputs given as sequences in listing order, and the compare step is not connected to the `Store`.
- Reading the files to diff (app.js:92-93) is not modelled. `fs.readFile` is not awaited there, so what reaches `diff` is unclear, and file contents do not flow into the report model.
- Writing the report to `output/<date>` (app.js:112) is not modelled. That folder is never created by `folderSetup`, and whether the write succeeds depends on `js-better-fs`.
- The top-level, fire-and-forget call of `runTasks` (app.js:117-124) is not modelled beyond its first two steps (`SetUpAndScrape`). It is async orchestration with no observable result.
- The configured statement list (app.js:16-25) is a parameter rather than the two literal entries.
- Paths are plain strings joined with "/". The normalisation `path.join` applies to `.`, `..` or doubled separators is not modelled.
- SnapshotStore.Store.CreateDir: requires that the directory is missing, which is how the source calls it. What `createDir` does with a missing parent is not modelled.
- SnapshotStore.Store.RmDirectory: removes the directory recursively, with everything beneath it. That is assumed of `js-better-fs`; app.js (line 36, "clean it") states the intent but does not show it. A non-recursive removal would fail on a non-empty folder and abort the run. SetUpClearsToday, SetUpIdempotent and RunReplacesEarlierRun rest on this assumption.
