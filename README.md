# Wikipedia scraper: verified model of its deterministic core

The scraper (`main.py`) fetches random English Wikipedia articles forever and
stores each article's text, images, tables, linked media files and
references in a folder under `wikipedia_articles/`. A CSV download log stops
it from storing the same article twice. This project models the deterministic
logic inside that loop and proves what it does:

- **Section grouping** (`sections.dfy`, module `Sections`). The content
  region's `h2`/`h3`/`p` elements are walked in document order. Paragraphs
  are buffered under a current heading, which starts as `"Introduction"`.
  A heading flushes the buffer as a `"\n=== H ===\n"` marker line followed by
  the buffered paragraphs. The loop (`GroupSections`) is proved equal to an
  independent reference grouping (`Split`, then `Render`). Lemmas about that
  grouping show the following:
  - no paragraph is lost, added or reordered;
  - every marker is followed by a paragraph line;
  - an article with no non-empty paragraph produces no lines;
  - sections are headed `"Introduction"` and then by each cleaned heading, in order;
  - `"[edit]"` is removed the way Python's `str.replace` removes it.
- **Download log** (`ledger.dfy`, module `DownloadLog`). The class `Ledger`
  holds the log's rows (header row included), the set of paths that exist
  on disk and which of them are regular files. `IsDownloaded` scans the rows
  with an early return. `LogArticle` appends one row. `MakeDirs` fails on a
  path that is a file. `CrawlStep` is the ledger side of one pass of the
  crawl loop: check, create the folder, log.
- **Names** (`filenames.dfy`, module `FileNames`). `safe_filename`, the
  article folder path, and the numbered `table_<n>.csv` names, which are
  proved distinct through a decimal round trip (`strings.dfy`).
- **Artifacts** (`artifacts.dfy`, module `Artifacts`). The URLs fetched for
  images, with protocol-relative `src` values rewritten to `https:`. The
  case-insensitive media-extension filter on links. The numbering of saved tables.

The HTML parser's results are supplied as plain sequences: elements with
their stripped text, `src` attributes as `Option<string>`, link `href`s, and
tables as rows of cell texts. `urljoin` is a function parameter. The
timestamp is an input string.

Behaviour of the code worth knowing, proved here:
- The header row `["Title", "Folder", "URL", "Timestamp"]` is scanned like any
  other row. An article titled `Title` whose folder exists therefore counts as
  downloaded (`HeaderMatchesTitle`).
- `"[edit]"` removal is a single left-to-right pass. `"[ed[edit]it]"` becomes
  `"[edit]"` (`EditLinkCanSurvive`).
- `safe_filename` maps `AC/DC`, `AC DC` and `AC_DC` to the same folder
  (`SafeFilenameCollides`).
- A relative image `src` such as `/static/x.png` is passed on unresolved
  (`ImageUrlExample`).
- `"[edit]"` is removed wherever it occurs in a heading, not only at its end
  (`CleanEditSuffix`).
- The titles `download_log.csv` and `download log.csv` have the log file
  itself as their folder path. `os.makedirs` raises on it at every pass, the
  exception is caught, and such an article is never logged
  (`LogFileTitleNeverLogged`).

## Model

| member | source | states |
|---|---|---|
| `FileNames.SafeFilename` | main.py:25-26 | keeps the length, leaves no space or slash, turns each space or slash into `_` and keeps every other character in place |
| `FileNames.SafeFilenameIdempotent` | main.py:25-26 | applying `safe_filename` to a safe name changes nothing |
| `FileNames.SafeFilenameCollides` | main.py:25-26 | `AC/DC`, `AC DC` and `AC_DC` get the same safe name |
| `FileNames.FolderPath` | main.py:30 | the folder is `wikipedia_articles/` followed by one path segment with no slash, as long as the title |
| `FileNames.FolderPathSame` | main.py:30 | two titles share a folder iff their safe names are equal |
| `Strings.ParseNatToString` | main.py:74 | reading back the decimal rendering `str(i)` gives `i` |
| `FileNames.TableFileName` | main.py:74 | the name starts with `table_`, ends with `.csv`, and the digits between read back as `i` |
| `FileNames.TableFileNameInjective` | main.py:73-74 | `table_i.csv` and `table_j.csv` are the same name iff `i == j` |
| `Strings.RemoveAll` | main.py:147 | `str.replace(pat, "")` never makes a text longer |
| `Strings.RemoveAllAfter` | main.py:147 | for a pattern whose first character does not recur, a prefix without an occurrence is kept and the first occurrence after it is removed |
| `Strings.RemoveAllAbsent` | main.py:147 | `replace("[edit]", "")` leaves a text with no occurrence unchanged |
| `DownloadLog.LoggedIffTitle` | main.py:32-36 | some row starts with the title iff the title is among the first fields of the non-empty rows |
| `DownloadLog.LogThenDownloaded` | main.py:29-43 | after a row for the title is appended, and while its folder exists, it counts as downloaded |
| `DownloadLog.LogLeavesOthers` | main.py:29-43 | appending a row for one title does not change whether any other title counts as downloaded |
| `DownloadLog.HeaderMatchesTitle` | main.py:16-36 | with only the header row, `Title` counts as downloaded iff its folder exists |
| `DownloadLog.Ledger.Open` | main.py:11-19 | the rows are the existing log's rows, or just the header row when there is no log yet; the root and the log file exist, and the log file is the one regular file |
| `DownloadLog.Ledger.IsDownloaded` | main.py:29-37 | always returns the folder `root/safe_filename(title)`; returns true iff that folder exists and some row, header included, has first field `title` |
| `DownloadLog.Ledger.LogArticle` | main.py:40-43 | the rows afterwards are the earlier rows followed by exactly `[title, folder, url, timestamp]` |
| `DownloadLog.Ledger.MakeDirs` | main.py:127 | fails, changing nothing, iff a regular file is at the path; otherwise the directory exists afterwards and no other path changes |
| `DownloadLog.CrawlStep` | main.py:120-186 | a downloaded title is skipped with nothing changed; otherwise the folder is created, and one row is logged iff `makedirs` succeeded and the pass reached the log call; afterwards the title counts as downloaded iff it was skipped, was logged now, or was already in the log |
| `DownloadLog.CrawlTwice` | main.py:121-186 | two complete passes over the same article log at most one row, and none when its folder path is a file |
| `DownloadLog.LogFileTitle` | main.py:15-30 | the titles `download_log.csv` and `download log.csv` have the log file as their folder path |
| `DownloadLog.LogFileTitleNeverLogged` | main.py:121-186 | starting from a fresh log, two passes over such a title log nothing and never skip |
| `DownloadLog.Downloaded` | main.py:29-37 | `is_downloaded`'s answer: the folder exists and the title is one of the logged first fields |
| `Sections.GroupSections` | main.py:137-156 | the loop's `article_lines` equal the reference grouping's rendering, for every element sequence |
| `Sections.SplitKeepsParagraphs` | main.py:141-152 | the sections' paragraphs, concatenated, are exactly the non-empty `p` texts in document order |
| `Sections.SplitHeadings` | main.py:137-148 | there is one section per heading plus a first one; they are headed `Introduction` and then each cleaned heading text, in order |
| `Sections.SplitWithoutHeading` | main.py:149-152 | with no heading, all non-empty paragraphs fall into the section in progress |
| `Sections.SplitAtHeading` | main.py:142-148 | a heading closes the current section with exactly the paragraphs since the previous heading and opens one named by its cleaned text |
| `Sections.ArticleKeepsParagraphs` | main.py:141-156 | with marker lines removed, `article_lines` are exactly the non-empty paragraph texts in document order |
| `Sections.ArticleMarkersFollowed` | main.py:143-156 | every marker line is immediately followed by a paragraph line |
| `Sections.ArticleEmptyIff` | main.py:143-156 | `article_lines` is empty iff there is no non-empty paragraph |
| `Sections.ArticleMarkers` | main.py:137-156 | the markers written are those of the sections that have paragraphs, in order, and the section headings are `Introduction` followed by the cleaned headings |
| `Sections.CleanHeading` | main.py:147 | the cleaned heading is never longer than the text, and equals it when the text holds no `"[edit]"` |
| `Sections.Marker` | main.py:144 | the marker line begins and ends with a line break and holds the heading between `=== ` and ` ===` |
| `Sections.CleanEditSuffix` | main.py:147 | a heading `s + "[edit]" + t`, with no `"[edit]"` in `s`, cleans to `s` followed by the cleaned `t` |
| `Sections.EditLinkStripped` | main.py:147 | `History[edit]` cleans to `History` |
| `Sections.EditLinkCanSurvive` | main.py:147 | `[ed[edit]it]` cleans to `[edit]`: removal is a single pass |
| `Sections.GroupingExample` | main.py:137-156 | `P1, H1, P2, H2, P3` yields Introduction/P1, H1/P2, H2/P3 |
| `Sections.GroupingExampleSections` | main.py:137-152 | the sections of that document are Introduction/[P1], H1/[P2], H2/[P3] |
| `Sections.EmptySectionExample` | main.py:137-156 | a heading directly followed by another heading writes no marker, and an empty paragraph is dropped |
| `Artifacts.ImageUrl` | main.py:63-67 | no URL iff `src` is absent or empty; otherwise the URL ends with `src` |
| `Artifacts.ImageUrlRewrite` | main.py:66-67 | a `src` is changed iff it starts with `//`, and then becomes `https:` + `src`; the rewrite is idempotent |
| `Artifacts.ImageUrlExample` | main.py:63-67 | `//upload.example/x.png` becomes `https://upload.example/x.png`, `/static/x.png` stays as it is, and absent or empty `src` values are skipped |
| `Artifacts.ImageUrlFetchable` | main.py:63-67 | a fetched image URL is never empty and never protocol-relative |
| `Artifacts.ImageUrls` | main.py:62-67 | at most one URL per image |
| `Artifacts.ImageUrlsFetchable` | main.py:62-68 | the same holds for every URL of the image list |
| `Artifacts.DownloadImages` | main.py:60-68 | the loop fetches exactly the image URLs in document order, none of them empty or protocol-relative |
| `Artifacts.IsMediaLink` | main.py:87 | a selected link has a dot four characters from its end |
| `Strings.Lower` | main.py:87 | `lower()` keeps the length and lowers each character on its own |
| `Artifacts.MediaLinkIgnoresCase` | main.py:87 | a link is selected iff its lower-case form is |
| `Artifacts.MediaLinkAnyCase` | main.py:87 | any link ending in `.pdf`, `.mp3`, `.ogg`, `.wav` or `.mp4`, in any letter case, is selected |
| `Artifacts.MediaLinkShape` | main.py:87 | every selected link has a dot four characters from its end, and the letter before its last one is, in lower case, `d`, `p`, `g` or `a` |
| `Artifacts.MediaLinkExamples` | main.py:87 | `report.PDF` and `/wiki/clip.mp4` are selected |
| `Artifacts.NotMediaLinkHtml` | main.py:87 | `page.html` is not selected |
| `Artifacts.NotMediaLinkPng` | main.py:87 | `photo.png` is not selected |
| `Artifacts.MediaLinks` | main.py:85-87 | every selected href is one of the links and passes the extension test |
| `Artifacts.MediaLinksComplete` | main.py:85-87 | every link that passes the extension test is selected |
| `Artifacts.DownloadLinkedFiles` | main.py:83-89 | the loop fetches `urljoin(base, href)` for exactly the selected hrefs, in order |
| `Artifacts.SaveTables` | main.py:71-80 | table `k` (from 1) is written as `table_k.csv` with its rows unchanged; no two tables share a file name |
| `Artifacts.TableNamesDistinct` | main.py:73-74 | files numbered 1, 2, ... in order have pairwise distinct names |

## Left out

- HTTP requests (main.py:52-55, 115): network I/O. Status codes, timeouts and the final post-redirect URL are inputs or absent.
- HTML parsing with BeautifulSoup (`find`, `find_all`, `get_text`, class matching such as `wikitable` at main.py:72): foreign library. Its results are inputs to the model.
- `urljoin` (main.py:88): the `resolve` parameter of `DownloadLinkedFiles`. `urlparse`/`unquote` and the naming of downloaded files in `download_file` (main.py:46-57): URL semantics of the standard library.
- File and directory writes, and CSV writing and quoting (main.py:12-19, 54-55, 76-80, 95-109, 160-162): filesystem I/O. The log is modelled as the rows it reads back. The disk is a set of existing paths and the subset of them that are regular files. Paths found at start-up are taken to be article folders, since the only file the scraper writes directly under the root is the log.
- `DownloadLog.Ledger.MakeDirs` models only the failure on a path that is a regular file. A failure because a parent directory is a file, or for lack of permission, is not modelled; the only parent here is the root, which start-up creates as a directory.
- `DownloadLog.CrawlStep` folds every way a pass can end before main.py:177 into its `completes` parameter, except the `makedirs` failure, which it models. These are a missing content region (main.py:131-134), and any exception raised while the text, images, tables, media and references are written (main.py:158-174). One example is an over-long file name at main.py:159-160. The exception is caught at main.py:184-186, and no row is logged.
- `save_references` (main.py:92-109): it only copies list-item texts and link targets to files. It has no logic beyond the parser queries and file writes already left out.
- Title extraction at main.py:120 and the text file name at main.py:159: parser query and file write.
- The `while True` loop, `time.sleep`, `random.uniform` delays and the catch-all `except` (main.py:112-186): unbounded retrying, timing, floating point and randomness. `CrawlStep` models only the ledger side of one pass.
- `datetime.now()` (main.py:43): the timestamp is a parameter of `LogArticle`.
- `Strings.Lower` lowers ASCII letters only, while Python's `str.lower` also lowers other letters. No non-ASCII letter lowers to a character of `.pdf`, `.mp3`, `.ogg`, `.wav` or `.mp4`, so the extension test gets the same answer.
- `Sections.Stripped` uses ASCII white space for what `get_text(strip=True)` guarantees. The lemmas that need it use only one consequence: a paragraph text never begins with a line break, so it is never mistaken for a marker line.
- `Sections.GroupSections` takes the `p` branch for every non-heading element. That is the source's `elif element.name == "p"`, because `find_all(["h2", "h3", "p"])` yields no other tag.
