/**
  The download log (main.py:14-19, 29-43): a CSV file under the storage root
  whose rows are read back as lists of fields. An article counts as
  downloaded when its folder exists AND some row of the log, the header row
  included, starts with its title. The log is only ever appended to.
 */
module DownloadLog {
  import opened Wrappers
  import FileNames

  /** `LOG_FILE` */
  const LogFile: string := FileNames.Root + "/download_log.csv"

  /** The header row written when the log file is first created. */
  const Header: seq<string> := ["Title", "Folder", "URL", "Timestamp"]

  type Row = seq<string>

  /** `row and row[0] == title`: an empty row never matches. */
  predicate StartsRow(row: Row, title: string) {
    |row| > 0 && row[0] == title
  }

  /** Some row of the log, the header included, starts with `title`. */
  predicate Logged(rows: seq<Row>, title: string) {
    exists i :: 0 <= i < |rows| && StartsRow(rows[i], title)
  }

  /**
    What `is_downloaded` answers, given the log rows and the paths that
    exist: the folder exists and the title is among the logged titles.
   */
  function Downloaded(rows: seq<Row>, paths: set<string>, title: string): (b: bool)
    ensures b <==> FileNames.FolderPath(title) in paths && title in Titles(rows)
  {
    LoggedIffTitle(rows, title);
    FileNames.FolderPath(title) in paths && Logged(rows, title)
  }

  /** The first fields of the non-empty rows, in order: the titles the log knows. */
  function Titles(rows: seq<Row>): seq<string> {
    if rows == [] then []
    else (if |rows[0]| > 0 then [rows[0][0]] else []) + Titles(rows[1..])
  }

  /** The scan for a matching row is a membership test on the logged titles. */
  lemma {:induction false} LoggedIffTitle(rows: seq<Row>, title: string)
    ensures Logged(rows, title) <==> title in Titles(rows)
  {
    if rows != [] {
      LoggedIffTitle(rows[1..], title);
      if Logged(rows[1..], title) {
        var i :| 0 <= i < |rows[1..]| && StartsRow(rows[1..][i], title);
        assert StartsRow(rows[i + 1], title);
      }
      if Logged(rows, title) && !StartsRow(rows[0], title) {
        var i :| 0 <= i < |rows| && StartsRow(rows[i], title);
        assert StartsRow(rows[1..][i - 1], title);
      }
    }
  }

  /** Once a row for `title` is appended, and its folder exists, it counts as downloaded. */
  lemma LogThenDownloaded(rows: seq<Row>, paths: set<string>, title: string, folder: string, url: string, timestamp: string)
    requires FileNames.FolderPath(title) in paths
    ensures Downloaded(rows + [[title, folder, url, timestamp]], paths, title)
  {
    var rows' := rows + [[title, folder, url, timestamp]];
    assert StartsRow(rows'[|rows|], title);
  }

  /** Appending a row for one title changes the answer for no other title. */
  lemma LogLeavesOthers(rows: seq<Row>, paths: set<string>, title: string, folder: string, url: string, timestamp: string, other: string)
    requires other != title
    ensures Downloaded(rows + [[title, folder, url, timestamp]], paths, other) <==> Downloaded(rows, paths, other)
  {
    var rows' := rows + [[title, folder, url, timestamp]];
    if Logged(rows, other) {
      var i :| 0 <= i < |rows| && StartsRow(rows[i], other);
      assert StartsRow(rows'[i], other);
    }
    if Logged(rows', other) {
      var i :| 0 <= i < |rows'| && StartsRow(rows'[i], other);
      assert i < |rows| && StartsRow(rows[i], other);
    }
  }

  /**
    The header row is scanned like any other: an article titled "Title" whose
    folder exists is taken as downloaded by a freshly created log.
   */
  lemma HeaderMatchesTitle(paths: set<string>)
    ensures Downloaded([Header], paths, "Title") <==> FileNames.FolderPath("Title") in paths
  {
    assert StartsRow([Header][0], "Title");
  }

  /**
    The log file and what exists on disk: `paths` are the paths that exist,
    directories and files alike (`os.path.exists`), and `files` are those of
    them that are regular files rather than directories.
   */
  class Ledger {
    var rows: seq<Row>
    var paths: set<string>
    var files: set<string>

    /** Every file is an existing path. */
    predicate Valid()
      reads this
    {
      files <= paths
    }

    /**
      Start-up (main.py:11-19): the storage root is created, and the log file
      with its header row unless it already exists (then its rows are read).
      The paths found under the root from earlier runs are article folders.
     */
    constructor Open(existingLog: Option<seq<Row>>, existingPaths: set<string>)
      ensures Valid()
      ensures rows == if existingLog.Some? then existingLog.value else [Header]
      ensures paths == existingPaths + {FileNames.Root, LogFile}
      ensures files == {LogFile}
    {
      rows := if existingLog.Some? then existingLog.value else [Header];
      paths := existingPaths + {FileNames.Root, LogFile};
      files := {LogFile};
    }

    /**
      `is_downloaded`: always reports the article's folder; the answer is
      true only when that folder exists and a row starts with the title.
     */
    method IsDownloaded(title: string) returns (downloaded: bool, folderPath: string)
      ensures folderPath == FileNames.FolderPath(title)
      ensures downloaded <==> Downloaded(rows, paths, title)
    {
      folderPath := FileNames.FolderPath(title);
      if folderPath in paths {
        var i := 0;
        while i < |rows|
          invariant 0 <= i <= |rows|
          invariant forall j :: 0 <= j < i ==> !StartsRow(rows[j], title)
        {
          var row := rows[i];
          if |row| > 0 && row[0] == title {
            return true, folderPath;
          }
          i := i + 1;
        }
      }
      return false, folderPath;
    }

    /** `log_article`: appends exactly one row; the timestamp is supplied by the caller. */
    method LogArticle(title: string, folderPath: string, url: string, timestamp: string)
      modifies this`rows
      ensures rows == old(rows) + [[title, folderPath, url, timestamp]]
    {
      rows := rows + [[title, folderPath, url, timestamp]];
    }

    /**
      `os.makedirs(folder_path, exist_ok=True)` (main.py:127): succeeds, and
      the directory exists afterwards, unless a regular file is already at
      that path, where it raises `FileExistsError` and changes nothing.
     */
    method MakeDirs(path: string) returns (ok: bool)
      requires Valid()
      modifies this`paths
      ensures Valid()
      ensures ok <==> path !in files
      ensures paths == if ok then old(paths) + {path} else old(paths)
    {
      if path in files {
        return false;
      }
      paths := paths + {path};
      return true;
    }
  }

  /**
    The ledger side of one pass of the crawl loop (main.py:120-177): an
    article already downloaded is skipped and nothing changes; otherwise its
    folder is created and the row is logged, provided `makedirs` succeeds and
    `completes` holds. `completes` stands for the rest of the pass reaching
    main.py:177 without leaving it: a content region exists (main.py:131-134)
    and nothing raises while the artifacts are written (main.py:158-174). An
    exception there is caught at main.py:184-186 and the article is not logged.
   */
  method CrawlStep(ledger: Ledger, title: string, url: string, timestamp: string, completes: bool)
    returns (skipped: bool)
    requires ledger.Valid()
    modifies ledger
    ensures ledger.Valid() && ledger.files == old(ledger.files)
    ensures skipped <==> Downloaded(old(ledger.rows), old(ledger.paths), title)
    ensures skipped ==> ledger.rows == old(ledger.rows) && ledger.paths == old(ledger.paths)
    ensures !skipped ==> ledger.paths == old(ledger.paths) + {FileNames.FolderPath(title)}
    ensures !skipped ==> (ledger.rows == old(ledger.rows) +
      if completes && FileNames.FolderPath(title) !in old(ledger.files)
      then [[title, FileNames.FolderPath(title), url, timestamp]] else [])
    ensures Downloaded(ledger.rows, ledger.paths, title) <==>
      skipped || (completes && FileNames.FolderPath(title) !in old(ledger.files)) || Logged(old(ledger.rows), title)
  {
    var folderPath;
    skipped, folderPath := ledger.IsDownloaded(title);
    if skipped {
      return;
    }
    var made := ledger.MakeDirs(folderPath);
    if !made || !completes {
      return;
    }
    ledger.LogArticle(title, folderPath, url, timestamp);
    LogThenDownloaded(old(ledger.rows), ledger.paths, title, folderPath, url, timestamp);
  }

  /**
    Running the step twice for the same article: a row is logged at most
    once, and none at all when the article's folder path is a file.
   */
  method CrawlTwice(ledger: Ledger, title: string, url: string, timestamp: string)
    requires ledger.Valid()
    modifies ledger
    ensures ledger.rows == old(ledger.rows) +
      (if Downloaded(old(ledger.rows), old(ledger.paths), title) || FileNames.FolderPath(title) in old(ledger.files) then []
       else [[title, FileNames.FolderPath(title), url, timestamp]])
  {
    var first := CrawlStep(ledger, title, url, timestamp, true);
    var second := CrawlStep(ledger, title, url, timestamp, true);
    if !first && FileNames.FolderPath(title) !in old(ledger.files) {
      assert second;
    }
  }

  /** The titles `download_log.csv` and `download log.csv` name the log file itself. */
  lemma LogFileTitle(title: string)
    requires title == "download_log.csv" || title == "download log.csv"
    ensures FileNames.FolderPath(title) == LogFile
  {
    var name := "download_log.csv";
    assert FileNames.Root + "/" + name == LogFile;
    FileNames.SafeFilenameIs(title, name);
  }

  /**
    An article whose title names the log file is never logged: its folder
    path is a file, so `makedirs` raises on every pass, however often the
    pass is repeated.
   */
  method LogFileTitleNeverLogged(title: string, url: string, timestamp: string) returns (rows: seq<Row>, skipped: bool)
    requires title == "download_log.csv" || title == "download log.csv"
    ensures rows == [Header] && !skipped
  {
    LogFileTitle(title);
    var ledger := new Ledger.Open(None, {});
    skipped := CrawlStep(ledger, title, url, timestamp, true);
    skipped := CrawlStep(ledger, title, url, timestamp, true);
    rows := ledger.rows;
  }
}
