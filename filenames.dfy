/**
  Names of the things the scraper writes: the per-article folder under the
  storage root (main.py:11, 25-26, 30) and the numbered table files
  (main.py:73-74).
 */
module FileNames {
  import opened Strings

  /** `ARTICLES_FOLDER`, the storage root. */
  const Root: string := "wikipedia_articles"

  /**
    `safe_filename`: every space and every slash becomes an underscore; the
    length and every other character are kept in place.
   */
  function SafeFilename(title: string): (r: string)
    ensures |r| == |title|
    ensures forall i :: 0 <= i < |r| ==> r[i] != ' ' && r[i] != '/'
    ensures forall i :: 0 <= i < |r| ==>
      r[i] == if title[i] == ' ' || title[i] == '/' then '_' else title[i]
  {
    ReplaceChar(ReplaceChar(title, ' ', '_'), '/', '_')
  }

  /** A name already made safe is left as it is. */
  lemma SafeFilenameIdempotent(title: string)
    ensures SafeFilename(SafeFilename(title)) == SafeFilename(title)
  {
    var s := SafeFilename(title);
    assert forall i :: 0 <= i < |s| ==> SafeFilename(s)[i] == s[i];
  }

  /** A safe name is determined character by character. */
  lemma SafeFilenameIs(title: string, name: string)
    requires |name| == |title|
    requires forall i :: 0 <= i < |title| ==>
      name[i] == if title[i] == ' ' || title[i] == '/' then '_' else title[i]
    ensures SafeFilename(title) == name
  {
    var r := SafeFilename(title);
    assert forall i :: 0 <= i < |r| ==> r[i] == name[i];
  }

  /**
    Distinct titles can share a folder: a space, a slash and an underscore in
    the same place are not told apart.
   */
  lemma SafeFilenameCollides()
    ensures SafeFilename("AC/DC") == SafeFilename("AC DC") == SafeFilename("AC_DC") == "AC_DC"
  {
    var name := "AC_DC";
    SafeFilenameIs("AC/DC", name);
    SafeFilenameIs("AC DC", name);
    SafeFilenameIs(name, name);
  }

  /**
    `os.path.join(ARTICLES_FOLDER, safe_filename(title))`. The safe name holds
    no slash, so the join never discards the root: the folder is one path
    segment directly under it.
   */
  function FolderPath(title: string): (p: string)
    ensures StartsWith(p, Root + "/")
    ensures |p| == |Root| + 1 + |title|
    ensures forall i :: |Root| + 1 <= i < |p| ==> p[i] != '/'
  {
    Root + "/" + SafeFilename(title)
  }

  /** Two titles get the same folder exactly when their safe names agree. */
  lemma FolderPathSame(t: string, u: string)
    ensures FolderPath(t) == FolderPath(u) <==> SafeFilename(t) == SafeFilename(u)
  {
    if FolderPath(t) == FolderPath(u) {
      var n := |Root| + 1;
      assert SafeFilename(t) == FolderPath(t)[n..];
      assert SafeFilename(u) == FolderPath(u)[n..];
    }
  }

  /** `f"table_{i}.csv"`: the number between the prefix and `.csv` reads back as `i`. */
  function TableFileName(i: nat): (name: string)
    ensures StartsWith(name, "table_") && EndsWith(name, ".csv")
    ensures |name| >= 11 && IsDecimal(name[6..|name| - 4]) && ParseNat(name[6..|name| - 4]) == i
  {
    ParseNatToString(i);
    var name := "table_" + NatToString(i) + ".csv";
    assert name[6..|name| - 4] == NatToString(i);
    name
  }

  /** Different table numbers give different file names, so no table overwrites another. */
  lemma TableFileNameInjective(i: nat, j: nat)
    ensures TableFileName(i) == TableFileName(j) <==> i == j
  {
    if TableFileName(i) == TableFileName(j) {
      var a, b := TableFileName(i), TableFileName(j);
      assert NatToString(i) == a[6..|a| - 4];
      assert NatToString(j) == b[6..|b| - 4];
      NatToStringInjective(i, j);
    }
  }
}
