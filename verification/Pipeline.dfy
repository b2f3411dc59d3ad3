/** `processCSV`: the guards, the mapping of parsed rows to records, the validity filter, the
    rows for the CSV writer, the image list and the summary statistics. */
module Pipeline {
  import opened Values
  import opened Text
  import opened Slug
  import opened Seqs
  import opened Records
  import opened Output

  /** One entry of `imageUrls`. */
  datatype ImageRef = ImageRef(url: string, fileName: string, projectFolder: string)

  datatype Stats = Stats(totalRows: nat, validRows: nat, imagesFound: nat, projects: seq<string>)

  /** What a successful run leaves behind: the rows given to `Papa.unparse`, the image list
      and the statistics. */
  datatype Processed = Processed(csvRows: seq<seq<Field>>, imageUrls: seq<ImageRef>, stats: Stats)

  /** The two errors `processCSV` reports itself. */
  datatype Failure = MissingBasePath | NoValidData

  /** The parser's cell transform applied to every value of a parsed row. */
  function Ingest(row: Row): (r: Row)
    ensures r.Keys == row.Keys
    ensures forall k :: k in r ==> r[k] == CellTransform(row[k])
  {
    map k | k in row :: CellTransform(row[k])
  }

  /** `parseResult.data.map(...)`: one record per parsed row, in order; every record has a
      project folder. */
  function MapRows(u: Unicode, basePath: string, projectCode: string, parsed: seq<Row>): (rs: seq<Record>)
    ensures |rs| == |parsed|
    ensures forall i :: 0 <= i < |parsed| ==> rs[i] == BuildRecord(u, basePath, projectCode, Ingest(parsed[i]))
    ensures forall i :: 0 <= i < |rs| ==> rs[i].projectFolder != ""
  {
    Map(parsed, row => BuildRecord(u, basePath, projectCode, Ingest(row)))
  }

  function ToImageRef(r: Record): ImageRef {
    ImageRef(r.originalImageUrl, r.fileName, r.projectFolder)
  }

  predicate HasUrl(ref: ImageRef) {
    ref.url != ""
  }

  predicate HasImage(r: Record) {
    r.originalImageUrl != ""
  }

  function ProjectOf(r: Record): string {
    r.projectFolder
  }

  /** `[...new Set(validData.map(row => row._projectFolder))]`: each valid row's project folder
      exactly once, in the order in which each first occurs among the valid rows. */
  function ProjectList(valid: seq<Record>): (projects: seq<string>)
    ensures Distinct(projects)
    ensures forall x :: x in projects <==> exists i :: 0 <= i < |valid| && valid[i].projectFolder == x
    ensures forall i, j, a, b ::
              (0 <= i < j < |projects|
               && IsFirstIndex(Map(valid, ProjectOf), projects[i], a)
               && IsFirstIndex(Map(valid, ProjectOf), projects[j], b)) ==> a < b
  {
    var names := Map(valid, ProjectOf);
    assert forall x :: x in names ==> exists i :: 0 <= i < |valid| && valid[i].projectFolder == x by {
      forall x | x in names ensures exists i :: 0 <= i < |valid| && valid[i].projectFolder == x {
        var i :| 0 <= i < |names| && names[i] == x;
      }
    }
    assert forall i :: 0 <= i < |valid| ==> valid[i].projectFolder in names by {
      forall i | 0 <= i < |valid| ensures valid[i].projectFolder in names {
        assert names[i] == valid[i].projectFolder;
      }
    }
    forall i, j, a, b | 0 <= i < j < |Dedup(names)|
      && IsFirstIndex(names, Dedup(names)[i], a) && IsFirstIndex(names, Dedup(names)[j], b)
      ensures a < b
    {
      DedupFirstOccurrenceOrder(names, i, j, a, b);
    }
    Dedup(names)
  }

  /** `validData.length === 0` */
  predicate NoneValid(all: seq<Record>) {
    forall i :: 0 <= i < |all| ==> !IsValid(all[i])
  }

  function OutputRow(u: Unicode, r: Record): seq<Field> {
    CleanedRow(u, Entries(r))
  }

  /** `processCSV` after the records are built: the validity filter, the empty-result error,
      the rows for the CSV writer, the image list and the statistics. */
  function Assemble(u: Unicode, all: seq<Record>): (res: Result<Processed, Failure>)
    ensures res.Err? ==> res.error == NoValidData
    ensures res.Err? <==> NoneValid(all)
    ensures res.Ok? ==>
      var p := res.value;
      && p.stats.totalRows == |all|
      && 1 <= p.stats.validRows <= p.stats.totalRows
      && |p.csvRows| == p.stats.validRows
      && p.stats.imagesFound <= p.stats.validRows
      && |p.imageUrls| == p.stats.imagesFound
      && 1 <= |p.stats.projects| <= p.stats.validRows
      && Distinct(p.stats.projects)
  {
    var valid := Filter(all, IsValid);
    FilterMembers(all, IsValid);
    if |valid| == 0 then
      assert forall i :: 0 <= i < |all| ==> !IsValid(all[i]) by {
        forall i | 0 <= i < |all| ensures !IsValid(all[i]) {
          assert all[i] in all;
        }
      }
      Err(NoValidData)
    else
      var images := Filter(Map(valid, ToImageRef), HasUrl);
      var found := Filter(valid, HasImage);
      FilterMapLength(valid, ToImageRef, HasUrl, HasImage);
      var projects := ProjectList(valid);
      assert valid[0].projectFolder in projects;
      Ok(Processed(
        csvRows := Map(valid, r => OutputRow(u, r)),
        imageUrls := images,
        stats := Stats(|all|, |valid|, |found|, projects)))
  }

  /** `processCSV` from the parsed rows on. An empty base path stops it before anything is read;
      no valid row is reported as an error and produces no CSV; otherwise the CSV rows, the
      image list and the statistics are produced. */
  function ProcessCsv(u: Unicode, basePath: string, projectCode: string, parsed: seq<Row>)
    : (res: Result<Processed, Failure>)
    ensures res == Err(MissingBasePath) <==> basePath == ""
    ensures res == Err(NoValidData) <==> basePath != "" && NoneValid(MapRows(u, basePath, projectCode, parsed))
    ensures res.Ok? ==> res.value.stats.totalRows == |parsed|
  {
    if basePath == "" then Err(MissingBasePath)
    else Assemble(u, MapRows(u, basePath, projectCode, parsed))
  }

  // ---------------------------------------------------------------- lemmas

  /** The valid rows are exactly the mapped rows with a non-empty Artist and Title, in their
      original order, and the CSV has one row for each of them, in the same order. */
  lemma ValidRowsExactly(u: Unicode, all: seq<Record>)
    requires !NoneValid(all)
    ensures var valid := Filter(all, IsValid);
      var p := Assemble(u, all).value;
      && (forall r :: r in valid <==> r in all && Truthy(r.artist) && Truthy(r.title))
      && IsSubsequence(valid, all)
      && p.stats.validRows == |valid|
      && forall i :: 0 <= i < |valid| ==> p.csvRows[i] == OutputRow(u, valid[i])
  {
    var p := Assemble(u, all);
    assert p.Ok?;
    FilterMembers(all, IsValid);
    FilterIsSubsequence(all, IsValid);
  }

  /** The image list is exactly the valid rows that have a URL, in order, each carrying that
      row's URL, file name and project folder; its length is `imagesFound`. */
  lemma ImageListExactly(u: Unicode, all: seq<Record>)
    requires !NoneValid(all)
    ensures var valid := Filter(all, IsValid);
      var p := Assemble(u, all).value;
      && p.imageUrls == Map(Filter(valid, HasImage), ToImageRef)
      && |p.imageUrls| == p.stats.imagesFound
      && forall ref :: ref in p.imageUrls ==> ref.url != ""
  {
    FilterOfMap(Filter(all, IsValid), ToImageRef, HasUrl, HasImage);
  }

  /** `projects` lists exactly the project folders of the valid rows, each once, in the order
      of first occurrence. */
  lemma ProjectsExactly(u: Unicode, all: seq<Record>)
    requires !NoneValid(all)
    ensures var projects := Assemble(u, all).value.stats.projects;
      && projects == ProjectList(Filter(all, IsValid))
      && Distinct(projects)
      && forall x :: x in projects <==> exists i :: 0 <= i < |all| && IsValid(all[i]) && all[i].projectFolder == x
  {
    AssembleProjects(u, all);
    ValidFolders(all);
  }

  lemma AssembleProjects(u: Unicode, all: seq<Record>)
    requires !NoneValid(all)
    ensures Assemble(u, all).Ok? && Assemble(u, all).value.stats.projects == ProjectList(Filter(all, IsValid))
  {
  }

  /** The folders listed for the valid rows are those of the rows that pass the validity test. */
  lemma ValidFolders(all: seq<Record>)
    ensures forall x :: x in ProjectList(Filter(all, IsValid))
                        <==> exists i :: 0 <= i < |all| && IsValid(all[i]) && all[i].projectFolder == x
  {
    forall x ensures x in ProjectList(Filter(all, IsValid))
                     <==> exists i :: 0 <= i < |all| && IsValid(all[i]) && all[i].projectFolder == x
    {
      ValidFolder(all, x);
    }
  }

  lemma ValidFolder(all: seq<Record>, x: string)
    ensures (exists k :: 0 <= k < |Filter(all, IsValid)| && Filter(all, IsValid)[k].projectFolder == x)
            <==> exists i :: 0 <= i < |all| && IsValid(all[i]) && all[i].projectFolder == x
  {
    if exists k :: 0 <= k < |Filter(all, IsValid)| && Filter(all, IsValid)[k].projectFolder == x {
      var k :| 0 <= k < |Filter(all, IsValid)| && Filter(all, IsValid)[k].projectFolder == x;
      ValidFolderFrom(all, k);
    }
    if exists i :: 0 <= i < |all| && IsValid(all[i]) && all[i].projectFolder == x {
      var i :| 0 <= i < |all| && IsValid(all[i]) && all[i].projectFolder == x;
      ValidFolderTo(all, i);
    }
  }

  lemma ValidFolderFrom(all: seq<Record>, k: nat)
    requires k < |Filter(all, IsValid)|
    ensures exists i :: 0 <= i < |all| && IsValid(all[i]) && all[i].projectFolder == Filter(all, IsValid)[k].projectFolder
  {
    var valid := Filter(all, IsValid);
    FilterMembers(all, IsValid);
    assert valid[k] in valid;
    var i :| 0 <= i < |all| && all[i] == valid[k];
  }

  lemma ValidFolderTo(all: seq<Record>, i: nat)
    requires i < |all| && IsValid(all[i])
    ensures exists k :: 0 <= k < |Filter(all, IsValid)| && Filter(all, IsValid)[k].projectFolder == all[i].projectFolder
  {
    var valid := Filter(all, IsValid);
    FilterMembers(all, IsValid);
    assert all[i] in valid;
    var k :| 0 <= k < |valid| && valid[k] == all[i];
  }

  lemma {:induction false} FilterOfMap<T(!new), U(!new)>(xs: seq<T>, f: T -> U, q: U -> bool, p: T -> bool)
    requires forall i :: 0 <= i < |xs| ==> q(f(xs[i])) == p(xs[i])
    ensures Filter(Map(xs, f), q) == Map(Filter(xs, p), f)
    decreases |xs|
  {
    if xs != [] {
      assert Map(xs, f)[1..] == Map(xs[1..], f);
      FilterOfMap(xs[1..], f, q, p);
      if p(xs[0]) {
        assert Map(Filter(xs, p), f) == [f(xs[0])] + Map(Filter(xs[1..], p), f);
      } else {
        assert Filter(xs, p) == Filter(xs[1..], p) by {
          assert Filter(xs, p) == [] + Filter(xs[1..], p);
        }
      }
    }
  }

  /** Every CSV row has exactly the sixteen display columns in order, none of them a bookkeeping
      key, and each string value is NFC of single-spaced, trimmed text without CR or LF. */
  lemma CsvRowsClean(u: Unicode, all: seq<Record>)
    requires !NoneValid(all)
    ensures var rows := Assemble(u, all).value.csvRows;
      forall n :: 0 <= n < |rows| ==> |rows[n]| == |DisplayColumns| && CleanRowShape(u, rows[n])
  {
    var valid := Filter(all, IsValid);
    var rows := Assemble(u, all).value.csvRows;
    forall n | 0 <= n < |rows| ensures |rows[n]| == |DisplayColumns| && CleanRowShape(u, rows[n]) {
      var row := rows[n];
      assert row == CleanedRow(u, Entries(valid[n]));
      OutputRowKeys(u, valid[n]);
      OutputRowValues(u, Entries(valid[n]));
      DisplayKeysNotBookkeeping();
      forall i | 0 <= i < |row| && row[i].value.Some? ensures IsCleanedText(u, row[i].value.value) {
        var w := CleanText(StripBookkeeping(Entries(valid[n]))[i].value.value);
        assert row[i].value.value == u.nfc(w);
      }
    }
  }

  /** The keys are the display columns in order and every string value is cleaned. */
  ghost predicate CleanRowShape(u: Unicode, row: seq<Field>) {
    forall i :: 0 <= i < |row| ==>
      && i < |DisplayColumns| && row[i].key == DisplayColumns[i]
      && row[i].key !in BookkeepingColumns
      && (row[i].value.Some? ==> IsCleanedText(u, row[i].value.value))
  }

  /** The named text fields of a record are the transformed cells themselves: after the cell
      transform, `?.trim()` changes nothing, and a missing column stays `undefined`. */
  lemma TrimmedFieldsAreCells(u: Unicode, basePath: string, projectCode: string, row: Row)
    ensures var r := BuildRecord(u, basePath, projectCode, Ingest(row));
      && r.artist == (if ArtistCol in row then Some(CellTransform(row[ArtistCol])) else None)
      && r.title == (if TitleCol in row then Some(CellTransform(row[TitleCol])) else None)
  {
    if ArtistCol in row { CellTransformIdempotent(row[ArtistCol]); }
    if TitleCol in row { CellTransformIdempotent(row[TitleCol]); }
  }
}
