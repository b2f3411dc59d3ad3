/** The record mapper: one parsed row (column name to cell text) becomes one output record
    with sixteen display fields and four `_`-prefixed bookkeeping fields. */
module Records {
  import opened Values
  import opened Text
  import opened Slug
  import opened ImageUrl

  /** A parsed row: trimmed header name to cell text. */
  type Row = map<string, string>

  // Source columns of the collections export.
  const ArtistCol: string := "Artist (from Artwork)"
  const TitleCol: string := "Title (from Artwork)"
  const DateCol: string := "Date (from Artwork)"
  const MediumCol: string := "Medium (from Artwork)"
  const DimensionsCol: string := "Dimensions (from Artwork)"
  const LocationCol: string := "Location"
  const EditionCol: string := "Edition (from Artwork)"
  const HeightCol: string := "Height In. (from Artwork)"
  const WidthCol: string := "Width In. (from Artwork)"
  const DepthCol: string := "Depth In. (from Artwork)"
  const SignatureCol: string := "Signature & Inscription (from Artwork)"
  const ProvenanceCol: string := "Provenance (from Artwork)"
  const ExhibitionsCol: string := "Exhibitions (from Artwork)"
  const PublicationsCol: string := "Publications (from Artwork)"
  const ConditionCol: string := "Condition (from Artwork)"
  const ObjectIdCol: string := "Object ID#"
  const ImagesCol: string := "Images (from Artwork)"
  const ProjectCol: string := "Project ID #"

  const UnknownProject: string := "UNKNOWN_PROJECT"

  /** The keys of an output record, in the order the record literal lists them. */
  const DisplayColumns: seq<string> := [
    "Artist", "Title", "Date", "Medium", "Dimensions", "Location", "Edition",
    "Alt Dimensions 1 (h x w)", "Alt Dimensions 2 (h x w)", "Signature / Inscriptions / Labels",
    "Provenance", "Exhibitions", "Publications", "Condition", "Artwork Cataloguing", "@imageFilePath"]
  const BookkeepingColumns: seq<string> := ["_originalImageUrl", "_filename", "_projectFolder", "_fullPath"]

  /** One processed row. A `None` field is JavaScript `undefined`: `x?.trim()` of a missing column. */
  datatype Record = Record(
    artist: Option<string>,
    title: Option<string>,
    date: Option<string>,
    medium: Option<string>,
    dimensions: Option<string>,
    location: Option<string>,
    edition: Option<string>,
    altDimensions1: string,
    altDimensions2: string,
    signature: Option<string>,
    provenance: Option<string>,
    exhibitions: Option<string>,
    publications: Option<string>,
    condition: Option<string>,
    cataloguing: Option<string>,
    imageFilePath: string,
    originalImageUrl: string,
    fileName: string,
    projectFolder: string,
    fullPath: string)

  /** One key and value of a record seen as a JavaScript object. */
  datatype Field = Field(key: string, value: Option<string>)

  /** `row[col]` */
  function Get(row: Row, col: string): Option<string> {
    if col in row then Some(row[col]) else None
  }

  /** JavaScript truthiness of a cell: present and not the empty string. */
  predicate Truthy(v: Option<string>) {
    v.Some? && v.value != ""
  }

  /** `v?.trim()` */
  function TrimOpt(v: Option<string>): (r: Option<string>)
    ensures r.None? <==> v.None?
    ensures r.Some? ==> Trimmed(r.value)
  {
    match v
    case None => None
    case Some(s) => Some(Trim(s))
  }

  /** `row['Project ID #'] || projectCode || 'UNKNOWN_PROJECT'`: the first non-empty of the three. */
  function ProjectFolder(row: Row, projectCode: string): (r: string)
    ensures r != ""
    ensures Truthy(Get(row, ProjectCol)) ==> r == row[ProjectCol]
    ensures !Truthy(Get(row, ProjectCol)) && projectCode != "" ==> r == projectCode
    ensures !Truthy(Get(row, ProjectCol)) && projectCode == "" ==> r == UnknownProject
  {
    var project := Get(row, ProjectCol);
    if Truthy(project) then project.value
    else if projectCode != "" then projectCode
    else UnknownProject
  }

  /** `Alt Dimensions 1 (h x w)`: `H x W` when height and width are both non-empty, else `''`. */
  function AltDimensions1(row: Row): (r: string)
    ensures r != "" <==> Truthy(Get(row, HeightCol)) && Truthy(Get(row, WidthCol))
    ensures r != "" ==> r == row[HeightCol] + " x " + row[WidthCol]
  {
    var h := Get(row, HeightCol);
    var w := Get(row, WidthCol);
    if Truthy(h) && Truthy(w) then h.value + " x " + w.value else ""
  }

  /** `Alt Dimensions 2 (h x w)`: the depth when non-empty, else `''`. */
  function AltDimensions2(row: Row): (r: string)
    ensures r != "" <==> Truthy(Get(row, DepthCol))
    ensures r != "" ==> r == row[DepthCol]
  {
    Get(row, DepthCol).GetOr("")
  }

  /** The record built for one row (the callback of `parseResult.data.map`). */
  function BuildRecord(u: Unicode, basePath: string, projectCode: string, row: Row): (r: Record)
    ensures r.imageFilePath == r.fullPath == FullPath(basePath, r.fileName)
    ensures r.projectFolder != ""
    ensures r.artist.None? <==> ArtistCol !in row
    ensures r.title.None? <==> TitleCol !in row
    ensures r.originalImageUrl != "" ==> |r.originalImageUrl| >= 8 && r.originalImageUrl[..8] == "https://"
  {
    var cleanArtist := MakeSlug(u, Get(row, ArtistCol).GetOr(""));
    var cleanTitle := MakeSlug(u, Get(row, TitleCol).GetOr(""));
    var fileName := FileName(cleanArtist, cleanTitle);
    var fullPath := FullPath(basePath, fileName);
    Record(
      artist := TrimOpt(Get(row, ArtistCol)),
      title := TrimOpt(Get(row, TitleCol)),
      date := TrimOpt(Get(row, DateCol)),
      medium := TrimOpt(Get(row, MediumCol)),
      dimensions := TrimOpt(Get(row, DimensionsCol)),
      location := TrimOpt(Get(row, LocationCol)),
      edition := Get(row, EditionCol),
      altDimensions1 := AltDimensions1(row),
      altDimensions2 := AltDimensions2(row),
      signature := TrimOpt(Get(row, SignatureCol)),
      provenance := TrimOpt(Get(row, ProvenanceCol)),
      exhibitions := TrimOpt(Get(row, ExhibitionsCol)),
      publications := TrimOpt(Get(row, PublicationsCol)),
      condition := TrimOpt(Get(row, ConditionCol)),
      cataloguing := TrimOpt(Get(row, ObjectIdCol)),
      imageFilePath := fullPath,
      originalImageUrl := ExtractImageUrl(Get(row, ImagesCol)),
      fileName := fileName,
      projectFolder := ProjectFolder(row, projectCode),
      fullPath := fullPath)
  }

  /** `row.Artist && row.Title` */
  predicate IsValid(r: Record) {
    Truthy(r.artist) && Truthy(r.title)
  }

  /** The sixteen display fields of a record, in literal order. */
  function DisplayEntries(r: Record): (fs: seq<Field>)
    ensures |fs| == |DisplayColumns|
    ensures forall i :: 0 <= i < |fs| ==> fs[i].key == DisplayColumns[i]
  {
    [ Field("Artist", r.artist), Field("Title", r.title), Field("Date", r.date),
      Field("Medium", r.medium), Field("Dimensions", r.dimensions), Field("Location", r.location),
      Field("Edition", r.edition),
      Field("Alt Dimensions 1 (h x w)", Some(r.altDimensions1)),
      Field("Alt Dimensions 2 (h x w)", Some(r.altDimensions2)),
      Field("Signature / Inscriptions / Labels", r.signature),
      Field("Provenance", r.provenance), Field("Exhibitions", r.exhibitions),
      Field("Publications", r.publications), Field("Condition", r.condition),
      Field("Artwork Cataloguing", r.cataloguing),
      Field("@imageFilePath", Some(r.imageFilePath)) ]
  }

  /** The four bookkeeping fields of a record, in literal order. */
  function BookkeepingEntries(r: Record): (fs: seq<Field>)
    ensures |fs| == |BookkeepingColumns|
    ensures forall i :: 0 <= i < |fs| ==> fs[i].key == BookkeepingColumns[i]
  {
    [ Field("_originalImageUrl", Some(r.originalImageUrl)),
      Field("_filename", Some(r.fileName)),
      Field("_projectFolder", Some(r.projectFolder)),
      Field("_fullPath", Some(r.fullPath)) ]
  }

  /** The record as a JavaScript object: its keys and values in literal order. */
  function Entries(r: Record): seq<Field> {
    DisplayEntries(r) + BookkeepingEntries(r)
  }

  // ---------------------------------------------------------------- lemmas

  /** No display key is a bookkeeping key: the bookkeeping keys all begin with `_`, no display key does. */
  lemma DisplayKeysNotBookkeeping()
    ensures forall i :: 0 <= i < |DisplayColumns| ==> DisplayColumns[i] !in BookkeepingColumns
  {
    forall i, j | 0 <= i < |DisplayColumns| && 0 <= j < |BookkeepingColumns|
      ensures DisplayColumns[i] != BookkeepingColumns[j]
    {
      assert BookkeepingColumns[j][0] == '_';
      assert DisplayColumns[i][0] != '_';
    }
  }

  /** A trimmed value is non-empty exactly when the raw value has a non-white-space character. */
  lemma TrimmedNonEmpty(s: string)
    ensures Trim(s) != "" <==> exists k :: 0 <= k < |s| && !IsSpace(s[k])
  {
    var r := Trim(s);
    var a, b :| PaddedCore(s, a, b) && r == s[a..b];
    if r != "" {
      assert !IsSpace(s[a]);
    } else {
      forall k | 0 <= k < |s| ensures IsSpace(s[k]) {
        assert k < a || k >= b;
      }
    }
  }

  /** A row is kept exactly when both its Artist and Title cells exist and hold a
      non-white-space character; a row with only one of the two is dropped. */
  lemma ValidIff(u: Unicode, basePath: string, projectCode: string, row: Row)
    ensures IsValid(BuildRecord(u, basePath, projectCode, row)) <==>
      (ArtistCol in row && exists k :: 0 <= k < |row[ArtistCol]| && !IsSpace(row[ArtistCol][k]))
      && (TitleCol in row && exists k :: 0 <= k < |row[TitleCol]| && !IsSpace(row[TitleCol][k]))
  {
    if ArtistCol in row { TrimmedNonEmpty(row[ArtistCol]); }
    if TitleCol in row { TrimmedNonEmpty(row[TitleCol]); }
  }

  /** The derived paths of a record: the file name is `<artist slug>_<title slug>.jpg` and splits
      back into exactly those two slugs, and both path fields are `<basePath>/thumbs/<file name>`. */
  lemma RecordPaths(u: Unicode, basePath: string, projectCode: string, row: Row)
    ensures var r := BuildRecord(u, basePath, projectCode, row);
      var cleanArtist := MakeSlug(u, Get(row, ArtistCol).GetOr(""));
      var cleanTitle := MakeSlug(u, Get(row, TitleCol).GetOr(""));
      && IsSlug(cleanArtist) && IsSlug(cleanTitle)
      && SplitFileName(r.fileName) == Some((cleanArtist, cleanTitle))
      && r.fileName[|r.fileName| - 4..] == ".jpg"
      && r.imageFilePath == r.fullPath == basePath + "/thumbs/" + r.fileName
      && r.projectFolder != ""
  {
    var cleanArtist := MakeSlug(u, Get(row, ArtistCol).GetOr(""));
    var cleanTitle := MakeSlug(u, Get(row, TitleCol).GetOr(""));
    FileNameRoundTrip(cleanArtist, cleanTitle);
  }
}
