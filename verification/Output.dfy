/** The output assembler: each kept record loses its four bookkeeping keys and every string
    field is re-cleaned before the rows go to the CSV writer. */
module Output {
  import opened Values
  import opened Text
  import opened Slug
  import opened Seqs
  import opened Records

  predicate IsDisplayField(f: Field) {
    f.key !in BookkeepingColumns
  }

  /** `const { _originalImageUrl, _filename, _projectFolder, _fullPath, ...cleanRow } = row` */
  function StripBookkeeping(row: seq<Field>): (r: seq<Field>)
    ensures |r| <= |row|
    ensures forall i :: 0 <= i < |r| ==> r[i].key !in BookkeepingColumns
  {
    Filter(row, IsDisplayField)
  }

  /** What the cleaner does to one value: strings are re-cleaned and then NFC-normalised,
      `undefined` is left alone. */
  function CleanValue(u: Unicode, v: Option<string>): Option<string> {
    match v
    case None => None
    case Some(s) => Some(u.nfc(CleanText(s)))
  }

  function CleanField(u: Unicode, f: Field): Field {
    Field(f.key, CleanValue(u, f.value))
  }

  /** The row handed to the CSV writer for one record. */
  function CleanedRow(u: Unicode, row: seq<Field>): (r: seq<Field>)
    ensures |r| == |StripBookkeeping(row)|
    ensures forall i :: 0 <= i < |r| ==> r[i].key == StripBookkeeping(row)[i].key && r[i].key !in BookkeepingColumns
  {
    Map(StripBookkeeping(row), f => CleanField(u, f))
  }

  /** The three rewrites the cleaner applies to one string field. */
  method CleanString(u: Unicode, value: string) returns (v: string)
    ensures v == u.nfc(CleanText(value))
  {
    v := Collapse(value, LineBreaks);
    v := Trim(Collapse(v, Spaces));
    v := u.nfc(v);
  }

  /** The callback of `validData.map` before `Papa.unparse`: drop the bookkeeping keys, then
      rewrite each string field of `cleanRow` in place, key by key. */
  method CleanRow(u: Unicode, row: seq<Field>) returns (cleanRow: seq<Field>)
    ensures cleanRow == CleanedRow(u, row)
  {
    cleanRow := StripBookkeeping(row);
    ghost var stripped := cleanRow;
    var i := 0;
    while i < |cleanRow|
      invariant 0 <= i <= |cleanRow| == |stripped|
      invariant forall k :: 0 <= k < i ==> cleanRow[k] == CleanField(u, stripped[k])
      invariant forall k :: i <= k < |cleanRow| ==> cleanRow[k] == stripped[k]
    {
      var field := cleanRow[i];
      if field.value.Some? {
        var v := CleanString(u, field.value.value);
        cleanRow := cleanRow[i := Field(field.key, Some(v))];
      }
      i := i + 1;
    }
  }

  // ---------------------------------------------------------------- lemmas

  /** `s` is the NFC form of text with no CR or LF, only single plain spaces and no white space
      at either end. */
  ghost predicate IsCleanedText(u: Unicode, s: string) {
    exists w :: s == u.nfc(w) && NoneIn(w, LineBreaks) && SingleSpaced(w) && Trimmed(w)
  }

  /** The bookkeeping keys are removed and every other entry is kept, in order. */
  lemma StripBookkeepingKeeps(row: seq<Field>)
    ensures forall f :: f in StripBookkeeping(row) <==> f in row && f.key !in BookkeepingColumns
    ensures IsSubsequence(StripBookkeeping(row), row)
  {
    FilterMembers(row, IsDisplayField);
    FilterIsSubsequence(row, IsDisplayField);
  }

  /** Of a record, exactly the sixteen display fields remain, in the record's own order, each
      with its own value. */
  lemma StrippedRecord(r: Record)
    ensures StripBookkeeping(Entries(r)) == DisplayEntries(r)
  {
    var d, b := DisplayEntries(r), BookkeepingEntries(r);
    DisplayKeysNotBookkeeping();
    assert forall i :: 0 <= i < |d| ==> IsDisplayField(d[i]);
    assert forall i :: 0 <= i < |b| ==> !IsDisplayField(b[i]);
    FilterAppend(d, b, IsDisplayField);
    FilterAll(d, IsDisplayField);
    FilterNone(b, IsDisplayField);
  }

  /** Each output row has exactly the display keys, in order, and none of the bookkeeping keys. */
  lemma OutputRowKeys(u: Unicode, r: Record)
    ensures |CleanedRow(u, Entries(r))| == |DisplayColumns|
    ensures forall i :: 0 <= i < |DisplayColumns| ==> CleanedRow(u, Entries(r))[i].key == DisplayColumns[i]
    ensures forall f :: f in CleanedRow(u, Entries(r)) ==> f.key !in BookkeepingColumns
  {
    StrippedRecord(r);
    var out := CleanedRow(u, Entries(r));
    forall f | f in out ensures f.key !in BookkeepingColumns {
      var i :| 0 <= i < |out| && out[i] == f;
      assert f.key == DisplayColumns[i];
    }
  }

  /** Every cleaned value is the NFC form of text with no CR or LF, only single plain spaces and
      no white space at either end, obtained from the original by the idempotent white-space
      step; `undefined` stays `undefined`. */
  lemma OutputRowValues(u: Unicode, row: seq<Field>)
    ensures |CleanedRow(u, row)| == |StripBookkeeping(row)|
    ensures forall i :: 0 <= i < |CleanedRow(u, row)| ==>
      var before := StripBookkeeping(row)[i];
      var after := CleanedRow(u, row)[i];
      && after.key == before.key
      && (after.value.None? <==> before.value.None?)
      && (after.value.Some? ==>
            var w := CleanText(before.value.value);
            && after.value.value == u.nfc(w)
            && NoneIn(w, LineBreaks) && SingleSpaced(w) && Trimmed(w)
            && CleanText(w) == w)
  {
    forall i | 0 <= i < |CleanedRow(u, row)| && CleanedRow(u, row)[i].value.Some?
      ensures CleanText(CleanText(StripBookkeeping(row)[i].value.value)) == CleanText(StripBookkeeping(row)[i].value.value)
    {
      CleanTextIdempotent(StripBookkeeping(row)[i].value.value);
    }
  }
}
