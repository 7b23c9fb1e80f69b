/** The CSV round trip: the rows the export writes, the header check and the
    row folding of the import, and the matching of imported rows to clips.
    A row is a map from column name to field, as csv.DictReader and
    csv.DictWriter hand them over; quoting, dialect sniffing and file
    handling are not part of this model. */
module Csv {
  import opened Strings
  import opened Numbers
  import opened Clips
  import Timecode

  // ---------------------------------------------------------------------------
  // Export

  const Header: seq<string> := ["unique_id", "element_type", "original_text", "edited_text", "timecode"]

  /** Only Text+, MultiText and Subtitle clips are exported. */
  predicate Exportable(c: Clip) { c.kind == Subtitle || c.kind == TextPlus || c.kind == MultiText }

  /** frames_to_timecode: the shared converter is never switched to drop
      frame, so this is the non-drop-frame timecode at the clip's rate, or
      None where the conversion raises. */
  function DisplayTimecode(frames: int, rate: real): (r: Option<string>)
    ensures r.Some? <==> Round(rate) >= 1
    ensures r.Some? ==> r.value == Timecode.TimecodeOf(frames, rate, false)
  {
    if Round(rate) >= 1 then Some(Timecode.TimecodeOf(frames, rate, false)) else None
  }

  /** The row written for one clip, or None where its timecode raises. */
  function ExportRow(c: Clip, timelineFps: real): Option<map<string, string>> {
    var tc := DisplayTimecode(c.startFrame, EffectiveRate(c.framerate, timelineFps));
    if tc.None? then None
    else Some(map["unique_id" := UniqueId(c), "element_type" := KindName(c.kind),
                  "original_text" := c.text, "edited_text" := EffectiveText(c), "timecode" := tc.value])
  }

  function ExportedClips(clips: seq<Clip>): (r: seq<Clip>)
    ensures forall i :: 0 <= i < |r| ==> Exportable(r[i])
    ensures |r| <= |clips|
  {
    if clips == [] then []
    else if Exportable(clips[0]) then [clips[0]] + ExportedClips(clips[1..])
    else ExportedClips(clips[1..])
  }

  /** The exported clips are exactly the Text+, MultiText and Subtitle clips
      of the list. */
  lemma {:induction false} ExportedMembers(clips: seq<Clip>)
    ensures forall i :: 0 <= i < |ExportedClips(clips)| ==> ExportedClips(clips)[i] in clips
    ensures forall i :: 0 <= i < |clips| && Exportable(clips[i]) ==> clips[i] in ExportedClips(clips)
    decreases |clips|
  {
    if clips != [] {
      ExportedMembers(clips[1..]);
      var rest := ExportedClips(clips[1..]);
      assert forall i :: 0 <= i < |rest| ==> rest[i] in clips;
      assert forall i :: 1 <= i < |clips| ==> clips[i] == clips[1..][i - 1];
    }
  }

  /** The export keeps the exportable clips in list order, each as often as
      the list holds it: the filter keeps one clip exactly when it is a
      Text+, MultiText or Subtitle clip, and distributes over concatenation. */
  lemma {:induction false} ExportedConcat(a: seq<Clip>, b: seq<Clip>)
    ensures ExportedClips(a + b) == ExportedClips(a) + ExportedClips(b)
    ensures |a| == 1 ==> ExportedClips(a) == if Exportable(a[0]) then a else []
    decreases |a|
  {
    if a == [] {
      assert a + b == b;
    } else {
      var ab := a + b;
      assert ab[0] == a[0] && ab[1..] == a[1..] + b;
      ExportedConcat(a[1..], b);
      if |a| == 1 {
        assert a[1..] == [];
      }
    }
  }

  function ExportRows(clips: seq<Clip>, timelineFps: real): Option<seq<map<string, string>>> {
    if clips == [] then Some([])
    else
      var row := ExportRow(clips[0], timelineFps);
      var rest := ExportRows(clips[1..], timelineFps);
      if row.None? || rest.None? then None else Some([row.value] + rest.value)
  }

  datatype ExportOutcome =
    | NoData                // "No data to export"
    | NoTextClips           // "No Text+/MultiText/Subtitle clips to export"
    | ExportFailed          // the exception the writer reports as "Error exporting CSV"
    | Table(header: seq<string>, rows: seq<map<string, string>>)

  /** on_export_csv, without the file dialog and the file itself. */
  function Export(clips: seq<Clip>, timelineFps: real): ExportOutcome {
    if clips == [] then NoData
    else
      var ex := ExportedClips(clips);
      if ex == [] then NoTextClips
      else
        var rows := ExportRows(ex, timelineFps);
        if rows.None? then ExportFailed else Table(Header, rows.value)
  }

  /** The row of a clip whose timecode converts carries its id, its type,
      its original text, its shown text and its start timecode, under the
      five header columns. */
  lemma ExportRowContents(c: Clip, timelineFps: real)
    ensures var row := ExportRow(c, timelineFps);
            var rate := EffectiveRate(c.framerate, timelineFps);
            && (row.None? <==> Round(rate) < 1)
            && (row.Some? ==>
                  && row.value.Keys == set k | k in Header
                  && row.value["unique_id"] == UniqueId(c) && row.value["element_type"] == KindName(c.kind)
                  && row.value["original_text"] == c.text && row.value["edited_text"] == EffectiveText(c)
                  && row.value["timecode"] == Timecode.TimecodeOf(c.startFrame, rate, false))
  {
    var row := ExportRow(c, timelineFps);
    if row.Some? {
      var m := row.value;
      assert m == map["unique_id" := UniqueId(c), "element_type" := KindName(c.kind),
                      "original_text" := c.text, "edited_text" := EffectiveText(c),
                      "timecode" := Timecode.TimecodeOf(c.startFrame, EffectiveRate(c.framerate, timelineFps), false)];
      assert m.Keys == {"unique_id", "element_type", "original_text", "edited_text", "timecode"};
      HeaderKeys();
    }
  }

  lemma HeaderKeys()
    ensures (set k | k in Header) == {"unique_id", "element_type", "original_text", "edited_text", "timecode"}
  {
  }

  /** The timecode of some clip does not convert. */
  predicate SomeRowFails(clips: seq<Clip>, timelineFps: real) {
    exists i :: 0 <= i < |clips| && ExportRow(clips[i], timelineFps).None?
  }

  lemma SomeRowFailsCons(clips: seq<Clip>, timelineFps: real)
    requires clips != []
    ensures SomeRowFails(clips, timelineFps) <==> ExportRow(clips[0], timelineFps).None? || SomeRowFails(clips[1..], timelineFps)
  {
    if SomeRowFails(clips, timelineFps) && ExportRow(clips[0], timelineFps).Some? {
      var i :| 0 <= i < |clips| && ExportRow(clips[i], timelineFps).None?;
      assert clips[1..][i - 1] == clips[i];
    }
    if SomeRowFails(clips[1..], timelineFps) {
      var j :| 0 <= j < |clips[1..]| && ExportRow(clips[1..][j], timelineFps).None?;
      assert clips[j + 1] == clips[1..][j];
    }
  }

  lemma ConsIndex<T>(x: T, xs: seq<T>, i: int)
    requires 1 <= i <= |xs|
    ensures ([x] + xs)[i] == xs[i - 1]
  {
  }

  /** The rows are the clips' rows, one per clip and in clip order; the
      export fails exactly when the timecode of some clip does not convert. */
  lemma {:induction false} ExportRowsShape(clips: seq<Clip>, timelineFps: real)
    ensures ExportRows(clips, timelineFps).None? <==> SomeRowFails(clips, timelineFps)
    ensures ExportRows(clips, timelineFps).Some? ==>
              && |ExportRows(clips, timelineFps).value| == |clips|
              && forall i :: 0 <= i < |clips| ==> ExportRow(clips[i], timelineFps) == Some(ExportRows(clips, timelineFps).value[i])
    decreases |clips|
  {
    if clips != [] {
      ExportRowsShape(clips[1..], timelineFps);
      SomeRowFailsCons(clips, timelineFps);
      var rows, first, rest := ExportRows(clips, timelineFps), ExportRow(clips[0], timelineFps), ExportRows(clips[1..], timelineFps);
      if rows.Some? {
        forall i | 1 <= i < |clips| ensures ExportRow(clips[i], timelineFps) == Some(rows.value[i]) {
          assert clips[i] == clips[1..][i - 1];
          ConsIndex(first.value, rest.value, i);
        }
      }
    }
  }

  /** The export outcome: nothing to export, no text clips, a failure, or a
      table with the fixed header and the rows of the exported clips. */
  lemma ExportOutcomes(clips: seq<Clip>, timelineFps: real)
    ensures var out := Export(clips, timelineFps);
            && (out == NoData <==> clips == [])
            && (out == NoTextClips <==> clips != [] && forall i :: 0 <= i < |clips| ==> !Exportable(clips[i]))
            && (out.Table? ==> out.header == Header && Some(out.rows) == ExportRows(ExportedClips(clips), timelineFps))
  {
    var ex := ExportedClips(clips);
    ExportedMembers(clips);
    if clips != [] && ex == [] {
      forall i | 0 <= i < |clips| ensures !Exportable(clips[i]) { }
    }
    if clips != [] && ex != [] {
      assert Exportable(ex[0]) && ex[0] in clips;
    }
  }

  // ---------------------------------------------------------------------------
  // Import: header check and row folding

  /** A data row: csv.DictReader gives None for a field a short row lacks. */
  type Row = map<string, Option<string>>

  /** row.get(key, ""). */
  function Get(row: Row, key: string): Option<string> {
    if key in row then row[key] else Some("")
  }

  /** What the import keeps per unique id. */
  datatype Entry = Entry(newText: string, elementType: Option<string>, originalText: Option<string>)

  /** The import dictionary: its entries and their insertion order. */
  datatype ImportData = ImportData(order: seq<string>, entries: map<string, Entry>)

  predicate Wf(d: ImportData) {
    && (forall i, j :: 0 <= i < j < |d.order| ==> d.order[i] != d.order[j])
    && (forall k :: k in d.entries ==> k in d.order)
    && (forall i :: 0 <= i < |d.order| ==> d.order[i] in d.entries)
  }

  /** import_data[uid] = entry: an existing key keeps its place. */
  function Insert(d: ImportData, k: string, e: Entry): (r: ImportData)
    ensures r.entries == d.entries[k := e]
    ensures Wf(d) ==> Wf(r)
    ensures Wf(d) ==> (k in d.entries ==> r.order == d.order) && (k !in d.entries ==> r.order == d.order + [k])
  {
    if k in d.entries then ImportData(d.order, d.entries[k := e])
    else ImportData(d.order + [k], d.entries[k := e])
  }

  const EmptyHeader := "CSV file is empty or has no headers"

  /** The AttributeError that .strip() on a missing field raises. */
  const NoneHasNoStrip := "'NoneType' object has no attribute 'strip'"

  function Required(textColumn: string): seq<string> { ["unique_id", "element_type", textColumn] }

  /** [c for c in required if c not in header]. */
  function MissingColumns(required: seq<string>, header: seq<string>): (m: seq<string>)
    ensures forall c :: c in m <==> c in required && c !in header
    ensures |m| <= |required|
  {
    if required == [] then []
    else
      var rest := MissingColumns(required[1..], header);
      assert forall c :: c in required <==> c == required[0] || c in required[1..];
      if required[0] in header then rest else [required[0]] + rest
  }

  /** The key a row files its entry under, if any: the stripped unique_id,
      when it is not empty. */
  function RowKey(row: Row): Option<string> {
    var u := Get(row, "unique_id");
    if u.None? || Strip(u.value) == [] then None else Some(Strip(u.value))
  }

  /** The entry a row files. */
  function RowEntry(row: Row, textColumn: string): Entry {
    Entry(Strip(Get(row, textColumn).GetOr("")), Get(row, "element_type"), Get(row, "original_text"))
  }

  /** One pass of the row loop. */
  function Step(acc: Result<ImportData, string>, row: Row, textColumn: string): Result<ImportData, string> {
    if acc.Err? then acc
    else if Get(row, "unique_id").None? then Err(NoneHasNoStrip)
    else if RowKey(row).None? then acc
    else if Get(row, textColumn).None? then Err(NoneHasNoStrip)
    else Ok(Insert(acc.value, RowKey(row).value, RowEntry(row, textColumn)))
  }

  function Fold(rows: seq<Row>, textColumn: string): Result<ImportData, string>
    decreases |rows|
  {
    if rows == [] then Ok(ImportData([], map[]))
    else Step(Fold(rows[..|rows| - 1], textColumn), rows[|rows| - 1], textColumn)
  }

  /** parse_import_csv after the reader has been set up. */
  function Parse(header: seq<string>, rows: seq<Row>, textColumn: string): Result<ImportData, string> {
    if header == [] then Err(EmptyHeader)
    else
      var missing := MissingColumns(Required(textColumn), header);
      if missing != [] then Err("Missing required columns: " + Join(missing, ", "))
      else Fold(rows, textColumn)
  }

  /** The row loop of parse_import_csv. */
  method ParseImport(header: seq<string>, rows: seq<Row>, textColumn: string) returns (r: Result<ImportData, string>)
    ensures r == Parse(header, rows, textColumn)
  {
    if header == [] {
      return Err(EmptyHeader);
    }
    var missing := MissingColumns(Required(textColumn), header);
    if missing != [] {
      return Err("Missing required columns: " + Join(missing, ", "));
    }
    var data := ImportData([], map[]);
    var i := 0;
    while i < |rows|
      invariant 0 <= i <= |rows|
      invariant Fold(rows[..i], textColumn) == Ok(data)
    {
      var row := rows[i];
      assert rows[..i + 1][..i] == rows[..i];
      var u := Get(row, "unique_id");
      if u.None? {
        FoldErrorStays(rows, i + 1, textColumn);
        return Err(NoneHasNoStrip);
      }
      var uid := Strip(u.value);
      if uid != [] {
        var t := Get(row, textColumn);
        if t.None? {
          FoldErrorStays(rows, i + 1, textColumn);
          return Err(NoneHasNoStrip);
        }
        data := Insert(data, uid, Entry(Strip(t.value), Get(row, "element_type"), Get(row, "original_text")));
      }
      i := i + 1;
    }
    assert rows[..i] == rows;
    return Ok(data);
  }

  /** Once a row raises, the whole import fails with that error. */
  lemma {:induction false} FoldErrorStays(rows: seq<Row>, n: nat, textColumn: string)
    requires n <= |rows| && Fold(rows[..n], textColumn).Err?
    ensures Fold(rows, textColumn) == Fold(rows[..n], textColumn)
    decreases |rows| - n
  {
    if n < |rows| {
      assert rows[..n + 1][..n] == rows[..n];
      FoldErrorStays(rows, n + 1, textColumn);
    } else {
      assert rows[..n] == rows;
    }
  }

  /** No header at all is an error, whatever the rows hold; with every
      required column present the rows are folded. */
  lemma ParseHeaderChecks(header: seq<string>, rows: seq<Row>, textColumn: string)
    ensures header == [] ==> Parse(header, rows, textColumn) == Err(EmptyHeader)
    ensures header != [] && "unique_id" in header && "element_type" in header && textColumn in header
            ==> Parse(header, rows, textColumn) == Fold(rows, textColumn)
    ensures header != [] && ("unique_id" !in header || "element_type" !in header || textColumn !in header)
            ==> Parse(header, rows, textColumn).Err?
  {
    var req := Required(textColumn);
    if header != [] && ("unique_id" !in header || "element_type" !in header || textColumn !in header) {
      assert "unique_id" in req && "element_type" in req && textColumn in req;
    }
    if header != [] && "unique_id" in header && "element_type" in header && textColumn in header {
      assert MissingColumns(req[2..], header) == [];
      assert MissingColumns(req[1..], header) == [];
      assert MissingColumns(req, header) == [];
    }
  }

  /** A header without unique_id names just that column. */
  lemma ParseMissingUniqueId(header: seq<string>, rows: seq<Row>, textColumn: string)
    requires header != [] && "unique_id" !in header && "element_type" in header && textColumn in header
    ensures Parse(header, rows, textColumn) == Err("Missing required columns: " + "unique_id")
  {
    var req := Required(textColumn);
    assert MissingColumns(req[2..], header) == [];
    assert MissingColumns(req[1..], header) == [];
    assert MissingColumns(req, header) == ["unique_id"];
    assert Join(["unique_id"], ", ") == "unique_id";
  }

  /** A header with none of the three columns names all three, in order. */
  lemma ParseMissingAll(header: seq<string>, rows: seq<Row>, textColumn: string)
    requires header != [] && "unique_id" !in header && "element_type" !in header && textColumn !in header
    requires textColumn != "unique_id" && textColumn != "element_type"
    ensures Parse(header, rows, textColumn)
            == Err("Missing required columns: " + "unique_id" + ", " + "element_type" + ", " + textColumn)
  {
    var req := Required(textColumn);
    assert MissingColumns(req[2..], header) == [textColumn];
    assert MissingColumns(req[1..], header) == ["element_type", textColumn];
    var m := MissingColumns(req, header);
    assert m == ["unique_id", "element_type", textColumn];
    assert Join(m[1..], ", ") == "element_type" + ", " + textColumn by {
      assert m[1..][1..] == [textColumn];
    }
    assert Join(m, ", ") == "unique_id" + ", " + ("element_type" + ", " + textColumn);
    var p := "Missing required columns: ";
    assert p + Join(m, ", ") == p + "unique_id" + ", " + "element_type" + ", " + textColumn;
  }

  /** Some row files its entry under k. */
  predicate HasKey(rows: seq<Row>, k: string) {
    exists i :: 0 <= i < |rows| && RowKey(rows[i]) == Some(k)
  }

  lemma HasKeySnoc(rows: seq<Row>, k: string)
    requires rows != []
    ensures HasKey(rows, k) <==> HasKey(rows[..|rows| - 1], k) || RowKey(rows[|rows| - 1]) == Some(k)
  {
    var pre := rows[..|rows| - 1];
    if HasKey(rows, k) && RowKey(rows[|rows| - 1]) != Some(k) {
      var i :| 0 <= i < |rows| && RowKey(rows[i]) == Some(k);
      assert pre[i] == rows[i];
    }
    if HasKey(pre, k) {
      var i :| 0 <= i < |pre| && RowKey(pre[i]) == Some(k);
      assert rows[i] == pre[i];
    }
  }

  /** A successful fold holds a well-formed dictionary whose keys are the
      keys of the rows. */
  lemma {:induction false} FoldKeys(rows: seq<Row>, textColumn: string)
    requires Fold(rows, textColumn).Ok?
    ensures Wf(Fold(rows, textColumn).value)
    ensures forall k :: k in Fold(rows, textColumn).value.entries <==> HasKey(rows, k)
    decreases |rows|
  {
    if rows != [] {
      var pre := rows[..|rows| - 1];
      assert Fold(pre, textColumn).Ok?;
      FoldKeys(pre, textColumn);
      var d := Fold(rows, textColumn).value;
      forall k ensures k in d.entries <==> HasKey(rows, k) {
        HasKeySnoc(rows, k);
      }
    }
  }

  /** A later row with the same key overwrites an earlier one: each key's
      entry comes from the last row that has that key. */
  lemma {:induction false} FoldLastWins(rows: seq<Row>, textColumn: string, i: nat, k: string)
    requires Fold(rows, textColumn).Ok?
    requires i < |rows| && RowKey(rows[i]) == Some(k)
    requires forall j :: i < j < |rows| ==> RowKey(rows[j]) != Some(k)
    ensures k in Fold(rows, textColumn).value.entries
    ensures Fold(rows, textColumn).value.entries[k] == RowEntry(rows[i], textColumn)
    decreases |rows|
  {
    var pre, row := rows[..|rows| - 1], rows[|rows| - 1];
    assert Fold(pre, textColumn).Ok?;
    if i < |pre| {
      forall j | i < j < |pre| ensures RowKey(pre[j]) != Some(k) { assert pre[j] == rows[j]; }
      assert pre[i] == rows[i];
      FoldLastWins(pre, textColumn, i, k);
    }
  }

  /** The row at index i is the first with key k. */
  predicate FirstRowOf(rows: seq<Row>, k: string, i: int) {
    0 <= i < |rows| && RowKey(rows[i]) == Some(k) && forall j :: 0 <= j < i ==> RowKey(rows[j]) != Some(k)
  }

  /** One more row either leaves the key order alone or appends a key the
      dictionary did not have. */
  lemma FoldStepOrder(rows: seq<Row>, textColumn: string)
    requires rows != [] && Fold(rows, textColumn).Ok?
    ensures Fold(rows[..|rows| - 1], textColumn).Ok?
    ensures var d0, d := Fold(rows[..|rows| - 1], textColumn).value, Fold(rows, textColumn).value;
            || d.order == d0.order
            || (RowKey(rows[|rows| - 1]).Some? && RowKey(rows[|rows| - 1]).value !in d0.entries
                && d.order == d0.order + [RowKey(rows[|rows| - 1]).value])
  {
    var pre := rows[..|rows| - 1];
    FoldKeys(pre, textColumn);
  }

  /** A first row that lies before the last row is a first row of the
      shorter list too. */
  lemma FirstRowOfPrefix(rows: seq<Row>, k: string, i: int, n: nat)
    requires FirstRowOf(rows, k, i) && i < n <= |rows|
    ensures FirstRowOf(rows[..n], k, i)
  {
    forall q | 0 <= q < i ensures RowKey(rows[..n][q]) != Some(k) { assert rows[..n][q] == rows[q]; }
  }

  /** The first row of a key the shorter fold already holds lies in the
      shorter list. */
  lemma FirstRowBefore(rows: seq<Row>, textColumn: string, k: string, i: int)
    requires rows != [] && Fold(rows[..|rows| - 1], textColumn).Ok?
    requires k in Fold(rows[..|rows| - 1], textColumn).value.entries
    requires FirstRowOf(rows, k, i)
    ensures i < |rows| - 1
  {
    var pre := rows[..|rows| - 1];
    FoldKeys(pre, textColumn);
    var q :| 0 <= q < |pre| && RowKey(pre[q]) == Some(k);
    assert rows[q] == pre[q];
  }

  /** The dictionary keeps its keys in the order of their first rows. */
  lemma {:induction false} FoldOrder(rows: seq<Row>, textColumn: string, a: nat, b: nat, i: int, j: int)
    requires Fold(rows, textColumn).Ok?
    requires a < b < |Fold(rows, textColumn).value.order|
    requires FirstRowOf(rows, Fold(rows, textColumn).value.order[a], i)
    requires FirstRowOf(rows, Fold(rows, textColumn).value.order[b], j)
    ensures i < j
    decreases |rows|
  {
    var n := |rows| - 1;
    var pre := rows[..n];
    FoldStepOrder(rows, textColumn);
    FoldKeys(pre, textColumn);
    var d0, d := Fold(pre, textColumn).value, Fold(rows, textColumn).value;
    var ka, kb := d.order[a], d.order[b];
    assert ka == d0.order[a];
    assert ka in d0.entries;
    FirstRowBefore(rows, textColumn, ka, i);
    if b < |d0.order| {
      assert kb == d0.order[b] && kb in d0.entries;
      FirstRowBefore(rows, textColumn, kb, j);
      FirstRowOfPrefix(rows, ka, i, n);
      FirstRowOfPrefix(rows, kb, j, n);
      FoldOrder(pre, textColumn, a, b, i, j);
    } else {
      assert kb !in d0.entries;
      forall q | 0 <= q < n ensures RowKey(rows[q]) != Some(kb) { assert rows[q] == pre[q]; }
    }
  }

  // ---------------------------------------------------------------------------
  // Export followed by import

  /** A written row as the reader hands it back: every field present. */
  function Lifted(row: map<string, string>): (r: Row)
    ensures r.Keys == row.Keys && forall k :: k in row ==> r[k] == Some(row[k])
  {
    map k | k in row :: Some(row[k])
  }

  function LiftedRows(rows: seq<map<string, string>>): (r: seq<Row>)
    ensures |r| == |rows| && forall i :: 0 <= i < |rows| ==> r[i] == Lifted(rows[i])
  {
    seq(|rows|, i requires 0 <= i < |rows| => Lifted(rows[i]))
  }

  /** An id with no whitespace at its ends survives the import's strip;
      only a node name ending in whitespace gives another id. */
  predicate TrimmedId(c: Clip) { NoSpaceAtEnds(UniqueId(c)) }

  /** The other side: a clip whose id ends in whitespace (a Text+ node
      named "Title " gives TEXTPLUS_<track>_<start>_Title followed by the
      space) reads back under the stripped id, so its row is never matched
      to it. */
  lemma ReadBackUntrimmed(c: Clip, timelineFps: real)
    requires ExportRow(c, timelineFps).Some? && !TrimmedId(c)
    ensures var row := Lifted(ExportRow(c, timelineFps).value);
            && RowKey(row) != Some(UniqueId(c))
            && (RowKey(row).Some? ==> RowKey(row).value == Strip(UniqueId(c)))
  {
    ExportRowContents(c, timelineFps);
  }

  /** Rows that have every field fold without an error. */
  lemma {:induction false} FoldSucceeds(rows: seq<Row>, textColumn: string)
    requires forall i :: 0 <= i < |rows| ==> Get(rows[i], "unique_id").Some? && Get(rows[i], textColumn).Some?
    ensures Fold(rows, textColumn).Ok?
    decreases |rows|
  {
    if rows != [] {
      var pre := rows[..|rows| - 1];
      forall i | 0 <= i < |pre| ensures Get(pre[i], "unique_id").Some? && Get(pre[i], textColumn).Some? {
        assert pre[i] == rows[i];
      }
      FoldSucceeds(pre, textColumn);
    }
  }

  /** Reading back the row of an exported clip files its shown text,
      stripped, under its id. */
  lemma ReadBackRow(c: Clip, timelineFps: real)
    requires ExportRow(c, timelineFps).Some? && TrimmedId(c)
    ensures var row := Lifted(ExportRow(c, timelineFps).value);
            && RowKey(row) == Some(UniqueId(c))
            && Get(row, "edited_text").Some?
            && RowEntry(row, "edited_text") == Entry(Strip(EffectiveText(c)), Some(KindName(c.kind)), Some(c.text))
  {
    ExportRowContents(c, timelineFps);
    UniqueIdNonEmpty(c);
  }

  /** The rows written for exported clips, read back, have row by row the
      key and the entry of their clip. */
  lemma ReadBackRows(ex: seq<Clip>, timelineFps: real)
    requires ExportRows(ex, timelineFps).Some?
    requires forall i :: 0 <= i < |ex| ==> TrimmedId(ex[i])
    ensures |LiftedRows(ExportRows(ex, timelineFps).value)| == |ex|
    ensures forall i :: 0 <= i < |ex| ==>
              && RowKey(LiftedRows(ExportRows(ex, timelineFps).value)[i]) == Some(UniqueId(ex[i]))
              && Get(LiftedRows(ExportRows(ex, timelineFps).value)[i], "unique_id").Some?
              && Get(LiftedRows(ExportRows(ex, timelineFps).value)[i], "edited_text").Some?
              && RowEntry(LiftedRows(ExportRows(ex, timelineFps).value)[i], "edited_text")
                 == Entry(Strip(EffectiveText(ex[i])), Some(KindName(ex[i].kind)), Some(ex[i].text))
  {
    ExportRowsShape(ex, timelineFps);
    var rows := LiftedRows(ExportRows(ex, timelineFps).value);
    forall i | 0 <= i < |ex|
      ensures RowKey(rows[i]) == Some(UniqueId(ex[i])) && Get(rows[i], "unique_id").Some? && Get(rows[i], "edited_text").Some?
      ensures RowEntry(rows[i], "edited_text") == Entry(Strip(EffectiveText(ex[i])), Some(KindName(ex[i].kind)), Some(ex[i].text))
    {
      ReadBackRow(ex[i], timelineFps);
    }
  }

  /** Rows that all carry both fields and the keys ids fold into a
      dictionary keyed by exactly those ids, where a key holds the entry of
      its last row. */
  lemma FoldKeyed(rows: seq<Row>, ids: seq<string>, textColumn: string)
    requires |rows| == |ids|
    requires forall i :: 0 <= i < |rows| ==>
               Get(rows[i], "unique_id").Some? && Get(rows[i], textColumn).Some? && RowKey(rows[i]) == Some(ids[i])
    ensures Fold(rows, textColumn).Ok?
    ensures forall k :: k in Fold(rows, textColumn).value.entries <==> k in ids
    ensures forall i :: 0 <= i < |ids| && ids[i] !in ids[i + 1..] ==>
              Fold(rows, textColumn).value.entries[ids[i]] == RowEntry(rows[i], textColumn)
  {
    FoldSucceeds(rows, textColumn);
    FoldKeys(rows, textColumn);
    var d := Fold(rows, textColumn).value;
    forall k ensures k in d.entries <==> k in ids {
      if k in d.entries {
        var i :| 0 <= i < |rows| && RowKey(rows[i]) == Some(k);
        assert ids[i] == k;
      }
      if k in ids {
        var i :| 0 <= i < |ids| && ids[i] == k;
        assert RowKey(rows[i]) == Some(k);
      }
    }
    forall i | 0 <= i < |ids| && ids[i] !in ids[i + 1..]
      ensures d.entries[ids[i]] == RowEntry(rows[i], textColumn)
    {
      forall j | i < j < |rows| ensures RowKey(rows[j]) != Some(ids[i]) {
        assert ids[j] == ids[i + 1..][j - i - 1];
      }
      FoldLastWins(rows, textColumn, i, ids[i]);
    }
  }

  function Ids(clips: seq<Clip>): (r: seq<string>)
    ensures |r| == |clips| && forall i :: 0 <= i < |clips| ==> r[i] == UniqueId(clips[i])
  {
    seq(|clips|, i requires 0 <= i < |clips| => UniqueId(clips[i]))
  }

  /** Folding the read-back rows succeeds, files exactly the exported ids,
      and files under an id the entry of the last clip with that id. */
  lemma FoldReadBack(ex: seq<Clip>, timelineFps: real)
    requires ExportRows(ex, timelineFps).Some?
    requires forall i :: 0 <= i < |ex| ==> TrimmedId(ex[i])
    ensures Fold(LiftedRows(ExportRows(ex, timelineFps).value), "edited_text").Ok?
    ensures forall k :: k in Fold(LiftedRows(ExportRows(ex, timelineFps).value), "edited_text").value.entries <==> k in Ids(ex)
    ensures forall i :: 0 <= i < |ex| && Ids(ex)[i] !in Ids(ex)[i + 1..] ==>
              Fold(LiftedRows(ExportRows(ex, timelineFps).value), "edited_text").value.entries[Ids(ex)[i]]
              == Entry(Strip(EffectiveText(ex[i])), Some(KindName(ex[i].kind)), Some(ex[i].text))
  {
    ReadBackRows(ex, timelineFps);
    FoldKeyed(LiftedRows(ExportRows(ex, timelineFps).value), Ids(ex), "edited_text");
  }

  /** Importing the exported table by its edited_text column gives back one
      entry per exported id, holding the stripped shown text, the type and
      the original text of the last exported clip with that id. */
  lemma ExportImportRoundTrip(clips: seq<Clip>, timelineFps: real)
    requires Export(clips, timelineFps).Table?
    requires forall i :: 0 <= i < |ExportedClips(clips)| ==> TrimmedId(ExportedClips(clips)[i])
    ensures Export(clips, timelineFps).header == Header
    ensures Parse(Header, LiftedRows(Export(clips, timelineFps).rows), "edited_text")
            == Fold(LiftedRows(ExportRows(ExportedClips(clips), timelineFps).value), "edited_text")
  {
    ExportOutcomes(clips, timelineFps);
    ParseHeaderChecks(Header, LiftedRows(Export(clips, timelineFps).rows), "edited_text");
  }

  // ---------------------------------------------------------------------------
  // Matching imported rows to clips

  /** A clip whose type is among the selected filters. */
  predicate Applies(c: Clip, filters: set<string>) { KindName(c.kind) in filters }

  /** An entry the matcher looks up: a non-empty new text, and a declared
      type that is empty or among the filters. */
  predicate Considered(e: Entry, filters: set<string>) {
    e.newText != [] && (e.elementType.GetOr("") == [] || e.elementType.GetOr("") in filters)
  }

  predicate IsMatch(c: Clip, uid: string, filters: set<string>) {
    Applies(c, filters) && UniqueId(c) == uid
  }

  /** The first clip, from index k on, that the filters admit and that has
      the id. */
  function FirstMatchFrom(clips: seq<Clip>, uid: string, filters: set<string>, k: nat): (r: Option<nat>)
    requires k <= |clips|
    ensures r.Some? ==> k <= r.value < |clips| && IsMatch(clips[r.value], uid, filters)
                        && forall j :: k <= j < r.value ==> !IsMatch(clips[j], uid, filters)
    ensures r.None? ==> forall j :: k <= j < |clips| ==> !IsMatch(clips[j], uid, filters)
  {
    var bs := Matches(clips, uid, filters);
    FirstTrueFrom(bs, k)
  }

  /** Which clips the filters admit and have the id. */
  function Matches(clips: seq<Clip>, uid: string, filters: set<string>): (bs: seq<bool>)
    ensures |bs| == |clips| && forall j :: 0 <= j < |clips| ==> bs[j] == IsMatch(clips[j], uid, filters)
  {
    seq(|clips|, j requires 0 <= j < |clips| => IsMatch(clips[j], uid, filters))
  }

  /** The first index, from k on, that holds true. */
  function FirstTrueFrom(bs: seq<bool>, k: nat): (r: Option<nat>)
    requires k <= |bs|
    ensures r.Some? ==> k <= r.value < |bs| && bs[r.value] && forall j :: k <= j < r.value ==> !bs[j]
    ensures r.None? ==> forall j :: k <= j < |bs| ==> !bs[j]
    decreases |bs| - k
  {
    if k == |bs| then None
    else if bs[k] then Some(k)
    else FirstTrueFrom(bs, k + 1)
  }

  function FirstMatch(clips: seq<Clip>, uid: string, filters: set<string>): Option<nat> {
    FirstMatchFrom(clips, uid, filters, 0)
  }

  /** A matched clip, by its index in the clip list, with its new text. */
  datatype Match = Match(index: nat, newText: string)

  /** match_clips_with_import over the first keys of `order`. */
  function MatchAll(order: seq<string>, entries: map<string, Entry>, filters: set<string>, clips: seq<Clip>)
    : (seq<Match>, seq<string>)
    decreases |order|
  {
    if order == [] then ([], [])
    else
      var prev := MatchAll(order[..|order| - 1], entries, filters, clips);
      var uid := order[|order| - 1];
      if uid !in entries || !Considered(entries[uid], filters) then prev
      else
        var f := FirstMatch(clips, uid, filters);
        if f.Some? then (prev.0 + [Match(f.value, entries[uid].newText)], prev.1)
        else (prev.0, prev.1 + [uid])
  }

  function Matched(order: seq<string>, entries: map<string, Entry>, filters: set<string>, clips: seq<Clip>): seq<Match> {
    MatchAll(order, entries, filters, clips).0
  }

  function Unmatched(order: seq<string>, entries: map<string, Entry>, filters: set<string>, clips: seq<Clip>): seq<string> {
    MatchAll(order, entries, filters, clips).1
  }

  /** The nested loop of match_clips_with_import, with its `continue`s. */
  method MatchImport(data: ImportData, filters: set<string>, clips: seq<Clip>)
    returns (matched: seq<Match>, notFound: seq<string>)
    requires Wf(data)
    ensures (matched, notFound) == MatchAll(data.order, data.entries, filters, clips)
  {
    matched, notFound := [], [];
    var n := 0;
    while n < |data.order|
      invariant 0 <= n <= |data.order|
      invariant (matched, notFound) == MatchAll(data.order[..n], data.entries, filters, clips)
    {
      var uid := data.order[n];
      MatchAllStep(data.order, data.entries, filters, clips, n);
      var e := data.entries[uid];
      if !Considered(e, filters) {
        n := n + 1;
        continue;
      }
      var found, j := FindClip(clips, uid, filters);
      if found {
        matched := matched + [Match(j, e.newText)];
      } else {
        notFound := notFound + [uid];
      }
      n := n + 1;
    }
    assert data.order[..n] == data.order;
  }

  lemma MatchAllStep(order: seq<string>, entries: map<string, Entry>, filters: set<string>, clips: seq<Clip>, n: nat)
    requires n < |order|
    ensures MatchAll(order[..n + 1], entries, filters, clips)
            == var prev, uid := MatchAll(order[..n], entries, filters, clips), order[n];
               if uid !in entries || !Considered(entries[uid], filters) then prev
               else
                 var f := FirstMatch(clips, uid, filters);
                 if f.Some? then (prev.0 + [Match(f.value, entries[uid].newText)], prev.1)
                 else (prev.0, prev.1 + [uid])
  {
    assert order[..n + 1][..n] == order[..n];
  }

  /** The inner loop over the clips, with its `continue` and its `break`:
      the first clip the filters admit that has the id. */
  method FindClip(clips: seq<Clip>, uid: string, filters: set<string>) returns (found: bool, j: nat)
    ensures found <==> FirstMatch(clips, uid, filters).Some?
    ensures found ==> FirstMatch(clips, uid, filters) == Some(j)
  {
    found := false;
    j := 0;
    while j < |clips|
      invariant 0 <= j <= |clips|
      invariant FirstMatchFrom(clips, uid, filters, j) == FirstMatch(clips, uid, filters)
      invariant found ==> j < |clips| && FirstMatch(clips, uid, filters) == Some(j)
      decreases |clips| - j, if found then 0 else 1
    {
      if !Applies(clips[j], filters) {
        j := j + 1;
        continue;
      }
      if UniqueId(clips[j]) == uid {
        found := true;
        break;
      }
      j := j + 1;
    }
  }

  /** Every match names the first admitted clip with the id of a considered
      entry and carries that entry's new text; every id reported missing
      belongs to a considered entry that no admitted clip has. */
  lemma {:induction false} MatchSound(order: seq<string>, entries: map<string, Entry>, filters: set<string>, clips: seq<Clip>)
    ensures forall m :: m in Matched(order, entries, filters, clips) ==>
                  && m.index < |clips| && Applies(clips[m.index], filters)
                  && var uid := UniqueId(clips[m.index]);
                  && uid in order && uid in entries && Considered(entries[uid], filters)
                  && m.newText == entries[uid].newText
                  && forall j :: 0 <= j < m.index ==> !IsMatch(clips[j], uid, filters)
    ensures forall u :: u in Unmatched(order, entries, filters, clips) ==>
                  && u in order && u in entries && Considered(entries[u], filters)
                  && forall j :: 0 <= j < |clips| ==> !IsMatch(clips[j], u, filters)
    decreases |order|
  {
    if order != [] {
      var pre := order[..|order| - 1];
      MatchSound(pre, entries, filters, clips);
      assert forall u :: u in pre ==> u in order;
    }
  }

  /** Every considered entry either matches its first admitted clip or is
      reported missing. */
  lemma {:induction false} MatchComplete(order: seq<string>, entries: map<string, Entry>, filters: set<string>,
                                          clips: seq<Clip>, uid: string)
    requires uid in order && uid in entries && Considered(entries[uid], filters)
    ensures FirstMatch(clips, uid, filters).Some? ==>
              Match(FirstMatch(clips, uid, filters).value, entries[uid].newText) in Matched(order, entries, filters, clips)
    ensures FirstMatch(clips, uid, filters).None? ==> uid in Unmatched(order, entries, filters, clips)
    decreases |order|
  {
    var pre := order[..|order| - 1];
    if uid != order[|order| - 1] {
      assert uid in pre by { assert order == pre + [order[|order| - 1]]; }
      MatchComplete(pre, entries, filters, clips, uid);
    }
  }

  /** Entries with distinct ids never match the same clip, so applying the
      matches edits each clip at most once. */
  lemma MatchIndicesDistinct(order: seq<string>, entries: map<string, Entry>, filters: set<string>, clips: seq<Clip>)
    requires forall i, j :: 0 <= i < j < |order| ==> order[i] != order[j]
    ensures forall a, b :: 0 <= a < b < |Matched(order, entries, filters, clips)| ==>
              Matched(order, entries, filters, clips)[a].index != Matched(order, entries, filters, clips)[b].index
  {
    MatchIndicesDistinctFrom(order, entries, filters, clips);
  }

  /** No clip index is matched twice. */
  predicate DistinctIndices(ms: seq<Match>) {
    forall a, b :: 0 <= a < b < |ms| ==> ms[a].index != ms[b].index
  }

  /** Every matched index is a clip whose id is one of the keys. */
  predicate IndicesNamed(ms: seq<Match>, clips: seq<Clip>, order: seq<string>) {
    forall a :: 0 <= a < |ms| ==> ms[a].index < |clips| && UniqueId(clips[ms[a].index]) in order
  }

  lemma NamedGrow(ms: seq<Match>, clips: seq<Clip>, pre: seq<string>, uid: string)
    requires IndicesNamed(ms, clips, pre)
    ensures IndicesNamed(ms, clips, pre + [uid])
  {
    forall a | 0 <= a < |ms| ensures UniqueId(clips[ms[a].index]) in pre + [uid] {
      assert UniqueId(clips[ms[a].index]) in pre;
    }
  }

  /** A match for a new key keeps the indices distinct and named. */
  lemma MatchesGrow(ms: seq<Match>, x: Match, clips: seq<Clip>, pre: seq<string>, uid: string)
    requires DistinctIndices(ms) && IndicesNamed(ms, clips, pre)
    requires x.index < |clips| && UniqueId(clips[x.index]) == uid && uid !in pre
    ensures DistinctIndices(ms + [x]) && IndicesNamed(ms + [x], clips, pre + [uid])
  {
    var m := ms + [x];
    NamedGrow(ms, clips, pre, uid);
    forall a, b | 0 <= a < b < |m| ensures m[a].index != m[b].index {
      assert m[a] == ms[a];
      if b < |ms| {
        assert m[b] == ms[b];
      } else {
        assert UniqueId(clips[ms[a].index]) in pre;
      }
    }
    forall a | 0 <= a < |m| ensures m[a].index < |clips| && UniqueId(clips[m[a].index]) in pre + [uid] {
      if a < |ms| { assert m[a] == ms[a]; }
    }
  }

  lemma {:induction false} MatchIndicesDistinctFrom(order: seq<string>, entries: map<string, Entry>, filters: set<string>,
                                                     clips: seq<Clip>)
    requires forall i, j :: 0 <= i < j < |order| ==> order[i] != order[j]
    ensures DistinctIndices(Matched(order, entries, filters, clips))
    ensures IndicesNamed(Matched(order, entries, filters, clips), clips, order)
    decreases |order|
  {
    if order != [] {
      var pre := order[..|order| - 1];
      var uid := order[|order| - 1];
      MatchIndicesDistinctFrom(pre, entries, filters, clips);
      var m, mp := Matched(order, entries, filters, clips), Matched(pre, entries, filters, clips);
      assert uid !in pre by {
        forall q | 0 <= q < |pre| ensures pre[q] != uid { assert pre[q] == order[q]; }
      }
      assert order == pre + [uid];
      var f := FirstMatch(clips, uid, filters);
      if uid in entries && Considered(entries[uid], filters) && f.Some? {
        assert m == mp + [Match(f.value, entries[uid].newText)];
        MatchesGrow(mp, Match(f.value, entries[uid].newText), clips, pre, uid);
      } else {
        assert m == mp;
        NamedGrow(mp, clips, pre, uid);
      }
    }
  }

}
