/** The data side of train_model.py: from the CSV table to the list of image
    records that exist on disk and belong to classes with enough images
    (`load_and_prepare_data`), then to decoded images and their labels
    (`load_images_batch`). Reading files is abstract: `fileExists` answers
    `os.path.exists`, `read` is `cv2.imread` followed by the resize. */
module TrainModel {
  import opened Common
  import opened Tables

  /** MIN_IMAGES_PER_CLASS: a class is kept with this many images or more. */
  const MinImagesPerClass: nat := 5

  /** One entry of `images_data`. */
  datatype Record = Record(path: string, dish: Cell, filename: string)

  // ---------------------------------------------------------------------------
  // load_and_prepare_data
  // ---------------------------------------------------------------------------

  /** `dropna(subset=[image_col, title_col])`. */
  function DropIncomplete(rows: seq<Row>, titleCol: string, imageCol: string): (r: seq<Row>)
    ensures forall i :: 0 <= i < |r| ==> CellAt(r[i], imageCol) != Missing && CellAt(r[i], titleCol) != Missing
  {
    Filter(rows, (row: Row) => CellAt(row, imageCol) != Missing && CellAt(row, titleCol) != Missing)
  }

  /** `drop_duplicates(subset=[image_col])`, first occurrence kept. */
  function DropDuplicateImages(rows: seq<Row>, imageCol: string): (r: seq<Row>)
    ensures forall i, j :: 0 <= i < j < |r| ==> CellAt(r[i], imageCol) != CellAt(r[j], imageCol)
  {
    FirstOccurrencesDistinct(rows, (row: Row) => CellAt(row, imageCol));
    FirstOccurrences(rows, (row: Row) => CellAt(row, imageCol))
  }

  /** The record the loop body builds for a row, before asking the disk. */
  function CandidateRecord(row: Row, titleCol: string, imageCol: string, imagesDir: string): Record
  {
    var name := WithImageExtension(CellText(CellAt(row, imageCol)));
    Record(JoinPath(imagesDir, name), CellAt(row, titleCol), name)
  }

  /** The records built for `rows`, one per row, in row order. */
  function Candidates(rows: seq<Row>, titleCol: string, imageCol: string, imagesDir: string): (r: seq<Record>)
    ensures |r| == |rows|
  {
    if rows == [] then []
    else Candidates(rows[..|rows| - 1], titleCol, imageCol, imagesDir)
           + [CandidateRecord(rows[|rows| - 1], titleCol, imageCol, imagesDir)]
  }

  /** Every position holds the record built from the row at that position. */
  lemma {:induction false} CandidatesAt(rows: seq<Row>, titleCol: string, imageCol: string, imagesDir: string, i: int)
    requires 0 <= i < |rows|
    ensures Candidates(rows, titleCol, imageCol, imagesDir)[i] == CandidateRecord(rows[i], titleCol, imageCol, imagesDir)
  {
    if i < |rows| - 1 {
      CandidatesAt(rows[..|rows| - 1], titleCol, imageCol, imagesDir, i);
    }
  }

  /** The file of a record is on disk. */
  function OnDisk(fileExists: string -> bool): Record -> bool
  {
    (r: Record) => fileExists(r.path)
  }

  /** One more row adds its record to the kept ones exactly when its file exists. */
  lemma RecordsStep(rows: seq<Row>, i: nat, titleCol: string, imageCol: string, imagesDir: string,
                    fileExists: string -> bool)
    requires i < |rows|
    ensures Filter(Candidates(rows[..i + 1], titleCol, imageCol, imagesDir), OnDisk(fileExists))
            == Filter(Candidates(rows[..i], titleCol, imageCol, imagesDir), OnDisk(fileExists))
               + (var r := CandidateRecord(rows[i], titleCol, imageCol, imagesDir);
                  if fileExists(r.path) then [r] else [])
  {
    assert rows[..i + 1][..i] == rows[..i];
    FilterSnoc(Candidates(rows[..i], titleCol, imageCol, imagesDir),
               CandidateRecord(rows[i], titleCol, imageCol, imagesDir), OnDisk(fileExists));
  }

  /** The loop over the de-duplicated rows: a record for every row whose file
      exists, in row order, counting valid and missing files. */
  method BuildRecords(rows: seq<Row>, titleCol: string, imageCol: string, imagesDir: string,
                      fileExists: string -> bool)
    returns (records: seq<Record>, validCount: nat, missingCount: nat)
    ensures records == Filter(Candidates(rows, titleCol, imageCol, imagesDir), OnDisk(fileExists))
    ensures forall i :: 0 <= i < |records| ==> fileExists(records[i].path)
    ensures validCount == |records| && validCount + missingCount == |rows|
  {
    records, validCount, missingCount := [], 0, 0;
    var i := 0;
    while i < |rows|
      invariant 0 <= i <= |rows|
      invariant records == Filter(Candidates(rows[..i], titleCol, imageCol, imagesDir), OnDisk(fileExists))
      invariant validCount == |records| && validCount + missingCount == i
    {
      var record := CandidateRecord(rows[i], titleCol, imageCol, imagesDir);
      RecordsStep(rows, i, titleCol, imageCol, imagesDir, fileExists);
      if fileExists(record.path) {
        records := records + [record];
        validCount := validCount + 1;
      } else {
        missingCount := missingCount + 1;
      }
      i := i + 1;
    }
    assert rows[..i] == rows;
  }

  /** `value_counts()[label]`: how many records carry `label`. */
  function CountLabel(records: seq<Record>, dish: Cell): nat
  {
    if records == [] then 0
    else (if records[0].dish == dish then 1 else 0) + CountLabel(records[1..], dish)
  }

  /** The class of a record has at least MIN_IMAGES_PER_CLASS images in `all`. */
  function IsFrequent(all: seq<Record>): Record -> bool
  {
    (r: Record) => CountLabel(all, r.dish) >= MinImagesPerClass
  }

  /** `data_df[data_df['label'].isin(valid_classes)]`. */
  function KeepFrequentClasses(records: seq<Record>): (kept: seq<Record>)
    ensures forall i :: 0 <= i < |kept| ==> CountLabel(records, kept[i].dish) >= MinImagesPerClass
  {
    Filter(records, IsFrequent(records))
  }

  lemma {:induction false} CountAfterFilter(s: seq<Record>, all: seq<Record>, dish: Cell)
    ensures CountLabel(Filter(s, IsFrequent(all)), dish) ==
              if CountLabel(all, dish) >= MinImagesPerClass then CountLabel(s, dish) else 0
  {
    if s != [] {
      CountAfterFilter(s[1..], all, dish);
      assert Filter(s, IsFrequent(all)) ==
        (if IsFrequent(all)(s[0]) then [s[0]] else []) + Filter(s[1..], IsFrequent(all));
      var head := if IsFrequent(all)(s[0]) then [s[0]] else [];
      var tail := Filter(s[1..], IsFrequent(all));
      if head != [] {
        assert (head + tail)[1..] == tail;
      } else {
        assert head + tail == tail;
      }
    }
  }

  /** The class filter keeps a class whole when it has at least five images
      (five included) and drops it whole otherwise. */
  lemma ClassKeptIff(records: seq<Record>, dish: Cell)
    ensures CountLabel(KeepFrequentClasses(records), dish) ==
              if CountLabel(records, dish) >= MinImagesPerClass then CountLabel(records, dish) else 0
  {
    CountAfterFilter(records, records, dish);
  }

  /** What `load_and_prepare_data` returns: the records with the two resolved
      headers, `(None, None, None)`, or (as written) an uncaught KeyError. */
  datatype Prepared =
    | Prepared(records: seq<Record>, titleCol: string, imageCol: string)
    | NotPrepared
    | RaisedKeyError

  /** Lines 108-132 as written: with no valid image at all, `images_data` is
      empty, the DataFrame built from it has no columns at all, and
      `data_df['label']` raises KeyError before the emptiness check. */
  function PrepareOutcomeAsWritten(records: seq<Record>, titleCol: string, imageCol: string): (r: Prepared)
    ensures records == [] ==> r == RaisedKeyError
  {
    if records == [] then RaisedKeyError
    else
      var kept := KeepFrequentClasses(records);
      if kept == [] then NotPrepared else Prepared(kept, titleCol, imageCol)
  }

  /** Lines 108-132 as intended: no record left after the class filter, for
      whatever reason, gives `(None, None, None)`. */
  function PrepareOutcome(records: seq<Record>, titleCol: string, imageCol: string): (r: Prepared)
    ensures !r.RaisedKeyError?
    ensures r.NotPrepared? <==> KeepFrequentClasses(records) == []
    ensures r.Prepared? ==> r.records == KeepFrequentClasses(records) && r.records != []
  {
    var kept := KeepFrequentClasses(records);
    if kept == [] then NotPrepared else Prepared(kept, titleCol, imageCol)
  }

  /** A table whose images are all missing from disk: the code as written
      raises, the intended behaviour reports "no valid data". */
  lemma NoValidImageRaises(titleCol: string, imageCol: string)
    ensures PrepareOutcomeAsWritten([], titleCol, imageCol) == RaisedKeyError
    ensures PrepareOutcome([], titleCol, imageCol) == NotPrepared
  {
  }

  /** Both agree whenever at least one image exists. */
  lemma PrepareOutcomeAgrees(records: seq<Record>, titleCol: string, imageCol: string)
    requires records != []
    ensures PrepareOutcomeAsWritten(records, titleCol, imageCol) == PrepareOutcome(records, titleCol, imageCol)
  {
  }

  /** The rows `load_and_prepare_data` loops over. */
  function CleanRows(t: Table, titleCol: string, imageCol: string): seq<Row>
  {
    DropDuplicateImages(DropIncomplete(t.rows, titleCol, imageCol), imageCol)
  }

  /** `load_and_prepare_data()` on the parsed CSV (None when `read_csv`
      raised): resolve the two headers, clean the rows, look for every image
      on disk, then drop the small classes. The last step is the corrected
      `PrepareOutcome`; it agrees with the code as written whenever at least
      one image exists. */
  method LoadAndPrepareData(csv: Option<Table>, imagesDir: string, fileExists: string -> bool)
    returns (result: Prepared, validCount: nat, missingCount: nat)
    ensures csv.None? ==> result == NotPrepared
    ensures (csv.Some? && (FindColumn(csv.value.columns, TitleCandidates).None?
                           || FindColumn(csv.value.columns, ImageCandidates).None?)) ==> result == NotPrepared
    ensures result.Prepared? ==>
              && csv.Some?
              && Some(result.titleCol) == FindColumn(csv.value.columns, TitleCandidates)
              && Some(result.imageCol) == FindColumn(csv.value.columns, ImageCandidates)
              && result.titleCol in csv.value.columns && result.imageCol in csv.value.columns
              && result.records != []
              && (forall i :: 0 <= i < |result.records| ==> fileExists(result.records[i].path))
    ensures csv.Some? && FindColumn(csv.value.columns, TitleCandidates).Some?
              && FindColumn(csv.value.columns, ImageCandidates).Some? ==>
              var titleCol := FindColumn(csv.value.columns, TitleCandidates).value;
              var imageCol := FindColumn(csv.value.columns, ImageCandidates).value;
              var rows := CleanRows(csv.value, titleCol, imageCol);
              var valid := Filter(Candidates(rows, titleCol, imageCol, imagesDir), OnDisk(fileExists));
              && validCount + missingCount == |rows|
              && validCount == |valid|
              && result == PrepareOutcome(valid, titleCol, imageCol)
              && (validCount > 0 ==> result == PrepareOutcomeAsWritten(valid, titleCol, imageCol))
  {
    if csv.None? {
      return NotPrepared, 0, 0;
    }
    var table := csv.value;
    var titleCol := FindColumn(table.columns, TitleCandidates);
    var imageCol := FindColumn(table.columns, ImageCandidates);
    FindColumnIsHeader(table.columns, TitleCandidates);
    FindColumnIsHeader(table.columns, ImageCandidates);
    if titleCol.None? || imageCol.None? {
      return NotPrepared, 0, 0;
    }
    var rows := CleanRows(table, titleCol.value, imageCol.value);
    var records;
    records, validCount, missingCount := BuildRecords(rows, titleCol.value, imageCol.value, imagesDir, fileExists);
    result := PrepareOutcome(records, titleCol.value, imageCol.value);
    if records != [] {
      PrepareOutcomeAgrees(records, titleCol.value, imageCol.value);
    }
    if result.Prepared? {
      forall i | 0 <= i < |result.records| ensures fileExists(result.records[i].path) {
        var r := result.records[i];
        assert r in records;
        var j :| 0 <= j < |records| && records[j] == r;
      }
    }
  }

  // ---------------------------------------------------------------------------
  // load_image, load_images_batch
  // ---------------------------------------------------------------------------

  /** `load_image(path)`: the abstract reader (imread and resize) then the
      scaling; None whenever reading fails, never an exception. */
  function LoadImage(read: string -> Option<seq<Byte>>, path: string): (img: Option<Image>)
    ensures img.Some? <==> read(path).Some?
    ensures img.Some? ==> |img.value| == |read(path).value|
    ensures img.Some? ==> forall i :: 0 <= i < |img.value| ==> 0.0 <= img.value[i] <= 1.0
    ensures img.Some? ==> img.value == Normalise(read(path).value)
  {
    match read(path)
    case None => None
    case Some(pixels) => Some(Normalise(pixels))
  }

  function Loads(read: string -> Option<seq<Byte>>): Record -> bool
  {
    (r: Record) => LoadImage(read, r.path).Some?
  }

  /** What `DataFrame.sample(n)` promises: `n` distinct row positions. */
  predicate IsSample(pick: seq<nat>, n: nat, size: nat)
  {
    && |pick| == n
    && (forall i :: 0 <= i < |pick| ==> pick[i] < size)
    && (forall i, j :: 0 <= i < j < |pick| ==> pick[i] != pick[j])
  }

  /** `if sample_size:` is taken for a present, non-zero size. */
  predicate Sampling(sampleSize: Option<int>)
  {
    sampleSize.Some? && sampleSize.value != 0
  }

  /** `min(sample_size, len(data_df))`. */
  function SampleCount(sampleSize: int, size: nat): int
  {
    if sampleSize < size then sampleSize else size
  }

  /** The rows `load_images_batch` loops over: all of them, or the sample;
      None where `sample` raises ValueError on a negative count. */
  function RowsToLoad(records: seq<Record>, sampleSize: Option<int>, pick: seq<nat>): (rows: Option<seq<Record>>)
    requires Sampling(sampleSize) && SampleCount(sampleSize.value, |records|) >= 0 ==>
               IsSample(pick, SampleCount(sampleSize.value, |records|), |records|)
    ensures !Sampling(sampleSize) ==> rows == Some(records)
    ensures Sampling(sampleSize) ==> (rows.Some? <==> sampleSize.value > 0)
    ensures rows.Some? && Sampling(sampleSize) ==>
              |rows.value| == SampleCount(sampleSize.value, |records|) && |rows.value| <= |records|
    ensures rows.Some? && Sampling(sampleSize) ==>
              forall i :: 0 <= i < |rows.value| ==> rows.value[i] == records[pick[i]]
  {
    if !Sampling(sampleSize) then Some(records)
    else if SampleCount(sampleSize.value, |records|) < 0 then None
    else Some(seq(|pick|, i requires 0 <= i < |pick| => records[pick[i]]))
  }

  /** What `load_images_batch` returns: `(X, y)`, `(None, None)` when no image
      loaded, or the ValueError `sample` raises. */
  datatype Batch = Batch(images: seq<Image>, labels: seq<Cell>) | NothingLoaded | SampleRejected

  /** `load_images_batch(data_df, sample_size)`: every row whose image loads
      contributes its image to X and its dish to y at the same position;
      every other row is counted as failed. */
  method LoadImagesBatch(records: seq<Record>, sampleSize: Option<int>, pick: seq<nat>,
                         read: string -> Option<seq<Byte>>)
    returns (batch: Batch, failed: nat)
    requires Sampling(sampleSize) && SampleCount(sampleSize.value, |records|) >= 0 ==>
               IsSample(pick, SampleCount(sampleSize.value, |records|), |records|)
    ensures batch.SampleRejected? <==> RowsToLoad(records, sampleSize, pick).None?
    ensures RowsToLoad(records, sampleSize, pick).Some? ==>
              var rows := RowsToLoad(records, sampleSize, pick).value;
              var loaded := Filter(rows, Loads(read));
              && failed + |loaded| == |rows|
              && (batch.NothingLoaded? <==> loaded == [])
              && (batch.Batch? ==>
                    && |batch.images| == |batch.labels| == |loaded|
                    && forall i :: 0 <= i < |loaded| ==>
                         Some(batch.images[i]) == LoadImage(read, loaded[i].path)
                         && batch.labels[i] == loaded[i].dish)
  {
    var toLoad := RowsToLoad(records, sampleSize, pick);
    if toLoad.None? {
      return SampleRejected, 0;
    }
    var rows := toLoad.value;
    var images: seq<Image> := [];
    var labels: seq<Cell> := [];
    failed := 0;
    var i := 0;
    while i < |rows|
      invariant 0 <= i <= |rows|
      invariant |images| == |labels| == |Filter(rows[..i], Loads(read))|
      invariant failed + |images| == i
      invariant forall j :: 0 <= j < |images| ==>
                  Some(images[j]) == LoadImage(read, Filter(rows[..i], Loads(read))[j].path)
                  && labels[j] == Filter(rows[..i], Loads(read))[j].dish
    {
      assert rows[..i + 1] == rows[..i] + [rows[i]];
      FilterSnoc(rows[..i], rows[i], Loads(read));
      var img := LoadImage(read, rows[i].path);
      if img.Some? {
        images := images + [img.value];
        labels := labels + [rows[i].dish];
      } else {
        failed := failed + 1;
      }
      i := i + 1;
    }
    assert rows[..i] == rows;
    if |images| == 0 {
      return NothingLoaded, failed;
    }
    return Batch(images, labels), failed;
  }
}
