/** src/data_loader.py: where the dataset is looked for (the CSV file and the
    images directory, resolved once when the module loads) and
    `load_food_data`, which turns the CSV into images, one-hot labels, the
    two label maps and the nutrition table. The file system is abstract:
    `glob` answers a pattern with the matching paths in the order the
    platform lists them, `isDir` answers `os.path.isdir`, and `read` is
    `cv2.imread` followed by the resize. */
module DataLoader {
  import opened Common
  import opened Tables

  // ---------------------------------------------------------------------------
  // Dataset resolution (module level)
  // ---------------------------------------------------------------------------

  /** The image folder names tried first, in this order. */
  const ImageDirNames: seq<string> := ["Food Images", "images", "Images", "food_images"]

  /** The named folders, joined under `base`, in the order they are tried. */
  function NamedDirs(base: string): (dirs: seq<string>)
    ensures |dirs| == |ImageDirNames|
    ensures forall k :: 0 <= k < |dirs| ==> dirs[k] == JoinPath(base, ImageDirNames[k])
  {
    seq(|ImageDirNames|, k requires 0 <= k < |ImageDirNames| => JoinPath(base, ImageDirNames[k]))
  }

  /** The fallback test: the patterns "*.jpg" or "*.jpeg" under `sub` match
      some file (a folder holding only .png files does not pass). */
  predicate HoldsJpegs(sub: string, glob: string -> seq<string>)
  {
    |glob(JoinPath(sub, "*.jpg")) + glob(JoinPath(sub, "*.jpeg"))| > 0
  }

  /** A listed entry the fallback accepts. */
  function JpegDir(isDir: string -> bool, glob: string -> seq<string>): string -> bool
  {
    (sub: string) => isDir(sub) && HoldsJpegs(sub, glob)
  }

  /** IMAGES_DIR as the chain defines it: the first named folder that
      exists, else the first listed sub-folder with JPEG files, else `base`
      itself. */
  function ImagesDir(base: string, isDir: string -> bool, glob: string -> seq<string>): string
  {
    var named := NamedDirs(base);
    var n := FirstIndex(named, isDir);
    if n < |named| then named[n]
    else
      var entries := glob(JoinPath(base, "*"));
      var m := FirstIndex(entries, JpegDir(isDir, glob));
      if m < |entries| then entries[m] else base
  }

  /** Where the dataset lives: FileNotFoundError when no CSV matches. */
  datatype Location = NoCsvFound | Located(csvFile: string, imagesDir: string)

  /** The module-level resolution: the first `*.csv` of `base`, then the
      images directory through the loops over the named folders and over
      the sub-folders. */
  method LocateDataset(base: string, isDir: string -> bool, glob: string -> seq<string>)
    returns (loc: Location)
    ensures loc.NoCsvFound? <==> glob(JoinPath(base, "*.csv")) == []
    ensures loc.Located? ==> loc.csvFile == glob(JoinPath(base, "*.csv"))[0]
    ensures loc.Located? ==> loc.imagesDir == ImagesDir(base, isDir, glob)
  {
    var csvCandidates := glob(JoinPath(base, "*.csv"));
    if csvCandidates == [] {
      return NoCsvFound;
    }
    var named := NamedDirs(base);
    var imagesDir: Option<string> := None;
    var i := 0;
    while i < |ImageDirNames|
      invariant 0 <= i <= |ImageDirNames|
      invariant forall k :: 0 <= k < i ==> !isDir(named[k])
      invariant imagesDir.None?
    {
      var d := JoinPath(base, ImageDirNames[i]);
      if isDir(d) {
        imagesDir := Some(d);
        break;
      }
      i := i + 1;
    }
    assert imagesDir.Some? ==> FirstIndex(named, isDir) == i;
    if imagesDir.None? {
      var entries := glob(JoinPath(base, "*"));
      var j := 0;
      while j < |entries|
        invariant 0 <= j <= |entries|
        invariant forall k :: 0 <= k < j ==> !JpegDir(isDir, glob)(entries[k])
        invariant imagesDir.None?
      {
        var sub := entries[j];
        if isDir(sub) {
          var jpgs := glob(JoinPath(sub, "*.jpg")) + glob(JoinPath(sub, "*.jpeg"));
          if jpgs != [] {
            imagesDir := Some(sub);
            break;
          }
        }
        j := j + 1;
      }
      assert imagesDir.Some? ==> FirstIndex(entries, JpegDir(isDir, glob)) == j;
      if imagesDir.None? {
        imagesDir := Some(base);
      }
    }
    return Located(csvCandidates[0], imagesDir.value);
  }

  /** The chain's outcome: a named folder when one exists, the first in list
      order; otherwise a listed sub-folder that holds JPEG files, the first
      in listing order; otherwise the base path. */
  lemma ImagesDirChain(base: string, isDir: string -> bool, glob: string -> seq<string>)
    ensures var dir := ImagesDir(base, isDir, glob);
      var entries := glob(JoinPath(base, "*"));
      && ((exists k :: 0 <= k < |ImageDirNames| && isDir(JoinPath(base, ImageDirNames[k]))) ==>
            exists k :: 0 <= k < |ImageDirNames| && dir == JoinPath(base, ImageDirNames[k])
              && forall k' :: 0 <= k' < k ==> !isDir(JoinPath(base, ImageDirNames[k'])))
      && ((forall k :: 0 <= k < |ImageDirNames| ==> !isDir(JoinPath(base, ImageDirNames[k]))) ==>
            (exists k :: 0 <= k < |entries| && dir == entries[k] && isDir(dir) && HoldsJpegs(dir, glob)
               && forall k' :: 0 <= k' < k ==> !(isDir(entries[k']) && HoldsJpegs(entries[k'], glob)))
            || (dir == base && forall k :: 0 <= k < |entries| ==> !(isDir(entries[k]) && HoldsJpegs(entries[k], glob))))
  {
    var named := NamedDirs(base);
    var n := FirstIndex(named, isDir);
    if n < |named| {
      assert ImagesDir(base, isDir, glob) == JoinPath(base, ImageDirNames[n]);
    } else {
      var entries := glob(JoinPath(base, "*"));
      var m := FirstIndex(entries, JpegDir(isDir, glob));
      assert forall k :: 0 <= k < |ImageDirNames| ==> !isDir(JoinPath(base, ImageDirNames[k])) by {
        forall k | 0 <= k < |ImageDirNames| ensures !isDir(JoinPath(base, ImageDirNames[k])) {
          assert !isDir(named[k]);
        }
      }
      if m < |entries| {
        assert JpegDir(isDir, glob)(entries[m]);
      }
    }
  }

  // ---------------------------------------------------------------------------
  // load_food_data
  // ---------------------------------------------------------------------------

  /** The dish of a row: the title cell (NaN included, as pandas keeps it). */
  function DishOf(titleCol: string): Row -> Cell
  {
    (row: Row) => CellAt(row, titleCol)
  }

  /** `dropna(subset=[image_col])` then `head(limit)`. */
  function SelectedRows(rows: seq<Row>, imageCol: string, limit: int): (r: seq<Row>)
    ensures |r| == PrefixLen(|Filter(rows, (row: Row) => CellAt(row, imageCol) != Missing)|, limit)
    ensures r <= Filter(rows, (row: Row) => CellAt(row, imageCol) != Missing)
    ensures forall i :: 0 <= i < |r| ==> CellAt(r[i], imageCol) != Missing
    ensures limit >= 0 ==> |r| <= limit
  {
    var kept := Filter(rows, (row: Row) => CellAt(row, imageCol) != Missing);
    kept[..PrefixLen(|kept|, limit)]
  }

  /** `label_map`: each dish to its position in `dishes`. */
  function LabelMap(dishes: seq<Cell>): (m: map<Cell, nat>)
    requires forall i, j :: 0 <= i < j < |dishes| ==> dishes[i] != dishes[j]
    ensures forall d :: d in m ==> m[d] < |dishes| && dishes[m[d]] == d
  {
    map i | 0 <= i < |dishes| :: dishes[i] := i
  }

  /** `inv_label_map`: each position to its dish. */
  function InvLabelMap(dishes: seq<Cell>): (m: map<nat, Cell>)
  {
    map i | 0 <= i < |dishes| :: dishes[i]
  }

  /** The label of the dish at position `i` is `i`. */
  lemma LabelMapAt(dishes: seq<Cell>, i: int)
    requires forall i, j :: 0 <= i < j < |dishes| ==> dishes[i] != dishes[j]
    requires 0 <= i < |dishes|
    ensures dishes[i] in LabelMap(dishes) && LabelMap(dishes)[dishes[i]] == i
  {
  }

  /** The two maps are inverse bijections between the dishes and 0..n-1. */
  lemma LabelMapsInverse(dishes: seq<Cell>)
    requires forall i, j :: 0 <= i < j < |dishes| ==> dishes[i] != dishes[j]
    ensures var m, inv := LabelMap(dishes), InvLabelMap(dishes);
      && (forall d :: d in m <==> d in dishes)
      && (forall i: nat :: i in inv <==> i < |dishes|)
      && (forall d :: d in m ==> m[d] in inv && inv[m[d]] == d)
      && (forall i :: i in inv ==> inv[i] in m && m[inv[i]] == i)
  {
    var m, inv := LabelMap(dishes), InvLabelMap(dishes);
    forall d | d in dishes ensures d in m {
      var i :| 0 <= i < |dishes| && dishes[i] == d;
      assert m[dishes[i]] == i;
    }
    forall d | d in m ensures m[d] in inv && inv[m[d]] == d {
      var i :| 0 <= i < |dishes| && dishes[i] == d && m[d] == i;
    }
  }

  /** The title column of the rows, `df[title_col]`. */
  function Titles(rows: seq<Row>, titleCol: string): (cells: seq<Cell>)
    ensures |cells| == |rows|
    ensures forall i :: 0 <= i < |rows| ==> cells[i] == CellAt(rows[i], titleCol)
  {
    seq(|rows|, i requires 0 <= i < |rows| => CellAt(rows[i], titleCol))
  }

  /** `df[title_col].unique()` of the selected rows. */
  function UniqueDishes(rows: seq<Row>, titleCol: string): (dishes: seq<Cell>)
    ensures forall i, j :: 0 <= i < j < |dishes| ==> dishes[i] != dishes[j]
  {
    Unique(Titles(rows, titleCol))
  }

  /** On a column of dishes: a dish seen at `a`, before the dish at `b`
      first appears, gets the smaller label. */
  lemma LabelOrder(cells: seq<Cell>, a: int, b: int)
    requires 0 <= a < |cells| && 0 <= b < |cells|
    requires cells[b] !in cells[..a + 1]
    ensures var dishes := Unique(cells);
      var m := LabelMap(dishes);
      && cells[a] in m && cells[b] in m
      && m[cells[a]] < m[cells[b]] < |dishes|
  {
    var dishes := Unique(cells);
    var da, db := cells[a], cells[b];
    var i :| 0 <= i < |dishes| && dishes[i] == da;
    var j :| 0 <= j < |dishes| && dishes[j] == db;
    assert i < j by {
      assert cells[..a + 1][a] == da;
      if j < i {
        UniqueFirstAppearance(cells, j, i);
      }
    }
    LabelMapAt(dishes, i);
    LabelMapAt(dishes, j);
  }

  /** Labels are dense and follow first appearance: every row's dish has a
      label below the number of dishes, and a dish seen in row `a` before
      the dish of row `b` first appears gets the smaller label. */
  lemma LabelsFollowFirstAppearance(rows: seq<Row>, titleCol: string, a: int, b: int)
    requires 0 <= a < |rows| && 0 <= b < |rows|
    requires CellAt(rows[b], titleCol) !in Titles(rows, titleCol)[..a + 1]
    ensures var dishes := UniqueDishes(rows, titleCol);
      var m := LabelMap(dishes);
      && CellAt(rows[a], titleCol) in m && CellAt(rows[b], titleCol) in m
      && m[CellAt(rows[a], titleCol)] < m[CellAt(rows[b], titleCol)] < |dishes|
  {
    LabelOrder(Titles(rows, titleCol), a, b);
  }

  /** Every row's dish has a label, below the number of dishes. */
  lemma EveryDishLabelled(rows: seq<Row>, titleCol: string, r: int)
    requires 0 <= r < |rows|
    ensures var dishes := UniqueDishes(rows, titleCol);
      CellAt(rows[r], titleCol) in LabelMap(dishes) && LabelMap(dishes)[CellAt(rows[r], titleCol)] < |dishes|
  {
    var dishes := UniqueDishes(rows, titleCol);
    assert Titles(rows, titleCol)[r] == CellAt(rows[r], titleCol);
    var i :| 0 <= i < |dishes| && dishes[i] == CellAt(rows[r], titleCol);
    LabelMapAt(dishes, i);
  }

  /** What a row writes into `nutrition_db`: None when no calories column
      was found, the cell otherwise (indexing an existing column cannot
      raise, so the `except` branch is never taken). */
  function CaloriesOf(row: Row, caloriesCol: Option<string>): Option<Cell>
  {
    if caloriesCol.None? then None else Some(CellAt(row, caloriesCol.value))
  }

  /** `nutrition_db` after the rows, written one by one. */
  function NutritionDb(rows: seq<Row>, titleCol: string, caloriesCol: Option<string>): (db: map<Cell, Option<Cell>>)
    ensures db.Keys == KeysOf(rows, DishOf(titleCol))
  {
    if rows == [] then map[]
    else
      var last := rows[|rows| - 1];
      var db := NutritionDb(rows[..|rows| - 1], titleCol, caloriesCol)[CellAt(last, titleCol) := CaloriesOf(last, caloriesCol)];
      assert rows == rows[..|rows| - 1] + [last];
      KeysOfSnoc(rows[..|rows| - 1], last, DishOf(titleCol));
      db
  }

  /** Every processed row's dish has an entry, even when the row's image
      fails later; the entry holds the calories of the LAST row with that
      dish. */
  lemma {:induction false} NutritionLastWins(rows: seq<Row>, titleCol: string, caloriesCol: Option<string>, i: int)
    requires 0 <= i < |rows|
    requires forall j :: i < j < |rows| ==> CellAt(rows[j], titleCol) != CellAt(rows[i], titleCol)
    ensures CellAt(rows[i], titleCol) in NutritionDb(rows, titleCol, caloriesCol)
    ensures NutritionDb(rows, titleCol, caloriesCol)[CellAt(rows[i], titleCol)] == CaloriesOf(rows[i], caloriesCol)
  {
    if i < |rows| - 1 {
      var p := rows[..|rows| - 1];
      assert p[i] == rows[i];
      assert forall j :: i < j < |p| ==> p[j] == rows[j];
      NutritionLastWins(p, titleCol, caloriesCol, i);
    }
  }

  /** `to_categorical(label, num_classes=n)`. */
  function OneHot(k: nat, n: nat): (v: seq<real>)
    requires k < n
    ensures |v| == n && v[k] == 1.0
    ensures forall j :: 0 <= j < n && j != k ==> v[j] == 0.0
  {
    seq(n, j requires 0 <= j < n => if j == k then 1.0 else 0.0)
  }

  /** `to_categorical(labels, num_classes=n)`: one one-hot row per label. */
  function ToCategorical(labels: seq<nat>, n: nat): (y: seq<seq<real>>)
    requires forall j :: 0 <= j < |labels| ==> labels[j] < n
    ensures |y| == |labels|
    ensures forall j :: 0 <= j < |labels| ==> y[j] == OneHot(labels[j], n)
  {
    seq(|labels|, j requires 0 <= j < |labels| => OneHot(labels[j], n))
  }

  /** The path of a row's image: `.jpg` appended when the name has no image
      extension, joined under the images directory. */
  function ImagePath(row: Row, imageCol: string, imagesDir: string): string
  {
    JoinPath(imagesDir, WithImageExtension(CellText(CellAt(row, imageCol))))
  }

  function ImageLoads(imageCol: string, imagesDir: string, read: string -> Option<seq<Byte>>): Row -> bool
  {
    (row: Row) => read(ImagePath(row, imageCol, imagesDir)).Some?
  }

  /** The images the loop appends, in row order: one per row whose image
      loads. */
  function LoadedImages(rows: seq<Row>, imageCol: string, imagesDir: string,
                        read: string -> Option<seq<Byte>>): seq<Image>
  {
    if rows == [] then []
    else
      var last := rows[|rows| - 1];
      LoadedImages(rows[..|rows| - 1], imageCol, imagesDir, read)
        + match read(ImagePath(last, imageCol, imagesDir))
          case Some(pixels) => [Normalise(pixels)]
          case None => []
  }

  /** The dishes whose labels the loop appends, beside the images. */
  function LoadedDishes(rows: seq<Row>, titleCol: string, imageCol: string, imagesDir: string,
                        read: string -> Option<seq<Byte>>): seq<Cell>
  {
    if rows == [] then []
    else
      var last := rows[|rows| - 1];
      LoadedDishes(rows[..|rows| - 1], titleCol, imageCol, imagesDir, read)
        + if read(ImagePath(last, imageCol, imagesDir)).Some? then [CellAt(last, titleCol)] else []
  }

  /** Images and labels are appended together: both lists run in step with
      the rows whose image loads, the j-th image and the j-th dish coming
      from the same row. */
  lemma {:induction false} LoadedInStep(rows: seq<Row>, titleCol: string, imageCol: string, imagesDir: string,
                                        read: string -> Option<seq<Byte>>)
    ensures var loaded := Filter(rows, ImageLoads(imageCol, imagesDir, read));
      var images := LoadedImages(rows, imageCol, imagesDir, read);
      var dishes := LoadedDishes(rows, titleCol, imageCol, imagesDir, read);
      && |images| == |dishes| == |loaded|
      && forall j :: 0 <= j < |loaded| ==>
           && read(ImagePath(loaded[j], imageCol, imagesDir)).Some?
           && images[j] == Normalise(read(ImagePath(loaded[j], imageCol, imagesDir)).value)
           && dishes[j] == CellAt(loaded[j], titleCol)
  {
    if rows != [] {
      var p := rows[..|rows| - 1];
      var last := rows[|rows| - 1];
      LoadedInStep(p, titleCol, imageCol, imagesDir, read);
      assert rows == p + [last];
      FilterSnoc(p, last, ImageLoads(imageCol, imagesDir, read));
    }
  }

  /** One more row writes its dish's calories into the table. */
  lemma NutritionStep(rows: seq<Row>, i: nat, titleCol: string, caloriesCol: Option<string>)
    requires i < |rows|
    ensures NutritionDb(rows[..i + 1], titleCol, caloriesCol)
            == NutritionDb(rows[..i], titleCol, caloriesCol)[CellAt(rows[i], titleCol) := CaloriesOf(rows[i], caloriesCol)]
  {
    assert rows[..i + 1][..i] == rows[..i];
  }

  /** One more row appends its image and dish when the image loads. */
  lemma LoadedStep(rows: seq<Row>, i: nat, titleCol: string, imageCol: string, imagesDir: string,
                   read: string -> Option<seq<Byte>>)
    requires i < |rows|
    ensures var pixels := read(ImagePath(rows[i], imageCol, imagesDir));
      pixels.Some? ==>
        && LoadedImages(rows[..i + 1], imageCol, imagesDir, read)
             == LoadedImages(rows[..i], imageCol, imagesDir, read) + [Normalise(pixels.value)]
        && LoadedDishes(rows[..i + 1], titleCol, imageCol, imagesDir, read)
             == LoadedDishes(rows[..i], titleCol, imageCol, imagesDir, read) + [CellAt(rows[i], titleCol)]
    ensures read(ImagePath(rows[i], imageCol, imagesDir)).None? ==>
        && LoadedImages(rows[..i + 1], imageCol, imagesDir, read) == LoadedImages(rows[..i], imageCol, imagesDir, read)
        && LoadedDishes(rows[..i + 1], titleCol, imageCol, imagesDir, read)
             == LoadedDishes(rows[..i], titleCol, imageCol, imagesDir, read)
  {
    var s := rows[..i + 1];
    assert s != [] && s[|s| - 1] == rows[i];
    assert s[..|s| - 1] == rows[..i];
  }

  /** Labels in step with the loaded dishes are in step with the rows whose
      image loads. */
  lemma LabelsOfLoaded(rows: seq<Row>, titleCol: string, imageCol: string, imagesDir: string,
                       read: string -> Option<seq<Byte>>, labelMap: map<Cell, nat>, labels: seq<nat>)
    requires var dishes := LoadedDishes(rows, titleCol, imageCol, imagesDir, read);
      && |labels| == |dishes|
      && forall j :: 0 <= j < |labels| ==> dishes[j] in labelMap && labels[j] == labelMap[dishes[j]]
    ensures var loaded := Filter(rows, ImageLoads(imageCol, imagesDir, read));
      && |labels| == |loaded|
      && forall j :: 0 <= j < |loaded| ==>
           && CellAt(loaded[j], titleCol) in labelMap
           && labels[j] == labelMap[CellAt(loaded[j], titleCol)]
  {
    LoadedInStep(rows, titleCol, imageCol, imagesDir, read);
  }

  /** The loop of `load_food_data` over the selected rows: every row writes
      its dish's calories into `nutrition_db`; a row whose image loads
      appends the image and its dish's label. */
  method ProcessRows(rows: seq<Row>, titleCol: string, imageCol: string, caloriesCol: Option<string>,
                     imagesDir: string, read: string -> Option<seq<Byte>>, labelMap: map<Cell, nat>)
    returns (images: seq<Image>, labels: seq<nat>, nutritionDb: map<Cell, Option<Cell>>)
    requires forall r :: 0 <= r < |rows| ==> CellAt(rows[r], titleCol) in labelMap
    ensures nutritionDb == NutritionDb(rows, titleCol, caloriesCol)
    ensures var loaded := Filter(rows, ImageLoads(imageCol, imagesDir, read));
      && |images| == |labels| == |loaded|
      && forall j :: 0 <= j < |loaded| ==>
           && read(ImagePath(loaded[j], imageCol, imagesDir)).Some?
           && images[j] == Normalise(read(ImagePath(loaded[j], imageCol, imagesDir)).value)
           && CellAt(loaded[j], titleCol) in labelMap
           && labels[j] == labelMap[CellAt(loaded[j], titleCol)]
  {
    images, labels, nutritionDb := [], [], map[];
    ghost var dishes: seq<Cell> := [];
    var i := 0;
    while i < |rows|
      invariant 0 <= i <= |rows|
      invariant nutritionDb == NutritionDb(rows[..i], titleCol, caloriesCol)
      invariant images == LoadedImages(rows[..i], imageCol, imagesDir, read)
      invariant dishes == LoadedDishes(rows[..i], titleCol, imageCol, imagesDir, read)
      invariant |labels| == |dishes|
      invariant forall j :: 0 <= j < |labels| ==> dishes[j] in labelMap && labels[j] == labelMap[dishes[j]]
    {
      var row := rows[i];
      var dish := CellAt(row, titleCol);
      NutritionStep(rows, i, titleCol, caloriesCol);
      LoadedStep(rows, i, titleCol, imageCol, imagesDir, read);
      nutritionDb := nutritionDb[dish := CaloriesOf(row, caloriesCol)];
      var pixels := read(ImagePath(row, imageCol, imagesDir));
      if pixels.Some? {
        images := images + [Normalise(pixels.value)];
        dishes := dishes + [dish];
        labels := labels + [labelMap[dish]];
      }
      i := i + 1;
    }
    assert rows[..i] == rows;
    LoadedInStep(rows, titleCol, imageCol, imagesDir, read);
    LabelsOfLoaded(rows, titleCol, imageCol, imagesDir, read, labelMap, labels);
  }

  /** What `load_food_data` returns: `(X, y, label_map, inv_label_map,
      nutrition_db)`, or the KeyError raised for a missing title or image
      column. */
  datatype FoodData =
    | FoodData(images: seq<Image>, labels: seq<seq<real>>, labelMap: map<Cell, nat>,
               invLabelMap: map<nat, Cell>, nutritionDb: map<Cell, Option<Cell>>)
    | MissingColumns

  /** What `load_food_data` promises about its five results, for the
      selected rows and the resolved columns: the maps are built from the
      unique dishes, the nutrition table from every row, and X and y run in
      step with the rows whose image loads, y[j] being the one-hot label of
      the dish of the row that produced X[j]. */
  predicate Describes(data: FoodData, rows: seq<Row>, titleCol: string, imageCol: string,
                      caloriesCol: Option<string>, imagesDir: string, read: string -> Option<seq<Byte>>)
  {
    var dishes := UniqueDishes(rows, titleCol);
    var loaded := Filter(rows, ImageLoads(imageCol, imagesDir, read));
    && data.FoodData?
    && data.labelMap == LabelMap(dishes)
    && data.invLabelMap == InvLabelMap(dishes)
    && data.nutritionDb == NutritionDb(rows, titleCol, caloriesCol)
    && |data.images| == |data.labels| == |loaded|
    && forall j :: 0 <= j < |loaded| ==>
         && read(ImagePath(loaded[j], imageCol, imagesDir)).Some?
         && data.images[j] == Normalise(read(ImagePath(loaded[j], imageCol, imagesDir)).value)
         && CellAt(loaded[j], titleCol) in data.labelMap
         && data.labelMap[CellAt(loaded[j], titleCol)] < |dishes|
         && data.labels[j] == OneHot(data.labelMap[CellAt(loaded[j], titleCol)], |dishes|)
  }

  /** The body of `load_food_data` once both columns are resolved. */
  method LoadSelectedRows(rows: seq<Row>, titleCol: string, imageCol: string, caloriesCol: Option<string>,
                          imagesDir: string, read: string -> Option<seq<Byte>>)
    returns (data: FoodData)
    ensures Describes(data, rows, titleCol, imageCol, caloriesCol, imagesDir, read)
  {
    var dishes := UniqueDishes(rows, titleCol);
    var labelMap := LabelMap(dishes);
    var invLabelMap := InvLabelMap(dishes);
    forall r | 0 <= r < |rows| ensures CellAt(rows[r], titleCol) in labelMap {
      EveryDishLabelled(rows, titleCol, r);
    }
    var images, labels, nutritionDb := ProcessRows(rows, titleCol, imageCol, caloriesCol,
                                                   imagesDir, read, labelMap);
    data := FoodData(images, ToCategorical(labels, |dishes|), labelMap, invLabelMap, nutritionDb);
  }

  /** The default of `load_food_data`'s `limit` parameter. */
  const DefaultLimit: int := 500

  /** `load_food_data(limit)` on the parsed CSV: KeyError without a title or
      an image column; otherwise the rows with an image cell, at most
      `limit` of them (`head`), are loaded; a caller that passes no limit
      passes `DefaultLimit`. */
  method LoadFoodData(csv: Table, limit: int, imagesDir: string, read: string -> Option<seq<Byte>>)
    returns (data: FoodData)
    ensures data.MissingColumns? <==>
              FindColumn(csv.columns, TitleCandidates).None? || FindColumn(csv.columns, ImageCandidates).None?
    ensures data.FoodData? ==>
              Describes(data, SelectedRows(csv.rows, FindColumn(csv.columns, ImageCandidates).value, limit),
                        FindColumn(csv.columns, TitleCandidates).value, FindColumn(csv.columns, ImageCandidates).value,
                        FindColumn(csv.columns, CaloriesCandidates), imagesDir, read)
  {
    var titleCol := FindColumn(csv.columns, TitleCandidates);
    var imageCol := FindColumn(csv.columns, ImageCandidates);
    var caloriesCol := FindColumn(csv.columns, CaloriesCandidates);
    if titleCol.None? || imageCol.None? {
      return MissingColumns;
    }
    var rows := SelectedRows(csv.rows, imageCol.value, limit);
    data := LoadSelectedRows(rows, titleCol.value, imageCol.value, caloriesCol, imagesDir, read);
  }
}
