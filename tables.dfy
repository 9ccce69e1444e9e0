/** The CSV table as both data pipelines see it after `pd.read_csv`, and the
    pieces of table handling they share: the column resolver `find_col`
    (written out identically in train_model.py and src/data_loader.py), the
    image-extension rule, and keep-first de-duplication. */
module Tables {
  import opened Common

  /** One CSV cell: empty (pandas NaN), text, or a number together with the
      text Python's `str()` gives for it. */
  datatype Cell = Missing | Text(s: string) | Number(v: real, shown: string)

  /** A row maps column headers to cells. */
  type Row = map<string, Cell>

  datatype Table = Table(columns: seq<string>, rows: seq<Row>)

  /** `row[col]`, total: a header the row lacks reads as an empty cell. */
  function CellAt(row: Row, col: string): Cell
  {
    if col in row then row[col] else Missing
  }

  /** Python's `str(cell)`. */
  function CellText(c: Cell): string
  {
    match c
    case Missing => "nan"
    case Text(s) => s
    case Number(_, shown) => shown
  }

  // ---------------------------------------------------------------------------
  // find_col
  // ---------------------------------------------------------------------------

  const TitleCandidates: seq<string> := ["title", "name", "dish", "recipe"]
  const ImageCandidates: seq<string> :=
    ["image_name", "imagename", "image", "image_id", "file_name", "filename"]
  const CaloriesCandidates: seq<string> := ["calories", "calorie", "energy", "kcal"]

  /** `{c.lower(): c for c in df.columns}`: when two headers lower-case alike,
      the later one is kept. */
  function LowerIndex(columns: seq<string>): (m: map<string, string>)
    ensures forall k :: k in m ==> m[k] in columns && Lower(m[k]) == k
    ensures forall i :: 0 <= i < |columns| ==> Lower(columns[i]) in m
    ensures forall i :: 0 <= i < |columns|
              && (forall j :: i < j < |columns| ==> Lower(columns[j]) != Lower(columns[i]))
              ==> m[Lower(columns[i])] == columns[i]
  {
    if columns == [] then map[]
    else
      var last := columns[|columns| - 1];
      var m := LowerIndex(columns[..|columns| - 1]);
      assert forall i :: 0 <= i < |columns| - 1 ==> columns[..|columns| - 1][i] == columns[i];
      m[Lower(last) := last]
  }

  /** The first loop of `find_col`: the first candidate whose lower-cased form
      is a lower-cased header. */
  function ExactMatch(candidates: seq<string>, index: map<string, string>): (r: Option<string>)
    ensures r.Some? <==> exists i :: 0 <= i < |candidates| && Lower(candidates[i]) in index
    ensures r.Some? ==> exists i :: (0 <= i < |candidates| && Lower(candidates[i]) in index
              && r.value == index[Lower(candidates[i])]
              && forall j :: 0 <= j < i ==> Lower(candidates[j]) !in index)
  {
    if candidates == [] then None
    else if Lower(candidates[0]) in index then Some(index[Lower(candidates[0])])
    else
      var r := ExactMatch(candidates[1..], index);
      assert forall i :: 1 <= i < |candidates| ==> candidates[1..][i - 1] == candidates[i];
      r
  }

  /** Header `column` contains some candidate, both lower-cased. */
  predicate MatchesAny(column: string, candidates: seq<string>)
  {
    exists k :: 0 <= k < |candidates| && Contains(Lower(column), Lower(candidates[k]))
  }

  /** The second loop of `find_col`: the first header, in table order, that
      contains any candidate. */
  function SubstringMatch(columns: seq<string>, candidates: seq<string>): (r: Option<string>)
    ensures r.Some? <==> exists i :: 0 <= i < |columns| && MatchesAny(columns[i], candidates)
    ensures r.Some? ==> exists i :: (0 <= i < |columns| && r.value == columns[i]
              && MatchesAny(columns[i], candidates)
              && forall j :: 0 <= j < i ==> !MatchesAny(columns[j], candidates))
  {
    if columns == [] then None
    else if MatchesAny(columns[0], candidates) then Some(columns[0])
    else
      var r := SubstringMatch(columns[1..], candidates);
      assert forall i :: 1 <= i < |columns| ==> columns[1..][i - 1] == columns[i];
      r
  }

  /** `find_col(possible_names)`: an exact (case-insensitive) header first,
      trying the candidates in order; else the first header containing a
      candidate; else None. */
  function FindColumn(columns: seq<string>, candidates: seq<string>): (r: Option<string>)
  {
    match ExactMatch(candidates, LowerIndex(columns))
    case Some(c) => Some(c)
    case None => SubstringMatch(columns, candidates)
  }

  /** A header equal to a candidate (ignoring case) also contains it. */
  lemma EqualLowerContains(column: string, candidate: string)
    requires Lower(column) == Lower(candidate)
    ensures Contains(Lower(column), Lower(candidate))
  {
    assert OccursAt(Lower(column), Lower(candidate), 0);
  }

  /** The resolved header is one of the table's headers. */
  lemma FindColumnIsHeader(columns: seq<string>, candidates: seq<string>)
    ensures FindColumn(columns, candidates).Some? ==> FindColumn(columns, candidates).value in columns
  {
    FindColumnSpec(columns, candidates);
  }

  /** What `find_col` resolves: always a header of the table; one that equals
      a candidate when any does, the first candidate in list order deciding;
      when no header equals a candidate, the first header in table order
      that contains one; and None exactly when no header contains any
      candidate. */
  lemma FindColumnSpec(columns: seq<string>, candidates: seq<string>)
    ensures var r := FindColumn(columns, candidates);
      && (r.Some? ==> r.value in columns && MatchesAny(r.value, candidates))
      && (r.None? <==> forall i :: 0 <= i < |columns| ==> !MatchesAny(columns[i], candidates))
      && ((exists i, j :: 0 <= i < |candidates| && 0 <= j < |columns| && Lower(candidates[i]) == Lower(columns[j]))
          ==> r.Some? && exists i :: (0 <= i < |candidates| && Lower(r.value) == Lower(candidates[i])
                && forall i' :: 0 <= i' < i ==> forall j :: 0 <= j < |columns| ==> Lower(columns[j]) != Lower(candidates[i'])))
      && ((forall i, j :: 0 <= i < |candidates| && 0 <= j < |columns| ==> Lower(candidates[i]) != Lower(columns[j]))
          ==> (r.Some? ==> exists i :: (0 <= i < |columns| && r.value == columns[i]
                && forall j :: 0 <= j < i ==> !MatchesAny(columns[j], candidates))))
  {
    var index := LowerIndex(columns);
    var exact := ExactMatch(candidates, index);
    if exact.Some? {
      var i :| 0 <= i < |candidates| && Lower(candidates[i]) in index
        && exact.value == index[Lower(candidates[i])]
        && forall j :: 0 <= j < i ==> Lower(candidates[j]) !in index;
      EqualLowerContains(exact.value, candidates[i]);
    } else {
      forall i, j | 0 <= i < |candidates| && 0 <= j < |columns|
        ensures Lower(candidates[i]) != Lower(columns[j])
      {
        assert Lower(columns[j]) in index;
      }
    }
  }

  // ---------------------------------------------------------------------------
  // Image file names
  // ---------------------------------------------------------------------------

  predicate HasImageExtension(name: string)
  {
    EndsWith(Lower(name), ".jpg") || EndsWith(Lower(name), ".jpeg") || EndsWith(Lower(name), ".png")
  }

  /** The extension rule of the image-name column. */
  function WithImageExtension(raw: string): string
  {
    if HasImageExtension(raw) then raw else raw + ".jpg"
  }

  /** A name already ending in .jpg/.jpeg/.png (any case) is kept as it is;
      any other gets ".jpg" appended; either way the result ends in an
      image extension. */
  lemma WithImageExtensionSpec(raw: string)
    ensures HasImageExtension(raw) ==> WithImageExtension(raw) == raw
    ensures !HasImageExtension(raw) ==> WithImageExtension(raw) == raw + ".jpg"
    ensures HasImageExtension(WithImageExtension(raw))
  {
    if !HasImageExtension(raw) {
      LowerConcat(raw, ".jpg");
      assert Lower(".jpg") == ".jpg";
      assert Lower(raw + ".jpg")[|raw|..] == ".jpg";
    }
  }

  /** Applying the rule twice changes nothing more. */
  lemma WithImageExtensionIdempotent(raw: string)
    ensures WithImageExtension(WithImageExtension(raw)) == WithImageExtension(raw)
  {
    WithImageExtensionSpec(raw);
    WithImageExtensionSpec(WithImageExtension(raw));
  }

  // ---------------------------------------------------------------------------
  // Keep-first de-duplication (drop_duplicates, unique)
  // ---------------------------------------------------------------------------

  /** The keys that occur in `s`. */
  function KeysOf<T, K(==)>(s: seq<T>, key: T -> K): set<K>
  {
    set i | 0 <= i < |s| :: key(s[i])
  }

  lemma KeysOfSnoc<T, K>(s: seq<T>, x: T, key: T -> K)
    ensures KeysOf(s + [x], key) == KeysOf(s, key) + {key(x)}
  {
    var t := s + [x];
    forall k | k in KeysOf(t, key) ensures k in KeysOf(s, key) + {key(x)} {
      var i :| 0 <= i < |t| && key(t[i]) == k;
      if i < |s| {
        assert t[i] == s[i];
      }
    }
    forall k | k in KeysOf(s, key) ensures k in KeysOf(t, key) {
      var i :| 0 <= i < |s| && key(s[i]) == k;
      assert t[i] == s[i];
    }
    assert key(t[|s|]) == key(x);
  }

  /** Position of the first element of `s` whose key is `k`. */
  function FirstIndexOf<T, K(==)>(s: seq<T>, key: T -> K, k: K): (r: nat)
    requires k in KeysOf(s, key)
    ensures r < |s| && key(s[r]) == k
    ensures forall i :: 0 <= i < r ==> key(s[i]) != k
  {
    if key(s[0]) == k then 0
    else
      assert k in KeysOf(s[1..], key) by {
        var i :| 0 <= i < |s| && key(s[i]) == k;
        assert s[1..][i - 1] == s[i];
      }
      1 + FirstIndexOf(s[1..], key, k)
  }

  /** Dropping the last element leaves the first occurrence of every key
      that is still present where it was. */
  lemma FirstIndexOfPrefix<T, K>(s: seq<T>, key: T -> K, k: K)
    requires |s| > 0 && k in KeysOf(s[..|s| - 1], key)
    ensures k in KeysOf(s, key)
    ensures FirstIndexOf(s, key, k) == FirstIndexOf(s[..|s| - 1], key, k)
  {
    var p := s[..|s| - 1];
    var i :| 0 <= i < |p| && key(p[i]) == k;
    assert key(s[i]) == k;
    var a, b := FirstIndexOf(s, key, k), FirstIndexOf(p, key, k);
    assert key(s[b]) == k;
    assert a <= b;
    assert p[a] == s[a];
  }

  /** Keep-first de-duplication on `key`: `drop_duplicates(subset=...)` for
      rows, `unique()` for values. */
  function FirstOccurrences<T, K(==)>(s: seq<T>, key: T -> K): (r: seq<T>)
    ensures KeysOf(r, key) == KeysOf(s, key)
    ensures forall j :: 0 <= j < |r| ==>
              key(r[j]) in KeysOf(s, key) && r[j] == s[FirstIndexOf(s, key, key(r[j]))]
    ensures forall i, j :: 0 <= i < j < |r| ==>
              FirstIndexOf(s, key, key(r[i])) < FirstIndexOf(s, key, key(r[j]))
  {
    if s == [] then []
    else
      var p := s[..|s| - 1];
      var last := s[|s| - 1];
      var d := FirstOccurrences(p, key);
      assert s == p + [last];
      KeysOfSnoc(p, last, key);
      forall j | 0 <= j < |d|
        ensures FirstIndexOf(s, key, key(d[j])) == FirstIndexOf(p, key, key(d[j]))
      {
        FirstIndexOfPrefix(s, key, key(d[j]));
      }
      if key(last) in KeysOf(d, key) then d
      else
        assert key(last) !in KeysOf(p, key);
        assert FirstIndexOf(s, key, key(last)) == |s| - 1;
        var r := d + [last];
        KeysOfSnoc(d, last, key);
        r
  }

  /** Keys are distinct after de-duplication. */
  lemma FirstOccurrencesDistinct<T, K>(s: seq<T>, key: T -> K)
    ensures var r := FirstOccurrences(s, key);
      forall i, j :: 0 <= i < j < |r| ==> key(r[i]) != key(r[j])
  {
  }

  function Identity<T>(x: T): T
  {
    x
  }

  /** `Series.unique()`: the distinct values in order of first appearance. */
  function Unique<T(==)>(s: seq<T>): (u: seq<T>)
    ensures forall i :: 0 <= i < |s| ==> s[i] in u
    ensures forall i, j :: 0 <= i < j < |u| ==> u[i] != u[j]
  {
    var u := FirstOccurrences(s, Identity);
    FirstOccurrencesDistinct(s, Identity);
    assert forall i :: 0 <= i < |s| ==> s[i] in KeysOf(s, Identity) by {
      forall i | 0 <= i < |s| ensures s[i] in KeysOf(s, Identity) {
        assert Identity(s[i]) == s[i];
      }
    }
    u
  }

  /** Every value `unique()` returns occurs in its input. */
  lemma UniqueFromInput<T>(s: seq<T>, j: int)
    requires 0 <= j < |Unique(s)|
    ensures Unique(s)[j] in s
  {
    var u := Unique(s);
    assert u == FirstOccurrences(s, Identity);
    var p := FirstIndexOf(s, Identity, u[j]);
    assert Identity(s[p]) == u[j];
  }

  /** The order of `unique()` is the order of first appearance: of two
      values, the earlier one occurs before the later one occurs at all. */
  lemma UniqueFirstAppearance<T>(s: seq<T>, i: int, j: int)
    requires 0 <= i < j < |Unique(s)|
    ensures exists p :: 0 <= p < |s| && s[p] == Unique(s)[i] && Unique(s)[j] !in s[..p]
  {
    var u := Unique(s);
    assert u == FirstOccurrences(s, Identity);
    var p := FirstIndexOf(s, Identity, u[i]);
    var q := FirstIndexOf(s, Identity, u[j]);
    assert p < q;
    assert u[j] !in s[..p] by {
      forall k | 0 <= k < p ensures s[..p][k] != u[j] {
        assert Identity(s[k]) != u[j];
      }
    }
  }
}
