/** Small helpers shared by every part of the model: an Option type, Python's
    string tests (`lower`, `in`, `endswith`), Python's prefix slice `[:k]`,
    path joining and an order-preserving filter. */
module Common {

  datatype Option<+T> = None | Some(value: T)

  /** Python's `str.lower()` on one character, for the ASCII and Latin-1
      capitals (the ones dish names and column headers use). */
  function LowerChar(c: char): char
  {
    if 'A' <= c <= 'Z' || ('À' <= c <= 'Þ' && c != '×') then
      (c as int + 32) as char
    else
      c
  }

  function Lower(s: string): (r: string)
    ensures |r| == |s|
    ensures forall i :: 0 <= i < |s| ==> r[i] == LowerChar(s[i])
  {
    seq(|s|, i requires 0 <= i < |s| => LowerChar(s[i]))
  }

  /** Lower-casing twice is lower-casing once. */
  lemma LowerIdempotent(s: string)
    ensures Lower(Lower(s)) == Lower(s)
  {
  }

  lemma LowerConcat(a: string, b: string)
    ensures Lower(a + b) == Lower(a) + Lower(b)
  {
  }

  /** `sub` occurs in `s` starting at position `i`. */
  predicate OccursAt(s: string, sub: string, i: int)
  {
    0 <= i && i + |sub| <= |s| && s[i..i + |sub|] == sub
  }

  /** Python's `sub in s` on strings (the empty string occurs everywhere). */
  predicate Contains(s: string, sub: string)
  {
    exists i :: 0 <= i <= |s| - |sub| && OccursAt(s, sub, i)
  }

  /** Python's `s.endswith(suffix)`. */
  predicate EndsWith(s: string, suffix: string)
  {
    |suffix| <= |s| && s[|s| - |suffix|..] == suffix
  }

  /** The length of Python's slice `xs[:k]` of a list of length `n`:
      a negative `k` counts from the end. */
  function PrefixLen(n: nat, k: int): (r: nat)
    ensures r <= n
    ensures k >= 0 ==> r == if k < n then k else n
    ensures k < 0 ==> r == if n + k > 0 then n + k else 0
  {
    if k >= 0 then (if k < n then k else n)
    else if n + k > 0 then n + k else 0
  }

  /** The decimal digit character of `d`. */
  function Digit(d: nat): (c: char)
    requires d < 10
    ensures '0' <= c <= '9' && c as int - '0' as int == d
  {
    ('0' as int + d) as char
  }

  /** The number a string of decimal digits denotes. */
  function DigitsValue(s: string): nat
    requires forall i :: 0 <= i < |s| ==> '0' <= s[i] <= '9'
  {
    if s == [] then 0
    else DigitsValue(s[..|s| - 1]) * 10 + (s[|s| - 1] as int - '0' as int)
  }

  /** Python's decimal rendering `str(n)` of a natural number: digits only,
      no leading zero, reading back as `n`. */
  function NatToString(n: nat): (s: string)
    ensures |s| > 0
    ensures forall i :: 0 <= i < |s| ==> '0' <= s[i] <= '9'
    ensures |s| > 1 ==> s[0] != '0'
    ensures DigitsValue(s) == n
  {
    if n < 10 then [Digit(n)]
    else
      var front := NatToString(n / 10);
      assert (front + [Digit(n % 10)])[..|front|] == front;
      front + [Digit(n % 10)]
  }

  /** `os.path.join(dir, name)` with a POSIX separator, for a relative `name`. */
  function JoinPath(dir: string, name: string): string
  {
    if dir == [] || EndsWith(dir, "/") then dir + name else dir + "/" + name
  }

  /** The elements of `s` that satisfy `p`, in their original order. */
  function Filter<T>(s: seq<T>, p: T -> bool): (r: seq<T>)
    ensures |r| <= |s|
    ensures forall i :: 0 <= i < |r| ==> p(r[i])
    ensures forall x :: x in r ==> x in s
  {
    if s == [] then []
    else if p(s[0]) then [s[0]] + Filter(s[1..], p)
    else Filter(s[1..], p)
  }

  /** Filtering distributes over concatenation: this, with the one-element
      case, is what "order-preserving sub-list" means. */
  lemma {:induction false} FilterAppend<T>(a: seq<T>, b: seq<T>, p: T -> bool)
    ensures Filter(a + b, p) == Filter(a, p) + Filter(b, p)
  {
    if a == [] {
      assert a + b == b;
    } else {
      assert (a + b)[0] == a[0];
      assert (a + b)[1..] == a[1..] + b;
      FilterAppend(a[1..], b, p);
    }
  }

  lemma FilterSingle<T>(x: T, p: T -> bool)
    ensures Filter([x], p) == if p(x) then [x] else []
  {
    assert [x][1..] == [];
  }

  /** Extending the input by one element extends the filtered output by that
      element exactly when it passes. */
  lemma FilterSnoc<T>(s: seq<T>, x: T, p: T -> bool)
    ensures Filter(s + [x], p) == Filter(s, p) + (if p(x) then [x] else [])
  {
    FilterAppend(s, [x], p);
    FilterSingle(x, p);
  }

  /** Position of the first element of `s` satisfying `p`, `|s|` when none
      does: the shape of every "try these in order, take the first" loop. */
  function FirstIndex<T>(s: seq<T>, p: T -> bool): (r: nat)
    ensures r <= |s|
    ensures r < |s| ==> p(s[r])
    ensures forall k :: 0 <= k < r ==> !p(s[k])
  {
    if s == [] then 0
    else if p(s[0]) then 0
    else 1 + FirstIndex(s[1..], p)
  }

  /** One 8-bit channel value of a decoded image. */
  type Byte = x: int | 0 <= x < 256

  /** A decoded, resized image with channel values scaled into [0, 1]. */
  type Image = seq<real>

  /** The scaling both loaders apply to a decoded image: `/ 255.0`. */
  function Normalise(pixels: seq<Byte>): (img: Image)
    ensures |img| == |pixels|
    ensures forall i :: 0 <= i < |img| ==> 0.0 <= img[i] <= 1.0 && img[i] * 255.0 == pixels[i] as real
  {
    seq(|pixels|, i requires 0 <= i < |pixels| => pixels[i] as real / 255.0)
  }

  /** The first index holding the largest score: `np.argmax`. */
  function ArgMax(scores: seq<real>): (r: nat)
    requires |scores| > 0
    ensures r < |scores|
    ensures forall k :: 0 <= k < |scores| ==> scores[k] <= scores[r]
    ensures forall k :: 0 <= k < r ==> scores[k] < scores[r]
  {
    if |scores| == 1 then 0
    else
      var rest := ArgMax(scores[..|scores| - 1]);
      if scores[|scores| - 1] > scores[rest] then |scores| - 1 else rest
  }
}
