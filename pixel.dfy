/** Colours, the class colour table, and the per-pixel meaning of the mask codec:
    the one-hot vector a colour encodes to, and the colour an arbitrary score
    vector decodes to (first maximal channel, looked up in the colour map). */
module Pixel {

  /** An unsigned 8-bit channel value, as held by an RGB mask image. */
  newtype byte = x: int | 0 <= x < 256

  /** One RGB triple. */
  datatype Rgb = Rgb(r: byte, g: byte, b: byte)

  /** The colour an output pixel keeps when no class writes it (the zero buffer). */
  const Black := Rgb(0, 0, 0)

  /** One row of the class-definition table: the class name and its colour. */
  datatype ClassRow = ClassRow(name: string, color: Rgb)

  datatype Option<T> = None | Some(value: T)

  /** No two rows of the class table share a name. */
  ghost predicate UniqueNames(table: seq<ClassRow>) {
    forall i, j :: 0 <= i < j < |table| ==> table[i].name != table[j].name
  }

  /** Looking a class up by its name in a table whose names are unique: the colour
      of the row carrying that name, or None when no row carries it. */
  function LookupByName(table: seq<ClassRow>, name: string): (col: Option<Rgb>)
    requires UniqueNames(table)
    ensures col.Some? <==> exists i :: 0 <= i < |table| && table[i].name == name
    ensures forall i :: 0 <= i < |table| && table[i].name == name ==> col == Some(table[i].color)
  {
    if table == [] then None
    else if table[0].name == name then Some(table[0].color)
    else
      var col := LookupByName(table[1..], name);
      assert forall i :: 1 <= i < |table| ==> table[i] == table[1..][i - 1];
      col
  }

  /** The class-index -> colour dictionary: the table's rows are enumerated in
      order, row i becomes key i, and its colour is looked up by the row's name.
      Its keys are exactly 0..K-1 and key i holds the colour of row i. */
  function Id2Code(table: seq<ClassRow>): (m: map<int, Rgb>)
    requires UniqueNames(table)
    ensures forall i :: i in m <==> 0 <= i < |table|
    ensures forall i :: 0 <= i < |table| ==> m[i] == table[i].color
  {
    map i | 0 <= i < |table| :: LookupByName(table, table[i].name).value
  }

  /** The colour map as the codec indexes it: entry i is the colour of class i. */
  function ColorMap(table: seq<ClassRow>): (cmap: seq<Rgb>)
    requires UniqueNames(table)
    ensures |cmap| == |table|
    ensures forall i :: 0 <= i < |cmap| ==> i in Id2Code(table) && cmap[i] == Id2Code(table)[i]
  {
    seq(|table|, i requires 0 <= i < |table| => table[i].color)
  }

  /** No two classes share a colour. */
  ghost predicate Distinct(cmap: seq<Rgb>) {
    forall i, j :: 0 <= i < j < |cmap| ==> cmap[i] != cmap[j]
  }

  /** The one-hot vector pixel colour p encodes to: channel i is 1 exactly when
      all three components of p equal those of cmap[i], and 0 otherwise. */
  function Indicator(p: Rgb, cmap: seq<Rgb>): seq<int> {
    seq(|cmap|, i requires 0 <= i < |cmap| => if cmap[i] == p then 1 else 0)
  }

  /** The sum of a channel vector. */
  function Sum(v: seq<int>): int {
    if v == [] then 0 else Sum(v[..|v| - 1]) + v[|v| - 1]
  }

  /** Index of the first maximal channel: every channel is at most the chosen one,
      and every channel before it is strictly smaller (ties go to the lowest index). */
  function ArgMax(v: seq<int>): (k: nat)
    requires |v| > 0
    ensures k < |v|
    ensures forall j :: 0 <= j < |v| ==> v[j] <= v[k]
    ensures forall j :: 0 <= j < k ==> v[j] < v[k]
  {
    if |v| == 1 then 0
    else
      var k := ArgMax(v[..|v| - 1]);
      if v[k] < v[|v| - 1] then |v| - 1 else k
  }

  /** The colour a score vector decodes to: the colour of its arg-max class, or
      black when the arg-max index has no entry in the colour map. */
  function DecodePixel(v: seq<int>, cmap: seq<Rgb>): Rgb
    requires |v| > 0
  {
    var k := ArgMax(v);
    if k < |cmap| then cmap[k] else Black
  }

  /** The channel sum of an encoded pixel counts how many classes carry its colour. */
  lemma {:induction false} SumIndicatorCounts(p: Rgb, cmap: seq<Rgb>)
    ensures Sum(Indicator(p, cmap)) == multiset(cmap)[p]
  {
    if cmap != [] {
      var n := |cmap| - 1;
      SumIndicatorCounts(p, cmap[..n]);
      assert Indicator(p, cmap)[..n] == Indicator(p, cmap[..n]);
      assert cmap == cmap[..n] + [cmap[n]];
      assert multiset(cmap) == multiset(cmap[..n]) + multiset{cmap[n]};
    }
  }

  /** With distinct colours, each colour occurs at most once in the map. */
  lemma {:induction false} DistinctOccursOnce(p: Rgb, cmap: seq<Rgb>)
    requires Distinct(cmap)
    ensures multiset(cmap)[p] == if p in cmap then 1 else 0
  {
    if cmap != [] {
      var n := |cmap| - 1;
      assert cmap == cmap[..n] + [cmap[n]];
      assert multiset(cmap) == multiset(cmap[..n]) + multiset{cmap[n]};
      DistinctOccursOnce(p, cmap[..n]);
      if cmap[n] == p {
        assert p !in cmap[..n];
      }
    }
  }

  /** An encoded pixel has a non-zero channel exactly when its colour is in the map. */
  lemma InMapIffNonZero(p: Rgb, cmap: seq<Rgb>)
    ensures Sum(Indicator(p, cmap)) > 0 <==> p in cmap
  {
    SumIndicatorCounts(p, cmap);
  }

  /** The one-hot invariant: with distinct colours an encoded pixel has channel
      sum 1 when its colour is in the map and 0 when it is not. */
  lemma OneHot(p: Rgb, cmap: seq<Rgb>)
    requires Distinct(cmap)
    ensures Sum(Indicator(p, cmap)) == if p in cmap then 1 else 0
  {
    SumIndicatorCounts(p, cmap);
    DistinctOccursOnce(p, cmap);
  }

  /** A colour outside the map encodes to the all-zero vector, which decodes to
      the colour of class 0 (the lossy case). */
  lemma UnknownColor(p: Rgb, cmap: seq<Rgb>)
    requires p !in cmap && |cmap| > 0
    ensures forall i :: 0 <= i < |cmap| ==> Indicator(p, cmap)[i] == 0
    ensures DecodePixel(Indicator(p, cmap), cmap) == cmap[0]
  {
    ZeroVectorSelectsFirst(Indicator(p, cmap));
  }

  /** An all-zero score vector selects channel 0 (ties go to the lowest index). */
  lemma ZeroVectorSelectsFirst(v: seq<int>)
    requires |v| > 0 && forall j :: 0 <= j < |v| ==> v[j] == 0
    ensures ArgMax(v) == 0
  {
  }

  /** Encoding a colour of the map and taking the arg-max gives the first class of
      that colour; with distinct colours that is the class the colour belongs to. */
  lemma LabelRecovered(p: Rgb, cmap: seq<Rgb>, k: nat)
    requires k < |cmap| && cmap[k] == p
    requires forall j :: 0 <= j < k ==> cmap[j] != p
    ensures ArgMax(Indicator(p, cmap)) == k
  {
    var v := Indicator(p, cmap);
    assert v[k] == 1;
  }

  /** With distinct colours, the arg-max of the encoding of class k's colour is k. */
  lemma DistinctLabelRecovered(cmap: seq<Rgb>, k: nat)
    requires Distinct(cmap) && k < |cmap|
    ensures ArgMax(Indicator(cmap[k], cmap)) == k
  {
    LabelRecovered(cmap[k], cmap, k);
  }

  /** Per-pixel round trip: a colour in the map decodes back to itself, whether
      or not the map's colours are distinct. */
  lemma PixelRoundTrip(p: Rgb, cmap: seq<Rgb>)
    requires p in cmap
    ensures DecodePixel(Indicator(p, cmap), cmap) == p
  {
    var v := Indicator(p, cmap);
    var i :| 0 <= i < |cmap| && cmap[i] == p;
    assert v[i] == 1;
  }
}
