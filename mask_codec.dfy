/** The RGB-mask <-> one-hot label codec over H×W×3 and H×W×K arrays. The colour
    map is an explicit parameter: entry i is the colour of class i (see
    Pixel.ColorMap for how it arises from the class table). */
module MaskCodec {
  import opened Pixel

  datatype CodecError =
    | EmptyChannelAxis  // the arg-max of an empty channel axis is undefined

  datatype Result<T> = Ok(value: T) | Err(error: CodecError)

  /** Pixel (r, c) of an RGB mask as a colour. */
  function PixelAt(m: array3<byte>, r: int, c: int): Rgb
    reads m
    requires 0 <= r < m.Length0 && 0 <= c < m.Length1 && m.Length2 == 3
  {
    Rgb(m[r, c, 0], m[r, c, 1], m[r, c, 2])
  }

  /** The channel vector at pixel (r, c) of an H×W×K tensor. */
  function Channels(a: array3<int>, r: int, c: int): seq<int>
    reads a
    requires 0 <= r < a.Length0 && 0 <= c < a.Length1
  {
    seq(a.Length2, k requires 0 <= k < a.Length2 reads a => a[r, c, k])
  }

  /** One-hot encoding of an RGB mask: an H×W×K tensor, K the number of classes,
      whose channel i is 1 exactly at the pixels whose three components equal
      those of class i's colour, and 0 everywhere else. A colour outside the
      map leaves all channels 0; an empty map gives an H×W×0 tensor. */
  method Encode(m: array3<byte>, cmap: seq<Rgb>) returns (e: array3<int>)
    requires m.Length2 == 3
    ensures fresh(e)
    ensures e.Length0 == m.Length0 && e.Length1 == m.Length1 && e.Length2 == |cmap|
    ensures forall r, c, i :: 0 <= r < e.Length0 && 0 <= c < e.Length1 && 0 <= i < e.Length2 ==>
      e[r, c, i] == Indicator(PixelAt(m, r, c), cmap)[i]
  {
    var h, w, k := m.Length0, m.Length1, |cmap|;
    e := new int[h, w, k]((r, c, i) => 0);
    for i := 0 to k
      invariant forall r, c, j :: 0 <= r < h && 0 <= c < w && 0 <= j < k ==>
        e[r, c, j] == if j < i then Indicator(PixelAt(m, r, c), cmap)[j] else 0
    {
      for r := 0 to h
        invariant forall r', c, j :: 0 <= r' < h && 0 <= c < w && 0 <= j < k ==>
          e[r', c, j] == if j < i || (j == i && r' < r) then Indicator(PixelAt(m, r', c), cmap)[j] else 0
      {
        for c := 0 to w
          invariant forall r', c', j :: 0 <= r' < h && 0 <= c' < w && 0 <= j < k ==>
            e[r', c', j] == if j < i || (j == i && (r' < r || (r' == r && c' < c))) then Indicator(PixelAt(m, r', c'), cmap)[j] else 0
        {
          e[r, c, i] := if PixelAt(m, r, c) == cmap[i] then 1 else 0;
        }
      }
    }
  }

  /** The arg-max over the channel axis: an H×W array of class indices, each the
      first maximal channel of its pixel. */
  method ArgMaxLastAxis(onehot: array3<int>) returns (single: array2<nat>)
    requires onehot.Length2 > 0
    ensures fresh(single)
    ensures single.Length0 == onehot.Length0 && single.Length1 == onehot.Length1
    ensures forall r, c :: 0 <= r < single.Length0 && 0 <= c < single.Length1 ==>
      single[r, c] < onehot.Length2 &&
      (forall j :: 0 <= j < onehot.Length2 ==> onehot[r, c, j] <= onehot[r, c, single[r, c]]) &&
      (forall j :: 0 <= j < single[r, c] ==> onehot[r, c, j] < onehot[r, c, single[r, c]])
    ensures forall r, c :: 0 <= r < single.Length0 && 0 <= c < single.Length1 ==>
      single[r, c] == ArgMax(Channels(onehot, r, c))
  {
    var h, w := onehot.Length0, onehot.Length1;
    single := new nat[h, w]((r, c) => 0);
    for r := 0 to h
      invariant forall r', c :: 0 <= r' < r && 0 <= c < w ==>
        single[r', c] == ArgMax(Channels(onehot, r', c))
    {
      for c := 0 to w
        invariant forall r', c' :: 0 <= r' < h && 0 <= c' < w && (r' < r || (r' == r && c' < c)) ==>
          single[r', c'] == ArgMax(Channels(onehot, r', c'))
      {
        single[r, c] := ArgMax(Channels(onehot, r, c));
      }
    }
    forall r, c | 0 <= r < h && 0 <= c < w
      ensures single[r, c] < onehot.Length2
      ensures forall j :: 0 <= j < onehot.Length2 ==> onehot[r, c, j] <= onehot[r, c, single[r, c]]
      ensures forall j :: 0 <= j < single[r, c] ==> onehot[r, c, j] < onehot[r, c, single[r, c]]
    {
      var v := Channels(onehot, r, c);
      assert forall j :: 0 <= j < onehot.Length2 ==> v[j] == onehot[r, c, j];
    }
  }

  /** Decoding of a score tensor: each pixel takes the colour of its first maximal
      channel's class, and stays black when that index has no colour in the map.
      An empty channel axis is an error. */
  method Decode(onehot: array3<int>, cmap: seq<Rgb>) returns (res: Result<array3<byte>>)
    ensures res.Err? <==> onehot.Length2 == 0
    ensures res.Ok? ==> fresh(res.value)
    ensures res.Ok? ==>
      res.value.Length0 == onehot.Length0 && res.value.Length1 == onehot.Length1 &&
      res.value.Length2 == 3
    ensures res.Ok? ==> forall r, c :: 0 <= r < onehot.Length0 && 0 <= c < onehot.Length1 ==>
      PixelAt(res.value, r, c) == DecodePixel(Channels(onehot, r, c), cmap)
  {
    if onehot.Length2 == 0 {
      return Err(EmptyChannelAxis);
    }
    var single := ArgMaxLastAxis(onehot);
    var h, w := onehot.Length0, onehot.Length1;
    var out := new byte[h, w, 3]((r, c, j) => 0);
    for k := 0 to |cmap|
      modifies out
      invariant forall r, c :: 0 <= r < h && 0 <= c < w ==>
        PixelAt(out, r, c) == if single[r, c] < k then cmap[single[r, c]] else Black
    {
      PaintClass(out, single, k, cmap[k]);
    }
    forall r, c | 0 <= r < h && 0 <= c < w
      ensures PixelAt(out, r, c) == DecodePixel(Channels(onehot, r, c), cmap)
    {
      assert single[r, c] == ArgMax(Channels(onehot, r, c));
    }
    return Ok(out);
  }

  /** One pass of the decoding loop: every pixel whose arg-max is class k takes
      class k's colour; every other pixel keeps its colour. */
  method PaintClass(out: array3<byte>, single: array2<nat>, k: nat, col: Rgb)
    requires out.Length0 == single.Length0 && out.Length1 == single.Length1 && out.Length2 == 3
    modifies out
    ensures forall r, c :: 0 <= r < out.Length0 && 0 <= c < out.Length1 ==>
      PixelAt(out, r, c) == if single[r, c] == k then col else old(PixelAt(out, r, c))
  {
    var h, w := out.Length0, out.Length1;
    for r := 0 to h
      invariant forall r', c :: 0 <= r' < h && 0 <= c < w ==>
        PixelAt(out, r', c) == if single[r', c] == k && r' < r then col else old(PixelAt(out, r', c))
    {
      for c := 0 to w
        invariant forall r', c' :: 0 <= r' < h && 0 <= c' < w ==>
          PixelAt(out, r', c') ==
            if single[r', c'] == k && (r' < r || (r' == r && c' < c)) then col else old(PixelAt(out, r', c'))
      {
        if single[r, c] == k {
          out[r, c, 0], out[r, c, 1], out[r, c, 2] := col.r, col.g, col.b;
        }
      }
    }
  }

  /** Round trip: a mask whose every pixel has a colour of the map decodes from its
      encoding to itself, entry by entry; the only failure is an empty map. */
  method EncodeDecode(m: array3<byte>, cmap: seq<Rgb>) returns (res: Result<array3<byte>>)
    requires m.Length2 == 3
    requires forall r, c :: 0 <= r < m.Length0 && 0 <= c < m.Length1 ==> PixelAt(m, r, c) in cmap
    ensures res.Err? <==> |cmap| == 0
    ensures res.Ok? ==> fresh(res.value)
    ensures res.Ok? ==>
      res.value.Length0 == m.Length0 && res.value.Length1 == m.Length1 && res.value.Length2 == 3
    ensures res.Ok? ==> forall r, c, j :: 0 <= r < m.Length0 && 0 <= c < m.Length1 && 0 <= j < 3 ==>
      res.value[r, c, j] == m[r, c, j]
  {
    var e := Encode(m, cmap);
    res := Decode(e, cmap);
    if res.Ok? {
      forall r, c | 0 <= r < m.Length0 && 0 <= c < m.Length1
        ensures res.value[r, c, 0] == m[r, c, 0] && res.value[r, c, 1] == m[r, c, 1]
        ensures res.value[r, c, 2] == m[r, c, 2]
      {
        assert Channels(e, r, c) == Indicator(PixelAt(m, r, c), cmap) by {
          assert forall j :: 0 <= j < |cmap| ==> Channels(e, r, c)[j] == Indicator(PixelAt(m, r, c), cmap)[j];
        }
        PixelRoundTrip(PixelAt(m, r, c), cmap);
        assert PixelAt(res.value, r, c) == DecodePixel(Channels(e, r, c), cmap);
      }
    }
  }
}
