# Segmentation mask codec

A Dafny model of the label codec used to train and evaluate a CamVid semantic
segmentation network. The codec translates between two forms of the same label:

- an RGB mask: an H×W×3 image in which each class is drawn in its own colour;
- a one-hot tensor: an H×W×K array, where K is the number of classes, with one
  0/1 channel per class.

`preprocess_mask` encodes an RGB mask as a one-hot tensor. `onehot_to_rgb`
decodes a score tensor back to an RGB mask. For each pixel it picks the arg-max
channel, with ties going to the lowest index, and writes that class's colour.
The colour map comes from the class table: row i of the table becomes class i.

Files:

- `pixel.dfy` (module `Pixel`) holds the per-pixel meaning of the codec. It has
  colours (`byte`, `Rgb`), the class table and the dictionary built from it
  (`Id2Code`, `ColorMap`), and the one-hot vector a colour encodes to
  (`Indicator`). It also has the first-maximum arg-max (`ArgMax`), the colour a
  score vector decodes to (`DecodePixel`), and the lemmas about them.
- `mask_codec.dfy` (module `MaskCodec`) holds the codec over arrays. `Encode`
  allocates a zero H×W×K buffer and fills channel i in a loop over classes.
  `Decode` computes the arg-max over the channel axis (`ArgMaxLastAxis`),
  allocates a zero H×W×3 buffer, and paints the pixels of class k in a loop over
  the colour map's keys (`PaintClass`). `EncodeDecode` composes the two.
  Each method is proved against the functions in `Pixel`.

The global default `colormap = id2code` becomes an explicit parameter `cmap`, a
sequence whose entry i is the colour of class i. `ColorMap` shows that this
sequence agrees with the dictionary on its keys 0..K-1.

What the code does at its edges, which the model keeps:

- No error is raised for an empty colour map: `preprocess_mask` returns an
  H×W×0 tensor.
- The only failure of `onehot_to_rgb` is `np.argmax` over an empty channel axis
  (`Err(EmptyChannelAxis)`). It does not depend on the colour map.
- The channel count of the score tensor is not checked against the colour map.
  A pixel whose arg-max index has no colour in the map keeps the zero colour
  (0,0,0) of the output buffer. `DecodePixel` models this.
- Duplicate colours in the colour map are accepted and never raise. A colour
  shared by several classes encodes to a vector with several 1 channels.

The round trip on in-map colours holds whether or not the colours are distinct:
the arg-max picks the first class of the pixel's colour, and that class's colour
is the pixel's own. Distinct colours are needed for the channel sum to be at
most 1, and for the recovered class index to be the pixel's only class.

## Model

| member | source | states |
|---|---|---|
| `Pixel.LookupByName` | utils.py:15 | In a table with unique class names, looking a name up gives a colour exactly when some row has that name, and then it is that row's colour. |
| `Pixel.Id2Code` | utils.py:15 | For a table with unique class names, the dictionary's keys are exactly 0..K-1. Key i holds the colour found by looking up row i's name, which is row i's own colour. |
| `Pixel.ColorMap` | utils.py:15 | The sequence the codec indexes has one entry per table row, and entry i is defined in, and equal to, the dictionary's entry for key i. |
| `Pixel.ArgMax` | utils.py:40 | The chosen channel is in range. No channel exceeds it, and every channel before it is strictly smaller, so ties go to the lowest index as with `np.argmax`. |
| `Pixel.SumIndicatorCounts` | utils.py:28-29 | The channel sum of an encoded pixel equals the number of classes whose colour matches the pixel in all three components. |
| `Pixel.InMapIffNonZero` | utils.py:28-29 | An encoded pixel has a non-zero channel sum if and only if its colour is in the colour map. |
| `Pixel.OneHot` | utils.py:28-29 | With pairwise distinct colours, an encoded pixel's channel sum is 1 when its colour is in the map and 0 otherwise. |
| `Pixel.UnknownColor` | utils.py:27-43 | A colour outside a non-empty map encodes to the all-zero vector, without error. That vector decodes to class 0's colour, which is the lossy case. |
| `Pixel.ZeroVectorSelectsFirst` | utils.py:40 | The arg-max of an all-zero vector is channel 0. |
| `Pixel.LabelRecovered` | utils.py:29-40 | Encoding class k's colour and taking the arg-max gives k when no earlier class has that colour. |
| `Pixel.DistinctLabelRecovered` | utils.py:29-40 | With distinct colours, the arg-max of the encoding of class k's colour is k. |
| `Pixel.PixelRoundTrip` | utils.py:29-43 | Any colour in the map decodes from its encoding back to itself, whether or not the map's colours are distinct. |
| `MaskCodec.Encode` | utils.py:25-30 | The result is a new array of shape H×W×K with K = len(colormap). Entry (r,c,i) is 1 iff all three components of pixel (r,c) equal class i's colour, and 0 otherwise. Unknown colours therefore give all zeros. |
| `MaskCodec.ArgMaxLastAxis` | utils.py:40 | The result is a new H×W array. Each entry is a channel index of that pixel that is maximal and has no equal or greater channel before it. |
| `MaskCodec.Decode` | utils.py:40-44 | An empty channel axis is the only error. Otherwise the result is a new H×W×3 array of bytes, and each pixel is `DecodePixel` of its channel vector: the colour of its first maximal class, or (0,0,0) when that index is not a key of the map. |
| `MaskCodec.PaintClass` | utils.py:42-43 | One pass of the key loop writes class k's colour into exactly the pixels whose arg-max is k and leaves every other pixel as it was. So each pixel is written in one pass only, and the key order does not matter. |
| `MaskCodec.EncodeDecode` | utils.py:18-44 | For a mask whose pixels all have colours in the map, decoding its encoding gives a new array that reproduces the mask entry by entry. The only failure is an empty colour map. |

## Left out

- Model.py: it only assembles framework layers (convolution, batch normalisation, dropout) and plots the model. It has no codec logic.
- `trainGenerator` and `validationGenerator`: they do directory I/O and random augmentation inside the deep-learning framework. Their only codec step is the per-mask call to `preprocess_mask`, which `Encode` models.
- `predict_visualize`: image file reading, resizing, model inference, floating-point normalisation, alpha blending and plotting are all external library calls.
- Loading the class table from a fixed CSV path is file I/O. The table is a parameter (`seq<ClassRow>`) instead.
- Pixel.Id2Code: requires unique class names. The source looks each colour up by name (`labels.loc[cl, :]`). With a duplicated name that lookup returns several rows, the dictionary entry becomes the column labels instead of a colour, and `onehot_to_rgb` then fails converting them. The model does not cover that failure.
- Floating-point scores: `Decode` takes integer channel values. The arg-max needs only a total order, and the float predictions come from the framework.
- The `np.uint8` cast at the end of `onehot_to_rgb` is modelled as the identity. Colours are bytes (0..255) in the model, so the cast never changes a value. Table entries outside 0..255 are not modelled.
- `MaskCodec.Encode`: requires an H×W×3 mask, as `preprocess_mask`'s documentation demands. It does not model numpy's reshape errors or reinterpretation for other channel counts. Pixels are compared in row-major loops instead of on a flattened (H·W)×3 view; the two give the same entries.
- Vectorisation: numpy fills whole channels and masked regions at once. The model fills them element by element in row-major order, which gives the same final arrays.
