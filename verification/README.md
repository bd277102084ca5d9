# MNIST readers, bitmap tiling and layer shapes

A Dafny model of the C++ code that reads and displays the MNIST data:

- the IDX readers of `mnist.h`. `ConvertEndian` swaps the byte order of a
  `uint32_t`. `ReadImageData` and `ReadLabelData` open a file, check its
  magic number, read the big-endian header fields and resize a byte vector
  to the announced size.
- the duplicate readers at the top of `fnn/fnn.cpp`. They are written the
  way the C++ runs them: a stream position, `resize`, then `read` into the
  vector. Each is proved equal to the `mnist.h` reader.
- the `mnist2bmp` converter. It computes the 8-bit BMP header (size fields,
  row padding to four bytes, grey palette) and the tiling plan: images
  per row, image rows, bitmap width and height, buffer sizes. Its band loop
  clears a band buffer, reads one image per slot, and `memcpy`s the rows of
  each image into its slot. The loop is proved to produce a reference bitmap
  defined directly from the images.
- the sizes and indices of the draft layer classes in `fnn/fnn.cpp`:
  `Layer`, `LinearLayer`, `ActivationLayer` and `SigmoidLayer`. The two
  `forward` loops record every buffer access they make, and every access is
  shown to stay in bounds when no 32-bit size wraps (for `LinearLayer`,
  when `numInputs * numOutputs` fits in 32 bits).

C `uint32_t` arithmetic is modelled explicitly (`Machine.Add`, `Mul`,
`Div`, each modulo 2^32). A file is either `Unopenable` or the byte
sequence it holds. The host is little-endian, so a
four-byte `read` into `tmp` followed by `ConvertEndian` yields the
big-endian value of the four bytes (`Endian.LoadThenSwapIsBigEndian`).

Modules, in dependency order:

- `Machine`: 32-bit unsigned words and their wrap-around.
- `Arith`: products of sizes and indices.
- `Endian`: the byte swap.
- `Idx`: the `mnist.h` readers as functions, plus an IDX encoder as their
  partner.
- `FnnReader`: the `fnn.cpp` readers as methods.
- `BmpHeader`: the header structs and their bytes.
- `Tiling`: the layout arithmetic of `mnist2bmp`.
- `Raster`: cells drawn into padded rows with `memcpy`.
- `Mnist2Bmp`: the band loop and the whole conversion.
- `Layers`: the layer shapes.

The code and the format description disagree in one place. IDX label files
carry magic number 0x801, and `mnist.h` declares it as
`mnist_label_header_flag`. Yet both label readers reject any magic other
than 0x803. The model follows the code (`Idx.ReadLabelData`) and keeps the
evidently intended reader beside it (`Idx.ReadLabelDataIntended`); see
Findings.

## Model

| member | source | states |
|---|---|---|
| Endian.ConvertEndian | mnist.h:21-24 | byte k of the result is byte 3 - k of the argument |
| Endian.SwapDeterminedByBytes | mnist.h:21-24 | the byte-wise contract of `ConvertEndian` fixes its result: a word whose bytes are those of n reversed is the swap of n |
| Endian.LoadLittleEndian | mnist.h:33-34 | the four bytes `read` puts into `tmp` are its bytes from the least significant end on a little-endian host |
| Endian.ConvertEndianInvolution | mnist.h:21-24 | swapping twice gives back the word |
| Endian.LoadThenSwapIsBigEndian | mnist.h:33-35 | a four-byte read on a little-endian host followed by `ConvertEndian` is the big-endian value of the four bytes |
| Idx.ReadWord | mnist.h:34-35 | a header field is the big-endian number at its offset |
| Idx.ImageDataSizeWraps | mnist.h:47 | `dataSize` is imageCount * rowCount * columnCount modulo 2^32, and exactly that product when it fits in 32 bits |
| Idx.ReadImageData | mnist.h:26-51 | success iff the file opens and its first word is 0x803; on success the header holds the four big-endian words and the data is the next `dataSize` bytes; an unopenable file leaves header and data untouched; a wrong magic number is stored in the header and the data is left alone |
| Idx.ReadLabelData | mnist.h:53-74 | success iff the file opens and its first word is 0x803 (not 0x801); on success the header holds magic and count and the data is the next `labelCount` bytes; failures as for images |
| Idx.ReadLabelDataIntended | mnist.h:5 | the reader with the declared label flag: success iff the first word is 0x801, with the same header and data on success |
| Idx.ReadLabelDataWith | mnist.h:53-74 | the label reader for any accepted magic number: success iff the first word equals it, header and data as above |
| Idx.EncodeWordInverse | mnist.h:34-35 | writing a word in four big-endian bytes and reading it back gives the word |
| Idx.ImageFileFields | mnist.h:40-45 | an encoded image file carries each header field at the offset the reader takes it from, and the pixels after byte 16 |
| Idx.LabelFileFields | mnist.h:67-68 | an encoded label file carries magic and count at offsets 0 and 4, and the labels after byte 8 |
| Idx.ReadImageOfFields | mnist.h:26-51 | any byte string with magic 0x803, the three counts and exactly `dataSize` pixel bytes reads back as that header and those pixels |
| Idx.ReadLabelOfFields | mnist.h:53-74 | any byte string with the accepted magic, a count and that many labels reads back as that header and those labels |
| Idx.ImageRoundTrip | mnist.h:26-51 | reading an encoded image file returns its header and pixels, whatever the vector held before |
| Idx.ImageWrongMagicRejected | mnist.h:36-39 | an image file with another magic number is refused, with that number left in the header |
| Idx.StandardLabelFileRejected | mnist.h:60-66 | a well-formed label file with the standard magic 0x801 is refused: the result is false, the header keeps 0x801 as its magic number and the data vector is untouched |
| Idx.LabelRoundTrip | mnist.h:53-74 | a label file stamped 0x803 reads back as its header and labels |
| Idx.LabelIntendedRoundTrip | mnist.h:5 | with the declared flag 0x801 accepted, every well-formed label file reads back as its header and labels |
| Idx.SmallImageFileExample | mnist.h:26-51 | a concrete 24-byte file of two 2x2 images reads as magic 0x803, counts 2, 2, 2 and pixels 1..8 |
| FnnReader.ConvertEndian | fnn/fnn.cpp:21-24 | the second copy of the swap computes the same word as the first |
| FnnReader.ReadWord | fnn/fnn.cpp:33-35 | reading four bytes at the stream position and swapping them gives the big-endian field, and the position advances by four |
| FnnReader.Resize | fnn/fnn.cpp:48 | `resize` gives length n, keeps the elements below n and fills the new ones with zero |
| FnnReader.ReadInto | fnn/fnn.cpp:49 | `read` overwrites the first n elements with the next n bytes, leaves the rest, and advances the position by n |
| FnnReader.ReadImageData | fnn/fnn.cpp:26-51 | the stream version returns exactly the `mnist.h` result for every file |
| FnnReader.ReadImageBody | fnn/fnn.cpp:40-50 | after a matching magic number the header gets the three words at offsets 4, 8 and 12, and the vector becomes the `dataSize` bytes after the header |
| FnnReader.ReadLabelData | fnn/fnn.cpp:53-74 | the stream version returns exactly the `mnist.h` result for every file |
| BmpHeader.BytesPerRow | mnist2bmp/mnist2bmp.cpp:11 | the `uint32_t` row size is a multiple of four for every width, even when the product wraps |
| BmpHeader.GetBytesPerRow | mnist2bmp/mnist2bmp.cpp:80-85 | the recomputed row size is a multiple of four, and for a non-negative width of an 8-bit or 24-bit header it is the padded row of one or three bytes per pixel |
| BmpHeader.RowPadding | mnist2bmp/mnist2bmp.cpp:10-11 | without wrap-around the bytes per row are a multiple of four, at least the pixel bytes and fewer than pixel bytes + 4 |
| BmpHeader.PadToFour | mnist2bmp/mnist2bmp.cpp:48 | the `uint32_t` expression `(m + 3) / 4 * 4` is m rounded up to a multiple of four |
| BmpHeader.Fill | mnist2bmp/mnist2bmp.cpp:51-67 | signature "BM", offset of pixels = header sizes + palette, image size = padded row * height (32-bit), file size = offset + image size (32-bit), width, negated height as 32-bit `LONG`, bits per pixel |
| BmpHeader.BmpFileHeader24 | mnist2bmp/mnist2bmp.cpp:8-31 | 24-bit header: no palette, pixels at byte 54, three bytes per pixel per row padded to four |
| BmpHeader.BmpFileHeader8 | mnist2bmp/mnist2bmp.cpp:45-78 | 8-bit header: pixels at byte 1078, and palette entry i is the grey (i, i, i, 0) for each of the 256 entries |
| BmpHeader.GetBytesPerRowAgrees | mnist2bmp/mnist2bmp.cpp:80-85 | `getBytesPerRow`, recomputed from the stored width and bit count, equals the row size the constructor used |
| BmpHeader.Serialize | mnist2bmp/mnist2bmp.cpp:123 | the header bytes written are 14 + 40 + 4 per palette entry long |
| BmpHeader.HeaderSizes8 | mnist2bmp/mnist2bmp.cpp:47-55 | without wrap-around the 8-bit header is 1078 bytes, `bfOffBits` is 1078 and `bfSize` is 1078 + padded row * height |
| BmpHeader.HeaderSizes24 | mnist2bmp/mnist2bmp.cpp:10-18 | without wrap-around the 24-bit header is 54 bytes and `bfSize` is 54 + padded row * height |
| Tiling.Plan | mnist2bmp/mnist2bmp.cpp:112-130 | the plan keeps the three header counts, clamps images per row to at least one, pads bitmap rows to a multiple of four, and plans no band for a file without images; the other sizes are the wrapped products, exact under `PlanExact` |
| Tiling.FileSizeModulo | mnist2bmp/mnist2bmp.cpp:48-52 | when every size but the file size fits in 32 bits, the header plus the bands the loop writes are `bfSize` bytes modulo 2^32 |
| Tiling.ImageCountWrapDropsImages | mnist2bmp/mnist2bmp.cpp:116 | 0xFFFFFFF0 images at 100 per row wrap `imageCount + imagePerRow - 1` and plan no band at all |
| Tiling.HeightWrapMisstatesSize | mnist2bmp/mnist2bmp.cpp:118-120 | 0x10000 images of 0x10000 rows, one per row, wrap the bitmap height to 0: the header announces no pixels while 0x10000 bands of 0x40000 bytes follow |
| Tiling.FileSizeWrapMisstatesSize | mnist2bmp/mnist2bmp.cpp:48-52 | 6,000,000 images of 28 by 28 at 1000 per row make 4,704,001,078 bytes, while `bfSize` says 409,033,782 |
| Tiling.ClampImagePerRow | mnist2bmp/mnist2bmp.cpp:112-115 | images per row is at least one, and unchanged when it already is |
| Tiling.PlanCeiling | mnist2bmp/mnist2bmp.cpp:116 | `(imageCount + imagePerRow - 1) / imagePerRow` is the least number of rows that holds every image |
| Tiling.ImageRowsIsCeiling | mnist2bmp/mnist2bmp.cpp:116 | a planned layout has the ceiling number of image rows, and none exactly when there are no images |
| Tiling.PaddedRowAgrees | mnist2bmp/mnist2bmp.cpp:125 | the bitmap row size is the width rounded up to four bytes |
| Tiling.PlanExact | mnist2bmp/mnist2bmp.cpp:112-130 | when no size wraps, every `uint32_t` size of the plan is the exact product it stands for |
| Tiling.MemcpyInBounds | mnist2bmp/mnist2bmp.cpp:144 | every `memcpy` destination lies inside its bitmap row and inside the band buffer |
| Tiling.RowInImage | mnist2bmp/mnist2bmp.cpp:144 | every `memcpy` source lies inside `mnistBuffer` |
| Tiling.PixelBytesMatchHeader | mnist2bmp/mnist2bmp.cpp:120-147 | when no 32-bit size wraps, the bands written are together exactly `biSizeImage` bytes, and header plus bands are `bfSize` bytes |
| Tiling.SizeImageExact | mnist2bmp/mnist2bmp.cpp:129-132 | the bytes of all bands equal `biSizeImage` and leave room for the header in 32 bits |
| Tiling.SlotBelowPlan | mnist2bmp/mnist2bmp.cpp:132-137 | every slot index the loops form lies below imageRows * imagePerRow |
| Tiling.BandStart | mnist2bmp/mnist2bmp.cpp:132-137 | every band starts at an image the file holds |
| Raster.FlattenIndex | mnist2bmp/mnist2bmp.cpp:144 | byte c of cell j sits at j * width + c of a row of cells |
| Raster.MemcpyMiddle | mnist2bmp/mnist2bmp.cpp:144 | a `memcpy` inside one row of the buffer changes only that row |
| Raster.FilledClear | mnist2bmp/mnist2bmp.cpp:134 | the cleared buffer is the raster with no cell drawn |
| Raster.FilledBlank | mnist2bmp/mnist2bmp.cpp:137-140 | cells that are all zero need not be drawn: the buffer already shows them |
| Raster.CopyCell | mnist2bmp/mnist2bmp.cpp:144 | copying cell m of row k draws it in place and changes nothing else |
| Raster.DrawColumn | mnist2bmp/mnist2bmp.cpp:142-145 | the row loop turns the buffer with m cells drawn per row into the one with m + 1 |
| Mnist2Bmp.Breaks | mnist2bmp/mnist2bmp.cpp:137 | the loop never breaks before a slot that holds an image, always breaks past slot imageCount, and breaks at slot imageCount only under `>=` |
| Mnist2Bmp.BreaksUnlessRead | mnist2bmp/mnist2bmp.cpp:137-140 | the loop breaks before a slot exactly when the slot is past the guard's read limit |
| Mnist2Bmp.ExtraReadAsWritten | mnist2bmp/mnist2bmp.cpp:137 | with `>` the loop makes imageCount + 1 reads whenever the last band is not full, and imageCount otherwise |
| Mnist2Bmp.SlotsReadIntended | mnist2bmp/mnist2bmp.cpp:137 | with `>=` the loop makes exactly imageCount reads |
| Mnist2Bmp.ReadImage | mnist2bmp/mnist2bmp.cpp:141 | each read leaves the next image in `mnistBuffer` and the stream at the image after it |
| Mnist2Bmp.FillSlot | mnist2bmp/mnist2bmp.cpp:141-145 | one slot pass reads the next image and draws it as column j of the band |
| Mnist2Bmp.FillSlots | mnist2bmp/mnist2bmp.cpp:135-146 | the slot loop stops at the end of the band or where the guard breaks, having drawn every slot before that |
| Mnist2Bmp.FinishBand | mnist2bmp/mnist2bmp.cpp:134-146 | the buffer the slot loop leaves is the reference band |
| Mnist2Bmp.RenderBand | mnist2bmp/mnist2bmp.cpp:133-147 | the band written is the reference band, and the reads so far are min((i + 1) * imagePerRow, read limit) |
| Mnist2Bmp.RenderPixels | mnist2bmp/mnist2bmp.cpp:132-148 | all bands together are the reference bitmap, imageRows * bmpBufferSize bytes, after `SlotsRead` reads |
| Mnist2Bmp.PixelPlacement | mnist2bmp/mnist2bmp.cpp:132-148 | pixel (k, c) of image i * imagePerRow + j appears in band i, bitmap row k, column j * columnCount + c |
| Mnist2Bmp.PaddingIsZero | mnist2bmp/mnist2bmp.cpp:134 | the padding bytes of every bitmap row are zero |
| Mnist2Bmp.UnreadSlotIsZero | mnist2bmp/mnist2bmp.cpp:134-140 | a slot the loop does not read stays zero |
| Mnist2Bmp.IntendedBlankTail | mnist2bmp/mnist2bmp.cpp:137 | with `>=` every slot past the last image is blank |
| Mnist2Bmp.AsWrittenRepeatsLastImage | mnist2bmp/mnist2bmp.cpp:137-144 | with `>`, when the last band is not full and the file ends after the last image, the slot after the last image shows the last image again |
| Mnist2Bmp.FileLayout | mnist2bmp/mnist2bmp.cpp:99-118 | the layout takes its image count, rows and columns from the header words at offsets 4, 8 and 12 and clamps images per row |
| Mnist2Bmp.Convert | mnist2bmp/mnist2bmp.cpp:90-149 | no bitmap iff the file cannot be opened or its magic is not 0x803; otherwise the output is the 8-bit header followed by the reference bitmap, exactly `bfSize` bytes, after `SlotsRead` image reads (imageCount with `>=`) |
| Layers.BaseLayer | fnn/fnn.cpp:190-195 | the base layer keeps both counts and has `numOutputs` features |
| Layers.NewLinearLayer | fnn/fnn.cpp:221-226 | a linear layer has numOutputs features and biases and (numInputs * numOutputs) mod 2^32 weights |
| Layers.NewSigmoidLayer | fnn/fnn.cpp:251-265 | a sigmoid layer has as many outputs, features and derivatives as inputs |
| Layers.LinearForward | fnn/fnn.cpp:228-239 | when the weight count does not wrap, every access is in bounds and the weights are read once each in storage order; in all cases exactly the features 0 .. numOutputs - 1 are written |
| Layers.ForwardOutput | fnn/fnn.cpp:230-238 | output n reads the weight row starting at numInputs * n and writes feature n |
| Layers.WeightInRow | fnn/fnn.cpp:233-236 | weight i of row n lies inside the weight buffer when its size does not wrap |
| Layers.SigmoidForward | fnn/fnn.cpp:267-275 | every access is in bounds, exactly the features 0 .. numOutputs - 1 are written, and every derivative is written |

## Left out

- File and stream I/O. A file is its byte sequence or `Unopenable`, and the
  bitmap file is the byte sequence written to it. Failure to create the
  output file is not modelled.
- Short reads. The readers never check how many bytes a `read` delivered.
  `Idx.ReadImageData`, `Idx.ReadLabelData` and the `FnnReader` methods
  require the file to hold every byte they read (`ImageFileComplete`,
  `LabelFileComplete`); the value of `tmp` after a failed read is unknown.
- Mnist2Bmp.Convert: requires `Convertible`. The file must hold every image
  its header announces, and no size in the plan may wrap in `uint32_t`
  (`Tiling.Fits`). The code checks neither, and the model does not follow
  it past these bounds. What it does there depends on the size that wraps:
  - `columnCount * imagePerRow + 3`, `columnCount * rowCount` or
    `bmpBytesPerRow * rowCount`: the buffers are smaller than the loop's
    reads and writes.
  - `imageCount + imagePerRow - 1`: the plan has fewer bands than the images
    need, possibly none; the bitmap drops images
    (`Tiling.ImageCountWrapDropsImages`).
  - `rowCount * imageRows`: `biHeight` and `biSizeImage` describe fewer
    rows than the bands written (`Tiling.HeightWrapMisstatesSize`).
  - `bmpBytesPerRow * bmpHeight + 1078`: the file written is `bfSize`
    bytes only modulo 2^32 (`Tiling.FileSizeModulo`,
    `Tiling.FileSizeWrapMisstatesSize`).
- Mnist2Bmp.AsWrittenRepeatsLastImage: stated for a file that ends right
  after its last image. If more bytes follow, the extra slot shows them
  instead; `Mnist2Bmp.SlotImage` defines both cases.
- Layers.LinearForward: the bounds are stated only when
  `numInputs * numOutputs` fits in 32 bits. Otherwise `m_weights` is
  shorter than the rows `forward` reads.
- Layers.LinearForward: the `+=` on `m_features[n]` is recorded as a write
  only; its read of the same element is not listed separately.
- Layers: the length of the `inputs` array is not visible in the code. The
  model takes it to be `numInputs`.
- Floating point. The values of weights, biases, features, sigmoid and
  derivative are not modelled, only the buffers and indices they use.
- `backward`, `update`, `LossFunction`, `MeanSquareError` and `FNN::batch`
  in fnn/fnn.cpp are left out. They are drafts that call members which do
  not exist.
- `main`, the empty `mnist2bmp()` stub in fnn/fnn.cpp, and the
  commented-out classes are left out.
- Windows struct packing. The header sizes are taken as the packed sizes
  14, 40 and 1024 (`#include <pshpack2.h>`). The byte order of the header
  fields is modelled as little-endian by `BmpHeader.Serialize`.
- regression/regression.cpp and download_data.py are not part of this
  model.

## Findings

| source | as written | input that shows it | evidently intended | confidence | as-written member | corrected member |
|---|---|---|---|---|---|---|
| mnist.h:63 (also fnn/fnn.cpp:63) | `ReadLabelData` accepts only magic number 0x803, the image flag | a label file beginning `00 00 08 01` (magic 0x801, count n, then n labels) is refused | compare with `mnist_label_header_flag` (0x801) | high; not executed | Idx.StandardLabelFileRejected | Idx.LabelIntendedRoundTrip |
| mnist2bmp/mnist2bmp.cpp:137 | the loop breaks only when `i * imagePerRow + j > imageCount`, so slot `imageCount` is read too | imageCount = 3, imagePerRow = 2, file of exactly three images: slot 3 reads nothing and shows image 2 again | `>=`: break at the first slot without an image | high; not executed | Mnist2Bmp.AsWrittenRepeatsLastImage | Mnist2Bmp.IntendedBlankTail |
