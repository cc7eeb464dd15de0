# ClearVision core in Dafny

A verified model of the in-memory core of ClearVision, a small C++ image toolkit:

- **`GrayscaleImage`** (`grayscale_image.dfy`) is a class over an `array2<int>`. It has:
  - the matrix, blank and copy constructors;
  - `get_pixel` and `set_pixel`;
  - structural `operator==`;
  - the clamping `operator+` and `operator-`. Like the source, these overwrite their left operand in place and then return a copy of it.
- **`SecretImage`** (`secret_image.dfy`) holds a square image as two flat arrays. `upper` holds every cell on or above the diagonal, and `lower` every cell below it, both in row-major order. The module models:
  - the split constructor and its non-square check;
  - the raw-array constructor;
  - `reconstruct` and `save_back`;
  - `save_to_file` and `load_from_file`, modelled over the text of the file.
- **`Crypto`** (`crypto.dfy`) is steganography in the least significant bit:
  - `encrypt_message` packs each character into 7 bits, least significant first;
  - `decrypt_message` unpacks them and refuses a bit count that is not a multiple of 7;
  - `embed_LSBits` writes one bit into bit 0 of each pixel, walking from the bottom-right corner leftwards and upwards;
  - `extract_LSBits` reads the bits back in the same order after a capacity check.

The methods are imperative, like the source: classes with `modifies` frames, arrays filled by loops with invariants. Each method is proved against a pure specification module:

- `triangular.dfy`: the split and the rebuild as functions of a matrix;
- `secret_format.dfy`: the file text, and a character-level reader that behaves like `>>` into an `int`;
- `lsb_codec.dfy`: bit packing, the reverse walk, and embedding as functions.

The round trips and layout facts are then proved as lemmas about those functions. `grid.dfy` holds clamping, bit 0, and division facts. `outcomes.dfy` holds the error kinds.

Each thrown `std::invalid_argument` becomes an `Err` result with its own kind:

| Kind | Raised when |
|---|---|
| `NotSquare` | splitting a non-square image |
| `DimensionMismatch` | `+` or `-` on images of different sizes |
| `NotEnoughPixels` | the image has too few pixels for the bits to embed or extract |
| `BadBitCount` | decoding a bit count that is not a multiple of 7 |
| `Truncated` | a saved secret image whose text ends early (see "Left out") |

Two behaviours of the source are worth knowing, because they are easy to miss:

- `embed_LSBits` changes the caller's pixels in place, and only then builds the secret image (`Crypto.cpp:65-76`). The split constructor throws on a non-square image only after those pixels were changed. `Crypto.EmbedLSBits` states both the mutation and the `NotSquare` result that follows it.
- `load_from_file` never checks whether its `>>` reads succeed (`SecretImage.cpp:101-112`). A file that ends early leaves the unread values unset. The model makes this an explicit `Truncated` result, as listed under "Left out".

## Model

| member | source | states |
|---|---|---|
| GrayscaleImages.GrayscaleImage.FromMatrix | ClearVision/GrayscaleImage.cpp:33-43 | The result has `height == h` and `width == w`, in the source's `(data, h, w)` argument order. Every cell `(i, j)` equals `input[i][j]`. The storage is fresh. |
| GrayscaleImages.GrayscaleImage.Blank | ClearVision/GrayscaleImage.cpp:46-54 | The result is `w` x `h` with every pixel 0, in fresh storage. |
| GrayscaleImages.GrayscaleImage.Copy | ClearVision/GrayscaleImage.cpp:57-67 | The copy has the same width, height and pixel matrix as `other`, in its own fresh storage. |
| GrayscaleImages.GrayscaleImage.GetPixel | ClearVision/GrayscaleImage.cpp:121-123 | Returns the pixel at `(row, col)` of the image's matrix. |
| GrayscaleImages.GrayscaleImage.SetPixel | ClearVision/GrayscaleImage.cpp:126-128 | Afterwards the cell holds `value`, so `GetPixel(row, col) == value`. Every other cell keeps its value. |
| GrayscaleImages.GrayscaleImage.Equals | ClearVision/GrayscaleImage.cpp:78-90 | True exactly when the widths, the heights and all pixels agree. Both directions are proved, so equality is reflexive. |
| GrayscaleImages.GrayscaleImage.Add | ClearVision/GrayscaleImage.cpp:93-104 | On a size mismatch, returns `DimensionMismatch` with no pixel touched. Otherwise every pixel of the receiver becomes `Clamp(old a + old b)`. The result is a copy equal to the updated receiver, in fresh storage of its own. `other` is unchanged unless it shares the receiver's storage. |
| GrayscaleImages.GrayscaleImage.Subtract | ClearVision/GrayscaleImage.cpp:107-118 | The same as `Add`, with `Clamp(old a - old b)`. |
| Grid.Clamp | ClearVision/GrayscaleImage.cpp:100 | The result is in `[0, 255]`. It is the identity inside that range and saturates to 0 or 255 outside it. |
| Grid.Lsb | ClearVision/Crypto.cpp:19 | `x & 1` is 0 or 1, and `x - (x & 1)` is even. |
| Grid.WithLsb | ClearVision/Crypto.cpp:68-70 | `(x & ~1) \| (b & 1)` has bit 0 equal to `b & 1` and keeps every higher bit (`r / 2 == x / 2`). It leaves `x` unchanged when the bits already agree. |
| Triangular.UpperSize | ClearVision/SecretImage.cpp:8 | `(w * (w + 1)) / 2` is a natural number for every `w`. For `w >= 0`, twice it is exactly `w * (w + 1)`. |
| Triangular.LowerSize | ClearVision/SecretImage.cpp:9 | `(w * (w - 1)) / 2` is a natural number for every `w`. For `w >= 0`, twice it is exactly `w * (w - 1)`. |
| Triangular.SizesCoverGrid | ClearVision/SecretImage.cpp:8-9 | The two sizes add up to `n * n`. |
| Triangular.CursorsEndAtSizes | ClearVision/SecretImage.cpp:16-27 | After the last row, cursor `k` has advanced exactly `UpperSize(n)` times and `l` exactly `LowerSize(n)` times. |
| Triangular.IndicesInBounds | ClearVision/SecretImage.cpp:48-58 | Every upper index the walk uses is below `w(w+1)/2`, and every lower index is below `w(w-1)/2`. |
| Triangular.SplitLayout | ClearVision/SecretImage.cpp:18-26 | The split arrays have the allocated sizes. Cell `(i, j)` with `j >= i` sits at its row-major upper index, and a cell with `j < i` at its lower index. |
| Triangular.RebuildOfSplit | ClearVision/SecretImage.cpp:46-60 | Rebuilding the split of a square matrix gives back the matrix, pixel for pixel. |
| Triangular.SplitOfRebuild | ClearVision/SecretImage.cpp:63-75 | Splitting a rebuilt matrix gives back both arrays, so `save_back(reconstruct())` changes nothing. |
| SecretImages.SecretImage.FromImage | ClearVision/SecretImage.cpp:4-28 | Copies the dimensions. `upper` and `lower` are exactly the split of the image's pixels, in fresh arrays of the allocated sizes. |
| SecretImages.SecretImage.Split | ClearVision/SecretImage.cpp:10-14 | A non-square image is refused with `NotSquare` before anything is allocated. Otherwise the result is what `FromImage` states. |
| SecretImages.SecretImage.FromArrays | ClearVision/SecretImage.cpp:31-36 | Stores the given dimensions and takes the two arrays themselves, not copies. |
| SecretImages.SecretImage.Walk | ClearVision/SecretImage.cpp:16-27 | The row-major walk shared by the split constructor and `save_back`. The arrays afterwards are `Upper` and `Lower` of the image's top-left `n` x `n` corner. |
| SecretImages.SecretImage.Reconstruct | ClearVision/SecretImage.cpp:46-60 | The result is fresh and has the stored width and height. Its pixels are `Rebuild` of the two arrays, and its split is the two arrays again. |
| SecretImages.SecretImage.RebuildRow | ClearVision/SecretImage.cpp:51-57 | One row of the reconstruction. The cursors move from the starts of row `i` to the starts of row `i + 1`, and the row's pixels are the rebuilt cells. |
| SecretImages.SecretImage.SaveBack | ClearVision/SecretImage.cpp:63-75 | Both arrays are overwritten with the split of the image's `width` x `width` corner. With `Reconstruct` and `RebuildOfSplit`, `save_back(img)` and then `reconstruct()` yields `img`. |
| SecretImages.SecretImage.SaveToFile | ClearVision/SecretImage.cpp:78-93 | The text written is `Format(width, height, upper, lower)`: the header line, then both value lines, single-spaced, with no trailing space, each ending in a newline. |
| SecretImages.SecretImage.WriteLine | ClearVision/SecretImage.cpp:84-86 | The loop that writes one value line produces `Joined(values)`. |
| SecretImages.SecretImage.LoadFromFile | ClearVision/SecretImage.cpp:96-116 | When the text parses, the result has the parsed width, height and arrays, in freshly allocated arrays. When it runs out or holds a non-number first, the result is `Truncated`. |
| SecretImages.SecretImage.ReadValues | ClearVision/SecretImage.cpp:107-112 | `count` successive `>>` reads into a fresh array. It succeeds exactly when the reader can read `count` integers, and then returns those integers and the unread rest. |
| SecretFormat.Parse | ClearVision/SecretImage.cpp:101-112 | A successful parse has `w(w+1)/2` upper and `w(w-1)/2` lower values, with both sizes taken from the width alone. |
| SecretFormat.ReadIntText | ClearVision/SecretImage.cpp:102 | An integer printed by `<<`, negative ones included, reads back as itself through `>>`, after any white space and before a non-digit. |
| SecretFormat.ReadLine | ClearVision/SecretImage.cpp:107-112 | A printed value line reads back, through `|values|` reads, as exactly those values. |
| SecretFormat.ParseFormat | ClearVision/SecretImage.cpp:78-116 | Loading what `save_to_file` wrote restores the width, the height and both arrays exactly. |
| LsbCodec.LowBitsValue | ClearVision/Crypto.cpp:47-49 | The value of the low `k` bits of `x` is `x mod 2^k`, so `std::bitset<7>(c)` holds `c mod 128`. |
| LsbCodec.EncodedAt | ClearVision/Crypto.cpp:46-51 | Bit `7m + i` of the encoding is bit `i` of character `m`. The encoding has `7 * |s|` bits. |
| LsbCodec.EncodedIsMasked | ClearVision/Crypto.cpp:46-51 | Every bit of an encoding is already 0 or 1. |
| LsbCodec.DecodedAt | ClearVision/Crypto.cpp:34-40 | Character `m` of a decoding is the sum over `j < 7` of `(bits[7m + j] & 1) * 2^j`. The decoding has `|bits| / 7` characters. |
| LsbCodec.DecodeEncode | ClearVision/Crypto.cpp:27-54 | Decoding an encoding gives every character cut to its low 7 bits. |
| LsbCodec.DecodeEncodeAscii | ClearVision/Crypto.cpp:27-54 | `decrypt_message(encrypt_message(s)) == s` for every string of characters below 128. |
| LsbCodec.OrderOfVisit | ClearVision/Crypto.cpp:16-23 | Pixel `k` of the reverse walk is `(h-1 - k/w, w-1 - k%w)`, and its position in the walk is `k` again. |
| LsbCodec.VisitOfOrder | ClearVision/Crypto.cpp:16-23 | The walk reaches every pixel `(i, j)` at position `(h-1-i)*w + (w-1-j)`. Together with `OrderOfVisit`, it visits each pixel exactly once. |
| LsbCodec.LowBitsAt | ClearVision/Crypto.cpp:16-23 | Element `k` of an extraction is bit 0 of pixel `k` of the reverse walk. |
| LsbCodec.EmbeddedPixel | ClearVision/Crypto.cpp:65-75 | Embedding keeps every bit above bit 0 of every pixel. Pixel number `k < |bits|` of the walk gets bit 0 equal to `bits[k] & 1`. Every later pixel is unchanged. |
| LsbCodec.ExtractEmbedded | ClearVision/Crypto.cpp:65-75 | Extracting `|bits|` bits after embedding `bits` returns `bits` masked to 0/1. |
| Crypto.ExtractLSBits | ClearVision/Crypto.cpp:4-24 | Returns `NotEnoughPixels` when `7 * message_length > w * h`. Otherwise returns bit 0 of the first `7 * message_length` pixels of the reverse walk over the rebuilt image, or none when the length is negative. |
| Crypto.ExtractWalk | ClearVision/Crypto.cpp:15-23 | The extraction loop collects exactly `LowBits` of the image for the required count. |
| Crypto.DecryptMessage | ClearVision/Crypto.cpp:27-42 | Returns `BadBitCount` when the length is not a multiple of 7. Otherwise returns `Decoded(bits)`: one character per group of 7 bits, least significant bit first. |
| Crypto.EncryptMessage | ClearVision/Crypto.cpp:44-54 | Returns `Encoded(message)`: bits 0 to 6 of every character, in order. |
| Crypto.EmbedLSBits | ClearVision/Crypto.cpp:56-79 | Too many bits give `NotEnoughPixels`, and the image is untouched. Otherwise the caller's image becomes `Embedded(old image, bits)`. A square image is then split into a fresh secret image with fresh arrays. A non-square one gives `NotSquare` after the change. |
| Crypto.EmbedWalk | ClearVision/Crypto.cpp:63-75 | After the loop, each of the first `|bits|` pixels of the walk carries its bit in bit 0, and every other pixel is as it was. |
| Crypto.RevealHidden | ClearVision/Crypto.cpp:4-79 | Take a 7-bit message that fits in a square image. Encrypt it, embed it, split the image, then reconstruct, extract and decrypt. The result is the message. |

## Left out

- Loading and saving PNG files through stb (`GrayscaleImage.cpp:12-30`, `131-142`) is foreign-library I/O, including the `exit(1)` when a load fails. The model receives images as matrices.
- Opening and closing files in `save_to_file` and `load_from_file` is I/O, and so are the "could not open" errors. The model works on the text of the file instead.
- The `std::cout` of the bit count in `encrypt_message` (`Crypto.cpp:52`) is a console side effect.
- `Filter.cpp` is not part of this model. It is floating-point numerics.
- Destructors, `new`/`delete[]`, and ownership transfer are memory management. The raw-pointer getters (`SecretImage.cpp:119-126`) become plain reads of the `upper` and `lower` fields, and the `int` getters for width and height (`SecretImage.cpp:129-136`) become reads of `width` and `height`. Aliasing through those pointers is not modelled.
- Fixed-width arithmetic is not modelled. There is no 32-bit overflow of `w * h`, `message_length * 7`, `w * (w + 1)` or pixel sums, and no `size_t` conversion in the capacity check of `embed_LSBits`. Integers are unbounded throughout.
- Loops read `data[i, j]` where the source calls `get_pixel(i, j)`. The two are the same read.
- GrayscaleImages.GrayscaleImage.GetPixel: requires an in-bounds position. Out of bounds, the source's behaviour is undefined.
- GrayscaleImages.GrayscaleImage.SetPixel: requires an in-bounds position, for the same reason.
- SecretImages.SecretImage.Reconstruct: requires `0 <= width == height`. Other sizes come only from the raw-array constructor (`SecretImage.cpp:31-36`), which stores any `w` and `h`; `load_from_file` calls it without comparing them. In the source, a negative height, or a negative width with a positive height, makes the blank image's `new` throw `std::bad_array_new_length` (`GrayscaleImage.cpp:47-49`). With a height of 0, or a width of 0 and a positive height, nothing throws: the loops do not run and `reconstruct` returns an empty image. A width larger than a positive height writes rows past the image's last row. A width `w` with `1 <= w < height` writes past the end of row 0 and reads past the end of `upper`; for `w >= 2` the write at `(0, w)` comes first (`SecretImage.cpp:53`). The model covers only square, non-negative sizes, so the defined zero-size cases are excluded as well.
- SecretImages.SecretImage.SaveBack: requires `0 <= width == height` and an image at least `width` x `width`. The source is defined for some other sizes. With a negative width its loops do not run. With a width larger than the height it writes fewer values than the arrays hold, all in bounds. A positive width smaller than the height writes past the end of `upper`. The model covers only the square, non-negative sizes that the split constructor and a well-formed file produce.
- Crypto.ExtractLSBits: requires `0 <= width == height`, because it calls `reconstruct`.
- SecretImages.SecretImage.LoadFromFile: reports `Truncated` when the text ends early or holds a non-number. The source does not check its stream and would keep whatever the failed reads left in the arrays. Anything after the last value is ignored, as in the source.
- Crypto.EncryptMessage: characters are code points, and their low 7 bits are taken. For the bytes `0..255` a C++ `char` can hold, these are the same 7 bits the source takes, whether `char` is signed or not. Wider characters do not occur in the source.
- Crypto.DecryptMessage: the `std::bitset<7>` is modelled by the integer it accumulates, with bit `j` adding `(b & 1) * 2^j`.
