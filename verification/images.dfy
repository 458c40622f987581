/**
  Image records and load options (ImageLoader.h), and the shape of a
  successful `stbi_load` result, which is where every stored record comes from.
 */
module Images {
  import opened Int32

  type byte = x: int | 0 <= x < 256

  /** `ImageData`: the dimensions, the channel count and the raw pixel bytes. */
  datatype ImageData = ImageData(width: int, height: int, channels: int, data: seq<byte>)

  /** `ImageData::isValid`: only valid records are ever uploaded. */
  predicate IsValid(img: ImageData) {
    |img.data| > 0 && img.width > 0 && img.height > 0
  }

  /**
    A record whose buffer holds exactly width * height * channels bytes of
    one to four channels: what every record built from a decode looks like.
   */
  predicate WellShaped(img: ImageData) {
    1 <= img.channels <= 4 && |img.data| == img.width * img.height * img.channels
  }

  /** The default constructor: everything zero, no bytes. */
  function DefaultImage(): (img: ImageData)
    ensures !IsValid(img)
    ensures img.width == 0 && img.height == 0 && img.channels == 0 && |img.data| == 0
  {
    ImageData(0, 0, 0, [])
  }

  /** The sized constructor: keeps the dimensions and copies exactly `size` bytes from `src`. */
  function SizedImage(w: int, h: int, c: int, src: seq<byte>, size: nat): (img: ImageData)
    requires size <= |src|
    ensures img.width == w && img.height == h && img.channels == c
    ensures |img.data| == size
    ensures forall i :: 0 <= i < size ==> img.data[i] == src[i]
  {
    ImageData(w, h, c, src[..size])
  }

  /** `ImageLoadOptions`: a non-positive `maxImages` means no limit. */
  datatype LoadOptions = LoadOptions(maxImages: int, verbose: bool)

  /** The default options: no limit on the number of images, verbose logging. */
  function DefaultOptions(): (o: LoadOptions)
    ensures o.maxImages == 0 && o.verbose
  {
    LoadOptions(0, true)
  }

  /** The buffer and dimensions `stbi_load(path, &w, &h, &c, 0)` hands back. */
  datatype Decoded = Decoded(width: int, height: int, channels: int, pixels: seq<byte>)

  /**
    What stb guarantees of a successful decode: positive dimensions, one to
    four channels, a byte count that fits in an `int`, and exactly that many bytes.
   */
  predicate StbShaped(d: Decoded) {
    && 0 < d.width && 0 < d.height && 1 <= d.channels <= 4
    && d.width * d.height * d.channels <= IntMax
    && |d.pixels| == d.width * d.height * d.channels
  }

  type StbImage = d: Decoded | StbShaped(d) witness Decoded(1, 1, 1, [0])

  lemma PositiveProduct(w: int, h: int, c: int)
    requires w > 0 && h > 0 && c > 0
    ensures w * h * c > 0
  {
    assert w * h > 0;
  }

  /**
    The record the loader stores for a decoded file: `dataSize` is
    width * height * channels, which is exactly the decoded buffer, so the
    record is valid and holds every decoded byte.
   */
  function FromDecoded(d: StbImage): (img: ImageData)
    ensures IsValid(img) && WellShaped(img)
    ensures img.width == d.width && img.height == d.height && img.channels == d.channels
    ensures img.data == d.pixels
  {
    PositiveProduct(d.width, d.height, d.channels);
    SizedImage(d.width, d.height, d.channels, d.pixels, d.width * d.height * d.channels)
  }
}
