/**
 * The byte layout of the decoded image that load_png hands to the window factory.
 * Decoding the file itself belongs to the imaging library and is not modelled: the
 * model starts from the decoded RGBA pixels, listed row by row from the top.
 */
module Pixels {

  newtype byte = x: int | 0 <= x < 256

  /** One decoded pixel, channels as the imaging library names them in mode 'RGBA'. */
  datatype Rgba = Rgba(r: byte, g: byte, b: byte, a: byte)

  /** A decoded image: `pixels` holds width*height pixels, top row first. */
  datatype Image = Image(width: nat, height: nat, pixels: seq<Rgba>)
  {
    predicate Valid() { |pixels| == width * height }
  }

  /** What load_png returns: width, height and the raw bytes. */
  datatype Loaded = Loaded(width: nat, height: nat, raw: seq<byte>)

  /** The four bytes `tobytes('raw', 'BGRA')` emits for one pixel of an 'RGBA' image. */
  function PackBgra(p: Rgba): seq<byte>
  {
    [p.b, p.g, p.r, p.a]
  }

  /** `tobytes('raw', 'BGRA')` over the whole image, pixel by pixel in order. */
  function ToBytesBgra(ps: seq<Rgba>): (raw: seq<byte>)
    ensures |raw| == 4 * |ps|
    ensures forall i :: 0 <= i < |ps| ==> raw[4 * i..4 * i + 4] == PackBgra(ps[i])
  {
    if ps == [] then []
    else
      var rest := ToBytesBgra(ps[1..]);
      assert forall i :: 1 <= i < |ps| ==>
        (PackBgra(ps[0]) + rest)[4 * i..4 * i + 4] == rest[4 * (i - 1)..4 * (i - 1) + 4];
      PackBgra(ps[0]) + rest
  }

  /**
   * `b, g, r, a = img.split()` followed by `Image.merge('RGBA', (b, g, r, a))`, on one pixel.
   * split() yields the bands in the image's own order (red, green, blue, alpha), so the
   * names bind positionally: `b` holds red and `r` holds blue. The merge puts the four
   * bands back in that same order, so the pixel comes out unchanged.
   */
  function SplitMerge(p: Rgba): (q: Rgba)
    ensures q == p
  {
    var (b, g, r, a) := (p.r, p.g, p.b, p.a);
    Rgba(b, g, r, a)
  }

  /** The split-and-merge over every pixel: the image is left as it was. */
  function MergeAll(ps: seq<Rgba>): (qs: seq<Rgba>)
    ensures qs == ps
  {
    if ps == [] then [] else [SplitMerge(ps[0])] + MergeAll(ps[1..])
  }

  /**
   * load_png: split and merge, then the 'BGRA' raw packing. The bytes of pixel i are its
   * (B, G, R, A), in the top-down row order of the decoded image, as the layered-window
   * surface expects.
   */
  function LoadPng(img: Image): (l: Loaded)
    requires img.Valid()
    ensures l.width == img.width && l.height == img.height
    ensures |l.raw| == img.width * img.height * 4
    ensures forall i :: 0 <= i < |img.pixels| ==>
      l.raw[4 * i..4 * i + 4] == [img.pixels[i].b, img.pixels[i].g, img.pixels[i].r, img.pixels[i].a]
  {
    var raw := ToBytesBgra(MergeAll(img.pixels));
    assert |raw| == img.width * img.height * 4;
    Loaded(img.width, img.height, raw)
  }

  /** Reads the pixels back out of a BGRA byte buffer. */
  function FromBgra(raw: seq<byte>): (ps: seq<Rgba>)
    requires |raw| % 4 == 0
    ensures |ps| == |raw| / 4
  {
    if raw == [] then [] else [Rgba(raw[2], raw[1], raw[0], raw[3])] + FromBgra(raw[4..])
  }

  /** The BGRA buffer loses nothing: decoding it again gives back the image's pixels. */
  lemma {:induction false} BgraRoundTrip(ps: seq<Rgba>)
    ensures FromBgra(ToBytesBgra(ps)) == ps
  {
    if ps != [] {
      var raw := ToBytesBgra(ps);
      assert raw[4..] == ToBytesBgra(ps[1..]);
      BgraRoundTrip(ps[1..]);
    }
  }

  /** The surface reads back exactly the decoded pixels from what load_png returns. */
  lemma LoadPngRoundTrip(img: Image)
    requires img.Valid()
    ensures FromBgra(LoadPng(img).raw) == img.pixels
  {
    BgraRoundTrip(img.pixels);
  }

  /** A pure-red opaque pixel is stored as the bytes 0, 0, 255, 255: blue byte first. */
  lemma LoadPngRedPixel()
    ensures LoadPng(Image(1, 1, [Rgba(255, 0, 0, 255)])).raw == [0, 0, 255, 255]
  {
    var red := Image(1, 1, [Rgba(255, 0, 0, 255)]);
    assert LoadPng(red).raw[0..4] == [0, 0, 255, 255];
  }
}
