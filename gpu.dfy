/**
 * The WebGL context as the tile source uses it, together with the
 * painter's pool of saved tile textures.
 *
 * A texture holds a sized RGBA image. `texImage2D` (re)defines the whole
 * image, size included. `texSubImage2D` at offset (0, 0) never resizes: an
 * image wider or taller than the texture is refused (INVALID_VALUE) and
 * changes nothing; one that fits overwrites only the top-left rectangle it
 * covers.
 */
module Gpu {
  import opened Wrappers
  import opened Normalize

  /** A WebGL texture handle; `id` numbers the creations. */
  datatype Texture = Texture(id: nat)

  /** An RGBA image: `width * height` pixels of four bytes, row-major. */
  datatype Image = Image(width: nat, height: nat, bytes: seq<byte>)

  /** The bytes are exactly the pixels of the stated size. */
  predicate WellFormed(img: Image)
  {
    |img.bytes| == 4 * (img.width * img.height)
  }

  /** `img` placed at (0, 0) lies inside `base`. */
  predicate Fits(img: Image, base: Image)
  {
    img.width <= base.width && img.height <= base.height
  }

  /** Pixel `(x, y)` of a `w`-wide, `h`-tall image is pixel number `y*w + x`, below `w*h`. */
  lemma RectIndex(x: nat, y: nat, w: nat, h: nat)
    requires x < w && y < h
    ensures y * w + x < w * h
  {
    MulLe(y + 1, h, w);
  }

  /** Byte `k` of `base` after `img` is written over its top-left corner. */
  function OverlayByte(base: Image, img: Image, k: nat): byte
    requires WellFormed(base) && WellFormed(img) && Fits(img, base)
    requires k < |base.bytes|
  {
    var p := k / 4;
    var x, y := p % base.width, p / base.width;
    if x < img.width && y < img.height then
      RectIndex(x, y, img.width, img.height);
      img.bytes[4 * (y * img.width + x) + k % 4]
    else
      base.bytes[k]
  }

  /** `base` with `img` written over its top-left corner; the size stays that of `base`. */
  function Overlay(base: Image, img: Image): (r: Image)
    requires WellFormed(base) && WellFormed(img) && Fits(img, base)
    ensures WellFormed(r) && r.width == base.width && r.height == base.height
  {
    Image(base.width, base.height,
          seq(|base.bytes|, k requires 0 <= k < |base.bytes| => OverlayByte(base, img, k)))
  }

  /** What `texSubImage2D` at (0, 0) leaves in a texture holding `base`. */
  function SubImage(base: Image, img: Image): (r: Image)
    requires WellFormed(base) && WellFormed(img)
    ensures WellFormed(r) && r.width == base.width && r.height == base.height
  {
    if Fits(img, base) then Overlay(base, img) else base
  }

  /**
   * Pixel by pixel: channel `c` of pixel `(x, y)` comes from `img` when `img`
   * fits and covers that pixel, and is the old byte otherwise.
   */
  lemma SubImagePixel(base: Image, img: Image, x: nat, y: nat, c: nat)
    requires WellFormed(base) && WellFormed(img)
    requires x < base.width && y < base.height && c < 4
    ensures x < img.width && y < img.height ==> 4 * (y * img.width + x) + c < |img.bytes|
    ensures 4 * (y * base.width + x) + c < |base.bytes|
    ensures SubImage(base, img).bytes[4 * (y * base.width + x) + c] ==
      if Fits(img, base) && x < img.width && y < img.height
      then img.bytes[4 * (y * img.width + x) + c]
      else base.bytes[4 * (y * base.width + x) + c]
  {
    RectIndex(x, y, base.width, base.height);
    if x < img.width && y < img.height {
      RectIndex(x, y, img.width, img.height);
    }
    var p := y * base.width + x;
    DivModUnique(4 * p + c, 4, p, c);
    DivModUnique(p, base.width, y, x);
  }

  /** An image of the texture's own size replaces the texture's bytes entirely. */
  lemma SubImageSameSize(base: Image, img: Image)
    requires WellFormed(base) && WellFormed(img)
    requires img.width == base.width && img.height == base.height
    ensures SubImage(base, img) == img
  {
    var r := SubImage(base, img);
    forall k | 0 <= k < |r.bytes|
      ensures r.bytes[k] == img.bytes[k]
    {
      var p := k / 4;
      var x, y := p % base.width, p / base.width;
      assert p == y * base.width + x;
      RowBelowHeight(p, base.width, base.height);
      assert 4 * (y * img.width + x) + k % 4 == k;
    }
  }

  /** Once an image is uploaded over it, the texture's first pixel is that image's first pixel. */
  lemma SubImageFirstPixel(base: Image, img: Image)
    requires WellFormed(base) && WellFormed(img) && Fits(img, base)
    requires img.width > 0 && img.height > 0
    ensures 4 <= |img.bytes| <= |base.bytes|
    ensures SubImage(base, img).bytes[..4] == img.bytes[..4]
  {
    MulLe(1, img.height, img.width);
    MulLe(img.height, base.height, img.width);
    MulLe(img.width, base.width, base.height);
    var r := SubImage(base, img).bytes;
    SubImagePixel(base, img, 0, 0, 0);
    SubImagePixel(base, img, 0, 0, 1);
    SubImagePixel(base, img, 0, 0, 2);
    SubImagePixel(base, img, 0, 0, 3);
    assert r[..4] == [r[0], r[1], r[2], r[3]];
  }

  /**
   * A narrower upload leaves the last pixel of the texture's first row as it
   * was.
   */
  lemma SubImageRowEnd(base: Image, img: Image)
    requires WellFormed(base) && WellFormed(img)
    requires img.width < base.width && base.height > 0
    ensures 4 * base.width <= |base.bytes|
    ensures SubImage(base, img).bytes[4 * (base.width - 1)..4 * base.width]
         == base.bytes[4 * (base.width - 1)..4 * base.width]
  {
    MulLe(1, base.height, base.width);
    var r, x := SubImage(base, img).bytes, base.width - 1;
    assert 0 * base.width + x == x;
    assert !(x < img.width);
    SubImagePixel(base, img, x, 0, 0);
    SubImagePixel(base, img, x, 0, 1);
    SubImagePixel(base, img, x, 0, 2);
    SubImagePixel(base, img, x, 0, 3);
    assert r[4 * x..4 * x + 4] == [r[4 * x], r[4 * x + 1], r[4 * x + 2], r[4 * x + 3]];
  }

  /** The GPU context together with the painter's pool of saved tile textures. */
  class Painter {
    /** Calls of `createTexture`, `texImage2D` and `texSubImage2D`. */
    var created: nat
    var fullUploads: nat
    var subUploads: nat
    /** The image each texture holds, for the textures defined by a full upload. */
    var contents: map<Texture, Image>
    var pool: seq<Texture>

    /**
     * Every texture holding an image was created here and holds a
     * well-formed one; only such textures are pooled.
     */
    ghost predicate Valid()
      reads this
    {
      && (forall t :: t in contents ==> t.id < created && WellFormed(contents[t]))
      && (forall k :: 0 <= k < |pool| ==> pool[k] in contents)
    }

    constructor ()
      ensures Valid()
      ensures created == 0 && fullUploads == 0 && subUploads == 0
      ensures contents == map[] && pool == []
    {
      created, fullUploads, subUploads := 0, 0, 0;
      contents, pool := map[], [];
    }

    /** `gl.createTexture`: a handle different from every earlier one. */
    method CreateTexture() returns (t: Texture)
      requires Valid()
      modifies this`created
      ensures Valid()
      ensures t == Texture(old(created)) && t !in contents
      ensures created == old(created) + 1
    {
      t := Texture(created);
      created := created + 1;
    }

    /** `gl.texImage2D` into texture `t`: (re)defines its whole image and its size. */
    method TexImage2D(t: Texture, image: Image)
      requires Valid() && t.id < created && WellFormed(image)
      modifies this`fullUploads, this`contents
      ensures Valid()
      ensures fullUploads == old(fullUploads) + 1
      ensures contents == old(contents)[t := image]
    {
      fullUploads := fullUploads + 1;
      contents := contents[t := image];
    }

    /**
     * `gl.texSubImage2D` at offset (0, 0) with texture `t` bound: the image
     * is written over the top-left corner of the texture's image when it
     * fits and refused when it does not; with no texture bound (or one
     * without an image) the call changes no texture.
     */
    method TexSubImage2D(t: Option<Texture>, image: Image)
      requires Valid() && WellFormed(image)
      modifies this`subUploads, this`contents
      ensures Valid()
      ensures subUploads == old(subUploads) + 1
      ensures contents == if t.Some? && t.value in old(contents)
                          then old(contents)[t.value := SubImage(old(contents)[t.value], image)]
                          else old(contents)
    {
      subUploads := subUploads + 1;
      if t.Some? && t.value in contents {
        contents := contents[t.value := SubImage(contents[t.value], image)];
      }
    }

    /** `painter.saveTileTexture`: hands a texture to the pool for later reuse. */
    method SaveTileTexture(t: Texture)
      requires Valid() && t in contents
      modifies this`pool
      ensures Valid()
      ensures pool == old(pool) + [t]
    {
      pool := pool + [t];
    }
  }
}
