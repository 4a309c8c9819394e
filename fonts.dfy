/**
 * Fonts: the style key a font is requested by, font handles, the metrics the
 * windowing toolkit reports for them, and the memo table `get_font` keeps so
 * that one style resolves to one handle.
 */
module Fonts {

  datatype Weight = Normal | Bold
  datatype Slant = Roman | Italic

  /** The `(size, weight, slant)` triple a font is requested by. */
  datatype FontKey = FontKey(size: int, weight: Weight, slant: Slant)

  /**
   * A font handle. Each creation yields a new object, so two handles are the
   * same font exactly when they are the same object.
   */
  class Font {
    const key: FontKey

    constructor (key: FontKey)
      ensures this.key == key
    {
      this.key := key;
    }
  }

  /**
   * What the toolkit measures for a font configuration: the pixel width of a
   * string, and the ascent and descent of its glyphs. The toolkit itself is not
   * modelled; the layout engine takes these as a parameter.
   */
  datatype Metrics = Metrics(
    measure: (FontKey, string) -> nat,
    ascent: FontKey -> nat,
    descent: FontKey -> nat)

  /** `m1` keeps every entry of `m0` unchanged (and may have more). */
  ghost predicate Grows(m0: map<FontKey, Font>, m1: map<FontKey, Font>)
  {
    forall k :: k in m0 ==> k in m1 && m1[k] == m0[k]
  }

  /** Every handle in `c` was created for the key it is stored under. */
  predicate Keyed(c: map<FontKey, Font>)
  {
    forall k :: k in c ==> c[k].key == k
  }

  /** The memo table of fonts by style key (the global `FONTS` dictionary). */
  class FontCache {
    var fonts: map<FontKey, Font>

    /** Every cached handle was created for the key it is stored under. */
    ghost predicate Valid()
      reads this
    {
      Keyed(fonts)
    }

    constructor ()
      ensures Valid() && fonts == map[]
    {
      fonts := map[];
    }

    /**
     * `get_font`: the cached handle for the key when there is one; otherwise a
     * new handle, which is cached. An existing entry is never replaced.
     */
    method GetFont(size: int, weight: Weight, slant: Slant) returns (font: Font)
      requires Valid()
      modifies this
      ensures Valid()
      ensures font.key == FontKey(size, weight, slant)
      ensures FontKey(size, weight, slant) in fonts && fonts[FontKey(size, weight, slant)] == font
      ensures FontKey(size, weight, slant) in old(fonts) ==> fonts == old(fonts)
      ensures FontKey(size, weight, slant) !in old(fonts) ==>
        fresh(font) && fonts == old(fonts)[FontKey(size, weight, slant) := font]
      ensures fonts == old(fonts)[FontKey(size, weight, slant) := font]
      ensures Grows(old(fonts), fonts)
    {
      var key := FontKey(size, weight, slant);
      if key !in fonts {
        var f := new Font(key);
        fonts := fonts[key := f];
      }
      font := fonts[key];
    }
  }

  /**
   * Asking twice for one style yields the identical handle, and the cache
   * differs from before at most in that style's entry.
   */
  method GetFontTwice(cache: FontCache, size: int, weight: Weight, slant: Slant) returns (f1: Font, f2: Font)
    requires cache.Valid()
    modifies cache
    ensures cache.Valid()
    ensures f1 == f2 && f1.key == FontKey(size, weight, slant)
    ensures cache.fonts == old(cache.fonts)[FontKey(size, weight, slant) := f1]
    ensures Grows(old(cache.fonts), cache.fonts)
  {
    f1 := cache.GetFont(size, weight, slant);
    ghost var afterFirst := cache.fonts;
    f2 := cache.GetFont(size, weight, slant);
    assert cache.fonts == afterFirst;
  }
}
