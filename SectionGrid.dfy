/**
 * The section grid of `extract_patches_split.py`: the working pyramid level,
 * of size W x H, is cut into SPLIT x SPLIT sections, and a two-character
 * section id such as "12" names column 1 and row 2.  A section's offset is
 * its top-left corner at the working level; the region actually read from
 * the slide starts at that offset times the magnification factor 2^level,
 * because the slide reader works in the level-0 frame.
 */
module SectionGrid {
  import opened Wrappers

  /** Sections per axis: SPLIT = 4 gives 16 sections. */
  const SPLIT: nat := 4

  /** mag_factor = pow(2, level): one working-level pixel is Pow2(level) level-0 pixels across. */
  function Pow2(level: nat): (m: nat)
    ensures m >= 1
    ensures level > 0 ==> m % 2 == 0
  {
    if level == 0 then 1 else 2 * Pow2(level - 1)
  }

  /** Python's int() applied to a one-character string: among ASCII characters, only a decimal digit converts. */
  function ParseDigit(c: char): (d: Option<nat>)
    ensures d.Some? <==> '0' <= c <= '9'
    ensures d.Some? ==> d.value < 10 && DigitChar(d.value) == c
  {
    if '0' <= c <= '9' then Some(c as int - '0' as int) else None
  }

  /** The character that names digit d. */
  function DigitChar(d: nat): char
    requires d < 10
  {
    ('0' as int + d) as char
  }

  /**
   * The (column, row) named by a section id: int(sect[0]) and int(sect[1]).
   * A string shorter than two characters (IndexError) or a non-digit
   * (ValueError) names no section; characters after the second are ignored.
   */
  function SectionId(sect: string): (id: Option<(nat, nat)>)
    ensures id.Some? <==> |sect| >= 2 && '0' <= sect[0] <= '9' && '0' <= sect[1] <= '9'
    ensures id.Some? ==> id.value.0 < 10 && id.value.1 < 10
    ensures id.Some? ==> DigitChar(id.value.0) == sect[0] && DigitChar(id.value.1) == sect[1]
  {
    if |sect| < 2 then None
    else match (ParseDigit(sect[0]), ParseDigit(sect[1]))
      case (Some(col), Some(row)) => Some((col, row))
      case _ => None
  }

  /** The id the pipeline uses for the section at column col and row row ("00" ... "33"). */
  function SectionName(col: nat, row: nat): string
    requires col < 10 && row < 10
  {
    [DigitChar(col), DigitChar(row)]
  }

  /** Naming a section and reading the name back gives the same column and row. */
  lemma SectionNameRoundTrip(col: nat, row: nat)
    requires col < 10 && row < 10
    ensures SectionId(SectionName(col, row)) == Some((col, row))
  {
    var s := SectionName(col, row);
    assert ParseDigit(s[0]) == Some(col);
    assert ParseDigit(s[1]) == Some(row);
  }

  /** (width_split, height_split) = (W // SPLIT, H // SPLIT): every section has this size. */
  function SectionSize(W: nat, H: nat): (size: (nat, nat))
    ensures SPLIT * size.0 <= W < SPLIT * size.0 + SPLIT
    ensures SPLIT * size.1 <= H < SPLIT * size.1 + SPLIT
  {
    (W / SPLIT, H / SPLIT)
  }

  /** (delta_x, delta_y) = (col * (W // SPLIT), row * (H // SPLIT)). */
  function SectionOffset(W: nat, H: nat, col: nat, row: nat): (nat, nat)
  {
    (col * SectionSize(W, H).0, row * SectionSize(W, H).1)
  }

  /** A section of the 4 x 4 grid lies inside the working level: offset + size <= (W, H). */
  lemma SectionInside(W: nat, H: nat, col: nat, row: nat)
    requires col < SPLIT && row < SPLIT
    ensures SectionOffset(W, H, col, row).0 + SectionSize(W, H).0 <= W
    ensures SectionOffset(W, H, col, row).1 + SectionSize(W, H).1 <= H
  {
    var (w, h) := SectionSize(W, H);
    AxisInside(w, col);
    AxisInside(h, row);
  }

  lemma AxisInside(w: nat, c: nat)
    requires c < SPLIT
    ensures c * w + w <= SPLIT * w
  {
    assert c * w + w == (c + 1) * w;
    assert (c + 1) * w <= SPLIT * w by {
      assert c + 1 <= SPLIT;
    }
  }

  /** Whether coordinate v lies in the span of section index c, sections being w wide. */
  predicate InSpan(w: nat, c: nat, v: nat)
  {
    c * w <= v < c * w + w
  }

  /**
   * The section index covering v along one axis of length n, if any.
   * Sections cover exactly [0, SPLIT * (n // SPLIT)); the last n % SPLIT
   * pixels of the axis (fewer than SPLIT) belong to no section.
   */
  function SpanOf(n: nat, v: nat): (c: Option<nat>)
    ensures c.Some? <==> v < SPLIT * (n / SPLIT)
    ensures c.Some? ==> c.value < SPLIT && InSpan(n / SPLIT, c.value, v)
    ensures forall c': nat :: c' < SPLIT && InSpan(n / SPLIT, c', v) ==> c == Some(c')
  {
    var w := n / SPLIT;
    if v < SPLIT * w then
      DivBounds(w, v);
      forall c': nat | c' < SPLIT && InSpan(w, c', v) ensures c' == v / w {
        SpanUnique(w, c', v / w, v);
      }
      Some(v / w)
    else
      forall c': nat | c' < SPLIT && InSpan(w, c', v) ensures false {
        AxisInside(w, c');
      }
      None
  }

  lemma DivBounds(w: nat, v: nat)
    requires v < SPLIT * w
    ensures w > 0 && v / w < SPLIT && InSpan(w, v / w, v)
  {
    assert w > 0;
    var q := v / w;
    assert q * w <= v < q * w + w;
    LessByScale(q, SPLIT, w);
  }

  lemma LessByScale(a: nat, b: nat, w: nat)
    requires a * w < b * w
    ensures a < b
  {
  }

  /** The quotient and remainder of a division are unique. */
  lemma DivUnique(n: nat, d: nat, q: nat, r: nat)
    requires d > 0 && r < d && n == q * d + r
    ensures n / d == q
  {
    var q' := n / d;
    assert q' * d <= n < q' * d + d;
    assert q' * d < (q + 1) * d;
    LessByScale(q', q + 1, d);
    assert q * d < (q' + 1) * d;
    LessByScale(q, q' + 1, d);
  }

  lemma SpanUnique(w: nat, c1: nat, c2: nat, v: nat)
    requires InSpan(w, c1, v) && InSpan(w, c2, v)
    ensures c1 == c2
  {
    DivUnique(v, w, c1, v - c1 * w);
    DivUnique(v, w, c2, v - c2 * w);
  }

  /**
   * The sections tile the working level except for the right and bottom
   * remainder strips: a pixel (x, y) with x < SPLIT * (W // SPLIT) and
   * y < SPLIT * (H // SPLIT) lies in exactly one section, and any other pixel
   * in none.
   */
  function SectionAt(W: nat, H: nat, x: nat, y: nat): (s: Option<(nat, nat)>)
    ensures s.Some? <==> x < SPLIT * SectionSize(W, H).0 && y < SPLIT * SectionSize(W, H).1
    ensures s.Some? ==> s.value.0 < SPLIT && s.value.1 < SPLIT
    ensures s.Some? ==> InSpan(SectionSize(W, H).0, s.value.0, x) && InSpan(SectionSize(W, H).1, s.value.1, y)
    ensures forall col: nat, row: nat ::
              (col < SPLIT && row < SPLIT &&
               InSpan(SectionSize(W, H).0, col, x) && InSpan(SectionSize(W, H).1, row, y)) ==>
              s == Some((col, row))
  {
    match (SpanOf(W, x), SpanOf(H, y))
    case (Some(col), Some(row)) => Some((col, row))
    case _ => None
  }

  /** The arguments of the read_region call: level-0 origin, level, and size. */
  datatype RegionRead = RegionRead(origin0: (nat, nat), level: nat, size: (nat, nat))

  /**
   * What read_wsi asks the slide for, given the level dimensions (W, H) and
   * its mag_factor argument: the section offset scaled to level 0 by mag,
   * at the working level, with the section size.  No request is made for a
   * malformed id.
   */
  function ReadRequest(W: nat, H: nat, sect: string, level: nat, mag: nat): (r: Option<RegionRead>)
    ensures r.Some? <==> SectionId(sect).Some?
    ensures r.Some? ==> r.value.level == level && r.value.size == SectionSize(W, H)
    ensures r.Some? ==>
      var off := SectionOffset(W, H, SectionId(sect).value.0, SectionId(sect).value.1);
      r.value.origin0 == (off.0 * mag, off.1 * mag)
  {
    match SectionId(sect)
    case None => None
    case Some((col, row)) =>
      var (dx, dy) := SectionOffset(W, H, col, row);
      Some(RegionRead((dx * mag, dy * mag), level, SectionSize(W, H)))
  }

  /**
   * For a section of the 4 x 4 grid, the region read covers, at level 0,
   * a box inside the level-0 image of the working level scaled up:
   * origin + size * mag <= (W, H) * mag.
   */
  lemma ReadInside(W: nat, H: nat, sect: string, level: nat, mag: nat)
    requires SectionId(sect).Some?
    requires SectionId(sect).value.0 < SPLIT && SectionId(sect).value.1 < SPLIT
    ensures var r := ReadRequest(W, H, sect, level, mag).value;
      r.origin0.0 + r.size.0 * mag <= W * mag &&
      r.origin0.1 + r.size.1 * mag <= H * mag
  {
    var (col, row) := SectionId(sect).value;
    var m := mag;
    var (dx, dy) := SectionOffset(W, H, col, row);
    var (w, h) := SectionSize(W, H);
    SectionInside(W, H, col, row);
    assert dx * m + w * m == (dx + w) * m;
    assert (dx + w) * m <= W * m by { ScaleMono(dx + w, W, m); }
    assert dy * m + h * m == (dy + h) * m;
    assert (dy + h) * m <= H * m by { ScaleMono(dy + h, H, m); }
  }

  lemma ScaleMono(a: nat, b: nat, m: nat)
    requires a <= b
    ensures a * m <= b * m
  {
  }
}
