/** Splitting an image into equal, aligned pieces (image_split.c, horizontal scan). */
module ImageSplit {
  import opened Basics

  type U32 = n: nat | n < 0x1_0000_0000
  type U64 = n: nat | n < 0x1_0000_0000_0000_0000

  datatype Image = Image(addr: U64, width: U32, height: U32, stride: U32)

  datatype Direction = Width | Height

  function Mul32(a: nat, b: nat): U32 { a * b % 0x1_0000_0000 }

  function Add64(a: nat, b: nat): U64 { (a + b) % 0x1_0000_0000_0000_0000 }

  function Product(a: nat, b: nat): nat { a * b }

  lemma DivideBounds(n: nat, m: nat)
    requires m > 0
    ensures n / m * m <= n <= n / m * m + m - 1
  {
  }

  /** The largest aligned share of `extent` among `num` pieces. */
  function Share(extent: U32, num: nat, align: nat): (share: U32)
    requires num > 0 && align > 0
  {
    var each := extent / num;
    DivideBounds(each, align);
    Product(each / align, align)
  }

  ghost predicate Aligned(n: nat, align: nat) {
    exists q: nat :: n == Product(q, align)
  }

  lemma {:induction false} ProductOrder(a: nat, b: nat, m: nat)
    requires a < b
    ensures a * m + m <= b * m
    decreases b
  {
    if b == a + 1 {
      assert b * m == (a + 1) * m == a * m + m;
    } else {
      ProductOrder(a, b - 1, m);
      assert b * m == (b - 1) * m + m;
    }
  }

  /** Shares are aligned, fit, and leave less than one aligned unit per piece uncovered. */
  lemma ShareFits(extent: U32, num: nat, align: nat)
    requires num > 0 && align > 0
    ensures Aligned(Share(extent, num, align), align)
    ensures num * Share(extent, num, align) <= extent
    ensures extent - num * Share(extent, num, align) <= num * align - 1
  {
    var each := extent / num;
    var w := Share(extent, num, align);
    DivideBounds(extent, num);
    DivideBounds(each, align);
    assert w == Product(each / align, align);
    ShareArithmetic(extent, num, align, each, w);
  }

  lemma ShareArithmetic(extent: nat, num: nat, align: nat, each: nat, w: nat)
    requires num > 0 && align > 0 && w <= each <= w + align - 1
    requires each * num <= extent <= each * num + num - 1
    ensures num * w <= extent && extent - num * w <= num * align - 1
  {
    ProductMonotone(num, w, each);
    ProductMonotone(num, each, w + align - 1);
    Distribute(num, w, align);
  }

  lemma ProductMonotone(m: nat, a: nat, b: nat)
    requires a <= b
    ensures m * a <= m * b
  {
  }

  lemma Distribute(m: nat, a: nat, b: nat)
    requires b > 0
    ensures m * (a + b - 1) == m * a + m * b - m
  {
  }

  /** The address of a pixel, one byte wide. */
  function Pixel(image: Image, x: nat, y: nat): nat {
    image.addr + y * image.stride + x
  }

  ghost predicate IsPixel(image: Image, x: nat, y: nat) {
    x < image.width && y < image.height
  }

  /** An image that lies in the address space, with rows that do not overlap. */
  ghost predicate WellFormed(image: Image) {
    && image.width <= image.stride
    && image.addr + image.width < 0x1_0000_0000_0000_0000
    && image.addr + image.stride * image.height < 0x1_0000_0000_0000_0000
  }

  lemma RowsApart(x: nat, y: nat, x': nat, y': nat, stride: nat)
    requires x < stride && x' < stride && y * stride + x == y' * stride + x'
    ensures x == x' && y == y'
  {
    if y < y' {
      ProductOrder(y, y', stride);
    } else if y' < y {
      ProductOrder(y', y, stride);
    }
  }

  /** Piece `i`, computed in the widths of the source's integers. */
  function Piece(src: Image, dir: Direction, num: nat, align: nat, i: nat): Image
    requires num > 0 && align > 0
  {
    match dir
    case Width =>
      var w := Share(src.width, num, align);
      Image(Add64(src.addr, Mul32(i, w)), w, src.height, src.stride)
    case Height =>
      var h := Share(src.height, num, align);
      Image(Add64(src.addr, Mul32(Mul32(i, src.stride), h)), src.width, h, src.stride)
  }

  /** `split_multiple_image_horizontal_scan`. */
  method HorizontalScan(src: Option<Image>, dst: array?<Image>, num: nat, dir: Direction, align: nat)
    returns (code: int)
    requires num > 0 && align > 0 && (dst != null ==> num <= dst.Length)
    modifies dst
    ensures code == if src.None? || dst == null then -1 else 0
    ensures code != 0 && dst != null ==> dst[..] == old(dst[..])
    ensures code == 0 ==> (forall i :: 0 <= i < num ==> dst[i] == Piece(src.value, dir, num, align, i))
                          && forall i :: num <= i < dst.Length ==> dst[i] == old(dst[i])
  {
    if src.None? || dst == null {
      return -1;
    }
    var image := src.value;
    if dir == Width {
      var width := Share(image.width, num, align);
      for i := 0 to num
        invariant forall k :: 0 <= k < i ==> dst[k] == Piece(image, Width, num, align, k)
        invariant forall k :: i <= k < dst.Length ==> dst[k] == old(dst[k])
      {
        dst[i] := Image(Add64(image.addr, Mul32(i, width)), width, image.height, image.stride);
      }
    } else {
      var height := Share(image.height, num, align);
      for i := 0 to num
        invariant forall k :: 0 <= k < i ==> dst[k] == Piece(image, Height, num, align, k)
        invariant forall k :: i <= k < dst.Length ==> dst[k] == old(dst[k])
      {
        dst[i] := Image(Add64(image.addr, Mul32(Mul32(i, image.stride), height)), image.width, height, image.stride);
      }
    }
    return 0;
  }

  // ----- What the pieces are -----

  /** Products of 32-bit factors wrap to the product of the factors, wrapped. */
  lemma MulTwice(a: nat, b: nat, c: nat)
    ensures Mul32(Mul32(a, b), c) == a * b * c % 0x1_0000_0000
  {
    var p := a * b;
    var m := 0x1_0000_0000;
    var q := p / m;
    assert p == q * m + p % m;
    assert p * c == (p % m) * c + q * c * m;
    assert ((p % m) * c + q * c * m) % m == (p % m) * c % m by { ModShift((p % m) * c, q * c); }
  }

  lemma {:induction false} ModShift(n: nat, k: nat)
    ensures (n + k * 0x1_0000_0000) % 0x1_0000_0000 == n % 0x1_0000_0000
  {
  }

  /** The extent of one piece along the direction of the split. */
  function Extent(src: Image, dir: Direction, num: nat, align: nat): U32
    requires num > 0 && align > 0
  {
    Share(if dir == Width then src.width else src.height, num, align)
  }

  /** The source pixel that pixel (x, y) of piece `i` should show. */
  function SourceX(src: Image, dir: Direction, num: nat, align: nat, i: nat, x: nat): nat
    requires num > 0 && align > 0
  {
    if dir == Width then Product(i, Extent(src, dir, num, align)) + x else x
  }

  function SourceY(src: Image, dir: Direction, num: nat, align: nat, i: nat, y: nat): nat
    requires num > 0 && align > 0
  {
    if dir == Height then Product(i, Extent(src, dir, num, align)) + y else y
  }

  /** Whether the 32-bit offset of piece `i` is exact.  Offsets along the width always are. */
  predicate OffsetFits(src: Image, dir: Direction, num: nat, align: nat, i: nat)
    requires num > 0 && align > 0
  {
    dir == Width || Product(Product(i, src.stride), Extent(src, dir, num, align)) < 0x1_0000_0000
  }

  lemma ExtentFits(src: Image, dir: Direction, num: nat, align: nat, i: nat)
    requires num > 0 && align > 0 && i < num
    ensures var e := Extent(src, dir, num, align);
      e < 0x1_0000_0000 && Product(i, e) + e <= (if dir == Width then src.width else src.height)
  {
    var e := Extent(src, dir, num, align);
    ShareFits(if dir == Width then src.width else src.height, num, align);
    ProductMonotone(e, i + 1, num);
    assert e * (i + 1) == Product(i, e) + e;
    assert num * e == e * num;
  }

  lemma OffsetInside(src: Image, num: nat, align: nat, i: nat)
    requires num > 0 && align > 0 && i < num && WellFormed(src)
    ensures var h := Extent(src, Height, num, align);
      src.addr + Product(i, h) * src.stride < 0x1_0000_0000_0000_0000
  {
    var h := Extent(src, Height, num, align);
    ExtentFits(src, Height, num, align, i);
    ProductMonotone(src.stride, Product(i, h), src.height);
  }

  /** A piece starts where it should exactly when its 32-bit offset does not overflow. */
  lemma StartsExactlyIff(src: Image, dir: Direction, num: nat, align: nat, i: nat)
    requires num > 0 && align > 0 && i < num && WellFormed(src)
    ensures Piece(src, dir, num, align, i).addr
            == Pixel(src, SourceX(src, dir, num, align, i, 0), SourceY(src, dir, num, align, i, 0))
            <==> OffsetFits(src, dir, num, align, i)
  {
    hide Share, Mul32, Add64;
    if dir == Width {
      WidthStart(src, num, align, i);
    } else {
      HeightStart(src, num, align, i);
    }
  }

  lemma WidthStart(src: Image, num: nat, align: nat, i: nat)
    requires num > 0 && align > 0 && i < num && WellFormed(src)
    ensures var w := Extent(src, Width, num, align);
      Add64(src.addr, Mul32(i, w)) == src.addr + Product(i, w)
  {
    hide Add64, Share;
    ExtentFits(src, Width, num, align, i);
    var w := Extent(src, Width, num, align);
    assert Mul32(i, w) == Product(i, w);
    Add64Exact(src.addr, Product(i, w));
  }

  lemma HeightStart(src: Image, num: nat, align: nat, i: nat)
    requires num > 0 && align > 0 && i < num && WellFormed(src)
    ensures var h := Extent(src, Height, num, align);
      Add64(src.addr, Mul32(Mul32(i, src.stride), h)) == src.addr + Product(i, h) * src.stride
      <==> Product(Product(i, src.stride), h) < 0x1_0000_0000
  {
    hide Add64, Mul32, Product, Share;
    var h := Extent(src, Height, num, align);
    var offset := Product(Product(i, src.stride), h);
    OffsetInside(src, num, align, i);
    MulTwice(i, src.stride, h);
    Reorder(i, src.stride, h);
    Add64Exact(src.addr, offset % 0x1_0000_0000);
  }

  lemma Add64Exact(a: nat, b: nat)
    requires a + b < 0x1_0000_0000_0000_0000
    ensures Add64(a, b) == a + b
  {
  }

  lemma Reorder(a: nat, b: nat, c: nat)
    ensures Product(Product(a, b), c) == Product(a, c) * b == a * b * c
  {
  }

  /** An exact piece is a view of the source: its pixels are the source's pixels shifted along the
      split. */
  lemma PieceIsView(src: Image, dir: Direction, num: nat, align: nat, i: nat, x: nat, y: nat)
    requires num > 0 && align > 0 && i < num && WellFormed(src) && OffsetFits(src, dir, num, align, i)
    requires IsPixel(Piece(src, dir, num, align, i), x, y)
    ensures var X, Y := SourceX(src, dir, num, align, i, x), SourceY(src, dir, num, align, i, y);
      IsPixel(src, X, Y) && Pixel(Piece(src, dir, num, align, i), x, y) == Pixel(src, X, Y)
  {
    hide Piece, Mul32, Add64, Extent, OffsetFits, Product;
    PieceShape(src, dir, num, align, i);
    StartsExactlyIff(src, dir, num, align, i);
    ExtentFits(src, dir, num, align, i);
    if dir == Height {
      ProductSum(Product(i, Extent(src, dir, num, align)), y, src.stride);
    }
  }

  lemma ProductSum(a: nat, b: nat, m: nat)
    ensures (a + b) * m == a * m + b * m
  {
  }

  lemma PieceShape(src: Image, dir: Direction, num: nat, align: nat, i: nat)
    requires num > 0 && align > 0 && i < num
    ensures var p := Piece(src, dir, num, align, i);
      && p.stride == src.stride
      && p.width == (if dir == Width then Extent(src, dir, num, align) else src.width)
      && p.height == (if dir == Height then Extent(src, dir, num, align) else src.height)
  {
    hide Share, Mul32, Add64;
  }

  /** Different pixels of exact pieces are different bytes, inside the source. */
  lemma PiecesDisjoint(src: Image, dir: Direction, num: nat, align: nat,
                       i: nat, x: nat, y: nat, i': nat, x': nat, y': nat)
    requires num > 0 && align > 0 && i < num && i' < num && WellFormed(src)
    requires OffsetFits(src, dir, num, align, i) && OffsetFits(src, dir, num, align, i')
    requires IsPixel(Piece(src, dir, num, align, i), x, y) && IsPixel(Piece(src, dir, num, align, i'), x', y')
    requires (i, x, y) != (i', x', y')
    ensures Pixel(Piece(src, dir, num, align, i), x, y) != Pixel(Piece(src, dir, num, align, i'), x', y')
    ensures src.addr <= Pixel(Piece(src, dir, num, align, i), x, y) < src.addr + src.stride * src.height
  {
    hide Piece, Mul32, Add64, Extent, OffsetFits, SourceX, SourceY, Pixel;
    PieceIsView(src, dir, num, align, i, x, y);
    PieceIsView(src, dir, num, align, i', x', y');
    PieceShape(src, dir, num, align, i);
    PieceShape(src, dir, num, align, i');
    var X, Y := SourceX(src, dir, num, align, i, x), SourceY(src, dir, num, align, i, y);
    var X', Y' := SourceX(src, dir, num, align, i', x'), SourceY(src, dir, num, align, i', y');
    PixelInside(src, X, Y);
    if Pixel(src, X, Y) == Pixel(src, X', Y') {
      PixelInjective(src, X, Y, X', Y');
      SamePoint(src, dir, num, align, i, x, y, i', x', y');
    }
  }

  lemma PixelInside(src: Image, x: nat, y: nat)
    requires IsPixel(src, x, y) && src.width <= src.stride
    ensures src.addr <= Pixel(src, x, y) < src.addr + src.stride * src.height
  {
    hide Product;
    var row := Product(y, src.stride);
    RowInside(y, src.height, src.stride);
    assert Pixel(src, x, y) == src.addr + row + x by { ProductIs(y, src.stride); }
  }

  lemma ProductIs(a: nat, b: nat)
    ensures Product(a, b) == a * b
  {
  }

  lemma RowInside(y: nat, height: nat, stride: nat)
    requires y < height
    ensures Product(y, stride) + stride <= stride * height
  {
    ProductOrder(y, height, stride);
    assert height * stride == stride * height;
  }

  lemma PixelInjective(src: Image, x: nat, y: nat, x': nat, y': nat)
    requires src.width <= src.stride && IsPixel(src, x, y) && IsPixel(src, x', y')
    requires Pixel(src, x, y) == Pixel(src, x', y')
    ensures x == x' && y == y'
  {
    RowsApart(x, y, x', y', src.stride);
  }

  lemma SamePoint(src: Image, dir: Direction, num: nat, align: nat,
                  i: nat, x: nat, y: nat, i': nat, x': nat, y': nat)
    requires num > 0 && align > 0
    requires dir == Width ==> x < Extent(src, dir, num, align) && x' < Extent(src, dir, num, align)
    requires dir == Height ==> y < Extent(src, dir, num, align) && y' < Extent(src, dir, num, align)
    requires SourceX(src, dir, num, align, i, x) == SourceX(src, dir, num, align, i', x')
    requires SourceY(src, dir, num, align, i, y) == SourceY(src, dir, num, align, i', y')
    ensures (i, x, y) == (i', x', y')
  {
    hide Share;
    if dir == Width {
      RowsApart(x, i, x', i', Extent(src, dir, num, align));
    } else {
      RowsApart(y, i, y', i', Extent(src, dir, num, align));
    }
  }

  lemma QuotientBelow(at: nat, num: nat, e: nat)
    requires e > 0 && at < num * e
    ensures at / e < num
  {
    DivideBounds(at, e);
    AtLeastProduct(e, num, at / e);
  }

  lemma AtLeastProduct(m: nat, a: nat, b: nat)
    ensures a <= b ==> a * m <= b * m
  {
    if a < b {
      ProductOrder(a, b, m);
    }
  }

  lemma SomeShare(num: nat, e: nat, at: nat)
    ensures at < num * e <==> exists i: nat :: i < num && Product(i, e) <= at < Product(i, e) + e
  {
    if at < num * e {
      var i := at / e;
      DivideBounds(at, e);
      QuotientBelow(at, num, e);
      assert Product(i, e) <= at < Product(i, e) + e;
    }
    forall i: nat | i < num && Product(i, e) <= at < Product(i, e) + e
      ensures at < num * e
    {
      ProductOrder(i, num, e);
    }
  }

  /** Pixel (x, y) of piece `i` is the byte of pixel (X, Y) of the source. */
  ghost predicate Shows(src: Image, dir: Direction, num: nat, align: nat, i: nat, x: nat, y: nat, X: nat, Y: nat)
    requires num > 0 && align > 0
  {
    var piece := Piece(src, dir, num, align, i);
    IsPixel(piece, x, y) && Pixel(piece, x, y) == Pixel(src, X, Y)
  }

  /** When the offsets fit, a pixel of the source is in some piece exactly when it lies before the
      remainder. */
  lemma CoveredIff(src: Image, dir: Direction, num: nat, align: nat, X: nat, Y: nat)
    requires num > 0 && align > 0 && WellFormed(src) && IsPixel(src, X, Y)
    requires forall i: nat :: i < num ==> OffsetFits(src, dir, num, align, i)
    ensures (exists i: nat, x: nat, y: nat :: i < num && Shows(src, dir, num, align, i, x, y, X, Y))
            <==> (if dir == Width then X else Y) < num * Extent(src, dir, num, align)
  {
    hide Piece, Pixel, Extent, OffsetFits, Product, Shows, Mul32, Add64;
    var at, e := if dir == Width then X else Y, Extent(src, dir, num, align);
    SomeShare(num, e, at);
    if at < num * e {
      var i: nat :| i < num && Product(i, e) <= at < Product(i, e) + e;
      var within := at - Product(i, e);
      var x, y := if dir == Width then within else X, if dir == Width then Y else within;
      ShowsWithin(src, dir, num, align, i, x, y, X, Y);
    }
    forall i: nat, x: nat, y: nat | i < num && Shows(src, dir, num, align, i, x, y, X, Y)
      ensures at < num * e
    {
      ShownWithin(src, dir, num, align, i, x, y, X, Y);
      assert Product(i, e) <= at < Product(i, e) + e;
    }
  }

  lemma ShowsWithin(src: Image, dir: Direction, num: nat, align: nat, i: nat, x: nat, y: nat, X: nat, Y: nat)
    requires num > 0 && align > 0 && i < num && WellFormed(src) && OffsetFits(src, dir, num, align, i)
    requires IsPixel(src, X, Y)
    requires (if dir == Width then x else y) < Extent(src, dir, num, align)
    requires X == SourceX(src, dir, num, align, i, x) && Y == SourceY(src, dir, num, align, i, y)
    ensures Shows(src, dir, num, align, i, x, y, X, Y)
  {
    hide Piece, Pixel, Extent, OffsetFits, Product, Mul32, Add64;
    PieceShape(src, dir, num, align, i);
    PieceIsView(src, dir, num, align, i, x, y);
  }

  lemma ShownWithin(src: Image, dir: Direction, num: nat, align: nat, i: nat, x: nat, y: nat, X: nat, Y: nat)
    requires num > 0 && align > 0 && i < num && WellFormed(src) && IsPixel(src, X, Y)
    requires Shows(src, dir, num, align, i, x, y, X, Y) && OffsetFits(src, dir, num, align, i)
    ensures (if dir == Width then x else y) < Extent(src, dir, num, align)
    ensures X == SourceX(src, dir, num, align, i, x) && Y == SourceY(src, dir, num, align, i, y)
  {
    hide Piece, Pixel, Extent, OffsetFits, Product, SourceX, SourceY, Mul32, Add64;
    PieceShape(src, dir, num, align, i);
    PieceIsView(src, dir, num, align, i, x, y);
    PixelInjective(src, X, Y, SourceX(src, dir, num, align, i, x), SourceY(src, dir, num, align, i, y));
  }

  /** An image of 4 GiB cut across its height in two: the offset of the second half is 2^32, so
      the second piece starts where the first one does. */
  lemma SecondHalfOverlaps()
    ensures var src := Image(0, 65536, 131072, 65536);
      && WellFormed(src) && !OffsetFits(src, Height, 2, 1, 1)
      && Piece(src, Height, 2, 1, 1) == Piece(src, Height, 2, 1, 0)
      && Pixel(src, SourceX(src, Height, 2, 1, 1, 0), SourceY(src, Height, 2, 1, 1, 0)) == 0x1_0000_0000
  {
    var src := Image(0, 65536, 131072, 65536);
    assert Extent(src, Height, 2, 1) == 65536;
  }
}
