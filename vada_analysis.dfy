/**
 * `rate_my_vada`: load a photograph, segment the vada with GrabCut, find its
 * hole inside the segmented region, measure it and combine four sub-scores
 * into the Standardized Vada Perfection Index (VPI-S).
 *
 * OpenCV's algorithms (GrabCut, contour tracing, contour filling, colour
 * conversion) and the file system are not modelled: they are the fields of
 * a `Vision` value, and every property below holds whatever those
 * functions are. What is modelled is the decision and arithmetic layer in
 * between: the failure outcomes, the trimap collapse, the hole and colour
 * mask algebra, the largest-contour choices and the guarded scores.
 */
module VadaAnalysis {
  import opened Wrappers
  import opened Grids
  import opened OpenCvOps
  import opened Contours
  import opened Scoring

  /** A colour pixel in OpenCV's channel order. */
  datatype Bgr = Bgr(b: Byte, g: Byte, r: Byte)

  /** A decoded colour image: `cv2.imread` returns a non-empty array whose rows all have the same width. */
  type Image = g: Grid<Bgr> | |g| > 0 && |g[0]| > 0 && Shaped(g, |g|, |g[0]|)
    witness [[Bgr(0, 0, 0)]]

  /** `color_image.shape[0]`. */
  function Height(img: Image): (h: nat)
    ensures h > 0
  {
    |img|
  }

  /** `color_image.shape[1]`. */
  function Width(img: Image): (w: nat)
    ensures w > 0
  {
    |img[0]|
  }

  /** GrabCut's four labels (`cv2.GC_BGD`, `GC_FGD`, `GC_PR_BGD`, `GC_PR_FGD`). */
  const DefiniteBackground: int := 0
  const DefiniteForeground: int := 1
  const ProbableBackground: int := 2
  const ProbableForeground: int := 3

  type Label = l: int | 0 <= l <= 3

  /** The `(x, y, width, height)` rectangle GrabCut is seeded with. */
  datatype Rect = Rect(x: int, y: int, width: int, height: int)

  /**
   * The library and operating-system functions `rate_my_vada` calls, as
   * given total functions:
   * - `pathExists`: `os.path.exists`;
   * - `imread`: `cv2.imread`, `None` when the file cannot be decoded;
   * - `grabCut`: the label `cv2.grabCut(image, mask, rect, ..., iterCount,
   *   GC_INIT_WITH_RECT)` leaves at a given row and column of `mask`;
   * - `findExternalContours`: `cv2.findContours(mask, RETR_EXTERNAL, ...)`;
   * - `filledByContour`: whether `cv2.drawContours(..., thickness=-1)`
   *   paints a given row and column when filling a contour;
   * - `toGray`, `toHsv`: the per-pixel `COLOR_BGR2GRAY` and
   *   `COLOR_BGR2HSV` conversions;
   * - `baseStem`: `os.path.splitext(os.path.basename(path))[0]`;
   * - `pathJoin`: `os.path.join`.
   */
  datatype Vision = Vision(
    pathExists: string -> bool,
    imread: string -> Option<Image>,
    grabCut: (Image, Rect, nat, nat, nat) -> Label,
    findExternalContours: Grid<Byte> -> seq<Contour>,
    filledByContour: (Contour, nat, nat) -> bool,
    toGray: Bgr -> Byte,
    toHsv: Bgr -> Hsv,
    baseStem: string -> string,
    pathJoin: (string, string) -> string)

  const GrabCutIterations: nat := 5
  /** Gray level at or below which an object pixel counts as part of the hole. */
  const HoleThreshold: int := 50
  /** Inclusive HSV box of the golden-brown colour. */
  const GoldenBrownLower: Hsv := Hsv(10, 80, 50)
  const GoldenBrownUpper: Hsv := Hsv(30, 255, 200)

  /** The analysis result returned on success. */
  datatype VadaReport = VadaReport(
    filename: string,
    vpiS: real,
    sSize: real,
    sShape: real,
    sHole: real,
    sColor: real,
    annotatedImagePath: string)

  /**
   * The GrabCut seed rectangle `(int(w*0.1), int(h*0.1), int(w*0.8), int(h*0.8))`:
   * origin at a tenth of each dimension and extent four fifths of it, each
   * truncated. It lies inside the image with at least a tenth of it, and at
   * least one pixel, to its right and below; it is empty on an image one
   * pixel wide or one pixel tall.
   */
  function SeedRect(width: nat, height: nat): (rect: Rect)
    ensures 10 * rect.x <= width < 10 * (rect.x + 1)
    ensures 10 * rect.y <= height < 10 * (rect.y + 1)
    ensures 10 * rect.width <= 8 * width < 10 * (rect.width + 1)
    ensures 10 * rect.height <= 8 * height < 10 * (rect.height + 1)
    ensures 10 * (rect.x + rect.width) <= 9 * width && 10 * (rect.y + rect.height) <= 9 * height
    ensures width > 0 ==> rect.x + rect.width < width
    ensures height > 0 ==> rect.y + rect.height < height
    ensures width > 0 ==> (rect.width == 0 <==> width == 1)
    ensures height > 0 ==> (rect.height == 0 <==> height == 1)
  {
    Rect((width as real * 0.1).Floor, (height as real * 0.1).Floor,
         (width as real * 0.8).Floor, (height as real * 0.8).Floor)
  }

  /** The label grid GrabCut leaves in `mask` after 5 iterations seeded with `SeedRect`. */
  function Trimap(cv: Vision, img: Image): (t: Grid<int>)
    ensures Shaped(t, Height(img), Width(img))
  {
    var rect := SeedRect(Width(img), Height(img));
    seq(Height(img), r requires 0 <= r < Height(img) =>
      seq(Width(img), c requires 0 <= c < Width(img) =>
        cv.grabCut(img, rect, GrabCutIterations, r, c) as int))
  }

  /**
   * Collapse of the four-label mask: definite and probable background become
   * 0, every other label becomes 1.
   */
  function CollapseTrimap(t: Grid<int>): (m: Grid<Byte>)
    ensures SameShape(m, t)
    ensures forall r, c :: 0 <= r < |t| && 0 <= c < |t[r]| ==> m[r][c] == 0 || m[r][c] == 1
    ensures forall r, c :: 0 <= r < |t| && 0 <= c < |t[r]| ==>
      (m[r][c] == 0 <==> t[r][c] == DefiniteBackground || t[r][c] == ProbableBackground)
    ensures forall r, c :: 0 <= r < |t| && 0 <= c < |t[r]| ==>
      (t[r][c] == DefiniteForeground || t[r][c] == ProbableForeground ==> m[r][c] == 1)
  {
    seq(|t|, r requires 0 <= r < |t| =>
      seq(|t[r]|, c requires 0 <= c < |t[r]| =>
        if t[r][c] == ProbableBackground || t[r][c] == DefiniteBackground then 0 else 1))
  }

  /** The binary foreground mask the outer contour is traced in. */
  function ForegroundMask(cv: Vision, img: Image): (m: Grid<Byte>)
    ensures Shaped(m, Height(img), Width(img))
  {
    CollapseTrimap(Trimap(cv, img))
  }

  /** `gray_image`: the per-pixel gray conversion of the image. */
  function GrayImage(cv: Vision, img: Image): (g: Grid<Byte>)
    ensures Shaped(g, Height(img), Width(img))
  {
    seq(Height(img), r requires 0 <= r < Height(img) =>
      seq<Byte>(Width(img), c requires 0 <= c < Width(img) => cv.toGray(img[r][c])))
  }

  /** `img_hsv`: the per-pixel HSV conversion of the image. */
  function HsvImage(cv: Vision, img: Image): (g: Grid<Hsv>)
    ensures Shaped(g, Height(img), Width(img))
  {
    seq(Height(img), r requires 0 <= r < Height(img) =>
      seq(Width(img), c requires 0 <= c < Width(img) => cv.toHsv(img[r][c])))
  }

  /**
   * `vada_mask`: a zero `h` by `w` image with the outer contour drawn filled
   * in 255. It is a 0/255 mask, set exactly on the pixels the filled contour
   * covers.
   */
  function ObjectMask(cv: Vision, outer: Contour, h: nat, w: nat): (m: Grid<Byte>)
    ensures Shaped(m, h, w) && IsMask(m)
    ensures forall r, c :: 0 <= r < h && 0 <= c < w ==> (m[r][c] != 0 <==> cv.filledByContour(outer, r, c))
  {
    seq(h, r requires 0 <= r < h =>
      seq(w, c requires 0 <= c < w => if cv.filledByContour(outer, r, c) then 255 else 0))
  }

  /**
   * `hole_thresh`: the gray image restricted to the object, thresholded at
   * 50 with `THRESH_BINARY`. Set exactly on object pixels brighter than 50,
   * the solid part of the vada.
   */
  function SolidMask(gray: Grid<Byte>, objectMask: Grid<Byte>): (solid: Grid<Byte>)
    requires SameShape(gray, objectMask)
    ensures SameShape(solid, objectMask) && IsMask(solid)
    ensures forall r, c :: 0 <= r < |solid| && 0 <= c < |solid[r]| ==>
      (solid[r][c] != 0 <==> objectMask[r][c] != 0 && gray[r][c] > HoleThreshold)
    ensures SubMask(solid, objectMask)
  {
    ThresholdBinary(MaskedCopy(gray, objectMask), HoleThreshold, 255)
  }

  /**
   * `hole_mask`: the complement of `hole_thresh`, clipped back to the object.
   * Set exactly on object pixels of gray level 50 or less, so it lies inside
   * the object, and together with the solid part it makes up the object.
   */
  function HoleMask(gray: Grid<Byte>, objectMask: Grid<Byte>): (hole: Grid<Byte>)
    requires SameShape(gray, objectMask)
    ensures SameShape(hole, objectMask) && IsMask(hole)
    ensures forall r, c :: 0 <= r < |hole| && 0 <= c < |hole[r]| ==>
      (hole[r][c] != 0 <==> objectMask[r][c] != 0 && gray[r][c] <= HoleThreshold)
    ensures SubMask(hole, objectMask)
    ensures DisjointUnion(objectMask, SolidMask(gray, objectMask), hole)
  {
    var notHole := SolidMask(gray, objectMask);
    var inverted := BitwiseNot(notHole);
    MaskedCopy(inverted, objectMask)
  }

  /**
   * `cv2.bitwise_and(brown_mask, vada_mask)`: set exactly on object pixels
   * (hole pixels included) whose HSV value lies in the golden-brown box.
   */
  function GoldenBrownMask(hsv: Grid<Hsv>, objectMask: Grid<Byte>): (brown: Grid<Byte>)
    requires SameShape(hsv, objectMask)
    ensures SameShape(brown, objectMask)
    ensures forall r, c :: 0 <= r < |brown| && 0 <= c < |brown[r]| ==>
      (brown[r][c] != 0 <==> objectMask[r][c] != 0 && InBox(hsv[r][c], GoldenBrownLower, GoldenBrownUpper))
    ensures SubMask(brown, objectMask)
  {
    MaskValueAllOnes();
    BitwiseAnd(InRange(hsv, GoldenBrownLower, GoldenBrownUpper), objectMask)
  }

  /** What segmentation yields: the outer contour, the two masks and the hole contour, if any. */
  datatype Segmentation = Segmentation(
    outer: Contour,
    objectMask: Grid<Byte>,
    holeMask: Grid<Byte>,
    hole: Option<Contour>)

  /** The object mask is an image-sized 0/255 mask, set exactly where the filled outer contour covers the pixel. */
  predicate ObjectMaskFills(cv: Vision, img: Image, s: Segmentation)
  {
    Shaped(s.objectMask, Height(img), Width(img)) && IsMask(s.objectMask) &&
    forall y, x :: 0 <= y < Height(img) && 0 <= x < Width(img) ==>
      (s.objectMask[y][x] != 0 <==> cv.filledByContour(s.outer, y, x))
  }

  /** The hole mask is a 0/255 sub-mask of the object, set exactly on object pixels of gray level 50 or less. */
  predicate HoleMaskIsDark(cv: Vision, img: Image, s: Segmentation)
  {
    var gray := GrayImage(cv, img);
    SameShape(s.holeMask, s.objectMask) && IsMask(s.holeMask) && SubMask(s.holeMask, s.objectMask) &&
    forall y, x :: 0 <= y < |s.holeMask| && 0 <= x < |s.holeMask[y]| && y < Height(img) && x < Width(img) ==>
      (s.holeMask[y][x] != 0 <==> s.objectMask[y][x] != 0 && gray[y][x] <= HoleThreshold)
  }

  /**
   * Segmentation: the largest external contour of the foreground mask, the
   * object mask it fills, the hole mask inside it and the largest hole
   * contour. Fails exactly when the foreground mask has no external
   * contour; finding no hole contour is not a failure.
   */
  function Segment(cv: Vision, img: Image): (r: Option<Segmentation>)
    ensures r.None? <==> cv.findExternalContours(ForegroundMask(cv, img)) == []
    ensures r.Some? ==>
      var outers := cv.findExternalContours(ForegroundMask(cv, img));
      r.value.outer in outers && forall c :: c in outers ==> c.area <= r.value.outer.area
    ensures r.Some? ==> IsFirstLargest(cv.findExternalContours(ForegroundMask(cv, img)), r.value.outer)
    ensures r.Some? ==> ObjectMaskFills(cv, img, r.value)
    ensures r.Some? ==>
      SameShape(GrayImage(cv, img), r.value.objectMask) && SameShape(HsvImage(cv, img), r.value.objectMask)
    ensures r.Some? ==> HoleMaskIsDark(cv, img, r.value)
    ensures r.Some? ==>
      var holes := cv.findExternalContours(r.value.holeMask);
      (r.value.hole.None? <==> holes == []) &&
      (r.value.hole.Some? ==> r.value.hole.value in holes &&
                              forall c :: c in holes ==> c.area <= r.value.hole.value.area)
    ensures r.Some? && r.value.hole.Some? ==>
      IsFirstLargest(cv.findExternalContours(r.value.holeMask), r.value.hole.value)
  {
    match LargestByArea(cv.findExternalContours(ForegroundMask(cv, img)))
    case None => None
    case Some(outer) =>
      var objectMask := ObjectMask(cv, outer, Height(img), Width(img));
      var holeMask := HoleMask(GrayImage(cv, img), objectMask);
      Some(Segmentation(outer, objectMask, holeMask, LargestByArea(cv.findExternalContours(holeMask))))
  }

  /** `D_hole`: twice the enclosing radius of the hole contour, or 0 without one. */
  function HoleDiameter(hole: Option<Contour>): (d: real)
    ensures d >= 0.0
    ensures hole.None? ==> d == 0.0
    ensures hole.Some? ==> d == 2.0 * hole.value.radius
  {
    match hole
    case None => 0.0
    case Some(c) => EnclosingDiameter(c)
  }

  /** The quantities the four sub-scores are computed from. */
  datatype Measurements = Measurements(
    width: nat,
    dAvg: real,
    dHole: real,
    netArea: int,
    perimeter: real,
    brownPixels: nat)

  /** `D_avg`, `D_hole`, `net_area`, `perimeter` and `brown_pixels` of a segmentation. */
  function Measure(cv: Vision, img: Image, s: Segmentation): (m: Measurements)
    requires Shaped(s.objectMask, Height(img), Width(img))
    ensures m.width == Width(img) && m.perimeter == s.outer.perimeter
    ensures m.dAvg == 2.0 * s.outer.radius && m.dHole == HoleDiameter(s.hole)
    ensures m.brownPixels == CountNonZero(GoldenBrownMask(HsvImage(cv, img), s.objectMask))
    ensures m.brownPixels <= CountNonZero(s.objectMask)
    ensures m.netArea == CountNonZero(s.objectMask) - CountNonZero(s.holeMask)
  {
    CountSubMask(GoldenBrownMask(HsvImage(cv, img), s.objectMask), s.objectMask);
    Measurements(
      Width(img),
      EnclosingDiameter(s.outer),
      HoleDiameter(s.hole),
      CountNonZero(s.objectMask) - CountNonZero(s.holeMask),
      s.outer.perimeter,
      CountNonZero(GoldenBrownMask(HsvImage(cv, img), s.objectMask)))
  }

  /** The four guarded sub-scores of a set of measurements. */
  function SubScoresOf(m: Measurements): (r: SubScores)
    requires m.width > 0
    ensures r.size * (m.width as real) == m.dAvg
    ensures m.perimeter > 0.0 ==> r.shape * m.perimeter * m.perimeter == 4.0 * Pi * (m.netArea as real)
    ensures m.perimeter <= 0.0 ==> r.shape == 0.0
    ensures m.dAvg > 0.0 ==> r.hole * m.dAvg == m.dAvg - m.dHole
    ensures m.dAvg <= 0.0 ==> r.hole == 0.0
    ensures r.color == ColorScore(GoldenBrownRatio(m.brownPixels, m.netArea))
  {
    SubScores(
      SizeScore(m.dAvg, m.width),
      ShapeScore(m.netArea, m.perimeter),
      HoleScore(m.dHole, m.dAvg),
      ColorScore(GoldenBrownRatio(m.brownPixels, m.netArea)))
  }

  /**
   * The net area of a successful segmentation is the number of object
   * pixels brighter than 50; it is never negative and never exceeds the
   * object's pixel count, and neither does the golden-brown pixel count.
   */
  lemma MeasureCounts(cv: Vision, img: Image)
    requires Segment(cv, img).Some?
    ensures var s := Segment(cv, img).value;
            var m := Measure(cv, img, s);
            && m.netArea == CountNonZero(SolidMask(GrayImage(cv, img), s.objectMask))
            && 0 <= m.netArea <= CountNonZero(s.objectMask) <= Height(img) * Width(img)
            && m.brownPixels <= CountNonZero(s.objectMask)
  {
    var s := Segment(cv, img).value;
    var gray := GrayImage(cv, img);
    CountDisjointUnion(s.objectMask, SolidMask(gray, s.objectMask), s.holeMask);
    CountSubMask(GoldenBrownMask(HsvImage(cv, img), s.objectMask), s.objectMask);
    CountNonZeroBound(s.objectMask, Height(img), Width(img));
  }

  /**
   * The sub-scores of a successful segmentation, each stated as its scoring
   * function applied to the segmentation itself: the size to the outer
   * contour's enclosing diameter, the shape to its perimeter and the number
   * of object pixels brighter than 50, the hole to both enclosing
   * diameters, and the colour to the golden-brown count over that same
   * number of bright object pixels. The bounds follow.
   */
  lemma ScoresOfSegmentation(cv: Vision, img: Image)
    requires Segment(cv, img).Some?
    ensures var s := Segment(cv, img).value;
            var scores := SubScoresOf(Measure(cv, img, s));
            var net := CountNonZero(SolidMask(GrayImage(cv, img), s.objectMask));
            var brown := CountNonZero(GoldenBrownMask(HsvImage(cv, img), s.objectMask));
            && scores.size == SizeScore(2.0 * s.outer.radius, Width(img))
            && scores.shape == ShapeScore(net, s.outer.perimeter)
            && scores.hole == HoleScore(HoleDiameter(s.hole), 2.0 * s.outer.radius)
            && scores.color == ColorScore(GoldenBrownRatio(brown, net))
            && scores.size >= 0.0 && scores.shape >= 0.0 && scores.hole <= 1.0 && scores.color <= 1.0
  {
    var s := Segment(cv, img).value;
    MeasureCounts(cv, img);
    var m := Measure(cv, img, s);
    assert m.netArea == CountNonZero(SolidMask(GrayImage(cv, img), s.objectMask));
  }

  /**
   * Segmentation and scoring of a decoded image; `None` when no outer
   * contour is found. Each sub-score is its scoring function applied to the
   * segmentation, as `ScoresOfSegmentation` states.
   */
  function Analyze(cv: Vision, img: Image): (r: Option<SubScores>)
    ensures r.None? <==> cv.findExternalContours(ForegroundMask(cv, img)) == []
    ensures r.Some? ==>
      var s := Segment(cv, img).value;
      var net := CountNonZero(SolidMask(GrayImage(cv, img), s.objectMask));
      var brown := CountNonZero(GoldenBrownMask(HsvImage(cv, img), s.objectMask));
      && r.value.size == SizeScore(2.0 * s.outer.radius, Width(img))
      && r.value.shape == ShapeScore(net, s.outer.perimeter)
      && r.value.hole == HoleScore(HoleDiameter(s.hole), 2.0 * s.outer.radius)
      && r.value.color == ColorScore(GoldenBrownRatio(brown, net))
    ensures r.Some? ==> r.value.size >= 0.0 && r.value.shape >= 0.0
    ensures r.Some? ==> r.value.hole <= 1.0 && r.value.color <= 1.0
  {
    match Segment(cv, img)
    case None => None
    case Some(s) =>
      ScoresOfSegmentation(cv, img);
      Some(SubScoresOf(Measure(cv, img, s)))
  }

  /**
   * A vada in which hole detection finds no contour, with an outer contour
   * of positive size, gets a hole score of exactly 1.
   */
  lemma SolidVadaHasFullHoleScore(cv: Vision, img: Image)
    requires Segment(cv, img).Some?
    requires Segment(cv, img).value.hole.None? && Segment(cv, img).value.outer.radius > 0.0
    ensures Analyze(cv, img).Some? && Analyze(cv, img).value.hole == 1.0
  {
  }

  /**
   * `rate_my_vada(image_path, output_dir)`: no result when the file does not
   * exist, cannot be decoded, or yields no outer contour; otherwise the
   * report with the four sub-scores, their weighted VPI-S, the file's base
   * name and the path of the annotated copy.
   */
  function RateMyVada(cv: Vision, imagePath: string, outputDir: string): (r: Option<VadaReport>)
    ensures !cv.pathExists(imagePath) ==> r.None?
    ensures cv.pathExists(imagePath) && cv.imread(imagePath).None? ==> r.None?
    ensures cv.pathExists(imagePath) && cv.imread(imagePath).Some? ==>
      (r.None? <==> cv.findExternalContours(ForegroundMask(cv, cv.imread(imagePath).value)) == [])
    ensures r.Some? ==>
      var stem := cv.baseStem(imagePath);
      r.value.filename == stem &&
      r.value.annotatedImagePath == cv.pathJoin(outputDir, "annotated_" + stem + ".png")
    ensures r.Some? ==>
      r.value.vpiS == Vpi(SubScores(r.value.sSize, r.value.sShape, r.value.sHole, r.value.sColor))
    ensures r.Some? ==>
      r.value.sSize >= 0.0 && r.value.sShape >= 0.0 && r.value.sHole <= 1.0 && r.value.sColor <= 1.0
    ensures r.Some? ==>
      && cv.pathExists(imagePath) && cv.imread(imagePath).Some?
      && Analyze(cv, cv.imread(imagePath).value)
         == Some(SubScores(r.value.sSize, r.value.sShape, r.value.sHole, r.value.sColor))
  {
    if !cv.pathExists(imagePath) then None
    else
      match cv.imread(imagePath)
      case None => None
      case Some(img) =>
        match Analyze(cv, img)
        case None => None
        case Some(scores) =>
          var stem := cv.baseStem(imagePath);
          Some(VadaReport(stem, Vpi(scores), scores.size, scores.shape, scores.hole, scores.color,
                          cv.pathJoin(outputDir, "annotated_" + stem + ".png")))
  }
}
