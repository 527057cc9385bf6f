/** The pure operations both page components share: the per-page rotation
    vector and how clicks change it, the zoom width, the stored file stem, and
    the export step that writes rotations into the re-parsed document.

    A rotation vector holds one integer of degrees per page. It is never
    reduced modulo 360: four clicks on a page leave 360 in its entry. The
    document handed to export is abstracted as the sequence of its pages'
    original `/Rotate` values (section 7.7.3.3, Table 30, of ISO 32000-1). */
module Session {
  import opened Js

  /** The degrees one click adds to a page. */
  const QuarterTurn := 90

  /** Zoom width limits and step, in CSS pixels. */
  const InitialWidth := 300
  const MinWidth := 100
  const MaxWidth := 500
  const ZoomStep := 50

  /** Appended to the stored stem to name the downloaded file. */
  const RotatedSuffix := "(rotated).pdf"

  // ---------------------------------------------------------------------
  // Rotation vectors
  // ---------------------------------------------------------------------

  /** No page of the vector has been turned. */
  predicate Untouched(rot: seq<int>)
  {
    forall i :: 0 <= i < |rot| ==> rot[i] == 0
  }

  /** Every entry is a non-negative whole number of quarter turns: the values
      clicks can produce from an all-zero vector. */
  predicate QuarterTurns(rot: seq<int>)
  {
    forall i :: 0 <= i < |rot| ==> 0 <= rot[i] && rot[i] % QuarterTurn == 0
  }

  /** `new Array(n).fill(0)`: the vector a freshly loaded document starts with. */
  function Zeros(n: nat): (r: seq<int>)
    ensures |r| == n
    ensures Untouched(r)
    ensures QuarterTurns(r)
  {
    seq(n, _ => 0)
  }

  /** One click on page `i`: that entry gains a quarter turn, nothing else moves. */
  function RotatePage(rot: seq<int>, i: int): (r: seq<int>)
    requires 0 <= i < |rot|
    ensures |r| == |rot|
    ensures r[i] == rot[i] + QuarterTurn
    ensures forall j :: 0 <= j < |rot| && j != i ==> r[j] == rot[j]
    ensures QuarterTurns(rot) ==> QuarterTurns(r)
  {
    rot[i := rot[i] + QuarterTurn]
  }

  /** "Rotate all": every entry gains a quarter turn on its own; differing
      entries are not first brought to a common value. */
  function RotateAll(rot: seq<int>): (r: seq<int>)
    ensures |r| == |rot|
    ensures forall i :: 0 <= i < |rot| ==> r[i] == rot[i] + QuarterTurn
    ensures QuarterTurns(rot) ==> QuarterTurns(r)
  {
    seq(|rot|, i requires 0 <= i < |rot| => rot[i] + QuarterTurn)
  }

  /** Every click names a page of the vector. */
  predicate ValidClicks(rot: seq<int>, clicks: seq<int>)
  {
    forall k :: 0 <= k < |clicks| ==> 0 <= clicks[k] < |rot|
  }

  /** The vector after the page clicks `clicks`, applied in order. */
  function Clicks(rot: seq<int>, clicks: seq<int>): (r: seq<int>)
    requires ValidClicks(rot, clicks)
    ensures |r| == |rot|
    decreases |clicks|
  {
    if |clicks| == 0 then rot
    else RotatePage(Clicks(rot, clicks[..|clicks| - 1]), clicks[|clicks| - 1])
  }

  /** How many of the clicks fell on page `j`. */
  function ClicksOn(clicks: seq<int>, j: int): nat
    decreases |clicks|
  {
    if |clicks| == 0 then 0
    else ClicksOn(clicks[..|clicks| - 1], j) + (if clicks[|clicks| - 1] == j then 1 else 0)
  }

  /** Clicks accumulate exactly: each page ends with its starting value plus a
      quarter turn per click on it, with no reduction modulo 360. */
  lemma {:induction false} ClicksAccumulate(rot: seq<int>, clicks: seq<int>, j: int)
    requires ValidClicks(rot, clicks)
    requires 0 <= j < |rot|
    ensures Clicks(rot, clicks)[j] == rot[j] + QuarterTurn * ClicksOn(clicks, j)
    decreases |clicks|
  {
    if |clicks| > 0 {
      var init := clicks[..|clicks| - 1];
      assert ValidClicks(rot, init) by {
        forall k | 0 <= k < |init| ensures 0 <= init[k] < |rot| {
          assert init[k] == clicks[k];
        }
      }
      ClicksAccumulate(rot, init, j);
    }
  }

  /** `k` copies of `x`: `k` clicks on the same page, or `k` equal events. */
  function Repeat<T>(x: T, k: nat): (r: seq<T>)
    ensures |r| == k
    ensures forall n :: 0 <= n < k ==> r[n] == x
  {
    seq(k, _ => x)
  }

  lemma {:induction false} ClicksOnRepeat(i: int, k: nat, j: int)
    ensures ClicksOn(Repeat(i, k), j) == (if i == j then k else 0)
  {
    if k > 0 {
      assert Repeat(i, k)[..k - 1] == Repeat(i, k - 1);
      ClicksOnRepeat(i, k - 1, j);
    }
  }

  /** `k` clicks on page `i` of a fresh document leave `90 * k` there and
      zero everywhere else. */
  lemma RepeatedClicksFromZero(n: nat, i: int, k: nat)
    requires 0 <= i < n
    ensures Clicks(Zeros(n), Repeat(i, k))[i] == QuarterTurn * k
    ensures forall j :: 0 <= j < n && j != i ==> Clicks(Zeros(n), Repeat(i, k))[j] == 0
  {
    ClicksAccumulate(Zeros(n), Repeat(i, k), i);
    ClicksOnRepeat(i, k, i);
    forall j | 0 <= j < n && j != i
      ensures Clicks(Zeros(n), Repeat(i, k))[j] == 0
    {
      ClicksAccumulate(Zeros(n), Repeat(i, k), j);
      ClicksOnRepeat(i, k, j);
    }
  }

  /** The page numbers `0 .. n-1`, one click on each page in order. */
  function Indices(n: nat): (r: seq<int>)
    ensures |r| == n
    ensures forall k :: 0 <= k < n ==> r[k] == k
  {
    seq(n, k => k)
  }

  lemma {:induction false} ClicksOnIndices(n: nat, j: int)
    requires 0 <= j < n
    ensures ClicksOn(Indices(n), j) == 1
  {
    assert Indices(n)[..n - 1] == Indices(n - 1);
    if j < n - 1 {
      ClicksOnIndices(n - 1, j);
    } else {
      ClicksOnNone(Indices(n - 1), j);
    }
  }

  lemma {:induction false} ClicksOnNone(clicks: seq<int>, j: int)
    requires forall k :: 0 <= k < |clicks| ==> clicks[k] < j
    ensures ClicksOn(clicks, j) == 0
    decreases |clicks|
  {
    if |clicks| > 0 {
      ClicksOnNone(clicks[..|clicks| - 1], j);
    }
  }

  /** "Rotate all" is the same as clicking every page once. */
  lemma {:induction false} RotateAllIsOneClickPerPage(rot: seq<int>)
    ensures ValidClicks(rot, Indices(|rot|))
    ensures Clicks(rot, Indices(|rot|)) == RotateAll(rot)
  {
    var r := Clicks(rot, Indices(|rot|));
    forall j | 0 <= j < |rot| ensures r[j] == RotateAll(rot)[j] {
      ClicksAccumulate(rot, Indices(|rot|), j);
      ClicksOnIndices(|rot|, j);
    }
  }

  /** "Rotate all" keeps every difference between two pages' entries. */
  lemma RotateAllKeepsDifferences(rot: seq<int>, i: int, j: int)
    requires 0 <= i < |rot| && 0 <= j < |rot|
    ensures RotateAll(rot)[i] - RotateAll(rot)[j] == rot[i] - rot[j]
  {
  }

  /** One "Rotate all" on a vector holding each quarter turn once: the last
      entry becomes 360, it does not wrap to 0. */
  lemma RotateAllDoesNotWrap()
    ensures RotateAll([0, 90, 180, 270]) == [90, 180, 270, 360]
  {
  }

  // ---------------------------------------------------------------------
  // Zoom
  // ---------------------------------------------------------------------

  /** A width the zoom buttons can reach from the initial one. */
  predicate ZoomOk(w: int)
  {
    MinWidth <= w <= MaxWidth && w % ZoomStep == 0
  }

  /** Zoom in: one step wider, unless already at or past the maximum. */
  function ZoomIn(w: int): (r: int)
    ensures r == w || r == w + ZoomStep
    ensures r == w <==> w >= MaxWidth
    ensures ZoomOk(w) ==> ZoomOk(r)
  {
    if w >= MaxWidth then w else w + ZoomStep
  }

  /** Zoom out: one step narrower, unless already at or below the minimum. */
  function ZoomOut(w: int): (r: int)
    ensures r == w || r == w - ZoomStep
    ensures r == w <==> w <= MinWidth
    ensures ZoomOk(w) ==> ZoomOk(r)
  {
    if w <= MinWidth then w else w - ZoomStep
  }

  /** Away from the bounds, zooming out undoes zooming in and vice versa. */
  lemma ZoomInverse(w: int)
    requires ZoomOk(w)
    ensures w < MaxWidth ==> ZoomOut(ZoomIn(w)) == w
    ensures w > MinWidth ==> ZoomIn(ZoomOut(w)) == w
  {
  }

  // ---------------------------------------------------------------------
  // File name
  // ---------------------------------------------------------------------

  /** `name.substring(0, name.lastIndexOf("."))`: the part of an upload's name
      before its last dot, or the empty string when it has none. */
  function FileStem(name: string): (r: string)
    ensures |r| <= |name| && r == name[..|r|]
    ensures '.' !in name ==> r == ""
    ensures '.' in name ==> |r| < |name| && name[|r|] == '.' && '.' !in name[|r| + 1..]
  {
    Substring(name, 0, LastIndexOf(name, '.'))
  }

  /** Dropping the extension of `stem.ext` gives back `stem`, dots in the stem
      included. */
  lemma StemOfJoin(stem: string, ext: string)
    requires '.' !in ext
    ensures FileStem(stem + "." + ext) == stem
  {
    var name := stem + "." + ext;
    assert name[|stem|] == '.';
    assert name[|stem| + 1..] == ext;
    assert name[..|stem|] == stem;
  }

  /** The stem keeps inner dots and is empty without an extension. */
  lemma StemExamples()
    ensures FileStem("report.pdf") == "report"
    ensures FileStem("scan.v2.pdf") == "scan.v2"
    ensures FileStem("README") == ""
  {
    StemOfJoin("report", "pdf");
    assert "report" + "." + "pdf" == "report.pdf";
    StemOfJoin("scan.v2", "pdf");
    assert "scan.v2" + "." + "pdf" == "scan.v2.pdf";
  }

  // ---------------------------------------------------------------------
  // Export
  // ---------------------------------------------------------------------

  /** The page rotations of the saved document: a page whose entry is
      non-zero has its rotation set to exactly that entry, overwriting what
      the document held; every other page keeps its original rotation. */
  function ExportRotations(original: seq<int>, rot: seq<int>): (r: seq<int>)
    requires |original| <= |rot|
    ensures |r| == |original|
    ensures forall i :: 0 <= i < |original| && rot[i] != 0 ==> r[i] == rot[i]
    ensures forall i :: 0 <= i < |original| && rot[i] == 0 ==> r[i] == original[i]
  {
    seq(|original|, i requires 0 <= i < |original| => if rot[i] != 0 then rot[i] else original[i])
  }

  /** The `pages.forEach` loop, one page at a time, agrees with the
      pointwise definition. */
  method ApplyExport(original: seq<int>, rot: seq<int>) returns (pages: seq<int>)
    requires |original| <= |rot|
    ensures pages == ExportRotations(original, rot)
  {
    pages := original;
    var i := 0;
    while i < |pages|
      invariant 0 <= i <= |pages| == |original|
      invariant forall k :: 0 <= k < i ==> pages[k] == (if rot[k] != 0 then rot[k] else original[k])
      invariant forall k :: i <= k < |pages| ==> pages[k] == original[k]
    {
      if rot[i] != 0 {
        pages := pages[i := rot[i]];
      }
      i := i + 1;
    }
  }

  /** With no page turned, export reproduces every original rotation. */
  lemma ExportUntouchedIsIdentity(original: seq<int>, rot: seq<int>)
    requires |original| <= |rot|
    requires Untouched(rot)
    ensures ExportRotations(original, rot) == original
  {
  }

  /** A turned page's exported rotation does not depend on the rotation the
      document held: the entry overwrites it rather than adding to it. */
  lemma ExportOverwrites(original1: seq<int>, original2: seq<int>, rot: seq<int>, i: int)
    requires |original1| == |original2| <= |rot|
    requires 0 <= i < |original1| && rot[i] != 0
    ensures ExportRotations(original1, rot)[i] == ExportRotations(original2, rot)[i] == rot[i]
  {
  }

  /** Exporting the exported document again with the same vector changes nothing. */
  lemma ExportIdempotent(original: seq<int>, rot: seq<int>)
    requires |original| <= |rot|
    ensures ExportRotations(ExportRotations(original, rot), rot) == ExportRotations(original, rot)
  {
  }

  /** Every rotation export writes is a whole number of quarter turns. */
  lemma ExportWritesQuarterTurns(original: seq<int>, rot: seq<int>)
    requires |original| <= |rot|
    requires QuarterTurns(original) && QuarterTurns(rot)
    ensures QuarterTurns(ExportRotations(original, rot))
  {
  }

  /** A page clicked `k` times on a fresh document exports as `90 * k` when
      `k > 0` (360 after four clicks, still written), and keeps its original
      rotation when never clicked. */
  lemma ExportAfterClicks(original: seq<int>, i: int, k: nat)
    requires 0 <= i < |original|
    ensures k > 0 ==> ExportRotations(original, Clicks(Zeros(|original|), Repeat(i, k)))[i] == QuarterTurn * k
    ensures k == 0 ==> ExportRotations(original, Clicks(Zeros(|original|), Repeat(i, k)))[i] == original[i]
    ensures forall j :: 0 <= j < |original| && j != i ==>
      ExportRotations(original, Clicks(Zeros(|original|), Repeat(i, k)))[j] == original[j]
  {
    RepeatedClicksFromZero(|original|, i, k);
  }

  /** A file the user picked; only its name matters to the handlers. */
  datatype File = File(name: string)

  /** What a press of "Download" ends in. */
  datatype Download =
    | Saved(name: string, pages: seq<int>)  // the rebuilt document handed to the browser
    | ReadFailed                            // no file to read: the read promise rejects
    | LoadFailed                            // the document library could not parse the bytes
    | RotateFailed                          // the library refused an angle: no file is saved

  /** Whether every page the `forEach` reaches can take its entry. The
      library's `setRotation` accepts only a number that is a multiple of 90
      (a `/Rotate` value must be one, by Table 30 of ISO 32000-1) and throws
      otherwise. A page past the end of the vector reads `undefined`, which is
      `!== 0` and so is handed to `setRotation`; an entry of 0 is skipped. */
  predicate Writable(pageCount: nat, rot: seq<int>)
  {
    pageCount <= |rot| && forall i :: 0 <= i < pageCount ==> rot[i] % QuarterTurn == 0
  }

  /** A vector of quarter turns with an entry for every page is always writable. */
  lemma QuarterTurnsWritable(pageCount: nat, rot: seq<int>)
    requires QuarterTurns(rot) && pageCount <= |rot|
    ensures Writable(pageCount, rot)
  {
  }

  /** `fileName + "(rotated).pdf"`: the download's name, ending in the suffix
      and starting with the stored stem (or "null" when none is stored). */
  function OutputName(fileName: Nullable<string>): (r: string)
    ensures |r| == |Render(fileName)| + |RotatedSuffix|
    ensures r[|r| - |RotatedSuffix|..] == RotatedSuffix
    ensures fileName.Value? ==> r[..|fileName.value|] == fileName.value
    ensures fileName.Null? ==> r == "null(rotated).pdf"
  {
    Render(fileName) + RotatedSuffix
  }

  /** The export step shared by both components: read the file, re-parse it
      (`parsed` is what the document library makes of the bytes), overwrite
      the turned pages and name the result. A document with more pages than
      the vector has entries, or an entry that is not a quarter turn, makes
      the library throw before anything is saved. */
  function Export(file: Nullable<File>, fileName: Nullable<string>, rot: seq<int>, parsed: Nullable<seq<int>>): (d: Download)
    ensures file.Null? ==> d == ReadFailed
    ensures file.Value? && parsed.Null? ==> d == LoadFailed
    ensures file.Value? && parsed.Value? && |parsed.value| > |rot| ==> d == RotateFailed
    ensures file.Value? && parsed.Value? && !Writable(|parsed.value|, rot) ==> d == RotateFailed
    ensures d.Saved? ==> |d.pages| == |parsed.value|
    ensures d.Saved? ==> d.name == Render(fileName) + RotatedSuffix
    ensures file.Value? && parsed.Value? && Writable(|parsed.value|, rot) ==>
      d.Saved? && d.pages == ExportRotations(parsed.value, rot)
  {
    match file
    case Null => ReadFailed
    case Value(_) =>
      match parsed
      case Null => LoadFailed
      case Value(pages) =>
        if Writable(|pages|, rot) then Saved(OutputName(fileName), ExportRotations(pages, rot))
        else RotateFailed
  }
}
