/** The `Home` page component: the simpler variant of the same pipeline. It
    has no loading flag and no load-error handler, and its "Rotate all"
    button has no click handler, so the only rotation event is a page click. */
module HomePage {
  import opened Js
  import opened Session

  datatype State = State(
    numPages: Nullable<nat>,
    file: Nullable<File>,
    fileName: Nullable<string>,
    rotate: seq<int>,
    pageWidth: int)

  /** `rotate` and `numPages` describe the same document. */
  predicate PagesAligned(s: State)
  {
    match s.numPages
    case Null => s.rotate == []
    case Value(n) => n == |s.rotate|
  }

  /** What holds in every state the handlers can reach from `Init`. */
  predicate Inv(s: State)
  {
    && PagesAligned(s)
    && QuarterTurns(s.rotate)
    && ZoomOk(s.pageWidth)
    && (s.file.Value? ==> s.fileName == Value(FileStem(s.file.value.name)))
  }

  /** The state on first render. */
  function Init(): (s: State)
    ensures s.numPages.Null? && s.file.Null? && s.fileName.Null?
    ensures s.rotate == [] && s.pageWidth == InitialWidth
    ensures Inv(s)
  {
    State(Null, Null, Null, [], InitialWidth)
  }

  /** The viewer parsed the document: every page starts unturned. */
  function OnDocumentLoadSuccess(s: State, numPages: nat): (t: State)
    ensures t.numPages == Value(numPages)
    ensures |t.rotate| == numPages && Untouched(t.rotate)
    ensures t.file == s.file && t.fileName == s.fileName && t.pageWidth == s.pageWidth
    ensures Inv(s) ==> Inv(t)
  {
    s.(numPages := Value(numPages), rotate := Zeros(numPages))
  }

  /** The file input changed: with a first file, store it and its name's
      stem; otherwise nothing changes. */
  function OnFileChange(s: State, files: Nullable<seq<File>>): (t: State)
    ensures files.Null? || files.value == [] ==> t == s
    ensures files.Value? && files.value != [] ==>
      && t.file == Value(files.value[0])
      && t.fileName == Value(FileStem(files.value[0].name))
      && t.rotate == s.rotate && t.numPages == s.numPages && t.pageWidth == s.pageWidth
    ensures Inv(s) ==> Inv(t)
  {
    if files.Value? && |files.value| > 0 then
      var next := files.value[0];
      s.(file := Value(next), fileName := Value(FileStem(next.name)))
    else
      s
  }

  /** A click on page `current` adds a quarter turn to that page only. */
  function PageRotate(s: State, current: int): (t: State)
    requires 0 <= current < |s.rotate|
    ensures |t.rotate| == |s.rotate|
    ensures t.rotate[current] == s.rotate[current] + QuarterTurn
    ensures forall j :: 0 <= j < |s.rotate| && j != current ==> t.rotate[j] == s.rotate[j]
    ensures t.(rotate := s.rotate) == s
    ensures Inv(s) ==> Inv(t)
  {
    s.(rotate := RotatePage(s.rotate, current))
  }

  /** "Remove PDF": the file, page count and rotations are cleared; the stored
      name is left as it was. */
  function RemovePdf(s: State): (t: State)
    ensures t.file.Null? && t.numPages == Value(0) && t.rotate == []
    ensures t.fileName == s.fileName && t.pageWidth == s.pageWidth
    ensures Inv(s) ==> Inv(t)
  {
    s.(file := Null, numPages := Value(0), rotate := [])
  }

  /** Zoom in; only the width changes. */
  function ZoomInPage(s: State): (t: State)
    ensures t.(pageWidth := s.pageWidth) == s
    ensures s.pageWidth < MaxWidth ==> t.pageWidth == s.pageWidth + ZoomStep
    ensures t.pageWidth == s.pageWidth <==> s.pageWidth >= MaxWidth
    ensures Inv(s) ==> Inv(t)
  {
    s.(pageWidth := ZoomIn(s.pageWidth))
  }

  /** Zoom out; only the width changes. */
  function ZoomOutPage(s: State): (t: State)
    ensures t.(pageWidth := s.pageWidth) == s
    ensures s.pageWidth > MinWidth ==> t.pageWidth == s.pageWidth - ZoomStep
    ensures t.pageWidth == s.pageWidth <==> s.pageWidth <= MinWidth
    ensures Inv(s) ==> Inv(t)
  {
    s.(pageWidth := ZoomOut(s.pageWidth))
  }

  /** "Download": re-parse the file, overwrite the turned pages, and save under
      the stored stem plus "(rotated).pdf". */
  function DownloadPdf(s: State, parsed: Nullable<seq<int>>): (d: Download)
    ensures s.file.Null? ==> d == ReadFailed
    ensures s.file.Value? && parsed.Null? ==> d == LoadFailed
    ensures s.file.Value? && parsed.Value? && |parsed.value| > |s.rotate| ==> d == RotateFailed
    ensures s.file.Value? && parsed.Value? && !Writable(|parsed.value|, s.rotate) ==> d == RotateFailed
    ensures s.file.Value? && parsed.Value? && Writable(|parsed.value|, s.rotate) ==>
      d == Saved(OutputName(s.fileName), ExportRotations(parsed.value, s.rotate))
  {
    Export(s.file, s.fileName, s.rotate, parsed)
  }

  /** In a reachable state with a file, a successful parse of at most
      `|rotate|` pages is saved under the file's own stem plus
      "(rotated).pdf" and carries the overwritten rotations. */
  lemma DownloadNamesStem(s: State, original: seq<int>)
    requires Inv(s) && s.file.Value?
    requires |original| <= |s.rotate|
    ensures DownloadPdf(s, Value(original)).Saved?
    ensures DownloadPdf(s, Value(original)).name == FileStem(s.file.value.name) + RotatedSuffix
    ensures DownloadPdf(s, Value(original)).pages == ExportRotations(original, s.rotate)
  {
    QuarterTurnsWritable(|original|, s.rotate);
  }

  /** This component shows "Download" as soon as a file is picked. Pressed
      before the viewer has reported the page count, the vector is still
      empty, so a document with any page makes the export throw and nothing
      is saved. */
  lemma DownloadBeforeLoadFails(name: string, parsed: seq<int>)
    requires |parsed| > 0
    ensures Inv(OnFileChange(Init(), Value([File(name)])))
    ensures DownloadPdf(OnFileChange(Init(), Value([File(name)])), Value(parsed)) == RotateFailed
  {
  }

  // ---------------------------------------------------------------------
  // Runs of user events
  // ---------------------------------------------------------------------

  /** The events that reach the handlers; "Rotate all" has none. */
  datatype Event =
    | LoadSuccess(pages: nat)
    | FileChange(files: Nullable<seq<File>>)
    | PageClick(index: int)
    | RemoveClick
    | ZoomInClick
    | ZoomOutClick

  /** A page click names a page of the vector. */
  predicate Allowed(s: State, e: Event)
  {
    e.PageClick? ==> 0 <= e.index < |s.rotate|
  }

  function Step(s: State, e: Event): (t: State)
    requires Allowed(s, e)
  {
    match e
    case LoadSuccess(n) => OnDocumentLoadSuccess(s, n)
    case FileChange(files) => OnFileChange(s, files)
    case PageClick(i) => PageRotate(s, i)
    case RemoveClick => RemovePdf(s)
    case ZoomInClick => ZoomInPage(s)
    case ZoomOutClick => ZoomOutPage(s)
  }

  predicate Runnable(s: State, events: seq<Event>)
    decreases |events|
  {
    |events| == 0 || (Allowed(s, events[0]) && Runnable(Step(s, events[0]), events[1..]))
  }

  /** The state after handling `events` one after another. */
  function Run(s: State, events: seq<Event>): State
    requires Runnable(s, events)
    decreases |events|
  {
    if |events| == 0 then s else Run(Step(s, events[0]), events[1..])
  }

  /** Every handler keeps the invariant. */
  lemma StepKeepsInv(s: State, e: Event)
    requires Inv(s) && Allowed(s, e)
    ensures Inv(Step(s, e))
  {
  }

  /** Every state reachable from `Init` satisfies the invariant. */
  lemma {:induction false} RunKeepsInv(s: State, events: seq<Event>)
    requires Inv(s) && Runnable(s, events)
    ensures Inv(Run(s, events))
    decreases |events|
  {
    if |events| > 0 {
      StepKeepsInv(s, events[0]);
      RunKeepsInv(Step(s, events[0]), events[1..]);
    }
  }

  /** Clicking one page `k` times after a load leaves `90 * k` on it, with no
      reduction modulo 360, and zero on every other page. */
  lemma {:induction false} ClicksAfterLoad(s: State, n: nat, i: int, k: nat)
    requires 0 <= i < n
    ensures Runnable(OnDocumentLoadSuccess(s, n), Repeat(PageClick(i), k))
    ensures Run(OnDocumentLoadSuccess(s, n), Repeat(PageClick(i), k)).rotate ==
            Clicks(Zeros(n), Repeat(i, k))
    ensures Run(OnDocumentLoadSuccess(s, n), Repeat(PageClick(i), k)).rotate[i] == QuarterTurn * k
    ensures forall j :: 0 <= j < n && j != i ==>
      Run(OnDocumentLoadSuccess(s, n), Repeat(PageClick(i), k)).rotate[j] == 0
  {
    RunClicks(OnDocumentLoadSuccess(s, n), i, k);
    RepeatedClicksFromZero(n, i, k);
  }

  /** Running `k` clicks on page `i` is folding those clicks into the vector. */
  lemma {:induction false} RunClicks(s: State, i: int, k: nat)
    requires 0 <= i < |s.rotate|
    ensures Runnable(s, Repeat(PageClick(i), k))
    ensures Run(s, Repeat(PageClick(i), k)) == s.(rotate := Clicks(s.rotate, Repeat(i, k)))
    decreases k
  {
    if k > 0 {
      var t := PageRotate(s, i);
      assert Repeat(PageClick(i), k)[1..] == Repeat(PageClick(i), k - 1);
      RunClicks(t, i, k - 1);
      ClicksFirst(s.rotate, i, k);
    }
  }

  /** Folding `k` clicks on one page: doing the first and then the other
      `k - 1` is the same. */
  lemma {:induction false} ClicksFirst(rot: seq<int>, i: int, k: nat)
    requires 0 <= i < |rot| && k > 0
    ensures Clicks(RotatePage(rot, i), Repeat(i, k - 1)) == Clicks(rot, Repeat(i, k))
    decreases k
  {
    assert Repeat(i, k)[..k - 1] == Repeat(i, k - 1);
    if k > 1 {
      assert Repeat(i, k - 1)[..k - 2] == Repeat(i, k - 2);
      ClicksFirst(rot, i, k - 1);
    }
  }
}
