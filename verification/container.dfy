/** The `Container` component: the full variant of the page, with a loading
    flag, a load-error handler and a working "Rotate all" button. Each
    handler is a pure transition from one state record to the next, as React
    replaces each piece of state wholesale. */
module Container {
  import opened Js
  import opened Session

  datatype State = State(
    numPages: Nullable<nat>,
    file: Nullable<File>,
    fileName: Nullable<string>,
    rotate: seq<int>,
    viewWidth: int,
    loading: bool)

  /** `rotate` and `numPages` describe the same document: no count and no
      entries before the first load, one entry per page after it. */
  predicate PagesAligned(s: State)
  {
    match s.numPages
    case Null => s.rotate == []
    case Value(n) => n == |s.rotate|
  }

  /** What holds in every state the handlers can reach from `Init`. */
  predicate Inv(s: State)
  {
    && PagesAligned(s)
    && QuarterTurns(s.rotate)
    && ZoomOk(s.viewWidth)
    && (s.file.Value? ==> s.fileName == Value(FileStem(s.file.value.name)))
  }

  /** The state on first render. */
  function Init(): (s: State)
    ensures s.numPages.Null? && s.file.Null? && s.fileName.Null? && !s.loading
    ensures s.rotate == [] && s.viewWidth == InitialWidth
    ensures Inv(s)
  {
    State(Null, Null, Null, [], InitialWidth, false)
  }

  /** The viewer parsed the document: loading ends and every page starts unturned. */
  function OnDocumentLoadSuccess(s: State, numPages: nat): (t: State)
    ensures !t.loading && t.numPages == Value(numPages)
    ensures |t.rotate| == numPages && Untouched(t.rotate)
    ensures t.file == s.file && t.fileName == s.fileName && t.viewWidth == s.viewWidth
    ensures Inv(s) ==> Inv(t)
  {
    s.(loading := false, numPages := Value(numPages), rotate := Zeros(numPages))
  }

  /** The viewer failed to parse: loading ends, the file and its name are
      dropped, but the page count and rotation vector stay as they were. */
  function OnDocumentLoadError(s: State): (t: State)
    ensures !t.loading && t.file.Null? && t.fileName.Null?
    ensures t.rotate == s.rotate && t.numPages == s.numPages && t.viewWidth == s.viewWidth
    ensures Inv(s) ==> Inv(t)
  {
    s.(loading := false, file := Null, fileName := Null)
  }

  /** The file input changed. `files` is the input's file list (`Null` when
      there is none); only its first file is taken. Without one, nothing
      changes; with one, loading starts and the name's stem is stored. */
  function OnFileChange(s: State, files: Nullable<seq<File>>): (t: State)
    ensures files.Null? || files.value == [] ==> t == s
    ensures files.Value? && files.value != [] ==>
      && t.loading
      && t.file == Value(files.value[0])
      && t.fileName == Value(FileStem(files.value[0].name))
      && t.rotate == s.rotate && t.numPages == s.numPages && t.viewWidth == s.viewWidth
    ensures Inv(s) ==> Inv(t)
  {
    if files.Value? && |files.value| > 0 then
      var next := files.value[0];
      s.(loading := true, file := Value(next), fileName := Value(FileStem(next.name)))
    else
      s
  }

  /** A click on page `current` adds a quarter turn to that page only. */
  function PageRotate(s: State, current: int): (t: State)
    requires 0 <= current < |s.rotate|
    ensures |t.rotate| == |s.rotate|
    ensures t.rotate[current] == s.rotate[current] + QuarterTurn
    ensures forall j :: 0 <= j < |s.rotate| && j != current ==> t.rotate[j] == s.rotate[j]
    ensures t.(rotate := s.rotate) == s
    ensures Inv(s) ==> Inv(t)
  {
    s.(rotate := RotatePage(s.rotate, current))
  }

  /** "Rotate all" adds a quarter turn to each page independently. */
  function RotateAllPages(s: State): (t: State)
    ensures |t.rotate| == |s.rotate|
    ensures forall i :: 0 <= i < |s.rotate| ==> t.rotate[i] == s.rotate[i] + QuarterTurn
    ensures t.(rotate := s.rotate) == s
    ensures Inv(s) ==> Inv(t)
  {
    s.(rotate := RotateAll(s.rotate))
  }

  /** "Remove PDF": the file, page count and rotations are cleared; the stored
      name and the loading flag are left as they were. */
  function RemovePdf(s: State): (t: State)
    ensures t.file.Null? && t.numPages == Value(0) && t.rotate == []
    ensures t.fileName == s.fileName && t.loading == s.loading && t.viewWidth == s.viewWidth
    ensures Inv(s) ==> Inv(t)
  {
    s.(file := Null, numPages := Value(0), rotate := [])
  }

  /** Zoom in on the page thumbnails; only the width changes. */
  function ZoomInView(s: State): (t: State)
    ensures t.(viewWidth := s.viewWidth) == s
    ensures s.viewWidth < MaxWidth ==> t.viewWidth == s.viewWidth + ZoomStep
    ensures t.viewWidth == s.viewWidth <==> s.viewWidth >= MaxWidth
    ensures Inv(s) ==> Inv(t)
  {
    s.(viewWidth := ZoomIn(s.viewWidth))
  }

  /** Zoom out on the page thumbnails; only the width changes. */
  function ZoomOutView(s: State): (t: State)
    ensures t.(viewWidth := s.viewWidth) == s
    ensures s.viewWidth > MinWidth ==> t.viewWidth == s.viewWidth - ZoomStep
    ensures t.viewWidth == s.viewWidth <==> s.viewWidth <= MinWidth
    ensures Inv(s) ==> Inv(t)
  {
    s.(viewWidth := ZoomOut(s.viewWidth))
  }

  /** "Download": re-parse the picked file (`parsed` is the library's view of
      its pages' rotations, `Null` when it fails), overwrite the turned pages,
      and save under the stored stem plus "(rotated).pdf". */
  function DownloadPdf(s: State, parsed: Nullable<seq<int>>): (d: Download)
    ensures s.file.Null? ==> d == ReadFailed
    ensures s.file.Value? && parsed.Null? ==> d == LoadFailed
    ensures s.file.Value? && parsed.Value? && |parsed.value| > |s.rotate| ==> d == RotateFailed
    ensures s.file.Value? && parsed.Value? && !Writable(|parsed.value|, s.rotate) ==> d == RotateFailed
    ensures s.file.Value? && parsed.Value? && Writable(|parsed.value|, s.rotate) ==>
      d == Saved(OutputName(s.fileName), ExportRotations(parsed.value, s.rotate))
  {
    Export(s.file, s.fileName, s.rotate, parsed)
  }

  /** In a reachable state with a file, a successful parse of at most
      `|rotate|` pages is saved under the file's own stem plus
      "(rotated).pdf" and carries the overwritten rotations. */
  lemma DownloadNamesStem(s: State, original: seq<int>)
    requires Inv(s) && s.file.Value?
    requires |original| <= |s.rotate|
    ensures DownloadPdf(s, Value(original)).Saved?
    ensures DownloadPdf(s, Value(original)).name == FileStem(s.file.value.name) + RotatedSuffix
    ensures DownloadPdf(s, Value(original)).pages == ExportRotations(original, s.rotate)
  {
    QuarterTurnsWritable(|original|, s.rotate);
  }

  // ---------------------------------------------------------------------
  // Runs of user events
  // ---------------------------------------------------------------------

  /** The events that reach the handlers. */
  datatype Event =
    | LoadSuccess(pages: nat)
    | LoadError
    | FileChange(files: Nullable<seq<File>>)
    | PageClick(index: int)
    | RotateAllClick
    | RemoveClick
    | ZoomInClick
    | ZoomOutClick

  /** A page click names a page of the vector. In a reachable state that is
      exactly a page the viewer shows, as `numPages == |rotate|` there. */
  predicate Allowed(s: State, e: Event)
  {
    e.PageClick? ==> 0 <= e.index < |s.rotate|
  }

  function Step(s: State, e: Event): (t: State)
    requires Allowed(s, e)
  {
    match e
    case LoadSuccess(n) => OnDocumentLoadSuccess(s, n)
    case LoadError => OnDocumentLoadError(s)
    case FileChange(files) => OnFileChange(s, files)
    case PageClick(i) => PageRotate(s, i)
    case RotateAllClick => RotateAllPages(s)
    case RemoveClick => RemovePdf(s)
    case ZoomInClick => ZoomInView(s)
    case ZoomOutClick => ZoomOutView(s)
  }

  predicate Runnable(s: State, events: seq<Event>)
    decreases |events|
  {
    |events| == 0 || (Allowed(s, events[0]) && Runnable(Step(s, events[0]), events[1..]))
  }

  /** The state after handling `events` one after another. */
  function Run(s: State, events: seq<Event>): State
    requires Runnable(s, events)
    decreases |events|
  {
    if |events| == 0 then s else Run(Step(s, events[0]), events[1..])
  }

  /** Every handler keeps the invariant. */
  lemma StepKeepsInv(s: State, e: Event)
    requires Inv(s) && Allowed(s, e)
    ensures Inv(Step(s, e))
  {
  }

  /** Every state reachable from `Init` satisfies the invariant: the vector
      is as long as the page count, entries are quarter turns, the width stays
      within [100, 500] on a 50-pixel grid, and a present file's stem is the
      stored name. */
  lemma {:induction false} RunKeepsInv(s: State, events: seq<Event>)
    requires Inv(s) && Runnable(s, events)
    ensures Inv(Run(s, events))
    decreases |events|
  {
    if |events| > 0 {
      StepKeepsInv(s, events[0]);
      RunKeepsInv(Step(s, events[0]), events[1..]);
    }
  }

  /** Load a two-page file, click page 0 twice and page 1 once, and download
      a document whose pages had no rotation: the pages come out at 180 and 90
      degrees, under the file's stem followed by "(rotated).pdf". */
  lemma DownloadScenario(name: string, events: seq<Event>)
    requires events == [FileChange(Value([File(name)])), LoadSuccess(2),
                        PageClick(0), PageClick(0), PageClick(1)]
    ensures Runnable(Init(), events)
    ensures Run(Init(), events).rotate == [180, 90]
    ensures DownloadPdf(Run(Init(), events), Value([0, 0])) == Saved(FileStem(name) + RotatedSuffix, [180, 90])
  {
    var s1 := OnFileChange(Init(), Value([File(name)]));
    var s2 := OnDocumentLoadSuccess(s1, 2);
    var s3 := PageRotate(s2, 0);
    var s4 := PageRotate(s3, 0);
    var s5 := PageRotate(s4, 1);
    assert s5.rotate == [180, 90];
    assert events[5..] == [];
    RunSuffix(s4, events, 4, s5);
    RunSuffix(s3, events, 3, s4);
    RunSuffix(s2, events, 2, s3);
    RunSuffix(s1, events, 1, s2);
    RunSuffix(Init(), events, 0, s1);
    assert events[0..] == events;
  }

  /** Unfolding one event of a run: if the rest of the run from the next
      state is defined, so is the run from this one, and they agree. */
  lemma RunSuffix(s: State, events: seq<Event>, k: nat, t: State)
    requires k < |events| && Allowed(s, events[k]) && t == Step(s, events[k])
    requires Runnable(t, events[k + 1..])
    ensures Runnable(s, events[k..])
    ensures Run(s, events[k..]) == Run(t, events[k + 1..])
  {
    assert events[k..][1..] == events[k + 1..];
  }

  /** A load, a click, "Remove PDF" and a second load leave a fresh all-zero
      vector the size of the second document. */
  lemma ReloadResets(first: File, second: File, events: seq<Event>)
    requires events == [FileChange(Value([first])), LoadSuccess(3), PageClick(0), RemoveClick,
                        FileChange(Value([second])), LoadSuccess(5)]
    ensures Runnable(Init(), events)
    ensures Run(Init(), events).rotate == [0, 0, 0, 0, 0]
    ensures Run(Init(), events).numPages == Value(5)
  {
    var s1 := OnFileChange(Init(), Value([first]));
    var s2 := OnDocumentLoadSuccess(s1, 3);
    var s3 := PageRotate(s2, 0);
    var s4 := RemovePdf(s3);
    var s5 := OnFileChange(s4, Value([second]));
    var s6 := OnDocumentLoadSuccess(s5, 5);
    assert s6.rotate == [0, 0, 0, 0, 0];
    assert events[6..] == [];
    RunSuffix(s5, events, 5, s6);
    RunSuffix(s4, events, 4, s5);
    RunSuffix(s3, events, 3, s4);
    RunSuffix(s2, events, 2, s3);
    RunSuffix(s1, events, 1, s2);
    RunSuffix(Init(), events, 0, s1);
    assert events[0..] == events;
  }
}
