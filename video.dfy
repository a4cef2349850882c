/** `images_to_video` (main.py): sort the discovered file names, decode and
    canonicalise every image that can be read, bring them to one size, and write
    them in order to a video sink that is released once it has been opened.
    File discovery, decoding and the video backend are collaborators: the file
    list is an input, `decode` stands for the image reader (`None` when a file
    cannot be read), and a `Backend` value says whether the output opens and
    which write, if any, raises. */
module Video {
  import opened Wrappers
  import opened Frames
  import NaturalSort

  /** The exceptions `images_to_video` can end with. */
  datatype Failure =
    | NoImageFiles          // no file was discovered
    | NoImagesRead          // every file failed to decode
    | BadCodec              // the codec name is not four characters long
    | NotOpened             // the video file could not be created
    | WriteFailed(index: nat) // writing frame `index` raised

  /** The behaviour of the video backend: whether the output opens, and the
      index of the write that raises, if any. */
  datatype Backend = Backend(opens: bool, failingWrite: Option<nat>)

  // ---------------------------------------------------------------------------
  // The video sink
  // ---------------------------------------------------------------------------

  /** The video writer: the frames it has accepted, whether it is open, and how
      often it has been released. */
  class VideoSink<P> {
    const path: string
    const codec: string
    const fps: int
    const size: (nat, nat)
    const isColor: bool
    const backend: Backend
    var isOpen: bool
    var frames: seq<Image<P>>
    var releaseCount: nat

    /** Creating the writer opens the file if the backend can. */
    constructor (path: string, codec: string, fps: int, size: (nat, nat), isColor: bool, backend: Backend)
      ensures this.path == path && this.codec == codec && this.fps == fps
      ensures this.size == size && this.isColor == isColor && this.backend == backend
      ensures isOpen == backend.opens && frames == [] && releaseCount == 0
    {
      this.path := path;
      this.codec := codec;
      this.fps := fps;
      this.size := size;
      this.isColor := isColor;
      this.backend := backend;
      isOpen := backend.opens;
      frames := [];
      releaseCount := 0;
    }

    /** Appends one frame, unless this is the write the backend fails. */
    method Write(frame: Image<P>) returns (ok: bool)
      requires isOpen
      modifies this
      ensures ok <==> backend.failingWrite != Some(|old(frames)|)
      ensures frames == if ok then old(frames) + [frame] else old(frames)
      ensures isOpen == old(isOpen) && releaseCount == old(releaseCount)
    {
      ok := backend.failingWrite != Some(|frames|);
      if ok {
        frames := frames + [frame];
      }
    }

    /** Closes the file; the accepted frames stay as they are. */
    method Release()
      modifies this
      ensures !isOpen && frames == old(frames) && releaseCount == old(releaseCount) + 1
    {
      isOpen := false;
      releaseCount := releaseCount + 1;
    }
  }

  // ---------------------------------------------------------------------------
  // The decode loop
  // ---------------------------------------------------------------------------

  /** The images the decode loop keeps, in file order: each readable file gives
      its image in a layout the colour conversion leaves unchanged; unreadable
      files are skipped. */
  function Survivors<P>(files: seq<string>, decode: string -> Option<Image<P>>, recolor: Image<P> -> P): seq<Image<P>> {
    if files == [] then []
    else
      var rest := Survivors(files[..|files| - 1], decode, recolor);
      match decode(files[|files| - 1])
      case None => rest
      case Some(img) => rest + [Canonicalise(img, recolor)]
  }

  /** The positions of the readable files, in increasing order. */
  function Readable<P>(files: seq<string>, decode: string -> Option<Image<P>>): seq<nat> {
    if files == [] then []
    else
      var rest := Readable(files[..|files| - 1], decode);
      if decode(files[|files| - 1]).Some? then rest + [|files| - 1] else rest
  }

  /** `Readable` lists exactly the readable positions, each once, in increasing
      order. */
  lemma {:induction false} ReadableCorrect<P>(files: seq<string>, decode: string -> Option<Image<P>>)
    ensures forall k :: 0 <= k < |Readable(files, decode)| ==>
              Readable(files, decode)[k] < |files| && decode(files[Readable(files, decode)[k]]).Some?
    ensures forall k, l :: 0 <= k < l < |Readable(files, decode)| ==> Readable(files, decode)[k] < Readable(files, decode)[l]
    ensures forall i :: 0 <= i < |files| && decode(files[i]).Some? ==> i in Readable(files, decode)
  {
    if files != [] {
      var init := files[..|files| - 1];
      ReadableCorrect(init, decode);
      forall i | 0 <= i < |init| ensures init[i] == files[i] {}
    }
  }

  /** The kept images are, in order, the canonicalised images of the readable
      files: no readable file is dropped and the sorted order is kept. */
  lemma {:induction false} SurvivorsAreReadable<P>(files: seq<string>, decode: string -> Option<Image<P>>, recolor: Image<P> -> P)
    ensures |Survivors(files, decode, recolor)| == |Readable(files, decode)|
    ensures forall k :: 0 <= k < |Readable(files, decode)| ==>
              var i := Readable(files, decode)[k];
              i < |files| && decode(files[i]).Some? &&
              Survivors(files, decode, recolor)[k] == Canonicalise(decode(files[i]).value, recolor)
  {
    ReadableCorrect(files, decode);
    if files != [] {
      var init := files[..|files| - 1];
      SurvivorsAreReadable(init, decode, recolor);
      ReadableCorrect(init, decode);
      forall i | 0 <= i < |init| ensures init[i] == files[i] {}
    }
  }

  /** Survivors of a concatenation: those of the front, then those of the back. */
  lemma {:induction false} SurvivorsAppend<P>(a: seq<string>, b: seq<string>, decode: string -> Option<Image<P>>, recolor: Image<P> -> P)
    ensures Survivors(a + b, decode, recolor) == Survivors(a, decode, recolor) + Survivors(b, decode, recolor)
  {
    if b == [] {
      assert a + b == a;
    } else {
      var init := b[..|b| - 1];
      assert (a + b)[..|a + b| - 1] == a + init;
      SurvivorsAppend(a, init, decode, recolor);
    }
  }

  /** No image survives exactly when no file can be read. */
  lemma {:induction false} SurvivorsEmpty<P>(files: seq<string>, decode: string -> Option<Image<P>>, recolor: Image<P> -> P)
    ensures Survivors(files, decode, recolor) == [] <==> forall i :: 0 <= i < |files| ==> decode(files[i]).None?
  {
    SurvivorsAreReadable(files, decode, recolor);
    ReadableCorrect(files, decode);
    if Survivors(files, decode, recolor) != [] {
      var i := Readable(files, decode)[0];
      assert decode(files[i]).Some?;
    }
  }

  /** Every kept image has a layout the colour conversion leaves unchanged. */
  lemma SurvivorsUnconverted<P>(files: seq<string>, decode: string -> Option<Image<P>>, recolor: Image<P> -> P)
    ensures forall k :: 0 <= k < |Survivors(files, decode, recolor)| ==> Unconverted(Survivors(files, decode, recolor)[k].layout)
  {
    SurvivorsAreReadable(files, decode, recolor);
  }

  /** The loop over the sorted files: decode, skip on failure, canonicalise, append. */
  method DecodeAll<P>(files: seq<string>, decode: string -> Option<Image<P>>, recolor: Image<P> -> P)
    returns (images: seq<Image<P>>)
    ensures images == Survivors(files, decode, recolor)
  {
    images := [];
    for i := 0 to |files|
      invariant images == Survivors(files[..i], decode, recolor)
    {
      assert files[..i + 1][..i] == files[..i];
      var img := decode(files[i]);
      if img.Some? {
        images := images + [Canonicalise(img.value, recolor)];
      }
    }
    assert files[..|files|] == files;
  }

  // ---------------------------------------------------------------------------
  // The whole run
  // ---------------------------------------------------------------------------

  /** What a run leaves behind: the exception it ends with (`None` for success),
      the frames the sink accepted, how often the sink was released, and the
      frame size in (width, height) order. */
  datatype Run<P> = Run(failure: Option<Failure>, written: seq<Image<P>>, releases: nat, size: (nat, nat))

  /** The images that reach `resize`: the survivors of the sorted file list. */
  function Decoded<P>(files: seq<string>, decode: string -> Option<Image<P>>, recolor: Image<P> -> P): seq<Image<P>> {
    Survivors(NaturalSort.SortNames(files), decode, recolor)
  }

  /** The `try`/`finally` block on an opened sink: the frames are written in
      order until one write raises, and the sink is released once either way. */
  function WriteStage<P>(frames: seq<Image<P>>, backend: Backend, size: (nat, nat)): Run<P> {
    if backend.failingWrite.Some? && backend.failingWrite.value < |frames| then
      Run(Some(WriteFailed(backend.failingWrite.value)), frames[..backend.failingWrite.value], 1, size)
    else Run(None, frames, 1, size)
  }

  /** The run, step by step: no files, no readable image, a codec name the
      four-character code cannot be made from, an output that does not open,
      then the writes, which stop at the first one that raises; an opened sink
      is released once whatever the writes do. */
  function Pipeline<P>(files: seq<string>, decode: string -> Option<Image<P>>, recolor: Image<P> -> P,
                       resample: (Image<P>, nat, nat) -> P, codec: string, backend: Backend): Run<P>
  {
    var images := Decoded(files, decode, recolor);
    if files == [] then Run(Some(NoImageFiles), [], 0, (0, 0))
    else if images == [] then Run(Some(NoImagesRead), [], 0, (0, 0))
    else
      var size := (TargetWidth(images, Largest), TargetHeight(images, Largest));
      var frames := Normalize(images, Largest, resample);
      if |codec| != 4 then Run(Some(BadCodec), [], 0, size)
      else if !backend.opens then Run(Some(NotOpened), [], 0, size)
      else WriteStage(frames, backend, size)
  }

  /** Whether the run gets as far as creating the sink. */
  predicate SinkCreated(failure: Option<Failure>) {
    failure.Some? ==> failure.value == NotOpened || failure.value.WriteFailed?
  }

  /** The sink is released exactly once if it opened and never otherwise. */
  lemma PipelineReleases<P>(files: seq<string>, decode: string -> Option<Image<P>>, recolor: Image<P> -> P,
                            resample: (Image<P>, nat, nat) -> P, codec: string, backend: Backend)
    ensures var r := Pipeline(files, decode, recolor, resample, codec, backend);
            r.releases <= 1 && (r.releases == 1 <==> SinkCreated(r.failure) && r.failure != Some(NotOpened))
  {
  }

  /** The run fails for want of files exactly when none were discovered, and
      for want of images exactly when there were files but none could be read. */
  lemma PipelineInputErrors<P>(files: seq<string>, decode: string -> Option<Image<P>>, recolor: Image<P> -> P,
                               resample: (Image<P>, nat, nat) -> P, codec: string, backend: Backend)
    ensures var r := Pipeline(files, decode, recolor, resample, codec, backend);
            && (r.failure == Some(NoImageFiles) <==> files == [])
            && (r.failure == Some(NoImagesRead) <==>
                  files != [] && forall i :: 0 <= i < |files| ==> decode(files[i]).None?)
  {
    var sorted := NaturalSort.SortNames(files);
    NaturalSort.SortNamesCorrect(files);
    SurvivorsEmpty(sorted, decode, recolor);
    assert (forall i :: 0 <= i < |sorted| ==> decode(sorted[i]).None?)
       <==> (forall i :: 0 <= i < |files| ==> decode(files[i]).None?) by {
      forall i | 0 <= i < |files| ensures files[i] in multiset(sorted) {
        assert files[i] in multiset(files);
      }
      forall i | 0 <= i < |sorted| ensures sorted[i] in multiset(files) {
        assert sorted[i] in multiset(sorted);
      }
    }
  }

  /** Whatever happens, the accepted frames are a prefix of the normalised
      images, in sorted-file order; nothing is written unless the sink opened. */
  lemma PipelineWritesPrefix<P>(files: seq<string>, decode: string -> Option<Image<P>>, recolor: Image<P> -> P,
                                resample: (Image<P>, nat, nat) -> P, codec: string, backend: Backend)
    requires Decoded(files, decode, recolor) != []
    ensures var r := Pipeline(files, decode, recolor, resample, codec, backend);
            var frames := Normalize(Decoded(files, decode, recolor), Largest, resample);
            && |r.written| <= |frames| && r.written == frames[..|r.written|]
            && (r.written != [] ==> r.releases == 1)
  {
    assert files != [];
  }

  /** A successful run writes every decoded image exactly once, in natural
      file-name order, all at the common size and in a layout the colour conversion leaves unchanged. */
  lemma PipelineSuccess<P>(files: seq<string>, decode: string -> Option<Image<P>>, recolor: Image<P> -> P,
                           resample: (Image<P>, nat, nat) -> P, codec: string, backend: Backend)
    requires Pipeline(files, decode, recolor, resample, codec, backend).failure == None
    ensures var r := Pipeline(files, decode, recolor, resample, codec, backend);
            var images := Decoded(files, decode, recolor);
            && |codec| == 4 && backend.opens && r.releases == 1
            && |r.written| == |images|
            && forall i :: 0 <= i < |r.written| ==>
                 && HasShape(r.written[i], r.size.1, r.size.0)
                 && r.written[i].layout == images[i].layout
                 && Unconverted(r.written[i].layout)
                 && (HasShape(images[i], r.size.1, r.size.0) ==> r.written[i] == images[i])
  {
    var images := Decoded(files, decode, recolor);
    SurvivorsUnconverted(NaturalSort.SortNames(files), decode, recolor);
    assert images != [];
  }

  /** Lines 97-102: write every frame in order, stopping at the write that
      raises, and release the sink in either case. */
  method WriteAll<P>(sink: VideoSink<P>, frames: seq<Image<P>>) returns (failure: Option<Failure>)
    requires sink.isOpen && sink.frames == [] && sink.releaseCount == 0
    modifies sink
    ensures var r := WriteStage(frames, sink.backend, sink.size);
            failure == r.failure && sink.frames == r.written && sink.releaseCount == r.releases
    ensures !sink.isOpen
  {
    failure := None;
    var i := 0;
    while i < |frames|
      invariant 0 <= i <= |frames|
      invariant sink.isOpen && sink.releaseCount == 0
      invariant sink.frames == frames[..i]
      invariant forall j :: 0 <= j < i ==> sink.backend.failingWrite != Some(j)
    {
      var ok := sink.Write(frames[i]);
      if !ok {
        failure := Some(WriteFailed(i));
        break;
      }
      i := i + 1;
    }
    if failure == None {
      assert frames[..i] == frames;
    }
    sink.Release();
  }

  /** `images_to_video`: the method drives the sink through the steps the source
      takes, and its outcome is the one `Pipeline` describes. When the sink was
      created it is returned: closed, holding the accepted frames, released as
      often as `Pipeline` says. */
  method ImagesToVideo<P>(files: seq<string>, decode: string -> Option<Image<P>>, recolor: Image<P> -> P,
                          resample: (Image<P>, nat, nat) -> P, outputPath: string, fps: int, codec: string,
                          backend: Backend)
    returns (failure: Option<Failure>, sink: VideoSink?<P>)
    ensures var r := Pipeline(files, decode, recolor, resample, codec, backend);
            && failure == r.failure
            && (sink == null <==> !SinkCreated(failure))
            && (sink != null ==>
                  && sink.path == outputPath && sink.codec == codec && sink.fps == fps
                  && sink.size == r.size && sink.isColor && sink.backend == backend
                  && !sink.isOpen && sink.frames == r.written && sink.releaseCount == r.releases)
  {
    if files == [] {
      return Some(NoImageFiles), null;
    }
    var sorted := NaturalSort.SortNames(files);
    var images := DecodeAll(sorted, decode, recolor);
    if images == [] {
      return Some(NoImagesRead), null;
    }
    var frames, size := Resize(images, Largest, resample);
    if |codec| != 4 {
      return Some(BadCodec), null;
    }
    sink := new VideoSink(outputPath, codec, fps, size, true, backend);
    if !sink.isOpen {
      return Some(NotOpened), sink;
    }
    failure := WriteAll(sink, frames);
  }
}
