/** processVideo with its thread pool replaced by its sequential meaning:
    collect the non-empty frames in read order, run the filter on every frame
    (submission in index order), then take the results back in index order
    and write each to the video writer. */
module Pipeline {
  import opened Frames
  import opened Stencil

  datatype Option<T> = None | Some(value: T)

  /** What one run is given by the world outside the program: whether the
      capture and the writer open, the frames the capture reads before
      `read` reports the end, and the index (if any) at which taking a
      result back (`Future.get`) throws. */
  datatype RunEnv = RunEnv(sourceOpens: bool, sinkOpens: bool, decoded: seq<Frame>, fault: Option<nat>)

  /** How a run ends: it returns early because the capture or the writer did
      not open, or it wrote `frames`, all of them when `complete`. */
  datatype RunOutcome = SourceOpenFailed | SinkOpenFailed | Written(frames: seq<Frame>, complete: bool)

  /** The frames kept by the reading loop: the non-empty ones, in read order. */
  function NonEmpty(fs: seq<Frame>): (r: seq<Frame>)
    ensures |r| <= |fs|
    ensures forall i :: 0 <= i < |r| ==> !IsEmpty(r[i])
  {
    if fs == [] then []
    else NonEmpty(fs[..|fs| - 1]) + (if IsEmpty(fs[|fs| - 1]) then [] else [fs[|fs| - 1]])
  }

  /** The filter applied to each frame, index by index. */
  function FilterEach(fs: seq<Frame>): (r: seq<Frame>)
    ensures |r| == |fs|
    ensures forall i :: 0 <= i < |fs| ==> r[i] == Filter(fs[i])
  {
    seq(|fs|, i requires 0 <= i < |fs| => Filter(fs[i]))
  }

  /** How many results are taken back before the fault: all n when there is
      no fault at an index below n. */
  function StopIndex(fault: Option<nat>, n: nat): (k: nat)
    ensures k <= n
  {
    if fault.Some? && fault.value < n then fault.value else n
  }

  /** The specification of one run. */
  function Run(env: RunEnv): (r: RunOutcome)
    ensures r.Written? <==> env.sourceOpens && env.sinkOpens
    ensures r.Written? ==> |r.frames| <= |NonEmpty(env.decoded)|
    ensures r.Written? ==> (r.complete <==> |r.frames| == |NonEmpty(env.decoded)|)
    ensures r.Written? ==> forall i :: 0 <= i < |r.frames| ==> r.frames[i] == Filter(NonEmpty(env.decoded)[i])
  {
    if !env.sourceOpens then SourceOpenFailed
    else if !env.sinkOpens then SinkOpenFailed
    else
      var frames := NonEmpty(env.decoded);
      var stop := StopIndex(env.fault, |frames|);
      Written(FilterEach(frames)[..stop], stop == |frames|)
  }

  /** The VideoWriter as the pipeline uses it: whether it is open, and the
      frames written to it since it was opened. */
  class VideoWriter {
    var isOpen: bool
    var written: seq<Frame>

    constructor ()
      ensures !isOpen && written == []
    {
      isOpen := false;
      written := [];
    }

    /** writer.open(...); whether the container could be created is up to
        the outside world. A new file starts with no frames. */
    method Open(succeeds: bool)
      modifies this
      ensures isOpen == succeeds && written == []
    {
      isOpen := succeeds;
      written := [];
    }

    /** writer.write(m): appends the frame m holds, when the writer is open. */
    method Write(m: array2<Pixel>)
      modifies this
      ensures isOpen == old(isOpen)
      ensures written == old(written) + if old(isOpen) then [Snapshot(m)] else []
    {
      if isOpen {
        written := written + [Snapshot(m)];
      }
    }

    /** writer.release(): closes the file; what was written stays written. */
    method Release()
      modifies this
      ensures !isOpen && written == old(written)
    {
      isOpen := false;
    }
  }

  /** The reading loop: every frame the capture reads that is not empty is
      cloned and appended to the frame list. */
  method CollectFrames(decoded: seq<Frame>) returns (frames: seq<array2<Pixel>>)
    ensures |frames| == |NonEmpty(decoded)|
    ensures forall k :: 0 <= k < |frames| ==> fresh(frames[k])
    ensures forall k, l :: 0 <= k < l < |frames| ==> frames[k] != frames[l]
    ensures forall k :: 0 <= k < |frames| ==> Snapshot(frames[k]) == NonEmpty(decoded)[k]
  {
    frames := [];
    var i := 0;
    while i < |decoded|
      invariant 0 <= i <= |decoded|
      invariant |frames| == |NonEmpty(decoded[..i])|
      invariant forall k :: 0 <= k < |frames| ==> fresh(frames[k])
      invariant forall k, l :: 0 <= k < l < |frames| ==> frames[k] != frames[l]
      invariant forall k :: 0 <= k < |frames| ==> Snapshot(frames[k]) == NonEmpty(decoded[..i])[k]
    {
      var frame := decoded[i];
      assert decoded[..i + 1][..i] == decoded[..i];
      if !IsEmpty(frame) {
        var copy := Clone(frame);
        assert forall k :: 0 <= k < |frames| ==> frames[k] != copy;
        frames := frames + [copy];
      }
      i := i + 1;
    }
    assert decoded[..i] == decoded;
  }

  /** The frames the arrays currently hold, index by index. */
  function Snapshots(fs: seq<array2<Pixel>>): (r: seq<Frame>)
    reads fs
    ensures |r| == |fs|
    ensures forall k :: 0 <= k < |fs| ==> r[k] == Snapshot(fs[k])
  {
    seq(|fs|, k requires 0 <= k < |fs| reads fs => Snapshot(fs[k]))
  }

  /** The submission loop, run sequentially: one filtered frame per frame,
      in index order. */
  method SubmitAll(frames: seq<array2<Pixel>>) returns (futures: seq<array2<Pixel>>)
    ensures Snapshots(futures) == FilterEach(Snapshots(frames))
  {
    futures := [];
    var i := 0;
    while i < |frames|
      invariant 0 <= i <= |frames| && |futures| == i
      invariant forall k :: 0 <= k < i ==> Snapshot(futures[k]) == Filter(Snapshot(frames[k]))
    {
      var processed := ProcessFrame(frames[i]);
      futures := futures + [processed];
      i := i + 1;
    }
  }

  /** The collection loop: take the results back in index order and write
      each one, until the end or until taking one back throws. */
  method WriteInOrder(writer: VideoWriter, futures: seq<array2<Pixel>>, fault: Option<nat>) returns (failed: bool)
    requires writer.isOpen && writer.written == []
    modifies writer
    ensures writer.isOpen
    ensures writer.written == Snapshots(futures)[..StopIndex(fault, |futures|)]
    ensures failed <==> StopIndex(fault, |futures|) < |futures|
  {
    var j := 0;
    failed := false;
    while j < |futures| && !failed
      invariant 0 <= j <= |futures|
      invariant writer.isOpen
      invariant writer.written == Snapshots(futures)[..j]
      invariant failed ==> fault == Some(j) && j < |futures|
      invariant !failed && fault.Some? ==> fault.value >= j
      decreases |futures| - j, if failed then 0 else 1
    {
      if fault == Some(j) {
        failed := true;
      } else {
        writer.Write(futures[j]);
        j := j + 1;
      }
    }
  }

  /** processVideo(inputPath, outputPath, numThreads) with the pool run
      sequentially: every frame is filtered, and the results are written in
      index order until the end or until taking a result back fails.  The
      number of threads does not change what is written.  `sink` is the
      writer the call creates (none when the capture does not open): it is
      closed on every path, and after a run that wrote it holds exactly the
      frames written. */
  method ProcessVideo(env: RunEnv, numThreads: int) returns (outcome: RunOutcome, ghost sink: VideoWriter?)
    requires numThreads >= 1
    ensures outcome == Run(env)
    ensures !env.sourceOpens ==> sink == null
    ensures env.sourceOpens ==> sink != null && fresh(sink) && !sink.isOpen
    ensures outcome.Written? ==> sink != null && sink.written == outcome.frames
  {
    if !env.sourceOpens {
      return SourceOpenFailed, null;
    }
    var writer := new VideoWriter();
    sink := writer;
    writer.Open(env.sinkOpens);
    if !writer.isOpen {
      return SinkOpenFailed, sink;
    }
    var frames := CollectFrames(env.decoded);
    assert Snapshots(frames) == NonEmpty(env.decoded);
    var futures := SubmitAll(frames);
    var failed := WriteInOrder(writer, futures, env.fault);
    writer.Release();
    outcome := Written(writer.written, !failed);
  }
}
