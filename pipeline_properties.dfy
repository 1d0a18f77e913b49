/** What the sequentialised pipeline promises: the frame list is the
    non-empty frames in read order, and what reaches the writer is the filter
    of each of them, in the same order, cut short at a fault. */
module PipelineProperties {
  import opened Frames
  import opened Stencil
  import opened Pipeline

  /** Keeping the non-empty frames respects concatenation, so read order is
      preserved. */
  lemma {:induction false} NonEmptyAppend(a: seq<Frame>, b: seq<Frame>)
    ensures NonEmpty(a + b) == NonEmpty(a) + NonEmpty(b)
    decreases |b|
  {
    if b == [] {
      assert a + b == a;
    } else {
      assert (a + b)[..|a + b| - 1] == a + b[..|b| - 1];
      NonEmptyAppend(a, b[..|b| - 1]);
    }
  }

  /** A frame is kept exactly when it was read and is not empty. */
  lemma {:induction false} NonEmptyMembers(s: seq<Frame>, f: Frame)
    ensures f in NonEmpty(s) <==> f in s && !IsEmpty(f)
    decreases |s|
  {
    if s != [] {
      NonEmptyMembers(s[..|s| - 1], f);
      assert s == s[..|s| - 1] + [s[|s| - 1]];
    }
  }

  /** When every frame read is non-empty, all of them are kept as read. */
  lemma {:induction false} NonEmptyKeepsAll(s: seq<Frame>)
    requires forall i :: 0 <= i < |s| ==> !IsEmpty(s[i])
    ensures NonEmpty(s) == s
    decreases |s|
  {
    if s != [] {
      NonEmptyKeepsAll(s[..|s| - 1]);
      assert s == s[..|s| - 1] + [s[|s| - 1]];
    }
  }

  /** When the capture or the writer does not open, nothing is written. */
  lemma OpenFailureWritesNothing(env: RunEnv)
    ensures !env.sourceOpens ==> Run(env) == SourceOpenFailed
    ensures env.sourceOpens && !env.sinkOpens ==> Run(env) == SinkOpenFailed
    ensures !Run(env).Written? <==> !env.sourceOpens || !env.sinkOpens
  {
  }

  /** Without a fault, the writer receives the filter of every kept frame,
      in index order. */
  lemma CompleteRunWritesAllInOrder(env: RunEnv)
    requires env.sourceOpens && env.sinkOpens
    requires env.fault == None || env.fault.value >= |NonEmpty(env.decoded)|
    ensures Run(env).Written? && Run(env).complete
    ensures |Run(env).frames| == |NonEmpty(env.decoded)|
    ensures forall i :: 0 <= i < |NonEmpty(env.decoded)| ==> Run(env).frames[i] == Filter(NonEmpty(env.decoded)[i])
  {
    var kept := NonEmpty(env.decoded);
    assert FilterEach(kept)[..|kept|] == FilterEach(kept);
  }

  /** A fault when taking back result k leaves exactly the first k results
      of the fault-free run written. */
  lemma FaultWritesPrefix(env: RunEnv, k: nat)
    requires env.sourceOpens && env.sinkOpens
    requires env.fault == Some(k) && k < |NonEmpty(env.decoded)|
    ensures Run(env).Written? && !Run(env).complete
    ensures |Run(env).frames| == k
    ensures Run(env).frames == Run(env.(fault := None)).frames[..k]
  {
    var kept := NonEmpty(env.decoded);
    assert FilterEach(kept)[..|kept|] == FilterEach(kept);
  }

  /** Two non-empty frames from the capture, no fault: both are written,
      filtered, in their original order. */
  lemma TwoFrameRun(f0: Frame, f1: Frame)
    requires f0.rows == 10 && f0.cols == 10 && f1.rows == 10 && f1.cols == 10
    ensures Run(RunEnv(true, true, [f0, f1], None)) == Written([Filter(f0), Filter(f1)], true)
  {
    NonEmptyKeepsAll([f0, f1]);
    assert FilterEach([f0, f1]) == [Filter(f0), Filter(f1)];
  }
}
