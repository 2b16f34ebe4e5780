/**
 * Frames of point positions and the stream that publishes them.
 *
 * `PositionData` keeps a ring buffer of frames and a published window
 * `frames`. Ingesting a payload filters its point cloud, wraps the points in
 * a fresh frame, writes the frame to the ring buffer, reads the buffer back
 * and keeps the newest `MaxFrames` frames as the new window; clearing
 * replaces the ring buffer with an empty one of the same size and empties
 * the window. Both are modelled as atomic sequential steps. `StreamState`
 * and the functions `Ingest` and `Clear` describe these steps on values;
 * the methods of `PositionData` are proved to follow them.
 */
module DataModel {
  import opened Wrappers
  import opened Windows
  import opened RingBuffers

  /** A point position. Coordinates are exact reals. */
  datatype Point = Point(x: real, y: real, z: real)

  /** One time-step's point positions. `id` stands for the frame's UUID. */
  datatype Frame = Frame(id: nat, positions: seq<Point>) {
    /** Frame equality as the app defines it: identity only, whatever the positions. */
    predicate Equals(other: Frame): (b: bool)
      ensures this == other ==> b
      ensures b <==> id == other.id
    {
      id == other.id
    }
  }

  /** Frame equality is an equivalence relation that ignores the positions. */
  lemma FrameEqualsIsIdentity(f: Frame, g: Frame, k: Frame)
    ensures f.Equals(f)
    ensures f.Equals(g) <==> g.Equals(f)
    ensures f.Equals(g) && g.Equals(k) ==> f.Equals(k)
    ensures f.Equals(g) <==> f.id == g.id
    ensures f.id == g.id && f.positions != g.positions ==> f.Equals(g) && f != g
  {
  }

  /** The size of the published window. */
  const MaxFrames: nat := 10

  // ---------------------------------------------------------------------
  // The point-cloud filter
  // ---------------------------------------------------------------------

  /** One entry of the point cloud: a point from its first three components, or nothing if it has fewer than three. */
  function ToPoint(entry: seq<real>): (r: Option<Point>)
    ensures r.None? <==> |entry| < 3
    ensures r.Some? ==> [r.value.x, r.value.y, r.value.z] == entry[..3]
  {
    if |entry| >= 3 then Some(Point(entry[0], entry[1], entry[2])) else None
  }

  /** The `compactMap` over the point cloud: the entries that make a point, in order. */
  function Points(cloud: seq<seq<real>>): (r: seq<Point>)
    ensures |r| <= |cloud|
    ensures |r| == |cloud| <==> forall i :: 0 <= i < |cloud| ==> |cloud[i]| >= 3
  {
    if cloud == [] then []
    else
      match ToPoint(cloud[0])
      case Some(p) => [p] + Points(cloud[1..])
      case None =>
        assert |cloud[0]| < 3;
        Points(cloud[1..])
  }

  /** The filter works entry by entry: it distributes over concatenation, so the kept points stay in input order. */
  lemma {:induction false} PointsAppend(a: seq<seq<real>>, b: seq<seq<real>>)
    ensures Points(a + b) == Points(a) + Points(b)
  {
    if a == [] {
      assert a + b == b;
    } else {
      var ab := a + b;
      assert ab[0] == a[0] && ab[1..] == a[1..] + b;
      PointsAppend(a[1..], b);
    }
  }

  /** A single entry yields one point from components 0, 1 and 2 exactly when it has at least three; extra components are ignored. */
  lemma PointsOne(entry: seq<real>)
    ensures Points([entry]) == if |entry| >= 3 then [Point(entry[0], entry[1], entry[2])] else []
  {
    assert [entry][1..] == [];
  }

  /** A point is kept exactly when some entry of the cloud makes it. */
  lemma {:induction false} PointsMembers(cloud: seq<seq<real>>, p: Point)
    ensures p in Points(cloud) <==> exists e :: e in cloud && ToPoint(e) == Some(p)
  {
    if cloud != [] {
      PointsMembers(cloud[1..], p);
      assert forall e :: e in cloud <==> e == cloud[0] || e in cloud[1..];
    }
  }

  /** A cloud with one full entry and one short one gives exactly the full entry's point. */
  lemma PointsDropsShortEntry()
    ensures Points([[1.0, 2.0, 3.0], [1.0, 2.0]]) == [Point(1.0, 2.0, 3.0)]
  {
    PointsAppend([[1.0, 2.0, 3.0]], [[1.0, 2.0]]);
    PointsOne([1.0, 2.0, 3.0]);
    PointsOne([1.0, 2.0]);
    assert [[1.0, 2.0, 3.0], [1.0, 2.0]] == [[1.0, 2.0, 3.0]] + [[1.0, 2.0]];
  }

  // ---------------------------------------------------------------------
  // The stream as a state machine on values
  // ---------------------------------------------------------------------

  /**
   * What `PositionData` holds: the ring buffer's size and write history,
   * the published window, and the next frame identity to hand out.
   */
  datatype StreamState = StreamState(size: nat, history: seq<Frame>, frames: seq<Frame>, nextId: nat)

  /** Frame identities grow strictly along a sequence of frames. */
  ghost predicate IdsIncreasing(h: seq<Frame>) {
    forall i, j :: 0 <= i < j < |h| ==> h[i].id < h[j].id
  }

  /**
   * The stream invariant: the window is the newest `MaxFrames` of what the
   * ring buffer holds, identities were handed out in write order and none
   * of them has been handed out twice.
   */
  ghost predicate StreamInv(s: StreamState) {
    0 < s.size &&
    s.frames == LastN(LastN(s.history, s.size), MaxFrames) &&
    IdsIncreasing(s.history) &&
    forall f :: f in s.history ==> f.id < s.nextId
  }

  /** The freshly constructed stream. */
  function Init(frameCount: nat): (r: StreamState)
    ensures r.size == frameCount && r.frames == [] && LastN(r.history, r.size) == []
    ensures 0 < frameCount ==> StreamInv(r)
  {
    StreamState(frameCount, [], [], 0)
  }

  /**
   * One ingest: a missing or mistyped point cloud changes nothing; otherwise
   * a new frame of the filtered points is written and the window becomes
   * the newest `MaxFrames` of what the ring buffer reads back.
   */
  function Ingest(s: StreamState, pointCloud: Option<seq<seq<real>>>): (r: StreamState)
    requires 0 < s.size
    ensures r.size == s.size
    ensures pointCloud.None? ==> r == s
    ensures pointCloud.Some? ==>
      0 < |r.frames| <= MaxFrames && r.frames[|r.frames| - 1] == Frame(s.nextId, Points(pointCloud.value))
  {
    match pointCloud
    case None => s
    case Some(cloud) =>
      var h := s.history + [Frame(s.nextId, Points(cloud))];
      StreamState(s.size, h, LastN(LastN(h, s.size), MaxFrames), s.nextId + 1)
  }

  /** One clear: an empty ring buffer of the same size and an empty window. */
  function Clear(s: StreamState): (r: StreamState)
    ensures r.size == s.size && r.nextId == s.nextId
    ensures r.frames == [] && LastN(r.history, r.size) == []
    ensures StreamInv(s) ==> StreamInv(r)
  {
    StreamState(s.size, [], [], s.nextId)
  }

  /** Ingest keeps the stream invariant, whatever the payload. */
  lemma IngestPreserves(s: StreamState, pointCloud: Option<seq<seq<real>>>)
    requires StreamInv(s)
    ensures StreamInv(Ingest(s, pointCloud))
  {
    if pointCloud.Some? {
      var f := Frame(s.nextId, Points(pointCloud.value));
      var h := s.history + [f];
      forall i, j | 0 <= i < j < |h|
        ensures h[i].id < h[j].id
      {
        if j == |s.history| {
          assert h[i] in s.history;
        }
      }
    }
  }

  /**
   * The `Some` branch of an ingest, on plain values: a ring buffer of the same
   * size whose history gained the new frame, a window that is the newest
   * `MaxFrames` of its read-back, and the next id moved on, is exactly the
   * state `Ingest` describes, and it keeps the stream invariant.
   */
  lemma IngestSome(s: StreamState, cloud: seq<seq<real>>, size: nat, history: seq<Frame>, window: seq<Frame>, nextId: nat)
    requires StreamInv(s) && size == s.size
    requires history == s.history + [Frame(s.nextId, Points(cloud))]
    requires window == LastN(LastN(history, size), MaxFrames)
    requires nextId == s.nextId + 1
    ensures StreamState(size, history, window, nextId) == Ingest(s, Some(cloud))
    ensures StreamInv(StreamState(size, history, window, nextId))
  {
    IngestPreserves(s, Some(cloud));
  }

  /** Clear keeps the stream invariant, and a second clear changes nothing. */
  lemma ClearPreserves(s: StreamState)
    requires StreamInv(s)
    ensures StreamInv(Clear(s))
    ensures Clear(Clear(s)) == Clear(s)
  {
  }

  /**
   * The published window holds the newest min(writes, size, MaxFrames)
   * frames, in write order.
   */
  lemma WindowIsNewestFrames(s: StreamState)
    requires StreamInv(s)
    ensures s.frames == LastN(s.history, if s.size <= MaxFrames then s.size else MaxFrames)
    ensures |s.frames| <= MaxFrames && |s.frames| <= s.size
    ensures |s.history| <= s.size && |s.history| <= MaxFrames ==> s.frames == s.history
  {
    LastNOfLastN(s.history, s.size, MaxFrames);
  }

  /** No two frames of the published window are equal, and they are in increasing identity order. */
  lemma {:induction false} WindowFramesDistinct(s: StreamState)
    requires StreamInv(s)
    ensures IdsIncreasing(s.frames)
    ensures forall i, j :: 0 <= i < |s.frames| && 0 <= j < |s.frames| ==> (s.frames[i].Equals(s.frames[j]) <==> i == j)
  {
    var live := LastN(s.history, s.size);
    LastNIsSuffix(s.history, s.size);
    SuffixIdsIncreasing(s.history, |s.history| - |live|);
    LastNIsSuffix(live, MaxFrames);
    SuffixIdsIncreasing(live, |live| - |s.frames|);
  }

  /** Dropping the oldest frames keeps identities increasing. */
  lemma SuffixIdsIncreasing(h: seq<Frame>, k: nat)
    requires IdsIncreasing(h) && k <= |h|
    ensures IdsIncreasing(h[k..])
  {
  }

  /**
   * Ring size 3: five frames of one point each, (1,0,0) to (5,0,0), leave
   * the window holding the frames of (3,0,0), (4,0,0) and (5,0,0), in that order.
   */
  lemma FiveFramesIntoThree()
    ensures
      var s1 := Ingest(Init(3), Some([[1.0, 0.0, 0.0]]));
      var s2 := Ingest(s1, Some([[2.0, 0.0, 0.0]]));
      var s3 := Ingest(s2, Some([[3.0, 0.0, 0.0]]));
      var s4 := Ingest(s3, Some([[4.0, 0.0, 0.0]]));
      var s5 := Ingest(s4, Some([[5.0, 0.0, 0.0]]));
      |s5.frames| == 3 &&
      s5.frames[0].positions == [Point(3.0, 0.0, 0.0)] &&
      s5.frames[1].positions == [Point(4.0, 0.0, 0.0)] &&
      s5.frames[2].positions == [Point(5.0, 0.0, 0.0)]
  {
    PointsOne([3.0, 0.0, 0.0]);
    PointsOne([4.0, 0.0, 0.0]);
    PointsOne([5.0, 0.0, 0.0]);
  }

  // ---------------------------------------------------------------------
  // The stream object
  // ---------------------------------------------------------------------

  class PositionData {
    /** The published window, oldest first. */
    var frames: seq<Frame>
    var ringBuffer: RingBuffer<Frame>
    /** The next frame identity; stands for generating a fresh UUID. */
    var nextId: nat

    ghost function State(): StreamState
      reads this, ringBuffer
    {
      StreamState(ringBuffer.size, ringBuffer.History, frames, nextId)
    }

    ghost predicate Valid()
      reads this, ringBuffer, ringBuffer.buffer
    {
      ringBuffer.Valid() && StreamInv(State())
    }

    /** `init(frameCount:)`: an empty ring buffer of `frameCount` slots and an empty window. */
    constructor (frameCount: nat)
      requires 0 < frameCount
      ensures Valid() && fresh(ringBuffer) && fresh(ringBuffer.buffer)
      ensures State() == Init(frameCount)
    {
      ringBuffer := new RingBuffer(frameCount);
      frames := [];
      nextId := 0;
    }

    /**
     * `generatePoints`, with the queue hand-offs run in order: `pointCloud`
     * is the payload's `pointCloud` field if it is an array of number
     * arrays, and `None` otherwise.
     */
    method GeneratePoints(pointCloud: Option<seq<seq<real>>>)
      requires Valid()
      modifies this, ringBuffer, ringBuffer.buffer
      ensures Valid() && ringBuffer == old(ringBuffer)
      ensures State() == Ingest(old(State()), pointCloud)
      ensures |frames| <= MaxFrames
      ensures pointCloud.None? ==> unchanged(this, ringBuffer, ringBuffer.buffer)
    {
      if pointCloud.None? {
        return;
      }
      var positions := Points(pointCloud.value);
      var frame := Frame(nextId, positions);
      nextId := nextId + 1;
      ringBuffer.Write(frame);
      var fs := ringBuffer.Read();
      frames := fs;
      RemoveOldestFrame();
      IngestSome(old(State()), pointCloud.value, ringBuffer.size, ringBuffer.History, frames, nextId);
    }

    /** `removeOldestFrame`: keep only the newest `MaxFrames` frames of the window, in order. */
    method RemoveOldestFrame()
      modifies this`frames
      ensures frames == LastN(old(frames), MaxFrames)
    {
      if |frames| > MaxFrames {
        frames := frames[|frames| - MaxFrames..];
      }
    }

    /** `clearFrames`: a fresh ring buffer of the same size, and an empty window. */
    method ClearFrames()
      requires Valid()
      modifies this
      ensures Valid() && fresh(ringBuffer) && fresh(ringBuffer.buffer)
      ensures State() == Clear(old(State()))
      ensures ringBuffer.size == old(ringBuffer.size) && ringBuffer.Contents() == [] && frames == []
    {
      ringBuffer := new RingBuffer(ringBuffer.size);
      frames := [];
    }
  }
}
