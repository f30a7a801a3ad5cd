/** The frame splitter in `main` (sample mode): walk a byte string, skip
    bytes until a `BA CE` sync, cut `6 + length + 4` bytes as one frame, keep
    the GPSEPH frames (class 0x08, id 0x07) and the svid of each one that
    decodes, then jump past the frame. */
module SampleSplit {
  import opened Bytes
  import opened Csip
  import GpsEph

  datatype Split = Split(frames: seq<seq<Byte>>, svids: seq<int>)

  predicate IsGpsEphFrame(fr: seq<Byte>) {
    |fr| >= 6 && fr[4] == GpsEph.GpsEphClass && fr[5] == GpsEph.GpsEphId
  }

  function Keep(fr: seq<Byte>, rest: Split): Split {
    if !IsGpsEphFrame(fr) then rest
    else
      var d := GpsEph.DecodeGpsEph(fr);
      Split([fr] + rest.frames, if d.Ok? then [d.value.svid] + rest.svids else rest.svids)
  }

  /** The loop, on `data[i:]`: it runs while more than 6 bytes are left
      (`i < len(data) - 6`). The cut frame is a Python slice, so it is shorter
      when the data ends early, and the loop then stops. */
  function SplitSample(t: seq<Byte>): Split
    decreases |t|
  {
    if |t| <= 6 then Split([], [])
    else if t[..2] != Sync then SplitSample(t[1..])
    else
      var length := FromLe(t[2..4]);
      var e := if 10 + length <= |t| then 10 + length else |t|;
      Keep(t[..e], SplitSample(t[e..]))
  }

  function Flatten(fs: seq<seq<Byte>>): seq<Byte> {
    if |fs| == 0 then [] else fs[0] + Flatten(fs[1..])
  }

  /** Reference result for a stream of frames: the GPSEPH frames in order,
      and the svid of each that decodes. */
  function Expected(fs: seq<seq<Byte>>): Split {
    if |fs| == 0 then Split([], []) else Keep(fs[0], Expected(fs[1..]))
  }

  /** A delimited frame at the start is cut exactly. */
  lemma SplitFirst(f: seq<Byte>, rest: seq<Byte>)
    requires Delimited(f)
    ensures SplitSample(f + rest) == Keep(f, SplitSample(rest))
  {
    var t := f + rest;
    assert t[..2] == f[..2];
    assert t[2..4] == f[2..4];
    assert t[..|f|] == f;
    assert t[|f|..] == rest;
  }

  /** Splitting a stream of delimited frames gives back the GPSEPH ones,
      in order, with the svids of those that decode. No checksum is looked
      at, so CASIC frames split the same way as `csip_pack` frames. */
  lemma {:induction false} SplitFlatten(fs: seq<seq<Byte>>)
    requires forall k :: 0 <= k < |fs| ==> Delimited(fs[k])
    ensures SplitSample(Flatten(fs)) == Expected(fs)
  {
    if |fs| > 0 {
      SplitFlatten(fs[1..]);
      SplitFirst(fs[0], Flatten(fs[1..]));
    }
  }

  function MakeAll(es: seq<GpsEph.GpsEph>): (r: seq<seq<Byte>>)
    ensures |r| == |es|
    ensures forall k :: 0 <= k < |es| ==> r[k] == GpsEph.MakeMsgGpsEph(es[k])
  {
    if |es| == 0 then [] else [GpsEph.MakeMsgGpsEph(es[0])] + MakeAll(es[1..])
  }

  function StoredSvids(es: seq<GpsEph.GpsEph>): (r: seq<int>)
    ensures |r| == |es|
  {
    if |es| == 0 then [] else [GpsEph.Stored(es[0]).svid] + StoredSvids(es[1..])
  }

  /** Frames built by `make_msg_gpseph`, back to back, split into exactly
      those frames, and the svids are the ones packed (modulo 256). */
  lemma {:induction false} SplitMade(es: seq<GpsEph.GpsEph>)
    ensures SplitSample(Flatten(MakeAll(es))) == Split(MakeAll(es), StoredSvids(es))
  {
    SplitFlatten(MakeAll(es));
    ExpectedMade(es);
  }

  lemma {:induction false} ExpectedMade(es: seq<GpsEph.GpsEph>)
    ensures Expected(MakeAll(es)) == Split(MakeAll(es), StoredSvids(es))
  {
    if |es| > 0 {
      ExpectedMade(es[1..]);
      assert MakeAll(es)[1..] == MakeAll(es[1..]);
      GpsEph.DecodeMake(es[0]);
    }
  }

  /** A well-formed GPSEPH frame whose payload is too short to decode is still
      kept, but adds no svid: the frame and svid lists then fall out of step. */
  lemma ShortFrameKeptWithoutSvid(f: seq<Byte>, rest: seq<Byte>)
    requires Delimited(f) && IsGpsEphFrame(f) && |f| < 82
    ensures SplitSample(f + rest).frames == [f] + SplitSample(rest).frames
    ensures SplitSample(f + rest).svids == SplitSample(rest).svids
  {
    SplitFirst(f, rest);
    assert PayloadSlice(f, FromLe(f[2..4])) == f[6..|f| - 4];
  }
}
