/** A fixed record layout carried in a `csip_pack` frame: the packing half of
    `make_msg_gpseph`/`make_msg_bdseph` and the checking-and-reading half of
    `decode_gpseph`/`decode_bdseph`, independent of which record it is. */
module FrameCodec {
  import opened Bytes
  import opened Wrappers
  import opened Csip
  import opened Layout

  /** A layout that `csip_pack` carries without padding or overflow. */
  predicate Packable(layout: seq<Field>) {
    ValidLayout(layout) && Size(layout) % 4 == 0 && Size(layout) <= 0xFFFF
  }

  /** `csip_pack(cls, id, b"".join(parts))` where the parts are the fields of
      `vals` packed in layout order. */
  function PackRecord(cls: Byte, id: Byte, layout: seq<Field>, vals: seq<int>): (r: seq<Byte>)
    requires Packable(layout) && |vals| == |layout|
    ensures |r| == Size(layout) + 10
    ensures FramesPayload(r, cls, id, Encode(layout, vals))
    ensures WellFormed(r)
  {
    var payload := Encode(layout, vals);
    assert PadTo4(payload) == payload;
    CsipPackLayout(cls, id, payload);
    PackWellFormed(cls, id, payload);
    CsipPack(cls, id, payload).value
  }

  /** The header checks, then sequential reads from `frame[6:6+length]`.
      Reading past the end of that slice raises, which is `Truncated`. */
  function DecodeRecord(cls: Byte, id: Byte, layout: seq<Field>, frame: seq<Byte>): (r: Result<seq<int>, DecodeError>)
    requires ValidLayout(layout)
    ensures r == Err(NotCsipFrame) <==> !(|frame| >= 6 && frame[..2] == Sync)
    ensures r.Err? && r.error.WrongMessage? <==>
      |frame| >= 6 && frame[..2] == Sync && (frame[4] != cls || frame[5] != id)
    ensures r.Err? && r.error.WrongMessage? ==> r.error == WrongMessage(frame[4], frame[5])
    ensures r == Err(Truncated) <==>
      |frame| >= 6 && frame[..2] == Sync && frame[4] == cls && frame[5] == id
      && |PayloadSlice(frame, FromLe(frame[2..4]))| < Size(layout)
    ensures r.Ok? ==> FitsLayout(layout, r.value)
    ensures r.Ok? ==> r.value == Decode(layout, PayloadSlice(frame, FromLe(frame[2..4])))
  {
    match ReadHeader(frame)
    case Err(e) => Err(e)
    case Ok(h) =>
      if h.cls != cls || h.id != id then Err(WrongMessage(h.cls, h.id))
      else
        var payload := PayloadSlice(frame, h.length);
        if |payload| < Size(layout) then Err(Truncated)
        else
          DecodeFits(layout, payload);
          Ok(Decode(layout, payload))
  }

  /** Decoding a packed record returns every field as it was written. */
  lemma DecodePacked(cls: Byte, id: Byte, layout: seq<Field>, vals: seq<int>)
    requires Packable(layout) && |vals| == |layout|
    ensures DecodeRecord(cls, id, layout, PackRecord(cls, id, layout, vals)) == Ok(NormalizeAll(layout, vals))
  {
    var payload := Encode(layout, vals);
    var f := PackRecord(cls, id, layout, vals);
    assert PayloadSlice(f, FromLe(f[2..4])) == payload + [];
    DecodeEncode(layout, vals, []);
  }

  /** A well-formed frame of the right message and size is reproduced
      byte for byte by packing what was decoded from it. */
  lemma RepackDecoded(cls: Byte, id: Byte, layout: seq<Field>, frame: seq<Byte>)
    requires Packable(layout) && WellFormed(frame)
    requires frame[4] == cls && frame[5] == id && FromLe(frame[2..4]) == Size(layout)
    ensures DecodeRecord(cls, id, layout, frame).Ok?
    ensures PackRecord(cls, id, layout, DecodeRecord(cls, id, layout, frame).value) == frame
  {
    var payload := frame[6..|frame| - 4];
    assert PayloadSlice(frame, Size(layout)) == payload;
    EncodeDecode(layout, payload);
    assert payload[..Size(layout)] == payload;
    RepackWellFormed(frame);
  }
}
