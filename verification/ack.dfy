/** The receive-buffer scan inside `wait_ack`: look for a CASIC ACK
    (class 0x05, id 0x01, 4-byte payload naming the acknowledged class and
    id) anywhere in what the receiver has sent so far. The serial port and
    the clock are outside this model: the bytes read before the deadline are
    given as a sequence of chunks. */
module Ack {
  import opened Bytes
  import opened Wrappers
  import opened Csip

  const AckClass: Byte := 0x05
  const AckId: Byte := 0x01

  predicate SyncAt(buf: seq<Byte>, k: int) {
    0 <= k && k + 2 <= |buf| && buf[k] == 0xBA && buf[k + 1] == 0xCE
  }

  /** `buf.find(b"\xBA\xCE", i)`: the first sync at or after i. */
  function Find(buf: seq<Byte>, i: nat): (r: Option<nat>)
    ensures r.Some? ==> i <= r.value && SyncAt(buf, r.value)
    ensures r.Some? ==> forall k :: i <= k < r.value ==> !SyncAt(buf, k)
    ensures r.None? ==> forall k :: i <= k ==> !SyncAt(buf, k)
    decreases |buf| - i
  {
    if i + 2 > |buf| then None
    else if buf[i] == 0xBA && buf[i + 1] == 0xCE then Some(i)
    else Find(buf, i + 1)
  }

  /** An ACK for (cls, id) starts at j: sync, length field 4, class 0x05,
      id 0x01, payload bytes 0 and 1 equal to the expected class and id, and
      at least 12 bytes from j on. The checksum is not looked at. */
  predicate AckAt(buf: seq<Byte>, j: int, cls: Byte, id: Byte) {
    && SyncAt(buf, j) && j + 12 <= |buf|
    && FromLe(buf[j + 2..j + 4]) == 4 && buf[j + 4] == AckClass && buf[j + 5] == AckId
    && buf[j + 6] == cls && buf[j + 7] == id
  }

  predicate HasAck(buf: seq<Byte>, cls: Byte, id: Byte) {
    exists j :: 0 <= j < |buf| && AckAt(buf, j, cls, id)
  }

  /** One pass of the inner `while True` loop over the buffer. */
  method ScanAck(buf: seq<Byte>, cls: Byte, id: Byte) returns (found: bool)
    ensures found <==> HasAck(buf, cls, id)
  {
    var i: nat := 0;
    while i <= |buf|
      invariant forall j :: 0 <= j < i ==> !AckAt(buf, j, cls, id)
      decreases |buf| + 1 - i
    {
      var next := Find(buf, i);
      if next.None? {
        break;
      }
      var j := next.value;
      if j + 12 > |buf| {
        break;
      }
      if FromLe(buf[j + 2..j + 4]) == 4 && buf[j + 4] == AckClass && buf[j + 5] == AckId {
        var p := buf[j + 6..j + 10];
        if p[0] == cls && p[1] == id {
          assert AckAt(buf, j, cls, id);
          return true;
        }
      }
      i := j + 1;
    }
    return false;
  }

  /** An ACK already received stays received as more bytes arrive. */
  lemma AckPersists(a: seq<Byte>, b: seq<Byte>, cls: Byte, id: Byte)
    requires HasAck(a, cls, id)
    ensures HasAck(a + b, cls, id)
  {
    var j :| 0 <= j < |a| && AckAt(a, j, cls, id);
    assert (a + b)[j..j + 12] == a[j..j + 12];
    assert (a + b)[j + 2..j + 4] == a[j + 2..j + 4];
    assert AckAt(a + b, j, cls, id);
  }

  function Concat(chunks: seq<seq<Byte>>): seq<Byte> {
    if |chunks| == 0 then [] else Concat(chunks[..|chunks| - 1]) + chunks[|chunks| - 1]
  }

  /** `wait_ack`: append each chunk read before the deadline and rescan the
      whole buffer; true as soon as a scan finds the ACK. */
  method WaitAck(chunks: seq<seq<Byte>>, cls: Byte, id: Byte) returns (acked: bool)
    ensures acked <==> HasAck(Concat(chunks), cls, id)
  {
    var buf: seq<Byte> := [];
    var k := 0;
    while k < |chunks|
      invariant 0 <= k <= |chunks|
      invariant buf == Concat(chunks[..k])
      invariant !HasAck(buf, cls, id)
      decreases |chunks| - k
    {
      buf := buf + chunks[k];
      k := k + 1;
      assert chunks[..k][..k - 1] == chunks[..k - 1];
      var found := ScanAck(buf, cls, id);
      if found {
        ConcatPrefix(chunks, k);
        AckPersists(buf, Concat(chunks)[|buf|..], cls, id);
        assert buf + Concat(chunks)[|buf|..] == Concat(chunks);
        return true;
      }
    }
    assert chunks[..k] == chunks;
    return false;
  }

  /** The bytes read so far are a prefix of everything read. */
  lemma {:induction false} ConcatPrefix(chunks: seq<seq<Byte>>, k: nat)
    requires k <= |chunks|
    ensures |Concat(chunks[..k])| <= |Concat(chunks)|
    ensures Concat(chunks[..k]) == Concat(chunks)[..|Concat(chunks[..k])|]
    decreases |chunks| - k
  {
    if k < |chunks| {
      ConcatPrefix(chunks, k + 1);
      assert chunks[..k + 1][..k] == chunks[..k];
      var a, b := Concat(chunks[..k]), Concat(chunks[..k + 1]);
      assert b == a + chunks[k];
      assert b[..|a|] == a;
    } else {
      assert chunks[..k] == chunks;
    }
  }

  /** The 12 bytes that make the scan succeed; the two remaining checksum
      bytes may be anything, or may not have arrived yet. */
  function AckHead(cls: Byte, id: Byte, r0: Byte, r1: Byte): seq<Byte> {
    Sync + [4, 0, AckClass, AckId, cls, id, r0, r1]
  }

  lemma AckWithoutChecksum(before: seq<Byte>, cls: Byte, id: Byte, r0: Byte, r1: Byte, c: seq<Byte>)
    requires |c| >= 2
    ensures HasAck(before + AckHead(cls, id, r0, r1) + c, cls, id)
  {
    var buf := before + AckHead(cls, id, r0, r1) + c;
    var j := |before|;
    assert buf[j + 2..j + 4] == [4, 0];
    assert FromLe([4, 0]) == 4;
    assert AckAt(buf, j, cls, id);
  }

  /** The receiver's genuine ACK (a `csip_pack` frame of class 0x05, id 0x01)
      is recognised wherever it appears in the buffer. */
  lemma PackedAckFound(before: seq<Byte>, after: seq<Byte>, cls: Byte, id: Byte, r0: Byte, r1: Byte)
    ensures CsipPack(AckClass, AckId, [cls, id, r0, r1]).Ok?
    ensures HasAck(before + CsipPack(AckClass, AckId, [cls, id, r0, r1]).value + after, cls, id)
  {
    var frame := CsipPack(AckClass, AckId, [cls, id, r0, r1]).value;
    CsipPackLayout(AckClass, AckId, [cls, id, r0, r1]);
    assert PadTo4([cls, id, r0, r1]) == [cls, id, r0, r1];
    var buf := before + frame + after;
    var j := |before|;
    assert buf[j..j + 14] == frame;
    assert buf[j + 2..j + 4] == frame[2..4];
    assert AckAt(buf, j, cls, id);
  }

  /** An ACK for another message does not count. */
  lemma OtherAckIgnored(cls: Byte, id: Byte, r0: Byte, r1: Byte, c0: Byte, c1: Byte, wantCls: Byte, wantId: Byte)
    requires wantCls != cls || wantId != id
    ensures !HasAck(AckHead(cls, id, r0, r1) + [c0, c1], wantCls, wantId)
  {
    var buf := AckHead(cls, id, r0, r1) + [c0, c1];
    forall j | 0 <= j < |buf|
      ensures !AckAt(buf, j, wantCls, wantId)
    {
      if j == 0 {
        assert buf[6] == cls && buf[7] == id;
      }
    }
  }
}
