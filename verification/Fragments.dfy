/** Splitting large IPv4 payloads and putting fragments back together, for both IP versions
    (section 3.2 of RFC 791, section 4.5 of RFC 8200). */
module Fragments {
  import opened Bits

  const MAX_PAYLOAD: nat := 1480
  const MORE_FRAG: nat := 0x2000
  const ID_SPACE: nat := 0x10000

  /** The header fields reassembly looks at, and the transport bytes. `frag` is the 16-bit
      flags-and-offset field in host order. */
  datatype Packet = Packet(id: nat, src: nat, dst: nat, frag: nat, data: seq<byte>)

  function Offset(p: Packet): nat { p.frag % MORE_FRAG * 8 }

  predicate More(p: Packet) { p.frag / MORE_FRAG % 2 == 1 }

  /** The same field as IPv6 has it: the offset in the upper thirteen bits, the flag lowest. */
  function Offset6(field: nat): nat { field / 8 * 8 }

  predicate More6(field: nat) { field % 2 == 1 }

  /** An IPv6 field in the layout used here. */
  function FromV6(field: nat): nat { field / 8 + (if More6(field) then MORE_FRAG else 0) }

  lemma FromV6Fields(p: Packet, field: nat)
    requires field < 0x10000 && p.frag == FromV6(field)
    ensures Offset(p) == Offset6(field) && (More(p) <==> More6(field))
  {}

  // ---------- the splitter ----------

  function PieceCount(len: nat): nat {
    (len + MAX_PAYLOAD - 1) / MAX_PAYLOAD
  }

  function PieceEnd(len: nat, i: nat): nat {
    if (i + 1) * MAX_PAYLOAD < len then (i + 1) * MAX_PAYLOAD else len
  }

  /** The i-th fragment of a payload. */
  function Piece(payload: seq<byte>, id: nat, src: nat, dst: nat, i: nat): Packet
    requires i * MAX_PAYLOAD < |payload|
  {
    var from, to := i * MAX_PAYLOAD, PieceEnd(|payload|, i);
    Packet(id, src, dst, from / 8 + (if to < |payload| then MORE_FRAG else 0), payload[from..to])
  }

  function Pieces(payload: seq<byte>, id: nat, src: nat, dst: nat, n: nat): (r: seq<Packet>)
    requires n > 0 ==> (n - 1) * MAX_PAYLOAD < |payload|
    ensures |r| == n
  {
    if n == 0 then [] else Pieces(payload, id, src, dst, n - 1) + [Piece(payload, id, src, dst, n - 1)]
  }

  lemma PiecesAt(payload: seq<byte>, id: nat, src: nat, dst: nat, n: nat, i: nat)
    requires i < n && (n - 1) * MAX_PAYLOAD < |payload|
    ensures Pieces(payload, id, src, dst, n)[i] == Piece(payload, id, src, dst, i)
  {
    if i < n - 1 {
      PiecesAt(payload, id, src, dst, n - 1, i);
    }
  }

  lemma PieceCountBounds(len: nat)
    ensures len > 0 ==> (PieceCount(len) - 1) * MAX_PAYLOAD < len <= PieceCount(len) * MAX_PAYLOAD
    ensures PieceCount(len) == 0 <==> len == 0
  {}

  /** One round of the splitter makes the next piece and says whether more follow. */
  lemma NextPiece(payload: seq<byte>, id: nat, src: nat, dst: nat, i: nat)
    requires i * MAX_PAYLOAD < |payload|
    ensures var written, end := i * MAX_PAYLOAD, PieceEnd(|payload|, i);
            && Piece(payload, id, src, dst, i)
               == Packet(id, src, dst, written / 8 + (if end < |payload| then MORE_FRAG else 0), payload[written..end])
            && i < PieceCount(|payload|)
            && (end == |payload| <==> i + 1 == PieceCount(|payload|))
            && (end < |payload| ==> end == (i + 1) * MAX_PAYLOAD)
  {
    PieceCountBounds(|payload|);
  }

  /** The identification counter of the sender. */
  class Sender {
    var progressiveId: nat

    constructor (first: nat)
      requires first < ID_SPACE
      ensures progressiveId == first
    {
      progressiveId := first;
    }

    /** Sends fragments while the output queue has `room`; every one carries the same
        identification, which moves on only with the last. */
    method ReboundLarge(payload: seq<byte>, src: nat, dst: nat, room: nat)
        returns (sent: seq<Packet>, written: nat)
      requires |payload| < 0x10000 && progressiveId < ID_SPACE
      modifies this
      ensures var n := PieceCount(|payload|);
              && |sent| == (if room < n then room else n)
              && written == (if room < n then room * MAX_PAYLOAD else |payload|)
              && (forall i :: 0 <= i < |sent| ==>
                   i * MAX_PAYLOAD < |payload| &&
                   sent[i] == Piece(payload, old(progressiveId), src, dst, i))
              && progressiveId == (if n > 0 && room >= n - 1 then (old(progressiveId) + 1) % ID_SPACE
                                   else old(progressiveId))
    {
      PieceCountBounds(|payload|);
      hide Piece;
      hide PieceCount;
      sent, written := [], 0;
      while written < |payload|
        invariant written <= |payload| && |sent| <= room
        invariant written == |payload| <==> |sent| == PieceCount(|payload|)
        invariant written < |payload| ==> written == |sent| * MAX_PAYLOAD
        invariant |sent| <= PieceCount(|payload|)
        invariant progressiveId ==
                  if written == |payload| && |payload| > 0 then (old(progressiveId) + 1) % ID_SPACE
                  else old(progressiveId)
        invariant forall i :: 0 <= i < |sent| ==>
                    i * MAX_PAYLOAD < |payload| &&
                    sent[i] == Piece(payload, old(progressiveId), src, dst, i)
        decreases |payload| - written
      {
        NextPiece(payload, old(progressiveId), src, dst, |sent|);
        var space := |payload| - written;
        if space > MAX_PAYLOAD {
          space := MAX_PAYLOAD;
        }
        var more := space + written < |payload|;
        var frag := written / 8 + if more then MORE_FRAG else 0;
        var id := progressiveId;
        if !more {
          progressiveId := (progressiveId + 1) % ID_SPACE;
        }
        if |sent| == room {
          break;
        }
        sent := sent + [Packet(id, src, dst, frag, payload[written..written + space])];
        written := written + space;
      }
    }
  }
}
