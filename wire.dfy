/**
 * The inventory frame both reader variants pick a tag identifier out of:
 * a start byte `0x02`, the command code `0x22`, five bytes the parsers skip,
 * the twelve EPC bytes, and one trailing byte. The reader's own command set
 * defines it; only the positions matter to the parsers.
 */
module Wire {
  import opened Common

  const FRAME_START: bv8 := 0x02
  const FRAME_CODE: bv8 := 0x22
  /** Bytes between the command code and the EPC. */
  const HEADER_LENGTH: nat := 5

  /**
   * Both parsers count frame positions in `dataAdd`: it holds `CODE_OFFSET`
   * once the command code is seen and is incremented before each later byte
   * is examined; the EPC occupies positions `EPC_FIRST` to `EPC_LAST` and the
   * frame ends at `FRAME_END`.
   */
  const CODE_OFFSET: nat := 3
  const EPC_FIRST: nat := CODE_OFFSET + HEADER_LENGTH + 1
  const EPC_LAST: nat := EPC_FIRST + EPC_LENGTH - 1
  const FRAME_END: nat := EPC_LAST + 1

  datatype Frame = Frame(header: seq<bv8>, epc: Epc, trailer: bv8)

  predicate WellFormedFrame(f: Frame)
  {
    |f.header| == HEADER_LENGTH
  }

  predicate AllWellFormed(fs: seq<Frame>)
  {
    forall i :: 0 <= i < |fs| ==> WellFormedFrame(fs[i])
  }

  /** The bytes of one frame as they arrive on the serial line. */
  function Encode(f: Frame): seq<bv8>
  {
    [FRAME_START, FRAME_CODE] + f.header + f.epc + [f.trailer]
  }

  /** Frames sent back to back. */
  function EncodeAll(fs: seq<Frame>): seq<bv8>
    decreases |fs|
  {
    if |fs| == 0 then [] else Encode(fs[0]) + EncodeAll(fs[1..])
  }

  /** The identifiers the frames carry, in order. */
  function Epcs(fs: seq<Frame>): (es: seq<Epc>)
    ensures |es| == |fs|
    ensures forall i :: 0 <= i < |fs| ==> es[i] == fs[i].epc
  {
    seq(|fs|, i requires 0 <= i < |fs| => fs[i].epc)
  }
}
