/**
 How a ranged read reaches the wire, crates/mtp-rs/src/mtp/backend/usb.rs: the choice between the
 64-bit and the 32-bit partial read, and the parameters each carries.
 */
module PartialRead {
  import opened Common

  datatype PartialReadOp = Wide | Narrow

  /** Prefers the 64-bit operation; the 32-bit one reaches offsets up to 4 GiB - 1. */
  function PlanPartialRead(has64: bool, has32: bool, offset: u64): Result<PartialReadOp, PtpError> {
    if has64 then Ok(Wide)
    else if has32 then (if offset > U32_MAX then Err(InvalidData) else Ok(Narrow))
    else Err(Unsupported)
  }

  /** A data-in command, with its parameters after the object handle. */
  datatype Command =
    | GetObject(expected: Option<u64>)
    | GetPartialObject64(offsetLo: u32, offsetHi: u32, max: u32)
    | GetPartialObject(offset: u32, max: u32)

  function PartialCommand(has64: bool, has32: bool, offset: u64, max: u32): Result<Command, PtpError> {
    var op :- PlanPartialRead(has64, has32, offset);
    match op
    case Wide => Ok(GetPartialObject64(offset % 0x1_0000_0000, offset / 0x1_0000_0000 % 0x1_0000_0000, max))
    case Narrow => Ok(GetPartialObject(offset % 0x1_0000_0000, max))
  }

  /** The first byte a device reads for a command. */
  function CommandOffset(c: Command): nat {
    match c
    case GetObject(_) => 0
    case GetPartialObject64(lo, hi, _) => lo + hi * 0x1_0000_0000
    case GetPartialObject(offset, _) => offset
  }

  /** The most bytes a command asks for, of an object of `size` bytes. */
  function CommandLimit(c: Command, size: nat): nat {
    match c
    case GetObject(_) => size
    case GetPartialObject64(_, _, max) => max
    case GetPartialObject(_, max) => max
  }

  /**
   The wire parameters name the exact offset and length: no bits are lost on either operation. The
   64-bit one is used wherever there is one; without any, partial reads aren't supported.
   */
  lemma {:induction false} WireOffsetIsExact(has64: bool, has32: bool, offset: u64, max: u32)
    ensures PartialCommand(has64, has32, offset, max).Ok? <==> has64 || (has32 && offset <= U32_MAX)
    ensures var r := PartialCommand(has64, has32, offset, max);
            && (r.Ok? ==> !r.value.GetObject? && CommandOffset(r.value) == offset && r.value.max == max)
            && (r.Ok? ==> (r.value.GetPartialObject64? <==> has64))
            && (r.Err? ==> r.error == if has32 then InvalidData else Unsupported)
  {
  }

  /** A device that can read partially at an offset can at every earlier one. */
  lemma {:induction false} EarlierOffsetsReadable(has64: bool, has32: bool, offset: u64, earlier: u64)
    requires earlier <= offset
    ensures PlanPartialRead(has64, has32, offset).Ok? ==> PlanPartialRead(has64, has32, earlier).Ok?
  {
  }
}
