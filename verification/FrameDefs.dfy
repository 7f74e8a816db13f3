/** The two frame formats of include/frame-defs.h: device to host, and commands from host to device. */
module FrameDefs {
  import opened Bytes
  import opened Checksum

  /** "FMpX" */
  const MAGIC: seq<byte> := [0x46, 0x4d, 0x70, 0x58]

  /** Frame types, the ASCII codes of 'E', 'P', 'T', 'V' and 'S'. */
  const TYPE_PARAMS_FROM_EEPROM: byte := 0x45
  const TYPE_PERSONALITY_INFO: byte := 0x50
  const TYPE_TEXT: byte := 0x54
  const TYPE_VALUE_TABLE: byte := 0x56
  const TYPE_STATE: byte := 0x53

  /** Why a value table is sent: the ASCII codes of 'D', 'A', 'I' and 'R'. */
  const REASON_DONE: byte := 0x44
  const REASON_ABORTED: byte := 0x41
  const REASON_INTERMEDIATE: byte := 0x49
  const REASON_RESEND: byte := 0x52

  const MAX_PARAM_LENGTH := 16

  datatype Frame = Frame(ftype: byte, payload: seq<byte>)

  datatype Command = Command(cmd: byte, params: seq<byte>)

  /** A byte string followed by the low byte of its checksum. */
  function Sealed(body: seq<byte>): seq<byte> { body + [Final(body)] }

  /** Magic, declared size and type, before the payload. */
  function Header(ftype: byte, size: u16): (h: seq<byte>)
    ensures |h| == 7
  {
    MAGIC + LittleEndian(size, 2) + [ftype]
  }

  /** The bytes of one device-to-host frame on the wire. */
  function EncodeFrame(f: Frame): seq<byte>
    requires |f.payload| < 0x1_0000
  {
    Sealed(Header(f.ftype, |f.payload|) + f.payload)
  }

  /** The bytes of one command on the wire; the length byte holds what fits of the length. */
  function EncodeCommand(c: Command): seq<byte>
  {
    Sealed(MAGIC + [c.cmd, U8(|c.params|)] + c.params)
  }

  predicate Sendable(fs: seq<Frame>) { forall f | f in fs :: |f.payload| < 0x1_0000 }

  function EncodeFrames(fs: seq<Frame>): seq<byte>
    requires Sendable(fs)
  {
    if fs == [] then [] else EncodeFrame(fs[0]) + EncodeFrames(fs[1..])
  }

  function EncodeCommands(cs: seq<Command>): seq<byte>
  {
    if cs == [] then [] else EncodeCommand(cs[0]) + EncodeCommands(cs[1..])
  }
}
