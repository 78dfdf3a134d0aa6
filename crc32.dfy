/** CRC-32 as defined in IEEE 802.3 section 3.2.9, the checksum Go's
    crc32.ChecksumIEEE computes: reflected polynomial 0xEDB88320, register
    preset to all ones, result complemented. Processed one bit at a time. */
module Crc32 {
  import opened Bytes

  const Polynomial: bv32 := 0xEDB8_8320

  /** k rounds of the shift register. */
  function Shift(c: bv32, k: nat): bv32
    decreases k
  {
    if k == 0 then c
    else Shift(if c & 1 == 1 then (c >> 1) ^ Polynomial else c >> 1, k - 1)
  }

  /** The register after feeding `data` into register value c. */
  function Update(c: bv32, data: seq<byte>): bv32
    decreases |data|
  {
    if |data| == 0 then c
    else Update(Shift(c ^ (data[0] as bv32), 8), data[1..])
  }

  function ChecksumIEEE(data: seq<byte>): uint32
  {
    var register := Update(0xFFFF_FFFF, data) ^ 0xFFFF_FFFF;
    register as int
  }
}
