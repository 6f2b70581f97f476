/** Bit-field extraction shared by the instruction decoders. The header
    that defines ExtractBits (src/Emu/Utility/DecoderUtility.h) is not part
    of this model; its meaning is taken from its uses: ExtractBits(v, pos,
    width) is the width-bit field of v starting at bit pos, and a fourth
    argument `true` sign-extends that field from its top bit. */
module DecoderUtil {

  // The properties of these helpers are stated, per field, where the
  // decoders use them: with a literal position and width the solver
  // reasons about them cheaply, with symbolic ones it does not. A register
  // field is read as a 5-bit value and converted to a register number.

  /** The width-bit field of v starting at bit pos, zero-extended. */
  function ExtractBits(v: bv64, pos: bv64, width: bv64): (x: bv64)
    requires pos < 64 && 0 < width < 64
  {
    (v >> pos) & ((1 << width) - 1)
  }

  /** The same field sign-extended from its top bit t: flipping t and
      subtracting it leaves a clear t alone and turns a set t into a
      borrow through every higher bit. */
  function ExtractSext(v: bv64, pos: bv64, width: bv64): (x: bv64)
    requires pos < 64 && 0 < width < 64
  {
    var t: bv64 := 1 << (width - 1);
    (ExtractBits(v, pos, width) ^ t) - t
  }

  /** The 32-bit forms, for decoders whose fields are u32. */
  function ExtractBits32(v: bv32, pos: bv32, width: bv32): (x: bv32)
    requires pos < 32 && 0 < width < 32
  {
    (v >> pos) & ((1 << width) - 1)
  }

  function ExtractSext32(v: bv32, pos: bv32, width: bv32): (x: bv32)
    requires pos < 32 && 0 < width < 32
  {
    var t: bv32 := 1 << (width - 1);
    (ExtractBits32(v, pos, width) ^ t) - t
  }
}
