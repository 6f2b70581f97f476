/** The framing side of the GDB remote stub (GDB Remote Serial Protocol,
    appendix E.1 of the GDB manual): a packet is "$" data "#" and two hex
    digits of the byte sum modulo 256, acknowledged by '+' or '-'. The
    stub's connection is modelled as the bytes the host has still to send
    (input) and the bytes the stub has written (output). */
module DebugStub {
  import opened Wrappers
  import opened Arith
  import opened Words

  // ---------------------------------------------------------------------
  // Bytes, sums and hex digits
  // ---------------------------------------------------------------------

  /** An unsigned byte. */
  type byte = b: nat | b < 256

  /** A character read off the socket is one byte. */
  function Octet(c: char): byte
  {
    (c as int) % 256
  }

  /** The byte sum of s; the source adds signed chars, and its `sum & 0xff`
      equals this sum modulo 256. */
  function ByteSum(s: string): nat
  {
    if |s| == 0 then 0 else ByteSum(s[..|s| - 1]) + Octet(s[|s| - 1])
  }

  /** The protocol checksum of a packet's data. */
  function Checksum(s: string): byte
  {
    ByteSum(s) % 256
  }

  /** The checksum is a running sum modulo 256: adding a character adds its
      byte. */
  lemma ChecksumAppend(s: string, c: char)
    ensures Checksum(s + [c]) == (Checksum(s) + Octet(c)) % 256
  {
    assert (s + [c])[..|s|] == s;
    AddMod(ByteSum(s), Octet(c), 256);
  }

  /** One lowercase hex digit, as `hex` output prints it. */
  function HexDigit(d: nat): (c: char)
    requires d < 16
    ensures '0' <= c <= '9' || 'a' <= c <= 'f'
  {
    if d < 10 then ('0' as int + d) as char else ('a' as int + d - 10) as char
  }

  /** The value of a hex digit of either case, which `hex` input reads. */
  function HexValue(c: char): (r: Option<nat>)
    ensures r.Some? ==> r.value < 16
  {
    if '0' <= c <= '9' then Some(c as int - '0' as int)
    else if 'a' <= c <= 'f' then Some(c as int - 'a' as int + 10)
    else if 'A' <= c <= 'F' then Some(c as int - 'A' as int + 10)
    else None
  }

  /** Every digit HexDigit prints reads back as itself. */
  lemma HexDigitValue(d: nat)
    requires d < 16
    ensures HexValue(HexDigit(d)) == Some(d)
  {
  }

  /** A byte as two hex digits, high nibble first (`setw(2)` and
      `setfill('0')`). */
  function Hex2(v: byte): (s: string)
    ensures |s| == 2
  {
    [HexDigit(v / 16), HexDigit(v % 16)]
  }

  /** The white space `>>` skips. */
  predicate IsSpace(c: char)
  {
    c == ' ' || c == '\t' || c == '\n' || c == '\r' || c == '\U{0B}' || c == '\U{0C}'
  }

  /** `ss >> hex >> checksum` over the two characters after '#': leading
      white space is skipped, a sign is taken, then hex digits are read;
      when nothing can be read the result is 0. */
  function ReadChecksum(c1: char, c2: char): int
  {
    if IsSpace(c1) then
      (if HexValue(c2).Some? then HexValue(c2).value else 0)
    else if c1 == '+' || c1 == '-' then
      (if HexValue(c2).None? then 0 else if c1 == '-' then -(HexValue(c2).value as int) else HexValue(c2).value)
    else if HexValue(c1).Some? then
      (if HexValue(c2).Some? then 16 * HexValue(c1).value + HexValue(c2).value else HexValue(c1).value)
    else 0
  }

  /** Two hex digits read back as the byte they were printed from. */
  lemma ReadHex2(v: byte)
    ensures ReadChecksum(Hex2(v)[0], Hex2(v)[1]) == v
  {
    HexDigitValue(v / 16);
    HexDigitValue(v % 16);
  }

  // ---------------------------------------------------------------------
  // U64ToHexStr
  // ---------------------------------------------------------------------

  /** The modulus of u64 arithmetic. */
  const U64: nat := 0x1_0000_0000_0000_0000

  /** 256 to the power n. */
  function Pow256(n: nat): (r: nat)
    ensures r >= 1
  {
    if n == 0 then 1 else 256 * Pow256(n - 1)
  }

  /** n bytes of v, least significant first. */
  function BytesLE(v: nat, n: nat): (bs: seq<byte>)
    ensures |bs| == n
  {
    if n == 0 then [] else [v % 256] + BytesLE(v / 256, n - 1)
  }

  /** Each byte as two hex digits, in order. */
  function HexBytes(bs: seq<byte>): (s: string)
    ensures |s| == 2 * |bs|
  {
    if |bs| == 0 then [] else Hex2(bs[0]) + HexBytes(bs[1..])
  }

  /** num bytes of val, least significant first, two hex digits each. */
  function HexLE(val: nat, num: int): string
  {
    HexBytes(BytesLE(val, if num > 0 then num else 0))
  }

  /** U64ToHexStr: the loop prints the low byte and shifts val right by 8,
      num times. */
  method U64ToHexStr(val: nat, num: int) returns (s: string)
    ensures s == HexLE(val, num)
    ensures |s| == if num > 0 then 2 * num else 0
  {
    s := [];
    var v := val;
    var i := 0;
    while i < num
      invariant 0 <= i && (num > 0 ==> i <= num)
      invariant s + HexLE(v, num - i) == HexLE(val, num)
    {
      HexLEStep(s, v, num - i);
      s := s + Hex2(v % 256);
      v := v / 256;
      i := i + 1;
    }
    assert s + [] == s;
  }

  lemma HexLEStep(s: string, v: nat, n: int)
    requires n > 0
    ensures s + HexLE(v, n) == (s + Hex2(v % 256)) + HexLE(v / 256, n - 1)
  {
    var bs := BytesLE(v, n);
    assert bs[1..] == BytesLE(v / 256, n - 1);
  }

  /** The bytes are emitted least significant first: digits 2i and 2i+1
      print byte i of val. */
  lemma {:induction false} HexBytesAt(bs: seq<byte>, i: nat)
    requires i < |bs|
    ensures HexBytes(bs)[2 * i..2 * i + 2] == Hex2(bs[i])
    decreases i
  {
    var h := Hex2(bs[0]);
    var rest := HexBytes(bs[1..]);
    assert HexBytes(bs) == h + rest;
    if i > 0 {
      HexBytesAt(bs[1..], i - 1);
      SliceRight(h, rest, 2 * i, 2 * i + 2);
    } else {
      SliceLeft(h, rest);
    }
  }

  lemma SliceRight(a: string, b: string, lo: nat, hi: nat)
    requires |a| <= lo <= hi <= |a| + |b|
    ensures (a + b)[lo..hi] == b[lo - |a|..hi - |a|]
  {
  }

  lemma SliceLeft(a: string, b: string)
    ensures (a + b)[..|a|] == a && (a + b)[0..|a|] == a
  {
  }

  /** Byte i of BytesLE(v, n) is byte i of v. */
  lemma {:induction false} BytesLEAt(v: nat, n: nat, i: nat)
    requires i < n
    ensures BytesLE(v, n)[i] == (v / Pow256(i)) % 256
    decreases i
  {
    if i > 0 {
      BytesLEAt(v / 256, n - 1, i - 1);
      DivDiv(v, 256, Pow256(i - 1));
    } else {
      DivModUnique(v, 1, v, 0);
    }
  }

  /** U64ToHexStr emits num bytes, least significant first: digits 2i and
      2i+1 print byte i of val. */
  lemma HexLEByte(val: nat, num: nat, i: nat)
    requires i < num
    ensures |HexLE(val, num)| == 2 * num
    ensures HexLE(val, num)[2 * i..2 * i + 2] == Hex2((val / Pow256(i)) % 256)
  {
    HexBytesAt(BytesLE(val, num), i);
    BytesLEAt(val, num, i);
  }

  /** Reading hex digit pairs back, least significant byte first. */
  function UnhexLE(s: string): nat
  {
    if |s| < 2 then 0
    else
      var hi := HexValue(s[0]);
      var lo := HexValue(s[1]);
      (if hi.Some? && lo.Some? then 16 * hi.value + lo.value else 0) + 256 * UnhexLE(s[2..])
  }

  /** Bytes assembled little-endian. */
  function LittleEndian(bs: seq<byte>): nat
  {
    if |bs| == 0 then 0 else bs[0] + 256 * LittleEndian(bs[1..])
  }

  /** v modulo m * p splits into v modulo m and the next digit group. */
  lemma ModSplit(v: nat, m: nat, p: nat)
    requires m >= 1 && p >= 1
    ensures v % (m * p) == v % m + m * ((v / m) % p)
  {
    var q, r := v / m, v % m;
    var q2, r2 := q / p, q % p;
    assert v == m * q + r;
    assert q == p * q2 + r2;
    assert v == (m * p) * q2 + (m * r2 + r) by {
      Distrib(m, p * q2, r2);
      Assoc(m, p, q2);
    }
    MulMono(m, r2, p - 1);
    Distrib(m, p - 1, 1);
    DivModUnique(v, m * p, q2, m * r2 + r);
  }

  lemma {:induction false} LittleEndianBytes(v: nat, n: nat)
    ensures LittleEndian(BytesLE(v, n)) == v % Pow256(n)
    decreases n
  {
    if n > 0 {
      LittleEndianBytes(v / 256, n - 1);
      ModSplit(v, 256, Pow256(n - 1));
    } else {
      DivModUnique(v, 1, v, 0);
    }
  }

  /** Hex digit pairs read back as the bytes they print. */
  lemma {:induction false} UnhexBytes(bs: seq<byte>)
    ensures UnhexLE(HexBytes(bs)) == LittleEndian(bs)
    decreases |bs|
  {
    if |bs| > 0 {
      UnhexBytes(bs[1..]);
      Hex2Reads(bs[0], HexBytes(bs[1..]));
    }
  }

  /** The hex string reads back as val modulo 256^num: the round trip of
      U64ToHexStr. */
  lemma HexLERoundTrip(val: nat, num: nat)
    ensures UnhexLE(HexLE(val, num)) == val % Pow256(num)
  {
    UnhexBytes(BytesLE(val, num));
    LittleEndianBytes(val, num);
  }

  /** A byte's two digits in front of the rest read back as the byte plus
      256 times the rest. */
  lemma Hex2Reads(b: byte, rest: string)
    ensures UnhexLE(Hex2(b) + rest) == b + 256 * UnhexLE(rest)
  {
    var s := Hex2(b) + rest;
    assert s[2..] == rest;
    HexDigitValue(b / 16);
    HexDigitValue(b % 16);
    assert 16 * (b / 16) + b % 16 == b;
  }

  // ---------------------------------------------------------------------
  // ParseBinary
  // ---------------------------------------------------------------------

  /** XOR with 0x20: flip bit 5 of a byte. */
  function Xor20(b: byte): byte
  {
    if (b / 32) % 2 == 1 then b - 32 else b + 32
  }

  lemma Xor20Involution(b: byte)
    ensures Xor20(Xor20(b)) == b
  {
  }

  /** The bytes of an X-packet payload: '}' escapes the next byte, which is
      XORed with 0x20; a '}' at the very end escapes the terminating NUL. */
  function Unescape(s: string): (bs: seq<byte>)
    decreases |s|
    ensures |bs| <= |s| && (|s| > 0 ==> |bs| > 0)
  {
    if |s| == 0 then []
    else if s[0] == '}' then
      (if |s| == 1 then [Xor20(0)] else [Xor20(Octet(s[1]))] + Unescape(s[2..]))
    else [Octet(s[0])] + Unescape(s[1..])
  }

  /** The 64-bit value ParseBinary evidently means: the unescaped bytes,
      little-endian, wrapped to 64 bits. */
  function BinaryValue(s: string): nat
  {
    LittleEndian(Unescape(s)) % U64
  }

  /** A byte shifted left by 8 * n bits. */
  function Shifted(b: byte, n: nat): nat
  {
    if n == 0 then b else 256 * Shifted(b, n - 1)
  }

  lemma {:induction false} LittleEndianSnoc(bs: seq<byte>, b: byte)
    ensures LittleEndian(bs + [b]) == LittleEndian(bs) + Shifted(b, |bs|)
    decreases |bs|
  {
    if |bs| == 0 {
      assert bs + [b] == [b];
      assert [b][1..] == [];
    } else {
      assert (bs + [b])[1..] == bs[1..] + [b];
      LittleEndianSnoc(bs[1..], b);
    }
  }

  /** The value ParseBinary accumulates: each byte added at its place, the
      sum wrapped to 64 bits after every addition. */
  function Accumulated(bs: seq<byte>): nat
    decreases |bs|
  {
    if |bs| == 0 then 0
    else (Accumulated(bs[..|bs| - 1]) + Shifted(bs[|bs| - 1], |bs| - 1)) % U64
  }

  /** Wrapping after every addition gives the wrapped little-endian value. */
  lemma {:induction false} AccumulatedIsLittleEndian(bs: seq<byte>)
    ensures Accumulated(bs) == LittleEndian(bs) % U64
    decreases |bs|
  {
    if |bs| > 0 {
      var init, b := bs[..|bs| - 1], bs[|bs| - 1];
      AccumulatedIsLittleEndian(init);
      assert init + [b] == bs;
      ShiftInByte(init, b);
    }
  }

  /** ParseBinary with each byte shifted into its place in 64-bit
      arithmetic. */
  method ParseBinary(binStr: string) returns (value: nat)
    ensures value == BinaryValue(binStr)
  {
    value := 0;
    var numByte := 0;
    var i := 0;
    ghost var bytes: seq<byte> := [];
    while i < |binStr|
      invariant i <= |binStr|
      invariant numByte == |bytes|
      invariant bytes + Unescape(binStr[i..]) == Unescape(binStr)
      invariant value == Accumulated(bytes)
      decreases |binStr| - i
    {
      UnescapeAt(binStr, i);
      var b: byte;
      if binStr[i] == '}' {
        if i + 1 < |binStr| {
          b := Xor20(Octet(binStr[i + 1]));
          i := i + 2;
        } else {
          b := Xor20(0);
          i := |binStr|;
        }
      } else {
        b := Octet(binStr[i]);
        i := i + 1;
      }
      ConsumeByte(bytes, b, Unescape(binStr[i..]), Unescape(binStr));
      AccumulatedSnoc(bytes, b);
      value := (value + Shifted(b, numByte)) % U64;
      bytes := bytes + [b];
      numByte := numByte + 1;
    }
    assert binStr[|binStr|..] == [] && bytes + [] == bytes;
    AccumulatedIsLittleEndian(bytes);
  }

  /** One step of unescaping at position i. */
  lemma UnescapeAt(s: string, i: nat)
    requires i < |s|
    ensures s[i] == '}' && i + 1 < |s| ==> Unescape(s[i..]) == [Xor20(Octet(s[i + 1]))] + Unescape(s[i + 2..])
    ensures s[i] == '}' && i + 1 == |s| ==> Unescape(s[i..]) == [Xor20(0)] + Unescape(s[|s|..])
    ensures s[i] != '}' ==> Unescape(s[i..]) == [Octet(s[i])] + Unescape(s[i + 1..])
  {
    var rest := s[i..];
    if s[i] == '}' && i + 1 < |s| {
      assert rest[2..] == s[i + 2..];
    } else if s[i] != '}' {
      assert rest[1..] == s[i + 1..];
    }
  }

  lemma AccumulatedSnoc(bytes: seq<byte>, b: byte)
    ensures Accumulated(bytes + [b]) == (Accumulated(bytes) + Shifted(b, |bytes|)) % U64
  {
    assert (bytes + [b])[..|bytes|] == bytes;
  }

  lemma ConsumeByte(bytes: seq<byte>, b: byte, rest: seq<byte>, all: seq<byte>)
    requires bytes + ([b] + rest) == all
    ensures (bytes + [b]) + rest == all
  {
    assert bytes + ([b] + rest) == (bytes + [b]) + rest;
  }

  /** Adding the next byte at its place keeps the value the little-endian
      reading of the bytes so far, modulo m. */
  lemma ShiftInByte(bytes: seq<byte>, b: byte)
    ensures (LittleEndian(bytes) % U64 + Shifted(b, |bytes|)) % U64 == LittleEndian(bytes + [b]) % U64
  {
    LittleEndianSnoc(bytes, b);
    AddModEq(LittleEndian(bytes), Shifted(b, |bytes|), LittleEndian(bytes + [b]));
  }

  /** u64 addition wraps the same whether or not the first operand was
      already wrapped. */
  lemma AddModEq(x: nat, y: nat, z: nat)
    requires z == x + y
    ensures (x % U64 + y) % U64 == z % U64
  {
    AddMod(x, y, U64);
  }

  lemma AddMod(x: nat, y: nat, m: nat)
    requires m >= 1
    ensures (x % m + y) % m == (x + y) % m
  {
    var q := x / m;
    assert x == m * q + x % m;
    ModSubMultiple(x + y, m, q);
  }

  /** Bytes escaped for an X packet: '#', '$' and '}' become '}' and the
      byte XORed with 0x20. */
  function Escape(bs: seq<byte>): (e: string)
    ensures |bs| <= |e| <= 2 * |bs|
    ensures forall i :: 0 <= i < |e| ==> e[i] != '#' && e[i] != '$'
  {
    if |bs| == 0 then []
    else
      var c := bs[0] as char;
      (if c == '#' || c == '$' || c == '}' then ['}', Xor20(bs[0]) as char] else [c]) + Escape(bs[1..])
  }

  /** Unescaping undoes escaping. */
  lemma {:induction false} UnescapeEscape(bs: seq<byte>)
    ensures Unescape(Escape(bs)) == bs
    decreases |bs|
  {
    if |bs| > 0 {
      UnescapeEscape(bs[1..]);
      var b := bs[0];
      var c := b as char;
      var t := Escape(bs[1..]);
      if c == '#' || c == '$' || c == '}' {
        assert Escape(bs) == ['}', Xor20(b) as char] + t;
        UnescapePair(Xor20(b) as char, t);
        OctetOf(Xor20(b));
        Xor20Involution(b);
      } else {
        assert Escape(bs) == [c] + t;
        UnescapeCons(c, t);
        OctetOf(b);
      }
      assert Unescape(Escape(bs)) == [b] + bs[1..];
      assert bs == [b] + bs[1..];
    }
  }

  lemma OctetOf(b: byte)
    ensures Octet(b as char) == b
  {
  }

  lemma UnescapeCons(c: char, t: string)
    requires c != '}'
    ensures Unescape([c] + t) == [Octet(c)] + Unescape(t)
  {
    assert ([c] + t)[1..] == t;
  }

  lemma UnescapePair(d: char, t: string)
    ensures Unescape(['}', d] + t) == [Xor20(Octet(d))] + Unescape(t)
  {
    assert (['}', d] + t)[2..] == t;
  }

  /** ParseBinary reads back a value of up to eight bytes sent escaped and
      least significant byte first. */
  lemma BinaryRoundTrip(v: nat, n: nat)
    requires n <= 8
    ensures BinaryValue(Escape(BytesLE(v, n))) == v % Pow256(n)
  {
    UnescapeEscape(BytesLE(v, n));
    LittleEndianBytes(v, n);
    Pow256Below64(n);
    var x := v % Pow256(n);
    DivModUnique(x, U64, 0, x);
  }

  lemma Pow256Below64(n: nat)
    requires n <= 8
    ensures Pow256(n) <= U64
  {
    Pow256Mono(n, 8);
    assert Pow256(2) == 0x1_0000;
    assert Pow256(4) == 0x1_0000_0000;
    assert Pow256(6) == 0x1_0000_0000_0000;
  }

  lemma {:induction false} Pow256Mono(i: nat, j: nat)
    requires i <= j
    ensures Pow256(i) <= Pow256(j)
    decreases j
  {
    if i < j {
      Pow256Mono(i, j - 1);
    }
  }

  /** ParseBinary as written: each byte is shifted in `int`, so its term is
      the 32-bit two's-complement value of the byte shifted by 8 * numByte
      bits (the shift count taken modulo 32, as x86-64 does), and that int
      is then converted to u64 and added. */
  function ShiftTermAsWritten(b: byte, numByte: nat): (t: int)
  {
    var shifted := Shifted(b, numByte % 4) % 0x1_0000_0000;
    if shifted < 0x8000_0000 then shifted else shifted - 0x1_0000_0000
  }

  function BinaryValueAsWrittenFrom(bs: seq<byte>, numByte: nat): nat
    decreases |bs|
  {
    if |bs| == 0 then 0
    else (ShiftTermAsWritten(bs[0], numByte) + BinaryValueAsWrittenFrom(bs[1..], numByte + 1)) % U64
  }

  function BinaryValueAsWritten(s: string): nat
  {
    BinaryValueAsWrittenFrom(Unescape(s), 0)
  }

  lemma {:induction false} ShiftedZero(n: nat)
    ensures Shifted(0, n) == 0
  {
    if n > 0 {
      ShiftedZero(n - 1);
    }
  }

  /** A zero byte adds nothing to the value as written. */
  lemma ZeroByteAsWritten(t: seq<byte>, k: nat)
    ensures BinaryValueAsWrittenFrom([0] + t, k) == BinaryValueAsWrittenFrom(t, k + 1)
  {
    assert ([0] + t)[1..] == t;
    ShiftedZero(k % 4);
    var v := BinaryValueAsWrittenFrom(t, k + 1);
    DivModUnique(v, U64, 0, v);
  }

  /** Four bytes 00 00 00 80 should read as 0x80000000; as written the top
      byte overflows the int and sign-extends into 0xFFFFFFFF80000000. */
  lemma ParseBinarySignExtends()
    ensures BinaryValueAsWritten("\U{00}\U{00}\U{00}\U{80}") == 0xFFFF_FFFF_8000_0000
    ensures BinaryValue("\U{00}\U{00}\U{00}\U{80}") == 0x8000_0000
  {
    var bs: seq<byte> := [0, 0, 0, 0x80];
    UnescapePlain();
    TopByteAsWritten();
    ZeroByteAsWritten([0x80], 2);
    ZeroByteAsWritten([0, 0x80], 1);
    ZeroByteAsWritten([0, 0, 0x80], 0);
    IntendedValue(bs);
  }

  lemma UnescapePlain()
    ensures Unescape("\U{00}\U{00}\U{00}\U{80}") == [0, 0, 0, 0x80]
  {
    var s := "\U{00}\U{00}\U{00}\U{80}";
    assert s[1..] == "\U{00}\U{00}\U{80}";
    assert s[1..][1..] == "\U{00}\U{80}";
    assert s[1..][1..][1..] == "\U{80}";
    assert s[1..][1..][1..][1..] == [];
  }

  lemma TopByteAsWritten()
    ensures BinaryValueAsWrittenFrom([0x80], 3) == 0xFFFF_FFFF_8000_0000
  {
    assert Shifted(0x80, 1) == 0x8000;
    assert Shifted(0x80, 3) == 0x8000_0000;
    assert ShiftTermAsWritten(0x80, 3) == -0x8000_0000;
    assert [0x80][1..] == [];
  }

  lemma IntendedValue(bs: seq<byte>)
    requires bs == [0, 0, 0, 0x80]
    ensures LittleEndian(bs) % U64 == 0x8000_0000
  {
    assert bs[3..][1..] == [] && LittleEndian(bs[3..]) == 0x80;
    assert bs[2..][1..] == bs[3..] && LittleEndian(bs[2..]) == 0x8000;
    assert bs[1..][1..] == bs[2..] && LittleEndian(bs[1..]) == 0x80_0000;
    assert LittleEndian(bs) == 0x8000_0000;
  }

  // ---------------------------------------------------------------------
  // IsAddressOverlap
  // ---------------------------------------------------------------------

  /** A u64 sum: an int added to a u64 is converted to u64. */
  function AddU64(a: nat, b: int): nat
  {
    (a + b) % U64
  }

  /** IsAddressOverlap: the access starts inside the watch point or the
      watch point starts inside the access. */
  function IsAddressOverlap(addr: nat, size: int, watch: nat, len: int): bool
  {
    (addr <= watch && watch < AddU64(addr, size)) || (watch <= addr && addr < AddU64(watch, len))
  }

  /** Away from the top of the address space and for non-empty ranges, it
      is the intersection of the half-open intervals [addr, addr + size)
      and [watch, watch + len), and it is symmetric. */
  lemma OverlapIsIntersection(addr: nat, size: nat, watch: nat, len: nat)
    requires addr + size < U64 && watch + len < U64
    requires size >= 1 && len >= 1
    ensures IsAddressOverlap(addr, size, watch, len) <==> addr < watch + len && watch < addr + size
    ensures IsAddressOverlap(addr, size, watch, len) == IsAddressOverlap(watch, len, addr, size)
  {
    DivModUnique(addr + size, U64, 0, addr + size);
    DivModUnique(watch + len, U64, 0, watch + len);
  }

  // ---------------------------------------------------------------------
  // Framing: GetStartChar, GetStream, SendPacket
  // ---------------------------------------------------------------------

  /** GetStartChar: skip to the first '$'; false when the input runs out. */
  function StartChar(inp: string): (bool, string)
  {
    if |inp| == 0 then (false, [])
    else if inp[0] == '$' then (true, inp[1..])
    else StartChar(inp[1..])
  }

  /** The data before the first '#' and what follows the '#'. */
  function DataUntilHash(inp: string): Option<(string, string)>
  {
    if |inp| == 0 then None
    else if inp[0] == '#' then Some(([], inp[1..]))
    else match DataUntilHash(inp[1..])
      case None => None
      case Some((d, r)) => Some(([inp[0]] + d, r))
  }

  /** A packet body as GetStream reads it: data, the two checksum
      characters and the rest of the input. */
  function ReadPacket(inp: string): Option<(string, char, char, string)>
  {
    match DataUntilHash(inp)
    case None => None
    case Some((d, r)) => if |r| < 2 then None else Some((d, r[0], r[1], r[2..]))
  }

  /** What GetStream leaves in the stream buffer. */
  function Received(inp: string): string
  {
    match DataUntilHash(inp)
    case None => inp
    case Some((d, _)) => d
  }

  /** The frame SendPacket writes. */
  function Frame(p: string): string
  {
    "$" + p + "#" + Hex2(Checksum(p))
  }

  /** While waiting for an acknowledgement: the first '+' or '-' outside a
      "$...#" packet the host sends meanwhile, and the input after it. */
  function AckScan(inp: string, thru: bool): Option<(char, string)>
  {
    if |inp| == 0 then None
    else
      var c := inp[0];
      var thru' := if c == '$' then true else if c == '#' && thru then false else thru;
      if (c == '+' || c == '-') && !thru' then Some((c, inp[1..])) else AckScan(inp[1..], thru')
  }

  /** How a send ends: acknowledged or given up after `attempts` frames, or
      still waiting for an acknowledgement the host never sends. */
  datatype SendOutcome = Sent(attempts: nat, rest: string) | Blocked(attempts: nat)

  function SendFrom(inp: string, tries: nat): SendOutcome
    requires tries < 3
    decreases 3 - tries
  {
    match AckScan(inp, false)
    case None => Blocked(tries + 1)
    case Some((ack, rest)) =>
      if ack == '+' || tries + 1 == 3 then Sent(tries + 1, rest) else SendFrom(rest, tries + 1)
  }

  /** n copies of s. */
  function Repeat(s: string, n: nat): string
  {
    if n == 0 then [] else s + Repeat(s, n - 1)
  }

  /** The command part of a packet. */
  datatype Packet = Packet(letter: char, command: string, params: seq<string>)

  /** The stub's connection and packet buffers. */
  class Stub {
    var input: string
    var output: string
    var streamBuffer: string
    var packet: Packet

    constructor (incoming: string)
      ensures input == incoming && output == [] && streamBuffer == []
      ensures packet == Packet('\U{00}', [], [])
    {
      input := incoming;
      output := [];
      streamBuffer := [];
      packet := Packet('\U{00}', [], []);
    }

    /** GetStartChar: consume input up to and including the first '$'. */
    method GetStartChar() returns (found: bool)
      modifies this
      ensures (found, input) == StartChar(old(input))
      ensures output == old(output) && streamBuffer == old(streamBuffer) && packet == old(packet)
    {
      while |input| > 0
        invariant StartChar(input) == StartChar(old(input))
        invariant output == old(output) && streamBuffer == old(streamBuffer) && packet == old(packet)
      {
        var ch := input[0];
        input := input[1..];
        if ch == '$' {
          return true;
        }
      }
      return false;
    }

    /** GetStream: read the data up to '#' and the two checksum characters,
        then reply '+' when the checksum matches and '-' otherwise. An input
        that ends first fails (the source would wait on the socket). */
    method GetStream() returns (r: Result<bool>)
      modifies this
      ensures streamBuffer == Received(old(input)) && packet == old(packet)
      ensures ReadPacket(old(input)).None? ==> r.Fail? && input == [] && output == old(output)
      ensures ReadPacket(old(input)).Some? ==>
        var (d, c1, c2, rest) := ReadPacket(old(input)).value;
        var ok := Checksum(d) == ReadChecksum(c1, c2);
        r == Ok(ok) && input == rest && output == old(output) + [if ok then '+' else '-']
    {
      var buf, sum, rest := ReadData(input);
      streamBuffer := buf;
      if rest.None? || |rest.value| < 2 {
        input := [];
        return Fail("connection ended inside a packet");
      }
      var inp := rest.value;
      var checksum := ReadChecksum(inp[0], inp[1]);
      input := inp[2..];
      var ok := sum % 256 == checksum;
      output := output + [if ok then '+' else '-'];
      return Ok(ok);
    }

    /** The data loop of GetStream: read up to the '#', summing the octets;
        `rest` is what follows the '#', or None when the input ends first. */
    static method ReadData(inp0: string) returns (buf: string, sum: int, rest: Option<string>)
      ensures sum == ByteSum(buf) && buf == Received(inp0)
      ensures rest.None? <==> DataUntilHash(inp0).None?
      ensures rest.Some? ==> DataUntilHash(inp0) == Some((buf, rest.value))
    {
      var inp := inp0;
      buf := "";
      PrependEmpty(DataUntilHash(inp));
      sum := 0;
      while |inp| > 0
        invariant sum == ByteSum(buf)
        invariant DataUntilHash(inp0) == Prepend(buf, DataUntilHash(inp))
        invariant Received(inp0) == buf + Received(inp)
      {
        var ch := inp[0];
        if ch == '#' {
          assert buf + [] == buf;
          return buf, sum, Some(inp[1..]);
        }
        assert (buf + [ch])[..|buf|] == buf;
        var tail := inp[1..];
        DataStep(inp0, buf, inp);
        sum := sum + Octet(ch);
        buf := buf + [ch];
        inp := tail;
      }
      assert buf + [] == buf;
      return buf, sum, None;
    }

    /** SendPacket: write the frame, then wait for '+' or '-' outside any
        packet the host sends meanwhile; '+' or the third attempt ends it. */
    method SendPacket(p: string) returns (r: Result<nat>)
      modifies this
      ensures streamBuffer == old(streamBuffer) && packet == old(packet)
      ensures SendFrom(old(input), 0).Sent? ==>
        r == Ok(SendFrom(old(input), 0).attempts) && input == SendFrom(old(input), 0).rest
      ensures SendFrom(old(input), 0).Blocked? ==> r.Fail? && input == []
      ensures output == old(output) + Repeat(Frame(p), SendFrom(old(input), 0).attempts)
    {
      var sent, rest;
      r, sent, rest := Transmit(input, Frame(p));
      input := rest;
      output := output + sent;
    }

    /** The retry loop of SendPacket: the frames written, the outcome and
        the input left over. */
    static method Transmit(inp: string, frame: string) returns (r: Result<nat>, sent: string, rest: string)
      ensures sent == Repeat(frame, SendFrom(inp, 0).attempts)
      ensures SendFrom(inp, 0).Sent? ==> r == Ok(SendFrom(inp, 0).attempts) && rest == SendFrom(inp, 0).rest
      ensures SendFrom(inp, 0).Blocked? ==> r.Fail? && rest == []
    {
      ghost var outcome := SendFrom(inp, 0);
      rest := inp;
      sent := [];
      var i := 0;
      while i < 3
        invariant 0 <= i < 3 && SendFrom(rest, i) == outcome
        invariant sent == Repeat(frame, i)
        decreases 3 - i
      {
        RepeatSnoc(frame, i);
        sent := sent + frame;
        var ack, after := WaitAck(rest);
        if ack == '\U{00}' {
          assert outcome == Blocked(i + 1);
          return Fail("connection ended before an acknowledgement"), sent, [];
        }
        rest := after;
        if ack == '+' || i == 2 {
          assert outcome == Sent(i + 1, rest);
          return Ok(i + 1), sent, rest;
        }
        assert outcome == SendFrom(rest, i + 1);
        i := i + 1;
      }
    }

    /** The acknowledgement loop of SendPacket; NUL stands for an input that
        runs out first. */
    static method WaitAck(inp: string) returns (ack: char, rest: string)
      ensures AckScan(inp, false).None? ==> ack == '\U{00}'
      ensures AckScan(inp, false).Some? ==> (ack, rest) == AckScan(inp, false).value && ack != '\U{00}'
    {
      var thru := false;
      rest := inp;
      while |rest| > 0
        invariant AckScan(rest, thru) == AckScan(inp, false)
      {
        var ch := rest[0];
        rest := rest[1..];
        if ch == '$' {
          thru := true;
        }
        if ch == '#' && thru {
          thru := false;
        }
        if (ch == '+' || ch == '-') && !thru {
          return ch, rest;
        }
      }
      return '\U{00}', rest;
    }

    /** ParsePacket: clear the packet, then split the stream buffer into
        letter, command and parameters. The letter is stored before the
        parameters are read, so a failure leaves the cleared packet, with the
        letter when there is one. */
    method ParsePacket() returns (r: Result<()>)
      modifies this
      ensures input == old(input) && output == old(output) && streamBuffer == old(streamBuffer)
      ensures r.Ok? <==> Parse(streamBuffer).Ok?
      ensures r.Ok? ==> packet == Parse(streamBuffer).value
      ensures r.Fail? ==> packet == Packet(if |streamBuffer| == 0 then '\U{00}' else streamBuffer[0], [], [])
    {
      packet := Packet('\U{00}', [], []);
      var buf := streamBuffer;
      if |buf| == 0 {
        return Fail("out_of_range");
      }
      var letter := buf[0];
      packet := packet.(letter := letter);
      var command: string := [];
      var params: seq<string> := [];
      if letter == 'q' {
        var pos := Find(buf, ':', 0);
        command := CommandBefore(buf, pos);
        params := SplitParams(buf, pos, ';');
      } else if letter == 'H' {
        if |buf| < 2 {
          return Fail("out_of_range");
        }
        command := [buf[1]];
        params := [buf[2..]];
      } else if letter == 'G' || letter == 'p' {
        command := buf[1..];
      } else if letter == 'P' || letter == 'm' {
        var pos := Find(buf, if letter == 'P' then '=' else ',', 0);
        command := CommandBefore(buf, pos);
        params := [if pos.Some? then buf[pos.value + 1..] else buf];
      } else if letter == 'X' || letter == 'M' {
        var pos := Find(buf, ',', 0);
        command := CommandBefore(buf, pos);
        params := SplitParams(buf, pos, ':');
      } else if letter == 'v' {
        var pos := Find(buf, ';', 0);
        command := CommandBefore(buf, pos);
        params := SplitParams(buf, pos, ';');
      } else if letter == 'Z' || letter == 'z' {
        var pos := Find(buf, ',', 0);
        command := CommandBefore(buf, pos);
        params := SplitParams(buf, pos, ',');
      }
      packet := Packet(letter, command, params);
      return Ok(());
    }
  }

  function Prepend(b: string, x: Option<(string, string)>): Option<(string, string)>
  {
    match x
    case None => None
    case Some((d, r)) => Some((b + d, r))
  }

  /** One step of GetStream's data loop past a character that is not '#'. */
  lemma DataStep(inp0: string, buf: string, inp: string)
    requires |inp| > 0 && inp[0] != '#'
    requires DataUntilHash(inp0) == Prepend(buf, DataUntilHash(inp))
    requires Received(inp0) == buf + Received(inp)
    ensures DataUntilHash(inp0) == Prepend(buf + [inp[0]], DataUntilHash(inp[1..]))
    ensures Received(inp0) == buf + [inp[0]] + Received(inp[1..])
  {
    var tail := inp[1..];
    assert DataUntilHash(inp) == Prepend([inp[0]], DataUntilHash(tail));
    assert Received(inp) == [inp[0]] + Received(tail);
    PrependPrepend(buf, [inp[0]], DataUntilHash(tail));
  }

  lemma PrependEmpty(x: Option<(string, string)>)
    ensures Prepend([], x) == x
  {
    if x.Some? {
      assert [] + x.value.0 == x.value.0;
    }
  }

  lemma PrependPrepend(a: string, b: string, x: Option<(string, string)>)
    ensures Prepend(a, Prepend(b, x)) == Prepend(a + b, x)
  {
    if x.Some? {
      assert a + (b + x.value.0) == (a + b) + x.value.0;
    }
  }

  lemma {:induction false} RepeatSnoc(s: string, n: nat)
    ensures Repeat(s, n) + s == Repeat(s, n + 1)
  {
    if n > 0 {
      RepeatSnoc(s, n - 1);
    }
  }

  // ---------------------------------------------------------------------
  // ParsePacket
  // ---------------------------------------------------------------------

  /** string::find from `from`: the first index at or after it holding c. */
  function Find(s: string, c: char, from: nat): (r: Option<nat>)
    ensures r.Some? ==> from <= r.value < |s|
    decreases |s| - from
  {
    if from >= |s| then None else if s[from] == c then Some(from) else Find(s, c, from + 1)
  }

  /** Find gives the first occurrence, and None only when there is none. */
  lemma {:induction false} FindFirst(s: string, c: char, from: nat)
    ensures Find(s, c, from).Some? ==> s[Find(s, c, from).value] == c
    ensures Find(s, c, from).Some? ==> forall k :: from <= k < Find(s, c, from).value ==> s[k] != c
    ensures Find(s, c, from).None? ==> forall k :: from <= k < |s| ==> s[k] != c
    decreases |s| - from
  {
    if from < |s| && s[from] != c {
      FindFirst(s, c, from + 1);
    }
  }

  /** substr(1, pos - 1): the text after the letter up to the separator,
      or all of it when there is none (npos - 1 is still past the end). */
  function CommandBefore(buf: string, pos: Option<nat>): string
    requires |buf| >= 1 && (pos.Some? ==> pos.value < |buf|)
  {
    if pos.Some? && pos.value >= 1 then buf[1..pos.value] else buf[1..]
  }

  /** The parameter after the separator at pos: up to the next separator
      or the end. */
  function Piece(buf: string, pos: nat, next: Option<nat>): string
    requires pos < |buf| && (next.Some? ==> pos < next.value <= |buf|)
  {
    if next.Some? then buf[pos + 1..next.value] else buf[pos + 1..]
  }

  /** The parameters after the separator at pos, each running up to the next
      sep or the end. */
  function Pieces(buf: string, pos: nat, sep: char): seq<string>
    requires pos < |buf|
    decreases |buf| - pos
  {
    var next := Find(buf, sep, pos + 1);
    [Piece(buf, pos, next)] + (if next.Some? then Pieces(buf, next.value, sep) else [])
  }

  function Params(buf: string, pos: Option<nat>, sep: char): seq<string>
    requires pos.Some? ==> pos.value < |buf|
  {
    if pos.None? then [] else Pieces(buf, pos.value, sep)
  }

  /** The parameter loop of ParsePacket. */
  method SplitParams(buf: string, first: Option<nat>, sep: char) returns (params: seq<string>)
    requires first.Some? ==> first.value < |buf|
    ensures params == Params(buf, first, sep)
  {
    var pos := first;
    params := [];
    ghost var all := Params(buf, first, sep);
    ghost var todo := all;
    ConcatEmpty(all);
    while pos.Some?
      invariant params + todo == all
      invariant pos.Some? ==> pos.value < |buf| && todo == Pieces(buf, pos.value, sep)
      invariant pos.None? ==> todo == []
      decreases if pos.Some? then |buf| + 1 - pos.value else 0
    {
      var next := Find(buf, sep, pos.value + 1);
      var piece := Piece(buf, pos.value, next);
      ghost var later := if next.Some? then Pieces(buf, next.value, sep) else [];
      assert todo == [piece] + later;
      ConcatAssoc(params, piece, later);
      params := params + [piece];
      todo := later;
      pos := next;
    }
    ConcatEmpty(params);
  }

  lemma ConcatAssoc(ps: seq<string>, p: string, qs: seq<string>)
    ensures ps + ([p] + qs) == (ps + [p]) + qs
  {
  }

  lemma ConcatEmpty(ps: seq<string>)
    ensures ps + [] == ps && [] + ps == ps
  {
  }

  /** A packet whose command runs from after the letter to the first
      `first` and whose parameters follow it, split at each `sep`. */
  function Split(buf: string, first: char, sep: char): Packet
    requires |buf| >= 1
  {
    var pos := Find(buf, first, 0);
    Packet(buf[0], CommandBefore(buf, pos), Params(buf, pos, sep))
  }

  /** The packet ParsePacket builds from a stream buffer; an empty buffer,
      or an 'H' packet with no command letter, raises out_of_range. */
  function Parse(buf: string): Result<Packet>
  {
    if |buf| == 0 then Fail("out_of_range")
    else
      var letter := buf[0];
      if letter == 'q' then Ok(Split(buf, ':', ';'))
      else if letter == 'H' then
        if |buf| < 2 then Fail("out_of_range") else Ok(Packet(letter, [buf[1]], [buf[2..]]))
      else if letter == 'G' || letter == 'p' then
        Ok(Packet(letter, buf[1..], []))
      else if letter == 'P' || letter == 'm' then
        var pos := Find(buf, if letter == 'P' then '=' else ',', 0);
        Ok(Packet(letter, CommandBefore(buf, pos), [if pos.Some? then buf[pos.value + 1..] else buf]))
      else if letter == 'X' || letter == 'M' then Ok(Split(buf, ',', ':'))
      else if letter == 'v' then Ok(Split(buf, ';', ';'))
      else if letter == 'Z' || letter == 'z' then Ok(Split(buf, ',', ','))
      else Ok(Packet(letter, [], []))
  }

  /** Pieces joined with their separator. */
  function Join(ps: seq<string>, sep: char): string
  {
    if |ps| == 0 then [] else if |ps| == 1 then ps[0] else ps[0] + [sep] + Join(ps[1..], sep)
  }

  /** Joined with their separator, the parameters after a separator give
      back the rest of the buffer. */
  lemma {:induction false} PiecesJoin(buf: string, pos: nat, sep: char)
    requires pos < |buf|
    ensures Join(Pieces(buf, pos, sep), sep) == buf[pos + 1..]
    decreases |buf| - pos
  {
    var ps := Pieces(buf, pos, sep);
    FindFirst(buf, sep, pos + 1);
    match Find(buf, sep, pos + 1)
    case None =>
      assert ps == [buf[pos + 1..]];
    case Some(next) =>
      PiecesJoin(buf, next, sep);
      var rest := Pieces(buf, next, sep);
      assert ps == [buf[pos + 1..next]] + rest;
      JoinCons(buf[pos + 1..next], rest, sep);
      SliceAround(buf, pos + 1, next);
  }

  lemma JoinCons(p: string, rest: seq<string>, sep: char)
    requires |rest| >= 1
    ensures Join([p] + rest, sep) == p + [sep] + Join(rest, sep)
  {
    assert ([p] + rest)[1..] == rest;
  }

  /** A buffer cut around position j. */
  lemma SliceAround(buf: string, i: nat, j: nat)
    requires i <= j < |buf|
    ensures buf[i..] == buf[i..j] + [buf[j]] + buf[j + 1..]
  {
  }

  /** The parameters after a separator hold no separator. */
  lemma {:induction false} PiecesFree(buf: string, pos: nat, sep: char)
    requires pos < |buf|
    ensures forall k :: 0 <= k < |Pieces(buf, pos, sep)| ==> sep !in Pieces(buf, pos, sep)[k]
    decreases |buf| - pos
  {
    var ps := Pieces(buf, pos, sep);
    FindFirst(buf, sep, pos + 1);
    var next := Find(buf, sep, pos + 1);
    assert sep !in ps[0];
    if next.Some? {
      PiecesFree(buf, next.value, sep);
      assert ps[1..] == Pieces(buf, next.value, sep);
    }
  }

  /** A memory read "m" addr "," length splits into the address as the
      command and the length as the one parameter. */
  lemma MemoryReadPacket(addr: string, len: string)
    requires ',' !in addr
    ensures Parse("m" + addr + "," + len) == Ok(Packet('m', addr, [len]))
  {
    var buf := "m" + addr + "," + len;
    var pos := Find(buf, ',', 0);
    assert buf[|addr| + 1] == ',';
    FindFirst(buf, ',', 0);
    assert forall k :: 1 <= k <= |addr| ==> buf[k] == addr[k - 1];
    assert pos.Some? && pos.value == |addr| + 1;
    assert buf[1..|addr| + 1] == addr;
    assert buf[|addr| + 2..] == len;
  }

  /** Split at a separator that occurs: the command never holds the first
      separator, no parameter holds the parameter separator, and put back
      together they give the buffer. */
  lemma SplitRoundTrip(buf: string, first: char, sep: char)
    requires |buf| >= 1 && buf[0] != first && first in buf
    ensures var p := Split(buf, first, sep);
      first !in p.command &&
      buf == [buf[0]] + p.command + [first] + Join(p.params, sep) &&
      forall k :: 0 <= k < |p.params| ==> sep !in p.params[k]
  {
    var pos := Find(buf, first, 0);
    FindFirst(buf, first, 0);
    var i := pos.value;
    PiecesJoin(buf, i, sep);
    PiecesFree(buf, i, sep);
    assert buf == [buf[0]] + buf[1..i] + [first] + buf[i + 1..];
  }

  /** A packet with a separator splits into command and parameters that
      put back together give the buffer: for 'q' "name:p1;p2;...", for
      'v' "name;a1;a2", for 'Z'/'z' "type,addr,kind" and for 'X'/'M'
      "addr,len:data". The command never holds the first separator and no
      parameter holds the parameter separator. */
  lemma ParseRoundTrip(buf: string, first: char, sep: char)
    requires |buf| >= 1
    requires (buf[0] == 'q' && first == ':' && sep == ';') || (buf[0] == 'v' && first == ';' && sep == ';')
          || ((buf[0] == 'Z' || buf[0] == 'z') && first == ',' && sep == ',')
          || ((buf[0] == 'X' || buf[0] == 'M') && first == ',' && sep == ':')
    requires first in buf
    ensures Parse(buf).Ok?
    ensures var p := Parse(buf).value;
      p.letter == buf[0] && first !in p.command &&
      buf == [buf[0]] + p.command + [first] + Join(p.params, sep) &&
      forall k :: 0 <= k < |p.params| ==> sep !in p.params[k]
  {
    assert Parse(buf) == Ok(Split(buf, first, sep));
    SplitRoundTrip(buf, first, sep);
  }

  /** SendPacket tries at most three times: a send that completes wrote
      one to three frames, stopped early only on '+', and an immediate '+'
      means exactly one frame. */
  lemma SendAttempts(inp: string)
    ensures 1 <= SendFrom(inp, 0).attempts <= 3
    ensures AckScan(inp, false).Some? && AckScan(inp, false).value.0 == '+' ==> SendFrom(inp, 0) == Sent(1, AckScan(inp, false).value.1)
  {
    SendBounds(inp, 0);
  }

  lemma {:induction false} SendBounds(inp: string, tries: nat)
    requires tries < 3
    ensures tries + 1 <= SendFrom(inp, tries).attempts <= 3
    decreases 3 - tries
  {
    match AckScan(inp, false)
    case None =>
    case Some((ack, rest)) =>
      if !(ack == '+' || tries + 1 == 3) {
        SendBounds(rest, tries + 1);
      }
  }

  lemma {:induction false} DataUntilHashOf(p: string, tail: string)
    requires '#' !in p
    ensures DataUntilHash(p + tail) == Prepend(p, DataUntilHash(tail))
    decreases |p|
  {
    if |p| == 0 {
      assert p + tail == tail;
      assert Prepend([], DataUntilHash(tail)) == DataUntilHash(tail) by {
        if DataUntilHash(tail).Some? {
          assert [] + DataUntilHash(tail).value.0 == DataUntilHash(tail).value.0;
        }
      }
    } else {
      assert (p + tail)[1..] == p[1..] + tail;
      DataUntilHashOf(p[1..], tail);
      PrependPrepend([p[0]], p[1..], DataUntilHash(tail));
      assert [p[0]] + p[1..] == p;
    }
  }

  /** What SendPacket writes, the stub's own GetStartChar and GetStream
      read back and acknowledge with '+': a data string without '#' is
      framed as "$", the data, "#" and two hex digits of its checksum. */
  lemma FrameAccepted(p: string, rest: string)
    requires '#' !in p
    ensures StartChar(Frame(p) + rest) == (true, p + "#" + Hex2(Checksum(p)) + rest)
    ensures ReadPacket(p + "#" + Hex2(Checksum(p)) + rest) == Some((p, Hex2(Checksum(p))[0], Hex2(Checksum(p))[1], rest))
    ensures ReadChecksum(Hex2(Checksum(p))[0], Hex2(Checksum(p))[1]) == Checksum(p)
  {
    var h := Hex2(Checksum(p));
    assert (Frame(p) + rest)[1..] == p + "#" + h + rest;
    var tail := "#" + h + rest;
    assert p + "#" + h + rest == p + tail;
    DataUntilHashOf(p, tail);
    assert tail[1..] == h + rest;
    assert DataUntilHash(tail) == Some(([], h + rest));
    assert (h + rest)[2..] == rest;
    assert p + [] == p;
    ReadHex2(Checksum(p));
  }

  /** GetStream replies '+' exactly when the byte sum modulo 256 equals the
      two hex digits after '#'. */
  lemma GetStreamChecksum(d: string, hi: nat, lo: nat, rest: string)
    requires '#' !in d && hi < 16 && lo < 16
    ensures ReadPacket(d + "#" + [HexDigit(hi), HexDigit(lo)] + rest)
            == Some((d, HexDigit(hi), HexDigit(lo), rest))
    ensures Checksum(d) == ReadChecksum(HexDigit(hi), HexDigit(lo)) <==> ByteSum(d) % 256 == 16 * hi + lo
  {
    var h := [HexDigit(hi), HexDigit(lo)];
    var tail := "#" + h + rest;
    assert d + "#" + h + rest == d + tail;
    DataUntilHashOf(d, tail);
    assert tail[1..] == h + rest;
    assert (h + rest)[2..] == rest;
    assert d + [] == d;
    HexDigitValue(hi);
    HexDigitValue(lo);
  }
}
