/**
 * The byte layout of register accesses over I2C.
 *
 * A register value travels as a 16-bit register address (high byte first)
 * followed by 1, 2 or 4 payload bytes.  The driver keeps a value as its
 * little-endian bytes in memory and swaps the two bytes of each 16-bit half
 * on the way out and on the way back, so each half travels big-endian, low
 * half first.  The transfer itself is not modelled: the transmit buffer
 * and the received bytes are parameters.
 */
module RegLayout {
  import opened U32

  /** Largest I2C message: 512 payload bytes and the 2-byte address. */
  const I2C_MAX_XFER_SIZE: int := 514

  /** The access widths the payload layout supports. */
  predicate Width(n: int) {
    n == 1 || n == 2 || n == 4
  }

  /** The payload permutation of i2c_wr and i2c_rd: each byte changes place
      with its partner in the same 16-bit half; a single byte stays. */
  function SwapHalves(v: seq<u8>): (r: seq<u8>)
    requires Width(|v|)
    ensures |r| == |v|
    ensures |v| == 1 ==> r == v
    ensures |v| >= 2 ==> forall i :: 0 <= i < |v| ==> r[i] == v[if i % 2 == 0 then i + 1 else i - 1]
  {
    if |v| == 1 then v
    else if |v| == 2 then [v[1], v[0]]
    else [v[1], v[0], v[3], v[2]]
  }

  /** Swapping twice restores the bytes. */
  lemma {:induction false} SwapHalvesInvolution(v: seq<u8>)
    requires Width(|v|)
    ensures SwapHalves(SwapHalves(v)) == v
  {
    var w := SwapHalves(SwapHalves(v));
    forall i | 0 <= i < |v|
      ensures w[i] == v[i]
    {
      if |v| >= 2 {
        var j := if i % 2 == 0 then i + 1 else i - 1;
        assert (if j % 2 == 0 then j + 1 else j - 1) == i;
      }
    }
  }

  /**
   * The buffer-filling part of i2c_wr.  `data` is the on-stack transmit
   * buffer, whose other bytes keep whatever they held.  A length that
   * does not fit is cut to 512 bytes, after which no payload byte is
   * written, and the message length is the 16-bit truncation of 2 + n.
   */
  method I2cWrBuffer(reg: u16, values: seq<u8>, n: u32, data: array<u8>) returns (len: u16)
    requires data.Length == I2C_MAX_XFER_SIZE
    requires Width(n) ==> n <= |values|
    modifies data
    ensures var m := if Add(2, n) > I2C_MAX_XFER_SIZE then I2C_MAX_XFER_SIZE - 2 else n;
      && len == Add(2, m) % TWO_16
      && data[0] == reg / 256 && data[1] == reg % 256
      && (Width(m) ==> data[2..2 + m] == SwapHalves(values[..m]))
      && (forall k :: (if Width(m) then 2 + m else 2) <= k < data.Length ==> data[k] == old(data[k]))
  {
    var m := n;
    if Add(2, m) > I2C_MAX_XFER_SIZE {
      m := I2C_MAX_XFER_SIZE - 2;
    }
    len := Add(2, m) % TWO_16;
    data[0] := reg / 256;
    data[1] := reg % 256;
    if m == 1 {
      data[2] := values[0];
    } else if m == 2 {
      data[2] := values[1];
      data[3] := values[0];
    } else if m == 4 {
      data[2] := values[1];
      data[3] := values[0];
      data[4] := values[3];
      data[5] := values[2];
    }
  }

  /**
   * The copying part of i2c_rd: `data` holds the received bytes, and the
   * first n bytes of `values` receive them with each 16-bit half swapped.
   * Any other length leaves `values` as it was.
   */
  method I2cRdValues(data: seq<u8>, n: u32, values: array<u8>)
    requires |data| == I2C_MAX_XFER_SIZE
    requires Width(n) ==> n <= values.Length
    modifies values
    ensures Width(n) ==> values[..n] == SwapHalves(data[..n])
    ensures forall k :: (if Width(n) then n else 0) <= k < values.Length ==> values[k] == old(values[k])
  {
    if n == 1 {
      values[0] := data[0];
    } else if n == 2 {
      values[0] := data[1];
      values[1] := data[0];
    } else if n == 4 {
      values[0] := data[1];
      values[1] := data[0];
      values[2] := data[3];
      values[3] := data[2];
    }
  }

  // ---------------------------------------------------------------------
  // Register values: i2c_wrreg and i2c_rdreg put a u32 through its
  // little-endian bytes.
  // ---------------------------------------------------------------------

  /** The in-memory bytes of cpu_to_le32(val). */
  function LeBytes(val: u32): (r: seq<u8>)
    ensures |r| == 4
    ensures r[0] as int + 0x100 * (r[1] as int) + 0x1_0000 * (r[2] as int) + 0x100_0000 * (r[3] as int) == val
  {
    var b0, q0 := val % 0x100, val / 0x100;
    var b1, q1 := q0 % 0x100, q0 / 0x100;
    var b2, b3 := q1 % 0x100, q1 / 0x100;
    assert val == b0 + 0x100 * q0;
    assert q0 == b1 + 0x100 * q1;
    [b0, b1, b2, b3]
  }

  /** le32_to_cpu of four bytes in memory. */
  function FromLe(b: seq<u8>): u32
    requires |b| == 4
  {
    b[0] as int + 0x100 * (b[1] as int) + 0x1_0000 * (b[2] as int) + 0x100_0000 * (b[3] as int)
  }

  /** Reading the bytes of a value gives the value back, and a value below
      2^(8k) has zero bytes from position k on. */
  lemma LeBytesInverse(val: u32)
    ensures FromLe(LeBytes(val)) == val
    ensures val < 0x100 ==> LeBytes(val)[1] == 0 && LeBytes(val)[2] == 0 && LeBytes(val)[3] == 0
    ensures val < 0x1_0000 ==> LeBytes(val)[2] == 0 && LeBytes(val)[3] == 0
  {
  }

  /** The payload i2c_wrreg sends for `val` with an n-byte access. */
  function WrRegWire(val: u32, n: int): (r: seq<u8>)
    requires Width(n)
    ensures |r| == n
  {
    SwapHalves(LeBytes(val)[..n])
  }

  /** The value i2c_rdreg returns for an n-byte access whose payload bytes
      arrived as `wire`; bytes beyond n stay zero.  Each received 16-bit half
      is big-endian, the low half first. */
  function RdRegValue(wire: seq<u8>, n: int): (r: u32)
    requires Width(n) && n <= |wire|
    ensures n == 1 ==> r == wire[0]
    ensures n == 2 ==> r == 0x100 * (wire[0] as int) + wire[1] as int
    ensures n == 4 ==> r == 0x100 * (wire[0] as int) + wire[1] as int
                         + 0x1_0000 * (0x100 * (wire[2] as int) + wire[3] as int)
  {
    FromLe(SwapHalves(wire[..n]) + seq(4 - n, _ => 0))
  }

  /** Each 16-bit half of the value travels high byte first, the low half
      before the high half. */
  lemma {:induction false} WrRegWireOrder(val: u32)
    ensures val < 0x1_0000 ==> WrRegWire(val, 2) == [val / 0x100, val % 0x100]
    ensures WrRegWire(val, 4) ==
      [(val / 0x100) % 0x100, val % 0x100, val / 0x100_0000, (val / 0x1_0000) % 0x100]
  {
    var b := LeBytes(val);
    assert b[0] == val % 0x100;
    assert b[1] == (val / 0x100) % 0x100;
    assert b[3] == val / 0x100_0000 by {
      assert (val / 0x100) / 0x100 == val / 0x1_0000;
      assert (val / 0x1_0000) / 0x100 == val / 0x100_0000;
    }
    assert b[2] == (val / 0x1_0000) % 0x100 by {
      assert (val / 0x100) / 0x100 == val / 0x1_0000;
    }
  }

  /** A value that fits the access width reads back as written. */
  lemma {:induction false} ReadBackWritten(val: u32, n: int)
    requires Width(n)
    requires n == 1 ==> val < 0x100
    requires n == 2 ==> val < 0x1_0000
    ensures RdRegValue(WrRegWire(val, n), n) == val
  {
    var b := LeBytes(val);
    SwapHalvesInvolution(b[..n]);
    LeBytesInverse(val);
    assert WrRegWire(val, n)[..n] == WrRegWire(val, n);
    assert b[..n] + seq(4 - n, _ => 0) == b;
  }

  /** tc358746_get_reg_size: the 16-bit registers below 0x100, the 32-bit
      registers from 0x100 to 0x5ff, and byte access above. */
  function RegSize(address: u16): (r: int)
    ensures Width(r)
    ensures r == 2 <==> address <= 0x00ff
    ensures r == 4 <==> 0x0100 <= address <= 0x05ff
    ensures r == 1 <==> address > 0x05ff
  {
    if address <= 0x00ff then 2
    else if 0x0100 <= address <= 0x05ff then 4
    else 1
  }
}
