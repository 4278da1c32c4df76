/**
 * The media-bus formats the bridge accepts on its parallel input
 * (tc358746_formats) and the lookups over that constant table.
 */
module Formats {
  import opened U32

  /** Peripheral data format written to DATAFMT. */
  datatype PdFormat = YCbCr422_8Bit | YCbCr422_10Bit | YCbCr444

  /** Parallel data format option written to CONFCTL. */
  datatype PDataF = Mode0 | Mode1 | Mode2

  /** struct tc358746_mbus_fmt. */
  datatype MbusFmt = MbusFmt(
    code: u32,
    busWidth: u8,      // parallel bus width in bits
    bpp: u8,           // bits per pixel
    pdformat: PdFormat,
    pdataf: PDataF,
    ppp: u8,           // pixel clocks per pixel
    csitxOnly: bool)   // the format is only supported in CSI-TX mode

  // Media-bus codes of the Linux media-bus-format interface.
  const MEDIA_BUS_FMT_GBR888_1X24: u32 := 0x1014
  const MEDIA_BUS_FMT_UYVY8_2X8: u32 := 0x2006
  const MEDIA_BUS_FMT_UYVY8_1X16: u32 := 0x200f
  const MEDIA_BUS_FMT_YUYV8_1X16: u32 := 0x2011
  const MEDIA_BUS_FMT_UYVY10_2X10: u32 := 0x2018

  const Table: seq<MbusFmt> := [
    MbusFmt(MEDIA_BUS_FMT_UYVY8_2X8, 8, 16, YCbCr422_8Bit, Mode0, 2, false),
    MbusFmt(MEDIA_BUS_FMT_UYVY8_1X16, 16, 16, YCbCr422_8Bit, Mode1, 1, false),
    MbusFmt(MEDIA_BUS_FMT_YUYV8_1X16, 16, 16, YCbCr422_8Bit, Mode2, 1, false),
    MbusFmt(MEDIA_BUS_FMT_UYVY10_2X10, 10, 20, YCbCr422_10Bit, Mode0, 2, false),
    MbusFmt(MEDIA_BUS_FMT_GBR888_1X24, 24, 24, YCbCr444, Mode0, 2, true)
  ]

  /** `code` is the code of some table entry. */
  predicate InTable(code: u32) {
    exists j :: 0 <= j < |Table| && Table[j].code == code
  }

  /** Every entry can be used by the FIFO search: non-zero bus width, pixel
      size and pixel-clock count, and a pixel that fits in its pixel clocks. */
  lemma TableEntriesUsable()
    ensures forall j :: 0 <= j < |Table| ==>
      Table[j].busWidth > 0 && Table[j].ppp > 0 && Table[j].bpp > 0
      && Table[j].bpp <= Table[j].busWidth * Table[j].ppp
  {
  }

  /** No code appears twice, so a lookup by code is unambiguous. */
  lemma CodesDistinct()
    ensures forall i, j :: 0 <= i < j < |Table| ==> Table[i].code != Table[j].code
  {
  }

  /** The scan from index `i` upwards: the first index at or after `i` carrying `code`. */
  function FindFrom(code: u32, i: nat): (r: Option<nat>)
    requires i <= |Table|
    ensures r.Some? ==> i <= r.value < |Table| && Table[r.value].code == code
    ensures r.Some? ==> forall j :: i <= j < r.value ==> Table[j].code != code
    ensures r.None? ==> forall j :: i <= j < |Table| ==> Table[j].code != code
    decreases |Table| - i
  {
    if i == |Table| then None
    else if Table[i].code == code then Some(i)
    else FindFrom(code, i + 1)
  }

  /** tc358746_get_format: the first entry with `code`, or NULL. */
  function GetFormat(code: u32): (r: Option<MbusFmt>)
    ensures r.Some? <==> InTable(code)
    ensures r.Some? ==> r.value.code == code && r.value in Table
  {
    match FindFrom(code, 0)
    case None => None
    case Some(j) => Some(Table[j])
  }

  /** tc358746_format_supported: 0 when `code` is in the table, -EINVAL otherwise. */
  function FormatSupported(code: u32): (r: int)
    ensures r == 0 <==> InTable(code)
    ensures r == 0 || r == -EINVAL
  {
    if FindFrom(code, 0).Some? then 0 else -EINVAL
  }

  /** The two lookups agree. */
  lemma SupportedIffFound(code: u32)
    ensures FormatSupported(code) == 0 <==> GetFormat(code).Some?
  {
  }

  /** tc358746_enum_mbus_code: the code at position `index`, or -EINVAL past the end. */
  function EnumMbusCode(index: u32): (r: Result<u32>)
    ensures r.Ok? <==> index < |Table|
    ensures r.Ok? ==> r.value == Table[index].code
    ensures r.Err? ==> r.errno == -EINVAL
  {
    if index >= |Table| then Err(-EINVAL) else Ok(Table[index].code)
  }

  /** Enumeration and lookup are inverse: the format found for the code at
      position `index` is the entry at that position, and every supported
      code is enumerated at some position. */
  lemma EnumThenGetFormat(index: u32)
    requires index < |Table|
    ensures GetFormat(EnumMbusCode(index).value) == Some(Table[index])
  {
    CodesDistinct();
  }

  lemma SupportedCodesEnumerated(code: u32)
    requires FormatSupported(code) == 0
    ensures exists index: u32 :: EnumMbusCode(index) == Ok(code)
  {
    var j := FindFrom(code, 0).value;
    assert EnumMbusCode(j) == Ok(code);
  }

  /** The WORDCNT value of tc358746_set_buffers: bytes per line,
      (width * bpp) / 8 in unsigned int. */
  function BytesPerLine(width: u32, fmt: MbusFmt): u32 {
    Div(Mul(width, fmt.bpp), 8)
  }

  /** Without wrap the word count is the line length in bits rounded down to
      whole bytes, and it is exact for every table format whose pixel is a
      whole number of bytes. */
  lemma BytesPerLineRoundsDown(width: u32, fmt: MbusFmt)
    requires width * fmt.bpp < TWO_32
    ensures 8 * BytesPerLine(width, fmt) <= width * fmt.bpp < 8 * BytesPerLine(width, fmt) + 8
    ensures fmt.bpp % 8 == 0 ==> BytesPerLine(width, fmt) == width * (fmt.bpp / 8)
  {
    MulExact(width, fmt.bpp);
    if fmt.bpp % 8 == 0 {
      var k := fmt.bpp / 8;
      assert width * fmt.bpp == (width * k) * 8;
    }
  }
}
