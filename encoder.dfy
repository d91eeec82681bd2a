/** The SH1106 page encoding: how `display` turns the 64x128 framebuffer
    into eight (page command, page data) transfers. */
module PageEncoder {
  import opened Wrappers
  import opened Framebuffer

  /** The level of the data/command select line during a transfer. */
  datatype Mode = Command | Data

  /** One `xfer` call: the select-line mode and the bytes sent. */
  datatype Transfer = Transfer(mode: Mode, bytes: seq<bv8>)

  /** Eight rows per page, eight pages per frame. */
  const PageHeight: nat := 8
  const PageCount: nat := Rows / PageHeight

  // ---------------------------------------------------------------------
  // Page command

  /** The "set page address" byte for logical page `p`: opcode 0xB0 with
      the device page `7 - p` in its low three bits. */
  function PageAddress(p: nat): (b: bv8)
    requires p < PageCount
    ensures b & 0xF8 == 0xB0
    ensures (b & 0x07) as int == PageCount - 1 - p
  {
    0xB0 + (7 - p) as bv8
  }

  /** The three command bytes sent before page `p`: page address, then the
      lower and higher column-address nibbles. */
  function PageCommand(p: nat): (cmd: seq<bv8>)
    requires p < PageCount
    ensures |cmd| == 3 && cmd[0] == PageAddress(p)
    ensures cmd[1] == 0x02 && cmd[2] == 0x10
  {
    [PageAddress(p), 0x02, 0x10]
  }

  /** The column address that a "set lower column address" byte (0x0n)
      and a "set higher column address" byte (0x1n) select together, as
      the SH1106 command set defines them. */
  function StartColumn(low: bv8, high: bv8): (col: nat)
    requires low & 0xF0 == 0x00 && high & 0xF0 == 0x10
    ensures col < 256
  {
    (high & 0x0F) as nat * 16 + (low & 0x0F) as nat
  }

  /** The column bytes of every page command select column 2, not 0: the
      code sends 0x02 as the lower nibble. */
  lemma PageCommandColumn(p: nat)
    requires p < PageCount
    ensures StartColumn(PageCommand(p)[1], PageCommand(p)[2]) == 2
  {
  }

  /** The eight page addresses are pairwise distinct and are exactly
      0xB0 .. 0xB7; logical page `p` is sent to device page `7 - p`. */
  lemma PageAddressesDistinct()
    ensures forall p, q :: 0 <= p < q < PageCount ==> PageAddress(p) != PageAddress(q)
    ensures forall p :: 0 <= p < PageCount ==> 0xB0 <= PageAddress(p) <= 0xB7
    ensures (set p | 0 <= p < PageCount :: PageAddress(p)) == {0xB0, 0xB1, 0xB2, 0xB3, 0xB4, 0xB5, 0xB6, 0xB7}
  {
    var addresses := set p | 0 <= p < PageCount :: PageAddress(p);
    assert PageAddress(0) == 0xB7 && PageAddress(1) == 0xB6 && PageAddress(2) == 0xB5 && PageAddress(3) == 0xB4;
    assert PageAddress(4) == 0xB3 && PageAddress(5) == 0xB2 && PageAddress(6) == 0xB1 && PageAddress(7) == 0xB0;
  }

  // ---------------------------------------------------------------------
  // Bit packing of one column

  function Bit(on: bool): (b: bv8)
    ensures b == 0 || b == 1
    ensures on <==> b == 1
  {
    if on then 1 else 0
  }

  /** The per-byte expression of `display`: `bits[0]` lands in bit 7 (MSB)
      and `bits[7]` in bit 0 (LSB). */
  function Pack(bits: seq<bool>): (b: bv8)
    requires |bits| == PageHeight
    ensures Unpack(b) == bits
  {
    // Dafny's `|` binds tighter than `<<`, unlike C's, hence the parentheses.
    (Bit(bits[0]) << 7) | (Bit(bits[1]) << 6) | (Bit(bits[2]) << 5) | (Bit(bits[3]) << 4) |
    (Bit(bits[4]) << 3) | (Bit(bits[5]) << 2) | (Bit(bits[6]) << 1) | Bit(bits[7])
  }

  /** Reads a byte back as eight pixels, most significant bit first. */
  function Unpack(b: bv8): (bits: seq<bool>)
    ensures |bits| == PageHeight
  {
    [b & 0x80 != 0, b & 0x40 != 0, b & 0x20 != 0, b & 0x10 != 0,
     b & 0x08 != 0, b & 0x04 != 0, b & 0x02 != 0, b & 0x01 != 0]
  }

  /** Bit `7 - k` of a packed byte is pixel `k`. */
  lemma PackBitAt(bits: seq<bool>, k: nat)
    requires |bits| == PageHeight && k < PageHeight
    ensures (Pack(bits) >> (7 - k)) & 1 == Bit(bits[k])
  {
  }

  lemma PackUnpack(b: bv8)
    ensures Pack(Unpack(b)) == b
  {
  }

  // ---------------------------------------------------------------------
  // Bands (8 rows x 128 columns) and page data

  /** Eight consecutive framebuffer rows. */
  predicate IsBand(band: seq<seq<bool>>) {
    |band| == PageHeight && forall k :: 0 <= k < |band| ==> |band[k]| == Cols
  }

  /** The rows of logical page `p`: rows `8p .. 8p+7`. */
  function Band(f: Frame, p: nat): (band: seq<seq<bool>>)
    requires IsFrame(f) && p < PageCount
    ensures IsBand(band)
    ensures forall k, x :: 0 <= k < PageHeight && 0 <= x < Cols ==> band[k][x] == f[PageHeight * p + k][x]
  {
    f[PageHeight * p .. PageHeight * p + PageHeight]
  }

  /** Column `x` of a band, top row first. */
  function ColumnBits(band: seq<seq<bool>>, x: nat): (bits: seq<bool>)
    requires IsBand(band) && x < Cols
    ensures |bits| == PageHeight
    ensures forall k :: 0 <= k < PageHeight ==> bits[k] == band[k][x]
  {
    [band[0][x], band[1][x], band[2][x], band[3][x],
     band[4][x], band[5][x], band[6][x], band[7][x]]
  }

  /** The 128 data bytes of a band: byte `127 - x` packs column `x`, so the
      columns are sent right to left. */
  function PackBand(band: seq<seq<bool>>): (data: seq<bv8>)
    requires IsBand(band)
    ensures |data| == Cols
  {
    seq(Cols, j requires 0 <= j < Cols => Pack(ColumnBits(band, Cols - 1 - j)))
  }

  /** Undoes the column mirror and reads each byte MSB first. */
  function UnpackBand(data: seq<bv8>): (band: seq<seq<bool>>)
    requires |data| == Cols
    ensures IsBand(band)
  {
    seq(PageHeight, k requires 0 <= k < PageHeight =>
      seq(Cols, x requires 0 <= x < Cols => Unpack(data[Cols - 1 - x])[k]))
  }

  /** Mirroring and packing: for every column `x` and row `k` of the band,
      bit `7 - k` of byte `127 - x` is that pixel. */
  lemma PackBandBits(band: seq<seq<bool>>, x: nat, k: nat)
    requires IsBand(band) && x < Cols && k < PageHeight
    ensures (PackBand(band)[Cols - 1 - x] >> (7 - k)) & 1 == Bit(band[k][x])
  {
    PackBitAt(ColumnBits(band, x), k);
  }

  /** Unpacking the data bytes of any band gives the band back. */
  lemma {:induction false} UnpackPackBand(band: seq<seq<bool>>)
    requires IsBand(band)
    ensures UnpackBand(PackBand(band)) == band
  {
    var back := UnpackBand(PackBand(band));
    forall k | 0 <= k < PageHeight
      ensures back[k] == band[k]
    {
      forall x | 0 <= x < Cols
        ensures back[k][x] == band[k][x]
      {
        assert PackBand(band)[Cols - 1 - x] == Pack(ColumnBits(band, x));
      }
    }
  }

  /** Packing the band read from any 128 bytes gives the bytes back. */
  lemma {:induction false} PackUnpackBand(data: seq<bv8>)
    requires |data| == Cols
    ensures PackBand(UnpackBand(data)) == data
  {
    var band := UnpackBand(data);
    forall j | 0 <= j < Cols
      ensures PackBand(band)[j] == data[j]
    {
      var x := Cols - 1 - j;
      assert ColumnBits(band, x) == Unpack(data[j]);
      PackUnpack(data[j]);
    }
  }

  /** The data transfer of logical page `p`. */
  function PageData(f: Frame, p: nat): (data: seq<bv8>)
    requires IsFrame(f) && p < PageCount
    ensures |data| == Cols
    ensures UnpackBand(data) == f[PageHeight * p .. PageHeight * p + PageHeight]
  {
    UnpackPackBand(Band(f, p));
    PackBand(Band(f, p))
  }

  /** Bit `7 - k` of `data[127 - x]` is pixel `fb[8p + k][x]`. */
  lemma PageDataBits(f: Frame, p: nat, x: nat, k: nat)
    requires IsFrame(f) && p < PageCount && x < Cols && k < PageHeight
    ensures (PageData(f, p)[Cols - 1 - x] >> (7 - k)) & 1 == Bit(f[PageHeight * p + k][x])
  {
    PackBandBits(Band(f, p), x, k);
  }

  /** Byte `127 - x` of a page depends on column `x` of that page only. */
  lemma ColumnLocality(f: Frame, g: Frame, p: nat, x: nat)
    requires IsFrame(f) && IsFrame(g) && p < PageCount && x < Cols
    requires forall r :: PageHeight * p <= r < PageHeight * p + PageHeight ==> f[r][x] == g[r][x]
    ensures PageData(f, p)[Cols - 1 - x] == PageData(g, p)[Cols - 1 - x]
  {
    assert ColumnBits(Band(f, p), x) == ColumnBits(Band(g, p), x);
  }

  /** When a page has only column `c` lit, every byte but `127 - c` is
      zero: column 0 goes to byte 127 and column 127 to byte 0. */
  lemma SingleColumn(f: Frame, p: nat, c: nat)
    requires IsFrame(f) && p < PageCount && c < Cols
    requires forall r, x :: PageHeight * p <= r < PageHeight * p + PageHeight && 0 <= x < Cols && x != c ==> !f[r][x]
    ensures forall j :: 0 <= j < Cols && j != Cols - 1 - c ==> PageData(f, p)[j] == 0
    ensures PageData(f, p)[Cols - 1 - c] == Pack(ColumnBits(Band(f, p), c))
  {
    forall j | 0 <= j < Cols && j != Cols - 1 - c
      ensures PageData(f, p)[j] == 0
    {
      assert PageData(f, p)[j] == Pack(ColumnBits(Band(f, p), Cols - 1 - j));
      assert ColumnBits(Band(f, p), Cols - 1 - j) == [false, false, false, false, false, false, false, false];
    }
  }

  /** An all-on frame sends only 0xFF data bytes, an all-off frame only
      0x00. */
  lemma UniformPages(on: bool, p: nat)
    requires p < PageCount
    ensures forall j :: 0 <= j < Cols ==> PageData(Uniform(on), p)[j] == (if on then 0xFF else 0x00)
  {
    var f := Uniform(on);
    forall j | 0 <= j < Cols
      ensures PageData(f, p)[j] == (if on then 0xFF else 0x00)
    {
      assert PageData(f, p)[j] == Pack(ColumnBits(Band(f, p), Cols - 1 - j));
      assert ColumnBits(Band(f, p), Cols - 1 - j) == [on, on, on, on, on, on, on, on];
    }
  }

  // ---------------------------------------------------------------------
  // The whole frame

  /** The two transfers of page `p`: its command, then its data. */
  function PageTransfers(f: Frame, p: nat): (t: seq<Transfer>)
    requires IsFrame(f) && p < PageCount
  {
    [Transfer(Command, PageCommand(p)), Transfer(Data, PageData(f, p))]
  }

  /** The transfers of pages `0 .. n-1`, in page order. */
  function Pages(f: Frame, n: nat): (t: seq<Transfer>)
    requires IsFrame(f) && n <= PageCount
    ensures |t| == 2 * n
  {
    if n == 0 then [] else Pages(f, n - 1) + PageTransfers(f, n - 1)
  }

  /** Among the first `n` pages, transfer `2p` is page `p`'s command and
      `2p + 1` its data. */
  lemma {:induction false} PagesAt(f: Frame, n: nat, p: nat)
    requires IsFrame(f) && p < n <= PageCount
    ensures Pages(f, n)[2 * p] == Transfer(Command, PageCommand(p))
    ensures Pages(f, n)[2 * p + 1] == Transfer(Data, PageData(f, p))
  {
    if p < n - 1 {
      PagesAt(f, n - 1, p);
    }
  }

  /** Everything `display` sends for one frame. */
  function Encode(f: Frame): (t: seq<Transfer>)
    requires IsFrame(f)
    ensures |t| == 2 * PageCount
    ensures forall p :: 0 <= p < PageCount ==>
      t[2 * p] == Transfer(Command, PageCommand(p)) && t[2 * p + 1] == Transfer(Data, PageData(f, p))
  {
    assert forall p :: 0 <= p < PageCount ==>
      Pages(f, PageCount)[2 * p] == Transfer(Command, PageCommand(p)) &&
      Pages(f, PageCount)[2 * p + 1] == Transfer(Data, PageData(f, p))
    by {
      forall p | 0 <= p < PageCount {
        PagesAt(f, PageCount, p);
      }
    }
    Pages(f, PageCount)
  }

  /** One frame is sixteen transfers alternating a 3-byte command and a
      128-byte data transfer, pages in order 0 .. 7. */
  lemma EncodeShape(f: Frame)
    requires IsFrame(f)
    ensures |Encode(f)| == 16
    ensures forall j :: 0 <= j < 16 ==>
      Encode(f)[j].mode == (if j % 2 == 0 then Command else Data) &&
      |Encode(f)[j].bytes| == (if j % 2 == 0 then 3 else 128)
  {
    forall j | 0 <= j < 16
      ensures Encode(f)[j].mode == (if j % 2 == 0 then Command else Data)
      ensures |Encode(f)[j].bytes| == (if j % 2 == 0 then 3 else 128)
    {
      var p := j / 2;
      assert Encode(f)[2 * p] == Transfer(Command, PageCommand(p));
      assert Encode(f)[2 * p + 1] == Transfer(Data, PageData(f, p));
    }
  }

  // ---------------------------------------------------------------------
  // Reading a frame back from the wire

  /** Whether transfers `2p` and `2p + 1` of `t` are a well-formed page:
      the command of page `p`, then 128 data bytes. */
  predicate IsPageAt(t: seq<Transfer>, p: nat)
    requires p < PageCount && |t| == 2 * PageCount
  {
    t[2 * p] == Transfer(Command, PageCommand(p)) &&
    t[2 * p + 1].mode == Data && |t[2 * p + 1].bytes| == Cols
  }

  /** The rows carried by the first `n` pages of a well-formed stream. */
  function DecodedRows(t: seq<Transfer>, n: nat): (rows: seq<seq<bool>>)
    requires |t| == 2 * PageCount && n <= PageCount
    requires forall p :: 0 <= p < PageCount ==> IsPageAt(t, p)
    ensures |rows| == PageHeight * n
  {
    if n == 0 then []
    else assert IsPageAt(t, n - 1); DecodedRows(t, n - 1) + UnpackBand(t[2 * (n - 1) + 1].bytes)
  }

  /** The frame a stream of transfers describes, or `None` when it is not
      sixteen transfers of eight well-formed pages in order. */
  function Decode(t: seq<Transfer>): (f: Option<Frame>)
  {
    if |t| == 2 * PageCount && forall p :: 0 <= p < PageCount ==> IsPageAt(t, p)
    then Some(DecodedRows(t, PageCount))
    else None
  }

  lemma {:induction false} RowsOfEncode(f: Frame, n: nat)
    requires IsFrame(f) && n <= PageCount
    requires forall p :: 0 <= p < PageCount ==> IsPageAt(Encode(f), p)
    ensures DecodedRows(Encode(f), n) == f[..PageHeight * n]
  {
    if n > 0 {
      RowsOfEncode(f, n - 1);
      assert Encode(f)[2 * (n - 1) + 1].bytes == PageData(f, n - 1);
      assert f[..PageHeight * n] == f[..PageHeight * (n - 1)] + f[PageHeight * (n - 1) .. PageHeight * n];
    }
  }

  /** Reading the transfers of a frame back gives the frame. */
  lemma DecodeEncode(f: Frame)
    requires IsFrame(f)
    ensures Decode(Encode(f)) == Some(f)
  {
    assert forall p :: 0 <= p < PageCount ==> IsPageAt(Encode(f), p);
    RowsOfEncode(f, PageCount);
    assert f[..PageHeight * PageCount] == f;
  }
}
