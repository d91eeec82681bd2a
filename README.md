# SH1106 frame encoding and transfer protocol, in Dafny

This project models the core of `sh1106/sh1106.c`, a small program that shows a
128x64 grayscale image on an SH1106 OLED controller over SPI. The model covers:

- the framebuffer `bool fb[64][128]` and the fill loop of `main` that thresholds
  the decoded image into it (`framebuffer.dfy`, module `Framebuffer`);
- the page encoding done by `display`: eight pages of 8 rows each. Each page is
  one 3-byte command `{0xB0 + (7 - i), 0x02, 0x10}` followed by 128 data bytes.
  Byte `127 - x` packs column `x` of the page's rows, top row in the most
  significant bit (`encoder.dfy`, module `PageEncoder`);
- the transfer channel `xfer`, modelled as a class `Sh1106` with a ghost `trace`
  of `(mode, bytes)` transfers. The imperative `display` (nested loops over a
  local `data[128]` array), the fill loop, and one session of `main` (display-on
  command, image checks, first frame) are methods over this trace
  (`driver.dfy`, module `Driver`).

Each method is proved against a specification function: `Display` appends
exactly `Encode(Grid(fb))`, and `Fill` turns the framebuffer into
`Refill(old frame, samples)`. The properties are proved about those functions:

- the frame has 16 transfers, alternating command and data;
- the page addresses are distinct;
- bit `7 - k` of byte `127 - x` is pixel `fb[8i + k][x]`;
- unpacking reverses packing in both directions;
- each page round-trips, and so does the whole frame (`Decode(Encode(f)) == Some(f)`);
- all-on and all-off frames give 0xFF and 0x00 data bytes;
- the threshold boundary is exact;
- rows 0 and 63 stay dark;
- repeating the fill is idempotent.

Where the code and its description differ, the model follows the code:

- The second byte of every page command is `0x02`. In the SH1106 command set,
  a `0x0n` byte sets the lower nibble of the column address, so each page
  starts at column 2. The source comment says "(to 0)". `PageCommandColumn`
  states what the bytes select.
- The display-on command `{0xAF}` is sent *before* the image is loaded and its
  size is checked. So a missing image or a wrong size stops the program after
  one transfer, not before any transfer. `Run` states this.

## Model

| member | source | states |
|---|---|---|
| `Framebuffer.Uniform` | sh1106/sh1106.c:126 | a frame of 64 rows of 128 pixels, every pixel equal to the given value (`Uniform(false)` is the zero-initialised framebuffer) |
| `Framebuffer.IsOn` | sh1106/sh1106.c:132 | a sample lights its pixel exactly when it is at least 128, i.e. strictly above `0xFF / 2` |
| `Framebuffer.ThresholdBoundary` | sh1106/sh1106.c:132 | the cut line is 127; samples 0 and 127 are off, 128 and 255 are on; the threshold is monotone |
| `Framebuffer.Refill` | sh1106/sh1106.c:130-134 | after the fill, rows 1..62 hold `buf[y*128 + x] > 127` and rows 0 and 63 keep their previous pixels |
| `Framebuffer.RefillFromBlank` | sh1106/sh1106.c:126-134 | from the zero-initialised framebuffer, rows 0 and 63 are off and every other pixel is on iff its sample exceeds 127 |
| `Framebuffer.RefillIdempotent` | sh1106/sh1106.c:129-138 | filling a second time with the same samples changes nothing, so every loop iteration sends the same frame |
| `PageEncoder.PageAddress` | sh1106/sh1106.c:58 | the page-address byte has opcode bits 0xB0 and selects device page `7 - i` in its low three bits |
| `PageEncoder.PageCommand` | sh1106/sh1106.c:58 | the command of page `i` is the three bytes page address, 0x02, 0x10 |
| `PageEncoder.PageCommandColumn` | sh1106/sh1106.c:58 | the two column bytes of every page command select start column 2 |
| `PageEncoder.PageAddressesDistinct` | sh1106/sh1106.c:57-58 | the eight page addresses are pairwise distinct and are exactly the set 0xB0..0xB7 |
| `PageEncoder.Pack` | sh1106/sh1106.c:63-70 | reading the packed byte back MSB first gives the eight pixels, top row first. With `PackBitAt`: bit `7 - k` holds pixel `k` |
| `PageEncoder.PackBitAt` | sh1106/sh1106.c:63-70 | bit `7 - k` of a packed byte is pixel `k` of its column |
| `PageEncoder.PackUnpack` | sh1106/sh1106.c:63-70 | packing the pixels read from any byte gives the byte back |
| `PageEncoder.PackBand` | sh1106/sh1106.c:61-71 | a band packs into 128 bytes, one per column. What the bytes hold is stated by `PackBandBits`, `UnpackPackBand` and `PackUnpackBand` |
| `PageEncoder.PackBandBits` | sh1106/sh1106.c:61-70 | in the data of any 8x128 band, bit `7 - k` of byte `127 - x` is pixel `(k, x)` |
| `PageEncoder.UnpackPackBand` | sh1106/sh1106.c:61-71 | unmirroring and unpacking the 128 data bytes of any band reproduces the band |
| `PageEncoder.PackUnpackBand` | sh1106/sh1106.c:61-71 | packing the band decoded from any 128 bytes reproduces the bytes |
| `PageEncoder.PageData` | sh1106/sh1106.c:61-71 | page `i` sends 128 bytes, and unpacking them reproduces rows `8i .. 8i+7` exactly |
| `PageEncoder.PageDataBits` | sh1106/sh1106.c:62-70 | bit `7 - k` of data byte `127 - x` of page `i` is `fb[8i + k][x]` |
| `PageEncoder.ColumnLocality` | sh1106/sh1106.c:61-70 | data byte `127 - x` depends only on column `x` of the page's eight rows |
| `PageEncoder.SingleColumn` | sh1106/sh1106.c:61-62 | a page with only column `c` lit has zero in every byte except `127 - c` (column 0 to byte 127, column 127 to byte 0) |
| `PageEncoder.UniformPages` | sh1106/sh1106.c:56-75 | an all-on frame gives only 0xFF data bytes and an all-off frame only 0x00 |
| `PageEncoder.Pages` | sh1106/sh1106.c:57-74 | the first `n` pages are `2n` transfers; `PagesAt` states which |
| `PageEncoder.PagesAt` | sh1106/sh1106.c:57-74 | among the first `n` pages, transfer `2i` is page `i`'s command and `2i + 1` its data |
| `PageEncoder.Encode` | sh1106/sh1106.c:56-75 | a frame is 16 transfers; for each of the eight pages `p`, transfer `2p` is its command and `2p + 1` its data |
| `PageEncoder.EncodeShape` | sh1106/sh1106.c:57-74 | a frame is 16 transfers that alternate a 3-byte command and a 128-byte data transfer |
| `PageEncoder.DecodeEncode` | sh1106/sh1106.c:56-75 | reading the 16 transfers of a frame back gives the frame |
| `Driver.Sh1106.constructor` | sh1106/sh1106.c:78-111 | a configured driver that has sent nothing and is not yet displaying |
| `Driver.Sh1106.Xfer` | sh1106/sh1106.c:33-54 | one transfer `(mode, bytes)` is appended to the trace and nothing else changes. Before the panel is on, only the display-on command may be sent. Once the panel is on, the driver invariant is kept; `PowerOn` restores it after the display-on transfer |
| `Driver.Sh1106.PowerOn` | sh1106/sh1106.c:115 | the single command byte 0xAF is the first and only transfer so far |
| `Driver.Sh1106.Display` | sh1106/sh1106.c:56-75 | the trace grows by exactly `Encode` of the framebuffer, which is not modified |
| `Driver.Sh1106.SendPage` | sh1106/sh1106.c:57-74 | one pass of the page loop appends page `i`'s command, then its data, and keeps the driver invariant |
| `Driver.PackPage` | sh1106/sh1106.c:59-71 | the 128-byte array it fills equals the specified data of page `i` |
| `Driver.PackedColumn` | sh1106/sh1106.c:62-70 | the byte the inner loop computes for column `x` of page `i` is byte `127 - x` of that page's data |
| `Driver.Fill` | sh1106/sh1106.c:130-134 | the framebuffer becomes `Refill` of its previous contents |
| `Driver.RenderFrame` | sh1106/sh1106.c:129-138 | one loop iteration: fill, then send exactly `Encode` of the filled framebuffer |
| `Driver.Run` | sh1106/sh1106.c:115-136 | 0xAF is sent first. A missing image or any size other than 128x64 stops with nothing else sent. Otherwise exactly one frame follows, encoding the thresholded image with dark top and bottom rows |

## Left out

- GPIO and SPI plumbing is not modelled: `gpio_open`, opening `/dev/spigen0.0`, the clock and mode `ioctl`s, and the pin-direction calls. The constructor stands for a driver on which they succeeded.
- `Driver.Sh1106.Xfer`: the select-line level and the `SPIGENIOC_TRANSFER` ioctl become one appended trace entry. A failed ioctl (`err(EXIT_FAILURE, ...)`) halts the process, and that halt is outside the model.
- The reset-line toggling and the two `usleep(100000)` delays are timing and hardware side effects, so they are left out.
- Image decoding by `stbi_load` is an external library. `Run` takes its result as an optional sample sequence with the reported width and height. Its precondition that a loaded image holds `width * height` samples is the loader's own contract for one grey channel.
- The float `t` and the commented-out `sin` offset have no effect on any pixel, so they are left out.
- The endless `for (;;)` loop is modelled as one iteration, `RenderFrame`. `RefillIdempotent` covers what repeating it does. The cleanup after the loop is unreachable.
- `printf` diagnostics are left out.
- The C `assert`s are modelled as active. Without them (`NDEBUG`), a NULL image would be dereferenced, an image with fewer than 8064 samples would be read out of bounds (the fill reads indices 128 to 62 * 128 + 127 = 8063), an image whose width is not 128 would be read with the wrong stride, and an image 128 wide and at least 63 high would be shown as if it were 128x64.
- `PageEncoder.PackBand`: its own contract states only the length. The byte contents are stated by the lemmas `PackBandBits`, `UnpackPackBand` and `PackUnpackBand`, which keep that proof out of every caller.
- The framebuffer has no separate get/set/clear operations with range errors. Array bounds are checked by the verifier on every access instead.
