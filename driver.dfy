/** The SH1106 driver: the transfer channel as a trace of select-line
    transfers, `display`, the frame fill loop and one session of `main`. */
module Driver {
  import opened Wrappers
  import opened Framebuffer
  import opened PageEncoder

  /** The single command byte that switches the panel on. */
  const DisplayOn: Transfer := Transfer(Command, [0xAF])

  /** How one session of the program ends. `ImageMissing` and
      `DimensionMismatch` are the failed `assert`s after the image load,
      which abort the process. */
  datatype Outcome = FrameSent | ImageMissing | DimensionMismatch

  /** The controller as seen through its bus: every transfer made so far.
      Before the display-on command the driver is configured but not
      displaying; after it, frames may be sent. */
  class Sh1106 {
    ghost var trace: seq<Transfer>
    var displaying: bool

    ghost predicate Valid()
      reads this
    {
      if displaying then |trace| > 0 && trace[0] == DisplayOn else trace == []
    }

    /** A driver whose GPIO and SPI handles are open and configured and
        whose reset line has been cycled: nothing has been sent yet. */
    constructor ()
      ensures Valid() && !displaying && trace == []
    {
      trace := [];
      displaying := false;
    }

    /** `xfer`: set the select line for `mode`, then send `bytes`. Before
        the panel is on, the only transfer allowed is the display-on
        command. */
    method Xfer(mode: Mode, bytes: seq<bv8>)
      requires Valid()
      requires displaying || Transfer(mode, bytes) == DisplayOn
      modifies this`trace
      ensures displaying ==> Valid()
      ensures trace == old(trace) + [Transfer(mode, bytes)]
    {
      trace := trace + [Transfer(mode, bytes)];
    }

    /** Sends the display-on command once, before any frame. */
    method PowerOn()
      requires Valid() && !displaying
      modifies this
      ensures Valid() && displaying
      ensures trace == [DisplayOn]
    {
      Xfer(Command, [0xAF]);
      displaying := true;
    }

    /** `display`: for each page, its command then its 128 data bytes,
        packed from the unchanged framebuffer `fb`. */
    method Display(fb: array2<bool>)
      requires Valid() && displaying
      requires fb.Length0 == Rows && fb.Length1 == Cols
      modifies this`trace
      ensures Valid()
      ensures trace == old(trace) + Encode(Grid(fb))
    {
      ghost var f := Grid(fb);
      var i := 0;
      while i < PageCount
        invariant 0 <= i <= PageCount
        invariant Valid()
        invariant trace == old(trace) + Pages(f, i)
      {
        SendPage(fb, i);
        i := i + 1;
      }
    }

    /** The body of the page loop of `display`: the page command, then the
        page's 128 data bytes. */
    method SendPage(fb: array2<bool>, i: nat)
      requires Valid() && displaying
      requires fb.Length0 == Rows && fb.Length1 == Cols && i < PageCount
      modifies this`trace
      ensures Valid()
      ensures trace == old(trace) + [Transfer(Command, PageCommand(i)), Transfer(Data, PageData(Grid(fb), i))]
    {
      Xfer(Command, [0xB0 + (7 - i) as bv8, 0x02, 0x10]);
      var data := PackPage(fb, i);
      Xfer(Data, data[..]);
    }
  }

  /** The inner loop of `display`: the 128 data bytes of page `i`, byte
      `127 - x` packing column `x` of rows `8i .. 8i+7`, most significant bit
      first. */
  method PackPage(fb: array2<bool>, i: nat) returns (data: array<bv8>)
    requires fb.Length0 == Rows && fb.Length1 == Cols && i < PageCount
    ensures data[..] == PageData(Grid(fb), i)
  {
    ghost var expected := PackBand(Band(Grid(fb), i));
    data := new bv8[Cols];
    var top := PageHeight * i;
    var x := 0;
    while x < Cols
      invariant 0 <= x <= Cols
      invariant forall j :: Cols - x <= j < Cols ==> data[j] == expected[j]
    {
      data[Cols - 1 - x] := Pack([fb[top + 0, x], fb[top + 1, x], fb[top + 2, x], fb[top + 3, x],
                                  fb[top + 4, x], fb[top + 5, x], fb[top + 6, x], fb[top + 7, x]]);
      PackedColumn(fb, i, x);
      x := x + 1;
    }
    assert data[..] == expected;
  }

  /** The packed byte `display` computes for column `x` of page `i` is byte
      `127 - x` of that page's data. */
  lemma PackedColumn(fb: array2<bool>, i: nat, x: nat)
    requires fb.Length0 == Rows && fb.Length1 == Cols && i < PageCount && x < Cols
    ensures Pack([fb[PageHeight * i + 0, x], fb[PageHeight * i + 1, x],
                  fb[PageHeight * i + 2, x], fb[PageHeight * i + 3, x],
                  fb[PageHeight * i + 4, x], fb[PageHeight * i + 5, x],
                  fb[PageHeight * i + 6, x], fb[PageHeight * i + 7, x]])
            == PackBand(Band(Grid(fb), i))[Cols - 1 - x]
  {
    assert ColumnBits(Band(Grid(fb), i), x) == [fb[PageHeight * i + 0, x], fb[PageHeight * i + 1, x],
                                                fb[PageHeight * i + 2, x], fb[PageHeight * i + 3, x],
                                                fb[PageHeight * i + 4, x], fb[PageHeight * i + 5, x],
                                                fb[PageHeight * i + 6, x], fb[PageHeight * i + 7, x]];
  }

  /** The fill loop of `main`: rows 1 to 62 of `fb` take the thresholded
      samples, rows 0 and 63 are left as they were. */
  method Fill(fb: array2<bool>, buf: seq<bv8>)
    requires fb.Length0 == Rows && fb.Length1 == Cols
    requires IsSampleBuffer(buf)
    modifies fb
    ensures Grid(fb) == Refill(old(Grid(fb)), buf)
  {
    var y := 1;
    while y < Rows - 1
      invariant 1 <= y <= Rows - 1
      invariant forall r, c :: 0 <= r < Rows && 0 <= c < Cols ==>
        fb[r, c] == if 1 <= r < y then IsOn(buf[r * Cols + c]) else old(fb[r, c])
    {
      var x := 0;
      while x < Cols
        invariant 0 <= x <= Cols
        invariant forall r, c :: 0 <= r < Rows && 0 <= c < Cols ==>
          fb[r, c] == if 1 <= r < y || (r == y && c < x) then IsOn(buf[r * Cols + c]) else old(fb[r, c])
      {
        fb[y, x] := buf[y * Cols + x] > 0xFF / 2;
        x := x + 1;
      }
      y := y + 1;
    }
    PixelwiseEqual(Grid(fb), Refill(old(Grid(fb)), buf));
  }

  /** One iteration of the endless frame loop: fill, then display. */
  method RenderFrame(dev: Sh1106, fb: array2<bool>, buf: seq<bv8>)
    requires dev.Valid() && dev.displaying
    requires fb.Length0 == Rows && fb.Length1 == Cols
    requires IsSampleBuffer(buf)
    modifies dev`trace, fb
    ensures dev.Valid()
    ensures Grid(fb) == Refill(old(Grid(fb)), buf)
    ensures dev.trace == old(dev.trace) + Encode(Grid(fb))
  {
    Fill(fb, buf);
    dev.Display(fb);
  }

  /** One session of the program on a freshly configured driver: switch the
      panel on, check the decoded image, then send the first frame. The
      image loader's result is `image`, with its reported `width` and
      `height`; a loaded image holds `width * height` grayscale samples. */
  method Run(dev: Sh1106, image: Option<seq<bv8>>, width: int, height: int) returns (outcome: Outcome)
    requires dev.Valid() && !dev.displaying
    requires image.Some? ==> width >= 0 && height >= 0 && |image.value| == width * height
    modifies dev
    ensures dev.Valid() && dev.displaying
    ensures outcome == (if image.None? then ImageMissing
                        else if width != Cols || height != Rows then DimensionMismatch
                        else FrameSent)
    ensures outcome != FrameSent ==> dev.trace == [DisplayOn]
    ensures outcome == FrameSent ==>
      dev.trace == [DisplayOn] + Encode(Refill(Uniform(false), image.value))
  {
    dev.PowerOn();
    if image.None? {
      return ImageMissing;
    }
    if width != Cols || height != Rows {
      return DimensionMismatch;
    }
    var buf := image.value;
    var fb := new bool[Rows, Cols]((r, c) => false);
    PixelwiseEqual(Grid(fb), Uniform(false));
    RenderFrame(dev, fb, buf);
    outcome := FrameSent;
  }
}
