/** The hello-world libretro core as a stateful object: the framebuffer it
    renders into in place, the cursor position, and the lifecycle flags the
    host drives through `retro_init`, `retro_deinit`, `retro_reset`,
    `retro_set_environment` and `retro_run`. Host callbacks are not code
    here: whether each was registered is a flag, every answer the host gives
    is a method parameter, and what the core sends to the host is recorded
    in ghost traces. */
module Core {
  import opened Raster
  import opened Cursor

  /** The environment commands the core sends to the host. */
  datatype EnvRequest = SetSupportNoGame | SetPixelFormatRgb565 | GetLogInterface | Shutdown

  /** One call of the host's video callback: the pixels, width, height and row pitch in bytes. */
  datatype VideoFrame = VideoFrame(pixels: seq<Color>, width: int, height: int, pitch: int)

  /** Bytes per framebuffer row: WIDTH cells of two bytes each. */
  const PITCH: int := WIDTH * 2

  class HelloCore {
    /** The glyph table the text is drawn with. */
    const font: Font
    /** The RGB565 framebuffer, row-major, WIDTH * HEIGHT cells. */
    const fb: array<Color>

    var initialized: bool
    var contentlessSet: bool
    var envCallCount: nat
    var squareX: int
    var squareY: int

    /** Which host callbacks are currently registered (non-null). */
    var environSet: bool
    var videoSet: bool
    var inputStateSet: bool

    /** Every environment command sent to the host, oldest first. */
    ghost var envRequests: seq<EnvRequest>
    /** Every frame delivered to the host, oldest first. */
    ghost var delivered: seq<VideoFrame>

    /** The state invariant: the buffer has its fixed size and the square
        fits in the buffer. */
    ghost predicate Valid()
      reads this
    {
      fb.Length == CELLS
      && CursorInRange(squareX, squareY)
    }

    /** The state when the module is loaded: static storage is zero and no
        callback is registered. */
    constructor (font: Font)
      ensures Valid() && fresh(fb)
      ensures this.font == font && fb[..] == Blank()
      ensures !initialized && !contentlessSet && envCallCount == 0
      ensures squareX == 0 && squareY == 0
      ensures !environSet && !videoSet && !inputStateSet
      ensures envRequests == [] && delivered == []
    {
      this.font := font;
      fb := new Color[CELLS](_ => COLOR_BLACK);
      initialized, contentlessSet, envCallCount := false, false, 0;
      squareX, squareY := 0, 0;
      environSet, videoSet, inputStateSet := false, false, false;
      envRequests, delivered := [], [];
    }

    /** `clear_framebuffer`: every cell becomes 0. The result does not depend
        on the old contents, so clearing twice is clearing once. */
    method ClearFramebuffer()
      requires Valid()
      modifies fb
      ensures fb[..] == Blank()
    {
      forall i | 0 <= i < fb.Length {
        fb[i] := COLOR_BLACK;
      }
    }

    /** `draw_char`: paint the glyph of `c` at (x, y), clipped to the buffer;
        a character outside 32..126 changes nothing. */
    method DrawChar(x: int, y: int, c: CChar, color: Color)
      requires Valid()
      modifies fb
      ensures fb[..] == DrawCharSpec(old(fb[..]), font, x, y, c, color)
      ensures !Printable(c) ==> fb[..] == old(fb[..])
    {
      if c < 32 || c > 126 {
        DrawCharUnprintable(fb[..], font, x, y, c, color);
        return;
      }
      var glyph := font[c as int - 32];
      var gy := 0;
      while gy < 8
        invariant 0 <= gy <= 8
        invariant forall i :: 0 <= i < CELLS ==>
          fb[i] == if CharCovers(font, x, y, c, i % WIDTH, i / WIDTH) && i / WIDTH < y + gy
                   then color else old(fb[i])
      {
        var gx := 0;
        while gx < 8
          invariant 0 <= gx <= 8
          invariant forall i :: 0 <= i < CELLS ==>
            fb[i] == if CharCovers(font, x, y, c, i % WIDTH, i / WIDTH)
                        && (i / WIDTH < y + gy || (i / WIDTH == y + gy && i % WIDTH < x + gx))
                     then color else old(fb[i])
        {
          if glyph[gy] & (1 << (7 - gx)) != 0 {
            var px := x + gx;
            var py := y + gy;
            if px >= 0 && px < WIDTH && py >= 0 && py < HEIGHT {
              assert py * WIDTH + px == Index(px, py);
              fb[py * WIDTH + px] := color;
            }
          }
          gx := gx + 1;
        }
        gy := gy + 1;
      }
    }

    /** `draw_string`: draw each character before the first NUL, the origin
        moving 8 columns right per character. */
    method DrawString(x: int, y: int, str: seq<CChar>, color: Color)
      requires Valid()
      modifies fb
      ensures fb[..] == DrawStringSpec(old(fb[..]), font, x, y, str, color)
    {
      var cx := x;
      var i := 0;
      while i < |str| && str[i] != 0
        invariant 0 <= i <= |str|
        invariant cx == x + GLYPH * i
        invariant forall j :: 0 <= j < i ==> str[j] != 0
        invariant DrawStringSpec(fb[..], font, cx, y, str[i..], color)
               == DrawStringSpec(old(fb[..]), font, x, y, str, color)
      {
        assert str[i..][1..] == str[i + 1..];
        DrawChar(cx, y, str[i], color);
        cx := cx + 8;
        i := i + 1;
      }
    }

    /** The square loop of `retro_run`. It checks only the upper bounds of
        each cell; the lower bounds hold because the cursor invariant keeps
        the position non-negative. */
    method DrawSquare()
      requires Valid()
      modifies fb
      ensures fb[..] == FillSquareSpec(old(fb[..]), squareX, squareY)
    {
      var y := 0;
      while y < 20
        invariant 0 <= y <= 20
        invariant forall i :: 0 <= i < CELLS ==>
          fb[i] == if InSquare(squareX, squareY, i % WIDTH, i / WIDTH) && i / WIDTH < squareY + y
                   then COLOR_RED else old(fb[i])
      {
        var x := 0;
        while x < 20
          invariant 0 <= x <= 20
          invariant forall i :: 0 <= i < CELLS ==>
            fb[i] == if InSquare(squareX, squareY, i % WIDTH, i / WIDTH)
                        && (i / WIDTH < squareY + y || (i / WIDTH == squareY + y && i % WIDTH < squareX + x))
                     then COLOR_RED else old(fb[i])
        {
          if squareX + x < WIDTH && squareY + y < HEIGHT {
            assert (y + squareY) * WIDTH + (x + squareX) == Index(x + squareX, y + squareY);
            fb[(y + squareY) * WIDTH + (x + squareX)] := COLOR_RED;
          }
          x := x + 1;
        }
        y := y + 1;
      }
    }

    /** The input step of `retro_run`: when an input-state callback is
        registered, right then left move x, down then up move y, each step
        clamped at once. */
    method HandleInput(pad: Joypad)
      requires Valid()
      modifies this`squareX, this`squareY
      ensures Valid()
      ensures inputStateSet ==> squareX == StepAxis(old(squareX), pad.right, pad.left, WIDTH - SQUARE)
      ensures inputStateSet ==> squareY == StepAxis(old(squareY), pad.down, pad.up, HEIGHT - SQUARE)
      ensures !inputStateSet ==> squareX == old(squareX) && squareY == old(squareY)
    {
      if inputStateSet {
        if pad.right {
          squareX := squareX + 1;
          if squareX > WIDTH - 20 { squareX := WIDTH - 20; }
        }
        if pad.left {
          squareX := squareX - 1;
          if squareX < 0 { squareX := 0; }
        }
        if pad.down {
          squareY := squareY + 1;
          if squareY > HEIGHT - 20 { squareY := HEIGHT - 20; }
        }
        if pad.up {
          squareY := squareY - 1;
          if squareY < 0 { squareY := 0; }
        }
      }
    }

    /** `retro_run`: before init nothing happens; otherwise the frame is
        cleared, the cursor moved, the square and the text drawn, and the
        frame delivered once if a video callback is registered. */
    method Run(pad: Joypad)
      requires Valid()
      modifies fb, this`squareX, this`squareY, this`delivered
      ensures Valid()
      ensures !initialized ==>
        fb[..] == old(fb[..]) && squareX == old(squareX) && squareY == old(squareY)
        && delivered == old(delivered)
      ensures initialized && inputStateSet ==>
        squareX == StepAxis(old(squareX), pad.right, pad.left, WIDTH - SQUARE)
        && squareY == StepAxis(old(squareY), pad.down, pad.up, HEIGHT - SQUARE)
      ensures initialized && !inputStateSet ==> squareX == old(squareX) && squareY == old(squareY)
      ensures initialized ==> fb[..] == RenderedFrame(font, squareX, squareY)
      ensures initialized && videoSet ==>
        delivered == old(delivered) + [VideoFrame(fb[..], WIDTH, HEIGHT, PITCH)]
      ensures initialized && !videoSet ==> delivered == old(delivered)
    {
      if !initialized {
        return;
      }
      ClearFramebuffer();
      HandleInput(pad);
      DrawSquare();
      DrawString(TEXT_X, TEXT_Y, HELLO_WORLD, COLOR_WHITE);
      if videoSet {
        delivered := delivered + [VideoFrame(fb[..], WIDTH, HEIGHT, PITCH)];
      }
    }

    /** `retro_reset`: clear the buffer and move the square home. The
        lifecycle flags are not touched, and no initialization is required. */
    method Reset()
      requires Valid()
      modifies fb, this`squareX, this`squareY
      ensures Valid()
      ensures fb[..] == Blank() && squareX == 0 && squareY == 0
    {
      ClearFramebuffer();
      squareX := 0;
      squareY := 0;
    }

    /** `retro_init`: mark the core initialized and clear the buffer; with an
        environment callback, request RGB565 (and a shutdown if the host
        refuses it, initialization going on regardless), then ask for the
        log interface. */
    method Init(pixelFormatAccepted: bool)
      requires Valid()
      modifies this`initialized, fb, this`envRequests
      ensures Valid() && initialized
      ensures fb[..] == Blank()
      ensures envRequests == old(envRequests) +
        if environSet
        then [SetPixelFormatRgb565] + (if pixelFormatAccepted then [] else [Shutdown]) + [GetLogInterface]
        else []
    {
      initialized := true;
      ClearFramebuffer();
      if environSet {
        envRequests := envRequests + [SetPixelFormatRgb565];
        if !pixelFormatAccepted {
          envRequests := envRequests + [Shutdown];
        }
        envRequests := envRequests + [GetLogInterface];
      }
    }

    /** `retro_deinit`: reset the flags, the call count and the position;
        the framebuffer and the registered callbacks stay as they are. */
    method Deinit()
      requires Valid()
      modifies this`initialized, this`contentlessSet, this`envCallCount, this`squareX, this`squareY
      ensures Valid()
      ensures !initialized && !contentlessSet && envCallCount == 0
      ensures squareX == 0 && squareY == 0
      ensures unchanged(fb)
    {
      initialized := false;
      contentlessSet := false;
      envCallCount := 0;
      squareX := 0;
      squareY := 0;
    }

    /** `retro_set_environment`: store the callback and count the call, even
        for a null one; with a callback and content-less support not yet
        granted, request it, and record the grant if the host accepts. */
    method SetEnvironment(present: bool, acceptsNoGame: bool)
      requires Valid()
      modifies this`environSet, this`envCallCount, this`contentlessSet, this`envRequests
      ensures Valid()
      ensures environSet == present
      ensures envCallCount == old(envCallCount) + 1
      ensures contentlessSet == (old(contentlessSet) || (present && acceptsNoGame))
      ensures envRequests == old(envRequests) +
        if present && !old(contentlessSet) then [SetSupportNoGame] else []
    {
      environSet := present;
      envCallCount := envCallCount + 1;
      if !present {
        return;
      }
      if !contentlessSet {
        envRequests := envRequests + [SetSupportNoGame];
        if acceptsNoGame {
          contentlessSet := true;
        }
      }
    }

    /** `retro_set_video_refresh`: register (or clear) the video callback. */
    method SetVideoRefresh(present: bool)
      requires Valid()
      modifies this`videoSet
      ensures Valid()
      ensures videoSet == present
    {
      videoSet := present;
    }

    /** `retro_set_input_state`: register (or clear) the input-state callback. */
    method SetInputState(present: bool)
      requires Valid()
      modifies this`inputStateSet
      ensures Valid()
      ensures inputStateSet == present
    {
      inputStateSet := present;
    }

    /** `retro_load_game`: content-less, so it only clears the buffer and succeeds. */
    method LoadGame() returns (ok: bool)
      requires Valid()
      modifies fb
      ensures ok && fb[..] == Blank()
    {
      ClearFramebuffer();
      ok := true;
    }
  }

  /** A host session: once content-less support is granted, later
      `retro_set_environment` calls never request it again, a frame run
      before init is never delivered, and deinit keeps the last frame. */
  method SessionExample(font: Font)
  {
    var core := new HelloCore(font);
    core.SetVideoRefresh(true);
    core.Run(Joypad(true, false, false, false));
    assert core.delivered == [];
    core.SetEnvironment(true, true);
    assert core.contentlessSet && core.envRequests == [SetSupportNoGame];
    core.SetEnvironment(true, false);
    assert core.contentlessSet && core.envRequests == [SetSupportNoGame] && core.envCallCount == 2;
    core.Init(true);
    core.SetInputState(true);
    core.Run(Joypad(true, false, false, true));
    assert core.squareX == 1 && core.squareY == 0;
    assert |core.delivered| == 1 && core.delivered[0].pitch == 640;
    core.Deinit();
    assert core.squareX == 0 && core.fb[..] == RenderedFrame(font, 1, 0);
  }
}
