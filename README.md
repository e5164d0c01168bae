# Hello-world libretro core: verified model

This project models the rendering core of a libretro "hello world" plug-in. The front end loads the module and calls `retro_run` once per frame. Each frame, the core clears a fixed 320x240 RGB565 framebuffer and moves a 20x20 red square by polled joypad input, clamped to the screen. It then blits "Hello World" in white with an 8x8 bitmap font and hands the buffer to the host's video callback. A few lifecycle entry points (`retro_init`, `retro_deinit`, `retro_reset`, `retro_set_environment`) drive a handful of flags around this.

The model has three modules:

- `Raster` (`raster.dfy`) holds the pixel model, written as functions on `seq<Color>`. `Index` maps a cell to its row-major index. `DrawCharSpec`, `DrawStringSpec` and `FillSquareSpec` give the buffer after each primitive, and `RenderedFrame` gives the whole frame. The lemmas turn each of these into a per-cell statement: which cells change, to what value, and inside which box.
- `Cursor` (`cursor.dfy`) holds `StepAxis`, the one-axis move-and-clamp step, with its full outcome table.
- `Core` (`core.dfy`) holds the class `HelloCore`. The framebuffer is an `array<Color>` that is mutated in place. The C globals (`initialized`, `contentless_set`, `env_call_count`, `square_x`, `square_y`, and whether each callback is non-null) are fields. Each method is proved against the `Raster`/`Cursor` functions. `Valid()` is the state invariant: the buffer has its fixed size and the square lies inside the screen.

Host callbacks are not code in this model:

- Whether a callback is registered is a boolean field.
- Each answer the host gives is a method parameter: the four joypad buttons (`Joypad`), whether the host accepts the content-less request, and whether it accepts the pixel format.
- What the core sends to the host is kept in two ghost traces: `envRequests` (environment commands) and `delivered` (video frames, each with its pixels, width, height and pitch).

The glyph table `font_8x8` comes from a header that is not part of this model. It is a constructor parameter of type `Font`: 95 glyphs of 8 rows of 8 bits. Every property holds for any table.

C `char` is modelled as the signed range -128..127 (`CChar`). Where plain `char` is unsigned, the bytes 128..255 are above 126 instead of below 32, so `draw_char` rejects the same bytes either way. A C string is a `seq<CChar>` that ends at its first NUL or at the end of the sequence.

## Model

| member | source | states |
|---|---|---|
| Raster.Index | src/lib.c:9-18 | the cell (px, py) of the 320x240 buffer sits at `py * WIDTH + px`; this index is in the array, and dividing it by WIDTH gives back the cell |
| Raster.CellOfIndex | src/lib.c:18 | every array index is the index of an in-bounds cell, so a per-index spec covers the whole buffer |
| Core.HelloCore.constructor | src/lib.c:13-24 | at load time the static buffer is all zero, every flag is false, the count and the position are 0, and no callback is registered |
| Core.HelloCore.ClearFramebuffer | src/lib.c:68-74 | every cell becomes 0, whatever it held before, so clearing twice is the same as clearing once |
| Raster.DrawCharUnprintable | src/lib.c:78-84 | a character below 32 or above 126 leaves the buffer exactly as it was |
| Raster.DrawCharCell | src/lib.c:85-96 | an in-bounds cell takes `color` if and only if it lies in the 8x8 box at (x, y) and the glyph bit `7-gx` of row `gy` is set; otherwise it keeps its value |
| Raster.DrawCharFootprint | src/lib.c:85-96 | any cell that changes lies in [x, x+8) x [y, y+8), holds `color`, and the character was printable |
| Core.HelloCore.DrawChar | src/lib.c:77-97 | the in-place nested loop leaves the buffer equal to `DrawCharSpec` of the old buffer; every index it writes is in bounds; an unprintable character changes nothing |
| Raster.StrLen | src/lib.c:106 | the number of characters drawn is the position of the first NUL, or the whole sequence if it has none |
| Core.HelloCore.DrawString | src/lib.c:100-110 | the loop with its moving `cx` leaves the buffer equal to drawing each character before the first NUL in turn, with the origin 8 columns further right each time |
| Raster.StringCoversAt | src/lib.c:105-109 | a cell is painted by the string if and only if some character k before the first NUL, drawn at origin (x + 8k, y), covers it |
| Raster.StringCoversBounds | src/lib.c:100-110 | a string only paints rows [y, y+8) and columns [x, x + 8*len) |
| Raster.DrawStringCell | src/lib.c:100-110 | after `draw_string` a cell holds `color` if and only if some character covers it; otherwise it keeps its old value |
| Raster.HelloWorldFootprint | src/lib.c:331 | "Hello World" drawn at (50,50) paints only rows [50,58) and columns [50,138) |
| Cursor.StepAxis | src/lib.c:298-316 | starting inside [0, hi], one axis step stays inside [0, hi] and moves by at most 1; with no button it does not move; with both buttons held at `hi` the result is `hi-1` (for x: WIDTH-21) |
| Cursor.StepAxisTable | src/lib.c:298-316 | the full outcome of one axis with the increase applied and clamped before the decrease: one button moves one unit unless at the edge, and both buttons cancel except at the upper edge |
| Core.HelloCore.HandleInput | src/lib.c:296-316 | with an input-state callback, x steps by right/left and y by down/up, and the cursor stays in range; without the callback the position does not change |
| Raster.SquareUnclipped | src/lib.c:319-324 | while the cursor is in range, all 400 cells of [sx, sx+20) x [sy, sy+20) are in bounds and red |
| Core.HelloCore.DrawSquare | src/lib.c:318-324 | the loop paints exactly the square's cells red and leaves the rest as they were; its upper-bound-only guard never indexes out of the array because the invariant keeps the position non-negative |
| Raster.RenderedFrameCell | src/lib.c:293-331 | each cell of a rendered frame is white where a glyph covers it (the text is drawn last and wins), otherwise red inside the square, otherwise black |
| Core.HelloCore.Run | src/lib.c:284-345 | before init, nothing changes and nothing is delivered; after init, the cursor steps, the buffer equals `RenderedFrame` at the new position, and exactly one 320x240 frame with pitch 640 is delivered if a video callback is set, none if it is not |
| Core.HelloCore.Reset | src/lib.c:273-281 | clears the buffer and puts the square at (0,0), whether or not the core is initialized |
| Core.HelloCore.Init | src/lib.c:175-211 | sets `initialized` and clears the buffer; with an environment callback it requests RGB565, then a shutdown if the host refuses, then the log interface; without the callback it sends nothing |
| Core.HelloCore.Deinit | src/lib.c:214-228 | resets `initialized`, `contentless_set`, `env_call_count` and the position, and leaves the framebuffer untouched |
| Core.HelloCore.SetEnvironment | src/lib.c:113-142 | counts every call, a null callback included; requests content-less support only while it has not been granted; the grant becomes true only if the host accepts and then stays true |
| Core.HelloCore.SetVideoRefresh | src/lib.c:145-151 | records whether a video callback is registered |
| Core.HelloCore.SetInputState | src/lib.c:162-168 | records whether an input-state callback is registered |
| Core.HelloCore.LoadGame | src/lib.c:348-360 | content-less loading clears the buffer and always succeeds |

`Core.SessionExample` is a client of the class, proved from the contracts alone. It shows that the content-less request is sent only once, that a frame run before init is not delivered, that one input frame moves the square by one unit, and that deinit keeps the last frame.

Behaviour of the code that the model keeps:

- `retro_reset` does not check `initialized`.
- `retro_deinit` releases no rendering state. The buffer is static, and it is left as it was along with every registered callback. It does close the log file, which is left out with logging.
- When the host refuses the pixel format, `retro_init` requests a shutdown but still marks the core initialized and goes on to ask for the log interface.
- Only the input-driven cursor exists in this core.

## Left out

- Logging: `log_cb` calls, `fallback_log`, `fallback_log_format` and the `core.log` file, including its `fclose` in `retro_deinit`. These are side-effect-only I/O. The log interface the host may return at init is not modelled; only the request is recorded.
- `input_poll_cb`: it is called only for its side effect, and registering it (`retro_set_input_poll`) is not modelled.
- Metadata queries: `retro_get_system_info` (constant strings) and `retro_get_system_av_info` (fixed 320x240 geometry plus floating-point aspect ratio, frame rate and sample rate).
- Constant-return stubs: `retro_set_controller_port_device`, the audio setters, `retro_unload_game`, `retro_load_game_special`, `retro_get_region`, serialization, cheats, the memory queries and `retro_api_version`. None of them touches modelled state.
- The contents of `font_8x8`: an arbitrary 95x8 table stands in for it.
- The autonomous "bounce" cursor mode: this core does not implement it.
- Aliasing: the host receives a pointer to the framebuffer. Each `delivered` entry is a snapshot of the contents.
- Core.HelloCore.DrawString: coordinates are unbounded integers. The C `int` overflow of `x + gx` or `cx += 8` for origins near `INT_MAX` is not modelled (the core only draws at (50,50)).
- Core.HelloCore.SetEnvironment: `envCallCount` is unbounded. The C `int` would overflow after 2^31-1 calls.
- hello_world_core.c: an earlier tutorial step whose functions are stubs or only log. It is not part of this model.
