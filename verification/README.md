# Verified model of charOS cores

charOS is a freestanding C kernel with a small user-space runtime. This Dafny 4.11
project models twelve of its parts and proves what they are for. Check it with
`dafny verify --resource-limit 2000000 dfyconfig.toml`.

| part of charOS | files | main results |
|---|---|---|
| 2-D graphics | `Gfx.dfy`, `Formats.dfy` | the Bresenham line is the ideal line within half a pixel; clipped blits copy exactly the points in bounds; what each pixel format keeps of a colour |
| compositor | `Damage.dfy`, `Scene.dfy`, `Pictures.dfy`, `Compositor.dfy` | repainting only the damage box equals a full repaint (`Scene.RunThenComposite`), and exactly when three calls break that; what each call does to the picture |
| framebuffer | `Framebuffer.dfy` | after any run of calls, flipping only the dirty box makes the front show all that was drawn |
| window manager | `Windows.dfy`, `WindowManager.dfy`, `Decoration.dfy` | frame, client, z-order and focus stay consistent over every run; the hit test finds the top window; a drag follows the pointer; every visible frame shows its title and who has the focus |
| desktop | `Desktop.dfy`, `Pointing.dfy` | window manager and compositor together: after any run a composite shows the windows as they stand; when the window that is seen is the one that is hit |
| dynamic loader | `ElfSymbols.dfy`, `Tls.dfy`, `Loader.dfy`, `Scope.dfy` | symbol lookup is a scan; the TLS layout and the reference counts survive every run of opens and closes, failures and cycles included; exactly when an open succeeds |
| futex mutex and condition variable | `Futex.dfy`, `Pthread.dfy` | mutual exclusion, no lost wake-up and no deadlock in every interleaving; what a broadcast guarantees, and when it does not |
| user heap | `Brk.dfy`, `Heap.dfy` | the blocks tile the heap over every run; owned memory is disjoint, stays put and is as large as asked for; exactly when a request fails |
| NVMe host | `Nvme.dfy` | the phase protocol accepts exactly the completion of its own command; the device is a flat array of 512-byte sectors |
| CRC and GPT scan | `Crc.dfy`, `Gpt.dfy`, `GptTable.dfy` | the table form is the bit-at-a-time CRC-32, running over sectors as over the whole; damage of up to four bytes is found; the scan reads back every table written |
| UTF-8 | `Utf8.dfy` | decoder and encoder are inverses; the text loops end on every string |
| USB keyboard | `Keyboard.dfy` | replaying all events gives the last report |

Each imperative file of the source is a class, or methods over arrays, whose
contracts tie the fields to functions on values; the theorems over whole runs are
about those functions. `Scene` is the specification `Compositor` is proved against,
`Windows` the one for `WindowManager`. The concurrent protocol is a state machine of
atomic steps. Bit operations on 32-bit checksums are named functions (`Crc.Xor`,
`Crc.Low`, `Crc.Down` for `^`, `& 0xFF`, `>> 8`), bytes in `Utf8` and `Keyboard` are
numbers, and 32-bit sums that can wrap are written with `% 2^32`. `Words.dfy` holds the
machine words and the arithmetic that several parts share.

## Where the code falls short of what it is for

Each item names the lemma with the exact condition or the failing input.

- `comp_cursor_show` on a visible cursor leaves part of the old arrow on the screen
  unless the new box happens to cover all of it that shows: `Scene.CursorShowExact`.
- A slide leaves a trail, because `anim_tick` damages the surface's new place only, unless
  the new place covers what was shown of the old: `Scene.SlideExact`, `Scene.SlideLeavesTrail`.
- `comp_set_bg` leaves the old background wherever nothing is damaged: `Scene.SetBgExact`.
- `wm_hit_test` can return a window other than the one that is seen, after a `wm_create`
  whose surfaces get slots on both sides of another window's: `Pointing.ApplyKeepsOrder`,
  `Pointing.UnseenIsHit`.
- `fb_fill_rect` fills and damages the wrong area when `x + w` or `y + h` wraps:
  `Framebuffer.FillBoxIsClip`.
- `wm_resize` leaves frame and client out of step when the client's allocation fails
  after the frame has changed its size: `Windows.ResizeKeepsInv`.
- A TLS range is misplaced when the sums wrap, and somewhere misaligned for every
  alignment that is not a power of two, which nothing rejects: `Tls.PlacementExact`,
  `Tls.AlignedIff`.
- While a dependency is loading, its parent's TLS offset is still 0, where the first
  placed module is, and the block made for the dependency has the parent's image copied
  under the dependency's own, past the block's end when it is longer:
  `Loader.LoadingOverlaps`, `Loader.NestedBlock`.
- `pthread_cond_broadcast` can be lost unless everybody who signals or broadcasts holds
  the mutex, because `c->seq++` is a load and a store: `Pthread.DisciplineIsExact`. A
  waiter also sleeps, everybody keeping to that rule, when 2^32 increments come between
  its read and its sleep: `Pthread.SleepsIffUnchanged`, `Pthread.FullCircle`.
- `lib_malloc` hands out too little for sizes above 0xFFFFFFF8 and damages the heap when
  its end would wrap: `Heap.ServedExactly`, `Heap.Heap.Malloc`.
- `gpt_scan` takes the entry checksum over whole sectors, so it rejects tables that pass
  the tests of the UEFI Specification when the number of entries is no multiple of 4:
  `Gpt.AcceptanceIff`. It never looks at MyLBA, so it accepts headers meant for another
  sector: `Gpt.AllButMyLba`, `Gpt.Strayed`.
- `kbd_report` loses or keeps a modifier wrongly when its usage also appears in the key
  list: `Keyboard.ReportExact` for one report, `Keyboard.RunExact` over runs.

## Model

| member | source | states |
|---|---|---|
| Scene.RunThenComposite | kernel/drivers/comp.c:379-409 | after any run of the calls of comp.c (create, destroy, move, raise, fill, rectangle, outline, text, damage, arbitrary drawing with damage, resize, show/hide, fades, slides and their ticks, background, cursor, composites in between) from an empty desk, one more comp_composite leaves the RGB of every back-buffer pixel equal to a from-scratch bottom-to-top repaint of all surfaces plus cursor; the three calls that damage too little are used where that does not show (QuietRun), which the rows below make exact |
| Scene.UsualRunThenComposite | kernel/drivers/comp.c:84-505 | so in every run, without any condition, of all calls but comp_slide_in, comp_set_bg and comp_cursor_show |
| Scene.SlideExact | kernel/drivers/comp.c:474-483 | anim_tick damages the new place of a sliding surface only: for every slide and screen, that is harmless in every scene if and only if the surface does not show, or all of its old place on the screen is in the new one |
| Scene.SlideLeavesTrail | kernel/drivers/comp.c:441-505 | the failing half: a run from an empty desk, slide included, after which a composite does not show the scene |
| Scene.SetBgExact | kernel/drivers/comp.c:231-231 | comp_set_bg damages nothing: for every colour, screen and damage, that is harmless in every scene if and only if the colour stays or the whole screen is damaged already |
| Scene.SlideInStartIsLocal | kernel/drivers/comp.c:441-454 | starting a slide damages the surface at both places |
| Scene.PaintIsLocal | kernel/drivers/comp.c:225-238 | drawing anything on a surface through comp_surface is covered by comp_damage_all |
| Scene.DamageIsLocal | kernel/drivers/comp.c:214-229 | comp_damage and comp_damage_all change no pixel |
| Scene.StepKeepsSettled | kernel/drivers/comp.c:379-409 | the invariant behind it: outside the accumulated damage box the back buffer always shows the scene, over every call and every composite |
| Scene.RunKeepsSettled | kernel/drivers/comp.c:84-505 | the same over whole runs |
| Scene.FreshIsSettled | kernel/drivers/comp.c:59-76 | a cleared back buffer and an empty surface table satisfy the invariant |
| Scene.RepaintShowsScene | kernel/drivers/comp.c:379-409 | repainting only the damage box, surfaces clipped to it and the cursor unclipped, of a settled buffer shows the whole scene |
| Scene.PaintLayersIsStack | kernel/drivers/comp.c:386-397 | the layered blits inside the box compute, pixel by pixel, the stacking of the surfaces; outside the box they write nothing |
| Scene.RepaintTouches | kernel/drivers/comp.c:379-407 | a repaint writes only inside the damage box and the cursor rectangle, the two areas handed to fb_damage |
| Scene.ChangeIsLocalOp | kernel/drivers/comp.c:84-505 | every single call, whatever its arguments, changes the scene only where damage is, the three calls where they are quiet |
| Scene.UsualIsLocal | kernel/drivers/comp.c:84-505 | all calls but those three do so in every state, and keep the table well formed |
| Scene.CreateIsLocal | kernel/drivers/comp.c:84-106 | comp_create shows nothing outside the new surface it damages |
| Scene.DestroyIsLocal | kernel/drivers/comp.c:108-115 | comp_destroy damages all that vanishes |
| Scene.MoveIsLocal | kernel/drivers/comp.c:117-123 | comp_move damages both the old and the new place |
| Scene.RaiseIsLocal | kernel/drivers/comp.c:125-144 | reordering the table changes only pixels of the raised surface, all of them damaged |
| Scene.StackRaise | kernel/drivers/comp.c:125-144 | where the raised surface is transparent or absent the reordered stack shows the same pixel |
| Scene.RaiseWf | kernel/drivers/comp.c:125-144 | after a raise the table has the same surfaces, with distinct ids |
| Scene.DrawIsLocal | kernel/drivers/comp.c:146-165 | drawing any set of points inside a rectangle of a surface is covered by damaging that rectangle clipped to the surface |
| Scene.FillIsLocal | kernel/drivers/comp.c:146-151 | likewise for a fill of the whole surface |
| Scene.ResizeIsLocal | kernel/drivers/comp.c:167-182 | comp_resize damages both extents |
| Scene.SetVisibleIsLocal | kernel/drivers/comp.c:184-194 | showing and hiding damage the whole surface |
| Scene.FadeInStartIsLocal | kernel/drivers/comp.c:419-429 | starting a fade-in damages all it changes |
| Scene.FadeOutStartIsLocal | kernel/drivers/comp.c:431-439 | starting a fade-out changes no pixel that is not damaged |
| Scene.TickIsLocal | kernel/drivers/comp.c:456-493 | one animation step changes only damaged pixels, for a slide if it leaves no trail |
| Scene.TickSlotOk | kernel/drivers/comp.c:456-493 | and keeps the frame counters and alpha in range |
| Scene.CursorIsLocal | kernel/drivers/comp.c:268-289 | moving and hiding the cursor damage arrow and shadow at both places; showing a hidden cursor does too |
| Scene.CursorShowExact | kernel/drivers/comp.c:272-276 | comp_cursor_show on a visible cursor does not damage the old place: for every old and new position, on the screen or partly off it, that is harmless for every scene if and only if the cursor was hidden or the new box covers all that shows of the old arrow and shadow |
| Scene.CoveredOnScreen | kernel/drivers/comp.c:254-276 | for a cursor wholly on the screen that means: the same row, and at most three columns to the left |
| Scene.CursorLeavesMark | kernel/drivers/comp.c:272-276 | the failing half: each pixel of the old arrow outside the new box stays on an empty desk |
| Pictures.TopPixel | kernel/drivers/comp.c:323-397 | the pixel of a scene: where a surface is the topmost that shows, its own pixel if its alpha is 255, else that pixel blended by alpha/255 over what is below |
| Pictures.BarePixel | kernel/drivers/comp.c:386-397 | where no surface shows, the background |
| Pictures.CursorPixel | kernel/drivers/comp.c:297-320 | the cursor is over everything: its arrow white, its shadow one pixel to the right and below black where the arrow is not |
| Pictures.CreateShows | kernel/drivers/comp.c:84-106 | comp_create succeeds exactly with a size in range, a free record and memory; the new surface has a new id and is black, visible, opaque, still and at the top left corner |
| Pictures.DestroyForgets | kernel/drivers/comp.c:108-115 | comp_destroy leaves no surface of that id |
| Pictures.FieldsAfter | kernel/drivers/comp.c:117-195 | what comp_move, comp_set_visible, comp_fade_in, comp_fade_out and comp_slide_in make of the fields of the surface they name |
| Pictures.FillShows | kernel/drivers/comp.c:146-151 | comp_fill gives every pixel of the surface the colour, and changes nothing else of it |
| Pictures.FillRectShows | kernel/drivers/comp.c:153-158 | comp_fill_rect exactly the pixels of the rectangle |
| Pictures.OutlineShows | kernel/drivers/comp.c:160-165 | comp_rect exactly the pixels on the edges of the rectangle |
| Pictures.TextShows | kernel/drivers/comp.c:206-212 | comp_text exactly the set bits of the glyphs, eight columns a character |
| Pictures.ResizeKeepsContent | kernel/drivers/comp.c:167-182 | comp_resize: every pixel of the new surface is the old pixel there if there was one, and black otherwise; place, visibility and animation stay |
| Pictures.ResizeRefuses | kernel/drivers/comp.c:167-182 | it fails, and changes nothing, exactly without the surface, with a size out of range or without memory |
| Pictures.CursorAfter | kernel/drivers/comp.c:272-289 | where the cursor is, and whether it is on, after its three calls |
| Pictures.StepFrames | kernel/drivers/comp.c:495-505 | comp_anim_step moves every animated surface one frame on, each by itself |
| Pictures.FadeInCourse | kernel/drivers/comp.c:456-493 | after n of a fade-in's total frames the alpha is 255 - 255*(total - n)/total, and at its end 255 and the animation over |
| Pictures.FadeOutCourse | kernel/drivers/comp.c:456-493 | after n of a fade-out's total frames the alpha is 255*(total - n)/total; at its end the surface is hidden |
| Pictures.FadesAreMonotone | kernel/drivers/comp.c:456-493 | so a fade-in never gets fainter and a fade-out never stronger |
| Pictures.SlideCourse | kernel/drivers/comp.c:456-493 | after n of a slide's total frames the surface is n/total of the way, rounded towards its start, and at the end at its place |
| Pictures.DamageIs | kernel/drivers/comp.c:46-195 | the calls on whole surfaces damage no more than needed: the least box around the old damage and the surface's rectangle before and after the call |
| Pictures.CursorDamageIs | kernel/drivers/comp.c:268-289 | and the cursor its 13 by 13 square |
| Pictures.PartDamageIs | kernel/drivers/comp.c:153-223 | and comp_damage and comp_fill_rect the part of the rectangle that is on the surface |
| Damage.Clip | kernel/drivers/comp.c:46-51 | the clipped box holds exactly the on-screen points of the rectangle |
| Damage.Hull | kernel/drivers/comp.c:52-56 | the grown box holds every point of both boxes |
| Damage.HullIsLeast | kernel/drivers/comp.c:46-57 | and is the least box that does |
| Compositor.Compositor.constructor | kernel/drivers/comp.c:59-76 | the compositor starts with an empty table, nothing damaged and comp_back on the framebuffer's back buffer |
| Compositor.Compositor.DmgAdd | kernel/drivers/comp.c:46-57 | g_dirty and gx0..gy1 become the least box over the old one and the clipped rectangle |
| Compositor.Compositor.Get | kernel/drivers/comp.c:78-82 | comp_get finds the one used record with the id, or none |
| Compositor.Compositor.Create | kernel/drivers/comp.c:84-106 | the record table, ids and damage after comp_create are those of Scene.Create, error cases included |
| Compositor.Compositor.Destroy | kernel/drivers/comp.c:108-115 | the same for comp_destroy |
| Compositor.Compositor.Move | kernel/drivers/comp.c:117-123 | the same for comp_move |
| Compositor.Compositor.Raise | kernel/drivers/comp.c:125-144 | the in-place reordering through the temporary array yields Scene.Raise |
| Compositor.Compositor.TakeOut | kernel/drivers/comp.c:129-133 | closing the gap shifts the later records down by one |
| Compositor.Compositor.Reorder | kernel/drivers/comp.c:125-141 | the three list loops together move one record behind the used ones and keep the others' order |
| Compositor.Compositor.Fill | kernel/drivers/comp.c:146-151 | pixels and damage after comp_fill are those of Scene.Fill, and no other surface's buffer changes |
| Compositor.Compositor.FillRect | kernel/drivers/comp.c:153-158 | the same for comp_fill_rect |
| Compositor.Compositor.Outline | kernel/drivers/comp.c:160-165 | the same for comp_rect |
| Compositor.Compositor.Text | kernel/drivers/comp.c:206-212 | the same for comp_text |
| Compositor.Compositor.Resize | kernel/drivers/comp.c:167-182 | a new buffer holds the old content, cropped; both extents are damaged |
| Compositor.Compositor.SetVisible | kernel/drivers/comp.c:184-194 | the same for comp_set_visible |
| Compositor.Compositor.DamageRec | kernel/drivers/comp.c:214-223 | comp_damage clips the rectangle to the surface before it is added |
| Compositor.Compositor.FadeIn | kernel/drivers/comp.c:419-429 | the same for comp_fade_in |
| Compositor.Compositor.FadeOut | kernel/drivers/comp.c:431-439 | the same for comp_fade_out |
| Compositor.Compositor.SlideIn | kernel/drivers/comp.c:441-454 | the same for comp_slide_in |
| Compositor.Compositor.SetBg | kernel/drivers/comp.c:231-231 | the same for comp_set_bg |
| Compositor.Compositor.Damage | kernel/drivers/comp.c:214-223 | the same for comp_damage |
| Compositor.Compositor.DamageAll | kernel/drivers/comp.c:225-229 | the same for comp_damage_all |
| Compositor.Compositor.DamageDrawn | kernel/drivers/comp.c:225-238 | comp_damage_all after an application has drawn what it likes on the surface itself |
| Compositor.Compositor.Tick | kernel/drivers/comp.c:456-493 | all branches of anim_tick, alpha and position arithmetic included, are those of Scene.Tick |
| Compositor.Compositor.AnimStep | kernel/drivers/comp.c:495-505 | comp_anim_step ticks every record in order, composites if any was animated and reports whether one still is; without an animation nothing changes; a settled desk on which no slide leaves a trail is then shown |
| Compositor.Compositor.CursorShow | kernel/drivers/comp.c:272-276 | the same for comp_cursor_show |
| Compositor.Compositor.CursorHide | kernel/drivers/comp.c:278-282 | the same for comp_cursor_hide |
| Compositor.Compositor.CursorMove | kernel/drivers/comp.c:284-289 | the same for comp_cursor_move |
| Compositor.Compositor.PaintRecs | kernel/drivers/comp.c:390-399 | the blit loop paints exactly Scene.PaintLayers into the back buffer |
| Compositor.Compositor.DrawCursor | kernel/drivers/comp.c:303-320 | the two passes paint shadow, then arrow |
| Compositor.Compositor.Composite | kernel/drivers/comp.c:379-409 | comp_composite repaints like Scene.Repaint, so a settled buffer then shows the scene; if front and back had agreed outside the framebuffer's dirty box, the front buffer equals the back buffer afterwards; with the GUI layer off nothing changes and the damage stays |
| Compositor.Compositor.FullRepaint | kernel/drivers/comp.c:365-370 | with the GUI layer active the back buffer shows the scene whatever it held before; otherwise the whole screen stays damaged |
| Compositor.Compositor.PaintIsPresented | kernel/drivers/comp.c:401-407 | the two fb_damage calls cover everything a repaint writes, the cursor outside the damage box included |
| Compositor.Compositor.RaiseLinked | kernel/drivers/comp.c:125-144 | after the reordering every record still matches its slot and no two records share a buffer |
| Gfx.Line | kernel/drivers/gfx.c:169-183 | gfx_line ends for every pair of end points with spans up to 715,827,882 (the bound under which the doubled 32-bit err cannot overflow) and paints exactly the points of the ideal line below, clipped |
| Gfx.BresenhamPoint | kernel/drivers/gfx.c:176-182 | at each turn of the loop the current point is point k of the line, k never exceeds max(abs dx, abs dy), and the loop is at its end exactly when k is that maximum |
| Gfx.LineStep | kernel/drivers/gfx.c:179-181 | each turn advances the long axis, keeps err == dx - dy + j*dx - i*dy, keeps 2*abs(i*dy - j*dx) within max(dx,dy), and keeps err small |
| Gfx.OnLineIsLinePoint | kernel/drivers/gfx.c:169-183 | a position within half a pixel of the ideal line (ties one way) is exactly the rounded point of that line |
| Gfx.LineEnds | kernel/drivers/gfx.c:169-183 | the line starts at (x0,y0) and ends at (x1,y1) |
| Gfx.LineAdjacent | kernel/drivers/gfx.c:169-183 | successive points are 8-adjacent and distinct |
| Gfx.RoundHalfDownIs | kernel/drivers/gfx.c:169-183 | the rounding used is the nearest integer, ties down, if and only if the doubled error is in range |
| Gfx.Surface.Put | kernel/drivers/gfx.c:100-117 | surf_put changes the one pixel if it is in bounds and nothing else otherwise, on the 32-bit path |
| Formats.Bytes.Put | kernel/drivers/gfx.c:100-117 | at every depth surf_put changes one pixel, to what the format keeps of the colour, and no byte outside its cell |
| Formats.Bytes.Get | kernel/drivers/gfx.c:119-132 | surf_get reads back what the pixel shows, 0 outside the surface |
| Formats.ShownIs | kernel/drivers/gfx.c:100-132 | at 32 and 24 bits the colour comes back, at 8 bits its low byte, at 16 bits each channel with its top bits, within 7 of 255 for red and blue and 3 for green |
| Formats.Settles | kernel/drivers/gfx.c:100-132 | putting back what a pixel shows changes nothing: the first put loses all that is ever lost |
| Gfx.ClipRect | kernel/drivers/raster.c:11-34 | for all int arguments the clipped rectangle is the intersection with the surface, or empty; the sums fit 64 bits and the results 32 |
| Gfx.FillRect | kernel/drivers/gfx.c:148-158 | paints exactly the in-bounds points of the rectangle |
| Gfx.Rect | kernel/drivers/gfx.c:160-166 | four lines paint exactly the one-pixel border |
| Gfx.HorizontalLine | kernel/drivers/gfx.c:162-163 | a horizontal line is a row of pixels |
| Gfx.VerticalLine | kernel/drivers/gfx.c:164-165 | a vertical line is a column of pixels |
| Gfx.Text | kernel/drivers/gfx.c:259-266 | paints exactly the set bits of the glyphs, eight columns apart |
| Gfx.GlyphDraw | kernel/drivers/gfx.c:247-257 | one glyph, unknown characters drawing nothing |
| Gfx.Blit | kernel/drivers/gfx.c:212-245 | for all bounded, also negative, offsets and sizes: writes exactly the points whose source and target are in bounds, each with the colour the source had before the call, and nothing else; the surfaces may be one and the same where source and target do not overlap |
| Gfx.ClippedCompose | kernel/drivers/gfx.c:216-226 | the two rounds of clipping keep exactly the pairs of in-bounds source and target points |
| Gfx.CopyRow | kernel/drivers/gfx.c:229-235 | the row-copy path copies whole words |
| Gfx.PutRow | kernel/drivers/gfx.c:237-244 | the per-pixel path copies the RGB, so both paths agree on it |
| Gfx.BlitAlpha | kernel/drivers/comp.c:323-359 | every pixel pair in bounds is mixed by alpha/255 per channel; 0 draws nothing and 255 is a plain blit |
| Gfx.BlendMoves | kernel/drivers/comp.c:345-353 | a blended byte has gone the fraction a/255 of the way from the lower byte to the upper, less what the division drops, for all bytes and all a: a small a shows the lower byte, an a near 255 the upper |
| Gfx.BlendBetween | kernel/drivers/comp.c:345-353 | so it lies between the two, 255 over 0 gives a and 0 over 255 gives 255 - a |
| Gfx.BlendNearer | kernel/drivers/comp.c:345-353 | and a larger a never takes it further away from the upper byte |
| Gfx.GlyphAt | kernel/drivers/gfx.c:247-257 | bit (row, column) of a glyph is the pixel that far down and right of its corner |
| Gfx.TextAt | kernel/drivers/gfx.c:259-266 | pixel (i, j) of a text is bit (j, i mod 8) of its character i / 8 |
| Gfx.StampTwice | kernel/drivers/gfx.c:155-157 | painting two sets of points in one colour is painting their union |
| Framebuffer.Screen.Flip | kernel/drivers/fb.c:194-202 | fb_flip copies only the dirty box, and if front and back differed only inside it they are then equal |
| Framebuffer.FlipSyncs | kernel/drivers/fb.c:194-202 | copying a box that covers all differences removes them all |
| Framebuffer.PaintKeepsStep | kernel/drivers/fb.c:39-54 | back-buffer writes inside a box that is then damaged keep all differences inside the dirty box |
| Framebuffer.Screen.Damage | kernel/drivers/fb.c:39-54 | the dirty box grows to the least box over the clipped rectangle, and all differences stay inside it |
| Framebuffer.Screen.DamageAll | kernel/drivers/fb.c:56-60 | the whole screen is dirty |
| Framebuffer.Screen.Perform | kernel/drivers/fb.c:39-202 | each call of fb.c draws as specified and keeps all differences between front and back inside the dirty box |
| Framebuffer.Screen.RunThenFlip | kernel/drivers/fb.c:39-202 | after any run of the calls, whatever was flipped in between, one fb_flip makes the front show exactly what the run has drawn |
| Framebuffer.Screen.PutPixel | kernel/drivers/fb.c:171-175 | writes one pixel if on screen, and keeps the differences inside the dirty box |
| Framebuffer.Screen.FillRect | kernel/drivers/fb.c:182-192 | the pixels written and damaged, with the 32-bit sums as they wrap; the differences stay inside the dirty box |
| Framebuffer.FillBoxIsClip | kernel/drivers/fb.c:182-192 | the filled area is the rectangle clipped to the screen if and only if neither sum wraps, or the clipped rectangle is empty |
| Framebuffer.Screen.Clear | kernel/drivers/fb.c:159-169 | every pixel takes the pattern row's colour and the whole screen is dirty |
| Windows.ApplyKeepsInv | kernel/drivers/wm.c:101-250 | every window-manager operation, all drawing in windows and every compositor call on foreign surfaces keeps: focus is -1 or a live non-minimised window; frames sit at (x,y,w,h), clients at (x+1,y+11,w-2,h-11), both visible exactly when not minimised, client above frame; all surfaces distinct |
| Windows.Run | kernel/drivers/wm.c:35-250 | so does every run of them, resizes that tear excepted |
| Windows.RunFromStart | kernel/drivers/wm.c:35-250 | so the invariant holds in every state reachable from wm_init, over a compositor that may already hold other surfaces |
| Windows.NearKept | kernel/drivers/wm.c:101-251 | when callers move windows, and start and continue drags, within 2^26 of the screen, windows stay within 2^27 |
| Desktop.ApplyIsCalls | kernel/drivers/wm.c:94-251 | what each window-manager operation does to the compositor is what its comp_* calls do, in their order, on every path, failures included |
| Desktop.CallsFit | kernel/drivers/wm.c:94-251 | near the screen every argument of every one of these calls is within the bounds for which the compositor's 32-bit sums are exact |
| Desktop.RunFits | kernel/drivers/wm.c:94-251 | and so over whole runs |
| Desktop.RunIsCalls | kernel/drivers/wm.c:94-251 | a run of the window manager leaves the compositor as the calls of all its operations do |
| Desktop.DesktopIsShown | kernel/drivers/comp.c:379-409 | so after any run of window-manager operations, other programs' calls and drawing in windows, one more composite shows exactly the windows as they then stand |
| Desktop.DesktopFromStart | kernel/drivers/comp.c:379-409 | in particular from wm_init over an empty desk, without any condition when nobody uses the three calls that damage too little |
| Pointing.HitIsSeen | kernel/drivers/wm.c:207-220 | where no window's client is between the surfaces of another, the window whose surface is the topmost shown at a point is the one wm_hit_test returns |
| Pointing.NoneIsHit | kernel/drivers/wm.c:207-220 | wm_hit_test returns -1 exactly where no window shows |
| Pointing.ApplyKeepsOrder | kernel/drivers/wm.c:101-251 | every operation keeps windows in that order, but for a wm_create: exactly when the two lowest free slots have no window's client between them and the second is not between the surfaces of a window |
| Pointing.CreateOrder | kernel/drivers/wm.c:101-128 | after wm_create only the new window can be out of order, and is so exactly when there is such a gap |
| Pointing.FocusMakesOrder | kernel/drivers/wm.c:140-150 | taking the focus puts a window in order with all others |
| Pointing.CreateThenFocus | kernel/drivers/wm.c:101-150 | so wm_create followed by wm_focus keeps the order always |
| Pointing.SeenIsHit | kernel/drivers/wm.c:207-220 | in every state reachable from wm_init by a run whose creations find no gap, the window seen at a point is the one that is hit |
| Pointing.UnseenIsHit | kernel/drivers/wm.c:101-220 | the failing half: a run of four calls from wm_init after which a point in the title bar of the window that is seen hits another one |
| Pointing.TitleBars | kernel/drivers/wm.c:207-220 | that happens wherever two windows overlap in their title bars, the frame of one being below and its client above the other's |
| Pointing.OneOrdered | kernel/drivers/comp.c:84-505 | no compositor call changes the order of two surfaces that it neither raises nor destroys |
| Windows.FrameCallsFit | kernel/drivers/wm.c:84-91 | the rectangles and the text of every redrawn frame are within the compositor's bounds |
| Windows.ResizeKeepsInv | kernel/drivers/wm.c:222-233 | wm_resize keeps the invariant if and only if it is not the case that the frame takes a new size and the client's allocation then fails |
| Windows.ResizeFrameOnly | kernel/drivers/wm.c:222-233 | the torn case: a resized frame alone breaks the layout unless the size is unchanged |
| Windows.ResizeSucceeds | kernel/drivers/wm.c:222-233 | with memory available a resize within limits succeeds and gives exactly the requested size |
| Windows.HitTestIsTop | kernel/drivers/wm.c:207-220 | wm_hit_test returns a window if and only if it is not minimised, contains the point and its client is highest in z-order among those |
| Windows.HitTestMisses | kernel/drivers/wm.c:207-220 | it returns -1 exactly when no non-minimised window contains the point |
| Windows.FocusedIsInFront | kernel/drivers/wm.c:140-150 | a window that takes the focus is hit at every point it contains |
| Windows.FocusTop | kernel/drivers/wm.c:140-150 | because its client ends up above every other surface |
| Windows.CreateKeepsInv | kernel/drivers/wm.c:101-128 | wm_create keeps the invariant, also when either allocation fails |
| Windows.NewPair | kernel/drivers/wm.c:107-112 | the client is created above its frame |
| Windows.DestroyKeepsInv | kernel/drivers/wm.c:130-138 | wm_destroy releases both surfaces and forgets focus and drag |
| Windows.FocusKeepsInv | kernel/drivers/wm.c:140-150 | raising frame then client and redrawing both title bars keeps the invariant |
| Windows.MoveKeepsInv | kernel/drivers/wm.c:154-160 | frame and client move together |
| Windows.DragToKeepsInv | kernel/drivers/wm.c:171-177 | a drag step moves the dragged window or forgets a dead one |
| Windows.DragStartKeepsInv | kernel/drivers/wm.c:162-169 | starting a drag, on a window or beside one |
| Windows.MinimizeKeepsInv | kernel/drivers/wm.c:235-242 | both surfaces hidden and the focus given up |
| Windows.RestoreKeepsInv | kernel/drivers/wm.c:244-251 | both surfaces shown and the focus taken |
| Windows.ForeignKeepsInv | kernel/drivers/comp.c:84-505 | drawing and damaging by anybody on any surface, a window's own included, and every call on surfaces that are no window's, leave every window in order |
| Decoration.DragFollows | kernel/drivers/wm.c:162-177 | after wm_drag_start and any number of wm_drag_to steps the window is where it was plus what the pointer has moved, for every path of the pointer; it has the focus, and no other window has moved |
| Decoration.DragOver | kernel/drivers/wm.c:171-177 | without a drag pointer motions change nothing |
| Decoration.DragEnds | kernel/drivers/wm.c:130-180 | a drag is over after wm_drag_end, after its window is destroyed, and after wm_drag_start on a window that is minimized or not there |
| Decoration.MoveShows | kernel/drivers/wm.c:154-160 | wm_move changes the position of the window it names, and nothing of any other |
| Decoration.FocusShows | kernel/drivers/wm.c:140-150 | wm_focus changes no window; the focus goes to a window that is there and not minimized, and stays otherwise |
| Decoration.MinimizeShows | kernel/drivers/wm.c:235-242 | a minimized window is hidden and loses the focus if it had it; every other window stays as it is |
| Decoration.RestoreShows | kernel/drivers/wm.c:244-251 | a restored window is shown and has the focus |
| Decoration.DestroyShows | kernel/drivers/wm.c:130-138 | a destroyed window is gone, with its focus and its drag; every other stays |
| Decoration.CreateShows | kernel/drivers/wm.c:101-128 | a new window has a new id, the size and colour asked for, the first 23 characters of the title, and is at the top left corner, shown and unfocused; failing, wm_create changes no window |
| Decoration.CreateSucceeds | kernel/drivers/wm.c:101-128 | it succeeds exactly with both sizes from 16 to 1024 and an area within 262144, a free window, two free surfaces and memory for both |
| Decoration.ResizeShows | kernel/drivers/wm.c:222-233 | wm_resize changes the size of the window it names, or, failing, no window |
| Decoration.DrawFrameShows | kernel/drivers/wm.c:84-91 | the picture of a drawn frame, pixel by pixel: the title, in a title bar of ten rows in the colour of the focus or of its absence, in a border of one pixel, around the background |
| Decoration.ApplyDecorates | kernel/drivers/wm.c:84-251 | every operation, also of other clients that draw on no frame, keeps that picture on every window that is not minimized, in the focus's colour exactly on the one that has it |
| Decoration.FramesAlwaysShow | kernel/drivers/wm.c:35-251 | so it is there in every state reachable from wm_init |
| WindowManager.WindowManager.constructor | kernel/drivers/wm.c:35-49 | wm_init: no windows |
| WindowManager.WindowManager.Create | kernel/drivers/wm.c:101-128 | record table, ids and surfaces after wm_create are those of Windows.CreateWin; the invariant holds |
| WindowManager.WindowManager.Destroy | kernel/drivers/wm.c:130-138 | the same for wm_destroy |
| WindowManager.WindowManager.Focus | kernel/drivers/wm.c:140-150 | the same for wm_focus |
| WindowManager.WindowManager.Move | kernel/drivers/wm.c:154-160 | the same for wm_move |
| WindowManager.WindowManager.DragStart | kernel/drivers/wm.c:162-169 | the same for wm_drag_start |
| WindowManager.WindowManager.DragTo | kernel/drivers/wm.c:171-177 | the same for wm_drag_to |
| WindowManager.WindowManager.DragEnd | kernel/drivers/wm.c:179-179 | the same for wm_drag_end |
| WindowManager.WindowManager.Resize | kernel/drivers/wm.c:222-233 | the same for wm_resize; the invariant holds afterwards exactly when the resize did not tear |
| WindowManager.WindowManager.Minimize | kernel/drivers/wm.c:235-242 | the same for wm_minimize |
| WindowManager.WindowManager.Restore | kernel/drivers/wm.c:244-251 | the same for wm_restore |
| WindowManager.WindowManager.ZList | kernel/drivers/comp.c:240-247 | the used ids bottom to top |
| WindowManager.WindowManager.FromSurface | kernel/drivers/wm.c:198-205 | the window a surface belongs to, as frame or client |
| WindowManager.WindowManager.HitTest | kernel/drivers/wm.c:207-220 | the scan of the z-list from the top finds what Windows.HitTest specifies |
| ElfSymbols.ElfHash | user/dl.c:289-298 | the loop computes the System V hash of the rows below, always a 28-bit value |
| ElfSymbols.HashIsLoose | user/dl.c:289-298 | on every name it is the lower 28 bits of the other form of that hash, which folds bits 28 to 31 onto bits 4 to 7 and clears nothing until the end |
| ElfSymbols.ShortHash | user/dl.c:292-292 | up to five characters are only added up as digits of base 16 |
| ElfSymbols.KnownHashes | user/dl.c:289-298 | the values for "ab", "exit" and "syscall", the last of them folded |
| ElfSymbols.HandleLookup | user/dl.c:309-324 | ends on every chain array, cyclic ones included, and returns the address of what the bounded walk finds |
| ElfSymbols.LookupIsScan | user/dl.c:309-324 | on a well-formed table (System V gABI, chapter 5, Hash Table) a name is found if and only if a linear scan finds a definition of it |
| ElfSymbols.LookupIsThe | user/dl.c:309-324 | a uniquely defined name resolves to its own entry |
| ElfSymbols.ChainShort | user/dl.c:313-316 | a chain that ends has no repeats and is shorter than the table, so the hop limit never cuts one off |
| ElfSymbols.WalkOnChain | user/dl.c:314-322 | on such a chain the walk finds a definition exactly when one is on it |
| Scope.ScopeSearch | user/dl.c:329-347 | the copy-zone entry if there is one, else the export, else the definition of the module other than self that is maximal by (global, load order) among those that have one, else null |
| Scope.BestIsUnique | user/dl.c:333-345 | that module is unique, so the search is determined by the table |
| Scope.GlobalsFirst | user/dl.c:329-347 | a global module is found whenever one offers the name, and of those of its class the one that was loaded last |
| Scope.ScanClass | user/dl.c:333-345 | one pass: the latest module of the class that offers the name |
| Scope.SymNext | user/dl.c:355-371 | the first module in load order after the handle that offers the name; null for a bad handle |
| Scope.FindBinding | user/dl.c:265-273 | the first registered entry of the name |
| Tls.AndNotIsRoundDown | user/dl.c:515-515 | x & ~(al-1), bit by bit, is rounding down to a multiple for a power of two al |
| Tls.PlaceIs | user/dl.c:515-515 | without wrap-around the offset is the least multiple of the alignment that is not below the end of the previous module |
| Tls.PlacementExact | user/dl.c:842-848 | for every alignment, behind any number of bytes: the new range is above all earlier ones if and only if the first 32-bit sum does not wrap, and inside the new total if and only if the second does not; for a power of two it is aligned besides |
| Tls.AlignedIff | user/dl.c:842-848 | for an alignment the loader takes from the file unchecked: the offset is a multiple of it wherever the sum does not wrap if and only if it is a power of two |
| Tls.PlaceNeedsPowerOfTwo | user/dl.c:842-848 | an example: alignment 3 behind 4 bytes |
| Loader.Loader.OpenMode | user/dl.c:601-919 | ends on every library set, cyclic dependencies included; re-opening a live name returns the same handle with one more reference and changes nothing else; a successful load passed every check of the file, holds what the file says with one reference, the mode asked for and the next load number, and has all its dependencies live; every module the load brings in has its mode; on success and failure alike live modules keep their references, names stay distinct and the TLS layout is in order |
| Loader.Loader.Open | user/dl.c:601-919 | between top-level calls it succeeds if and only if no mapping and no relocation failed and the path is live or there is a set of files that contains it and the names of all dependencies of its members, each live or loadable, with a free slot for each that is not live; order does not matter |
| Loader.DepPathIs | user/dl.c:823-831 | the path of a dependency: "/lib/" and the name, cut to 23 characters |
| Loader.Loader.Load | user/dl.c:722-911 | the load proper: slot, dependencies, TLS range, relocation outcome, and the common failure exit |
| Loader.Loader.LoadNeeded | user/dl.c:819-839 | on success each dependency is live, and every new module has the mode of the parent; a failing dependency fails the load |
| Loader.Loader.LoadNeed | user/dl.c:820-838 | a dependency equal to the path or already live is skipped, any other is opened, with the mode of its parent; one without a name fails |
| Loader.Loader.PlaceTls | user/dl.c:842-848 | the new range is above the total, mirrored in tls_mod_off, inside the new total, and aligned if its alignment is a power of two |
| Loader.Loader.Rebuild | user/dl.c:510-521 | after the rebuild every module with TLS is inside the total, mirrored, clear of the others and aligned if its alignment is a power of two; nothing else about a module changes |
| Loader.Loader.Abandon | user/dl.c:901-911 | the failure exit frees the slot and leaves everything else in order |
| Loader.Loader.Close | user/dl.c:1009-1036 | fails on a bad handle; otherwise gives up one reference and unloads exactly when it was the last |
| Loader.Loader.Retain | user/dl.c:609-616 | a dedupe hit adds one reference |
| Loader.Loader.BlockMake | user/dl.c:524-539 | in every state, loads under way included, each byte of a fresh thread block is the one the last image over it has there, and it is told whether an image reached past the block; between top-level calls none does, and each module finds its initial image at its offset, followed by zeros |
| Loader.LiveIffOwed | user/dl.c:1009-1017 | between top-level calls a name is live if and only if some open that returned it, a dependency's open counted, has not been closed |
| Loader.LoadingOverlaps | user/dl.c:819-848 | while dependencies load, their parent is still at offset 0, where the first placed module is: the two ranges collide if and only if the parent has TLS, the parent's image lies over another module's range if and only if it is not empty, and past tls_total if and only if it is longer |
| Loader.NestedOpen | user/dl.c:722-848 | that state comes about for any two loadable files: the parent entered, its dependency entered and placed |
| Loader.NestedBlock | user/dl.c:890-892 | the block dl_tls_main then makes for the child: the parent's image is written past its end if and only if it is longer than the block, and the child finds its own image if and only if what the parent left behind it, up to the end of the child's range, is zero |
| Loader.QuietBlock | user/dl.c:524-539 | between top-level calls no image reaches past the block, and every byte of a module's range is its own: no other image lies over it |
| Futex.Table.Wait | kernel/process/futex.c:39-66 | a waiter takes the first free slot if and only if the address is mapped, the word has the expected value and a slot is free |
| Futex.Table.Wake | kernel/process/futex.c:71-90 | the first n waiters of the word in slot order are freed, their number is returned, all other slots stay |
| Futex.OneWoken | kernel/process/futex.c:71-90 | a wake-up finds a waiter whenever there is one |
| Futex.AllWoken | kernel/process/futex.c:71-90 | with as many wake-ups as slots nobody is left waiting |
| Futex.WokenIs | kernel/process/futex.c:71-90 | a wake-up frees exactly as many of the slots that wait on the word in that address space as it may, the first of them, and changes no other |
| Pthread.MutexIsSafe | user/pthread.c:133-153 | in every interleaving of any number of threads: the lock word is 0 exactly when no thread holds the lock, at most one holds it, and while a thread sleeps the lock is marked contended or some thread is awake on its behalf |
| Pthread.StepKeepsMutex | user/pthread.c:133-184 | each atomic step of any thread, and any activity of other users of the futex table, keeps this |
| Pthread.StepWakeup | user/pthread.c:133-153 | no step loses the last thread that looks after the sleepers |
| Pthread.Awoken | user/pthread.c:151-151 | an unlocker's wake-up reaches a sleeper if any is left |
| Pthread.FreeLockIsTaken | user/pthread.c:133-153 | no deadlock: when the lock is free and wanted, even by sleepers only, at most three steps of awake threads give it to one of them |
| Pthread.StepSlots | kernel/process/futex.c:39-90 | a thread sleeps exactly when one table slot holds it, on the word it sleeps on |
| Pthread.BroadcastReachesAll | user/pthread.c:163-184 | in every run in which all who signal or broadcast hold the mutex, and the sequence counter does not come full circle during a wait: once a broadcast has incremented and woken, no thread that read the counter before is asleep, and none goes to sleep |
| Pthread.DisciplineIsExact | user/pthread.c:163-184 | a rule about who must hold the mutex keeps every run from losing a broadcast if and only if it binds all signallers and all broadcasters |
| Pthread.CondIsSafe | user/pthread.c:163-184 | the invariant behind it, for every run in which increments do not overlap |
| Pthread.SleepsIffUnchanged | user/pthread.c:167-167 | a waiter goes to sleep if and only if a slot is free and the number of increments since its read is a multiple of 2^32; barring that wrap, if and only if there was none |
| Pthread.FullCircle | user/pthread.c:163-184 | the wrap is reached: a run in which the holder of the mutex signals, or broadcasts, 2^32 times while a waiter is delayed before its futex_wait, which then sleeps; with broadcasts, all of them missed |
| Pthread.AllRung | user/pthread.c:182-182 | a broadcast's 16 wake-ups leave no waiter asleep |
| Pthread.SignalWakes | user/pthread.c:175-175 | a signal wakes a waiter if there is one |
| Pthread.HoldersDoNotRace | user/pthread.c:172-184 | increments do not overlap when all who signal or broadcast hold the mutex |
| Pthread.RaceLosesBroadcast | user/pthread.c:172-184 | without that, a run for either kind of caller that is let off: a delayed signaller or broadcaster takes the counter back and a waiter sleeps on after a completed broadcast |
| Brk.Break.Set | kernel/memory/brk.c:12-65 | sys_brk: out-of-range requests change nothing; the break gets where it should if and only if that is within the limit and there are frames for all pages it lacks, otherwise it stops at the first page there is no frame for; exactly the pages gained are mapped and exactly those given up unmapped; frames are conserved; every byte below the break stays mapped |
| Heap.Heap.Sbrk | user/libcharos.c:83-94 | succeeds if and only if the break can move that far or the sum wraps; success without a wrap moves the break by exactly the increment, failure leaves the heap's end |
| Heap.Heap.Malloc | user/libcharos.c:96-119 | the first fit, else a new block at the break, else null; null if and only if no free block fits and the break cannot move; the break moves only when no free block fits; the heap is well formed afterwards if and only if the call failed or its numbers did not wrap |
| Heap.RoundedIs | user/libcharos.c:96-98 | a request is rounded to the least positive multiple of 8 that holds it, and to 0 where that exceeds 32 bits |
| Heap.Heap.Free | user/libcharos.c:121-131 | freeing coalesces with all following free blocks, through the list in memory, and keeps the heap well formed |
| Heap.RunKeepsHeap | user/libcharos.c:96-131 | over every run of non-wrapping requests and frees of owned pointers the blocks tile the heap from its base to the break, in address order, and every owned pointer heads a block in use of at least the requested size |
| Heap.PayloadsApart | user/libcharos.c:96-131 | so owned payloads are disjoint, also from each other's headers, and inside the heap |
| Heap.OwnedStays | user/libcharos.c:96-131 | a block stays where it is, with its size, until it is freed |
| Heap.AllocateKeeps | user/libcharos.c:96-119 | an allocation returns memory nobody owned and takes none away |
| Heap.ReleaseKeeps | user/libcharos.c:121-131 | a free gives up its own block and no other, and conserves the sum of headers and sizes |
| Heap.TotalIsExtent | user/libcharos.c:121-131 | headers and sizes add up to the extent of the heap, before and after every operation |
| Heap.CoalescedIs | user/libcharos.c:125-130 | coalescing keeps every block in use, and the block behind the result, if any, is in use |
| Heap.FreedIs | user/libcharos.c:121-131 | exactly the freed block leaves the set of blocks in use |
| Heap.Ordered | user/libcharos.c:74-78 | blocks do not overlap, headers included |
| Heap.WritesKeepList | user/libcharos.c:74-78 | a program that writes only inside its payloads cannot damage the list |
| Heap.ServedExactly | user/libcharos.c:96-114 | a request that gets a pointer has its bytes, within the address space, if and only if its size is at most 0xFFFFFFF8 and the heap's end does not wrap |
| Heap.NothingToMerge | user/libcharos.c:126-127 | neighbours always touch, so the loop stops only at a block in use or at the end |
| Nvme.Host.RunCmd | kernel/drivers/nvme.c:129-177 | with one command outstanding and no time-out: for any number of wraps submission tail and completion head stay equal on both sides, the phases agree, and the entry accepted is the completion of the command just submitted; it fails exactly where the controller has completed the command with an error; only a time-out parts tail and head, and it comes only after the controller has done nothing for the given number of polls |
| Nvme.PhasesNext | kernel/drivers/nvme.c:160-163 | flipping the expected phase at each wrap keeps exactly the entries of the current pass recognisable |
| Nvme.Controller.Work | kernel/drivers/nvme.c:129-177 | the controller the host is proved against: any delay, any status, data moved only for success |
| Nvme.Host.Transfer | kernel/drivers/nvme.c:450-462 | one native block moves through the bounce buffer |
| Nvme.Host.ReadSector | kernel/drivers/nvme.c:464-481 | a successful read returns the sector of the flat view; short of a time-out it succeeds if and only if the sector is within the capacity and no command failed; no read changes any sector; a failed one leaves the caller's buffer |
| Nvme.Host.WriteSector | kernel/drivers/nvme.c:483-503 | a successful write replaces exactly one sector of the flat view, for 512- and 4096-byte blocks; short of a time-out it succeeds if and only if the sector is within the capacity and no command failed; a failed one can affect only that block |
| Nvme.PartWritten | kernel/drivers/nvme.c:494-499 | read-modify-write of a 4096-byte block leaves its other seven sectors unchanged |
| Nvme.OneBlockChanged | kernel/drivers/nvme.c:483-503 | a failed native write shows in no other block's sectors |
| Nvme.Host.ReadMulti | kernel/drivers/nvme.c:505-512 | success returns every sector of the request in order; short of a time-out it succeeds if and only if the device is there, every sector is within the capacity and no command failed; the buffer beyond is untouched |
| Nvme.Host.WriteMulti | kernel/drivers/nvme.c:514-521 | success writes every sector; failure has written a first part, and at most the failing sector's block besides, and comes of a failed command or a sector beyond the capacity |
| Nvme.OverlaidIs | kernel/drivers/nvme.c:514-521 | a written request holds each piece at its sector, even where the sector number wraps, and nothing else changed |
| Nvme.Host.WriteAll | kernel/drivers/nvme.c:483-503 | any number of successful nvme_write_sector calls turns the flat view into the replay of their log |
| Nvme.Host.ReadsLastWrite | kernel/drivers/nvme.c:464-503 | after any such calls nvme_read_sector returns what the last write to its sector wrote, or what the sector held before |
| Nvme.ReplayHasLast | kernel/drivers/nvme.c:464-503 | the replay holds the last write to each sector |
| Crc.Table.Init | kernel/drivers/gpt.c:17-26 | every table entry is eight shifts of the reflected polynomial |
| Crc.Table.Sum | kernel/drivers/gpt.c:28-34 | the table-driven loop computes the bit-at-a-time reflected CRC-32 of the bytes |
| Crc.Table.Step | kernel/drivers/gpt.c:32-32 | one table step takes in one byte |
| Crc.TableStep | kernel/drivers/gpt.c:32-32 | the low byte through the table, exclusive-or the rest shifted down, is eight single shifts: by linearity of the register |
| Crc.CheckValue | kernel/drivers/gpt.c:17-34 | the checksum of "123456789" is 0xCBF43926 |
| Crc.RunIsBits | kernel/drivers/gpt.c:31-32 | a run over bytes is a run over the message's bits, least significant first |
| Crc.ByteIsBits | kernel/drivers/gpt.c:21-23 | taking in a byte at once is taking in its eight bits one by one |
| Crc.RunConcat | kernel/drivers/gpt.c:89-94 | the running value may be carried across any split of the message, as from sector to sector |
| Crc.BurstDetected | kernel/drivers/gpt.c:28-34 | any damage confined to four consecutive bytes changes the checksum |
| Gpt.Scan | kernel/drivers/gpt.c:51-131 | -1 if and only if the arguments are unusable or header or entries fail a check of gpt_scan; otherwise the first slots hold the first partitions in use, in order, at most 16, and the other slots are untouched |
| Gpt.ScanEntries | kernel/drivers/gpt.c:86-130 | reading sector by sector with a running checksum decides as the checksum of the whole array does |
| Gpt.CheckHeader | kernel/drivers/gpt.c:57-84 | accepts a header sector exactly on signature, size, checksum with the field zeroed, and limits |
| Gpt.DamagedHeader | kernel/drivers/gpt.c:62-73 | a header damaged in at most four consecutive bytes behind its checksum field is rejected |
| Gpt.DamagedEntries | kernel/drivers/gpt.c:126-130 | so are entries damaged in at most four consecutive bytes |
| Gpt.ReadAllIs | kernel/drivers/gpt.c:93-93 | byte k of the checked range is byte k mod 512 of sector ent_lba + k/512, as a 32-bit number |
| Gpt.AcceptanceIff | kernel/drivers/gpt.c:51-131 | among headers whose MyLBA is 1 the scan accepts exactly the tables that pass the four tests section 5.3.2 of the UEFI Specification makes of a table (signature, header checksum, MyLBA, checksum of num_ent entries and no more) if and only if num_ent is a multiple of 4 |
| Gpt.AllButMyLba | kernel/drivers/gpt.c:51-131 | for a multiple of 4 the scan accepts what fails those tests exactly when MyLBA is not 1 |
| Gpt.Strayed | kernel/drivers/gpt.c:51-131 | and for every num_ent and every MyLBA it accepts some table whose header says that |
| Gpt.Rejected | kernel/drivers/gpt.c:86-130 | for every num_ent that is no multiple of 4, a table that passes the four tests and that the scan rejects |
| Gpt.RangeIsEntryArray | kernel/drivers/gpt.c:86-87 | because the checked range is the entry array if and only if num_ent is a multiple of 4 |
| Gpt.RestOfSectorCounts | kernel/drivers/gpt.c:86-95 | and otherwise some contents of the rest of the last sector change the checksum |
| Gpt.ReadName | kernel/drivers/gpt.c:112-120 | names are the leading printable low bytes, NUL-padded to 37 |
| Gpt.Read | kernel/drivers/gpt.c:36-44 | little-endian numbers |
| GptTable.EntryReadsBack | kernel/drivers/gpt.c:105-121 | an entry written as section 5.3.3 of the UEFI Specification lays it out (GUIDs, first and last sector, attributes, name in UTF-16) is read back as the partition written, for every partition |
| GptTable.UnusedIsSkipped | kernel/drivers/gpt.c:105-105 | an entry with a zero type is skipped, whatever else is in it |
| GptTable.TableReadsBack | kernel/drivers/gpt.c:97-121 | so a whole array of entries gives the partitions written, in order, without the unused ones |
| GptTable.ScanReadsBack | kernel/drivers/gpt.c:51-131 | and a scan of every disk that holds such a table finds exactly these |
| GptTable.TableCanBeHeld | kernel/drivers/gpt.c:51-131 | which some disk does for every table of up to 256 entries |
| GptTable.NumberOfBytes | kernel/drivers/gpt.c:36-44 | a number written lowest byte first is read back |
| GptTable.LowestByteFirst | kernel/drivers/gpt.c:36-44 | numbers and checksums are little-endian, and the signature spells "EFI PART" |
| Utf8.Decode | kernel/drivers/font.c:10-36 | the loop computes Utf8.Decoded, which the next lemmas characterise |
| Utf8.DecodeEncoded | kernel/drivers/font.c:10-36 | inverts the encoder of section 3 of RFC 3629 on every scalar value but 0, consuming exactly the encoding |
| Utf8.DecodedIsEncoding | kernel/drivers/font.c:10-36 | any result other than 0 and 0xFFFD is a scalar value whose encoding is exactly the bytes consumed: no overlong forms, surrogates or values above 0x10FFFF |
| Utf8.DecodesExactly | kernel/drivers/font.c:10-36 | a scalar value other than those two is returned if and only if its encoding is there |
| Utf8.Advances | kernel/drivers/font.c:10-36 | off the terminator the decoder advances by one to four bytes and never over it |
| Utf8.Consumes | kernel/drivers/font.c:10-36 | it takes in the continuation bytes the first byte announces if all of them are there, whether or not they make a code point, and otherwise the one byte |
| Utf8.Text | kernel/drivers/font.c:97-118 | the text loop ends on every string; each code point, malformed input included, advances the pen once |
| Utf8.TextRoundTrip | kernel/drivers/font.c:97-118 | on encoded text the loop sees exactly the code points that were encoded |
| Keyboard.Device.Report | kernel/drivers/usbhid.c:80-108 | the events emitted and the report remembered over the whole history; short reports are ignored |
| Keyboard.RunReplays | kernel/drivers/usbhid.c:80-108 | after any run of boot reports (Appendix B.1 of the USB HID Class Definition 1.11) whose lists stay below 0xE0, replaying all events from nothing down gives exactly the keys of the last report |
| Keyboard.ReportExact | kernel/drivers/usbhid.c:80-108 | without that restriction one report's events give its keys if and only if no modifier usage is listed where list and modifier byte disagree about it |
| Keyboard.ReportReplays | kernel/drivers/usbhid.c:80-108 | the same key by key |
| Keyboard.RunExact | kernel/drivers/usbhid.c:80-108 | for every run of reports: at its end a key is held as the last report says if and only if the last report that produced an event about the key did not clash about it |
| Keyboard.FaithfulIff | kernel/drivers/usbhid.c:80-108 | replaying is right after every report of a run if and only if no two consecutive reports of it clash |
| Keyboard.ShiftedLetters | kernel/drivers/usbhid.c:80-108 | from A and B to left Shift with C and D: the modifier, then the releases, then the presses, in the order of the lists |
| Keyboard.ClashLosesKey | kernel/drivers/usbhid.c:80-108 | such a disagreement loses a key that is down |

## Left out

Contracts stated for less than every input:

- Gfx.Line: the spans are at most 715,827,882, because twice the 32-bit `err` may reach three times the span.
- Gfx.Surface.Put: 32-bit pixels, as in all primitives over it; Formats.Bytes.Put is surf_put at every depth.
- Gfx.Blit: the surfaces have 32-bit pixels, a surface is not blitted onto an overlapping part of itself (memcpy must not overlap), and sizes and coordinates are at most 2^29 so that the clipping sums do not overflow.
- Scene.RunThenComposite: comp_slide_in's ticks, comp_set_bg and comp_cursor_show only where QuietRun says that what they leave undamaged does not show; Scene.SlideExact, Scene.SetBgExact and Scene.CursorShowExact say that this is exact call by call.
- Pointing.HitIsSeen: of the surfaces of windows; those of other programs may lie above them, and wm_hit_test does not look at them either.
- Compositor.Compositor.constructor: a 32-bit framebuffer mode; the back buffer is then one more 32-bit surface.
- Compositor.Compositor.Move: positions are below 2^28 in magnitude, so that the damage sums do not overflow; likewise for the cursor, and 2^29 for rectangles drawn in a surface.
- Compositor.Compositor.AnimStep: the products of anim_tick (255 times the frames left, a distance times the frames of the slide) fit 32 bits.
- Compositor.Compositor.Composite: the vertical-blank wait and the frame and skip counters are not modelled; the GUI-layer flag is a parameter.
- WindowManager.WindowManager.Create: the window manager is proved over the compositor's abstract state, which Compositor refines; the outcome of each allocation is a parameter.
- WindowManager.WindowManager.Resize: likewise. Positions and drag offsets are unbounded integers; Windows.NearKept says when the compositor's 32-bit bounds hold at its calls, for callers that keep theirs.
- ElfSymbols.HandleLookup: symbol names are what dl_sym_name finds in the string table; that bounded scan is not modelled.
- Loader.Loader.OpenMode: paths of at most 23 characters (longer ones are truncated in the handle and no longer match), TLS sizes and alignments up to 2^28 (an alignment of zero counts as one), and a load counter that does not wrap. The header, segment and dynamic-section checks, the mappings and the relocations are outcomes that may go either way; the failures are counted, and Loader.Loader.Open says that nothing else makes an open fail. A null path, lazy binding, copy relocations and init and fini functions that call back into the loader are not modelled.
- Loader.Loader.Close: a handle is an index, anything else a bad pointer; closing a module does not close its dependencies, in the code as in the model.
- Loader.Loader.BlockMake: the mapping succeeds, and bytes past the block's end are not in the model, only that there were some; the cached block of the main thread and the offsets of blocks made before a later layout change are not modelled.
- Scope.ScopeSearch: the copy zone and the export arrays are given; registering entries is not modelled.
- Futex.Table.Wait: the part before the task blocks; the scheduler is not modelled, nor are wake-ups by signals.
- Pthread.MutexIsSafe: one mutex and one condition variable; threads unlock and wait only while holding the mutex. Fairness is not claimed.
- Brk.Break.Set: frame allocation fails when no frame is left, and only then; page contents are not modelled.
- Heap.Heap.Free: of null or of a pointer that heads a block, as C demands; nothing else moves the break.
- Nvme.Host.RunCmd: nothing is said about later commands after a time-out; the admin queue runs the same code. The number of polls stands for the 3-second limit.
- Nvme.Host.ReadSector: the caller's pointer is not null; capacity is below 2^64 sectors.
- Nvme.Host.WriteSector: likewise.
- Pthread.BroadcastReachesAll: no wait sees 2^32 or more increments; SleepsIffUnchanged says what happens otherwise.
- Gpt.AcceptanceIff: tables within the limits of gpt_scan (128-byte entries, at most 256 of them, at a 32-bit sector number); the backup table that AlternateLBA names is not read, in the code as in the model.
- Gpt.Scan: reading a sector is a function of its number during one scan, and the reader is given; what a failed scan has already written to the first slots is not stated.
- Keyboard.Device.Report: events are those of hid_emit; the constant table from usages to scancodes is not modelled.

Not modelled:

- Drawing on a surface through comp_surface without calling comp_damage or comp_damage_all.
- The midpoint circle, glyph tables, vector fonts, themes and widgets: appearance.
- Controller and PCI initialisation, port I/O, DMA coherence, locks around single calls.
- pthread_create and pthread_join, lib_calloc, gpt_find_charos and the GPT cache, dladdr and program-header iteration, mouse reports: they would add only easy members.
- The rest of the kernel: scheduler, file systems, network, shell.
