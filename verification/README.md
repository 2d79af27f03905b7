# A verified model of the fbsplash splash screen

fbsplash draws a boot splash on a framebuffer. A theme is an ordered list of boxes and icons over a
background picture; a daemon receives text commands and redraws as little as it can. This project
models that daemon in Dafny, function by function from the C sources, and proves what its parts
promise each other.

**The compositor** is a two-level cache: from the scene to a back buffer, and from the back buffer to
the framebuffer. Objects record the rectangles they damage, the rectangle list is normalised in
place, the damaged parts are composed again over the background, and only those parts are copied to
the screen. `Scene` gives the effect of every command as a function on states, `Reference` in
`Objects` gives the picture without any cache, and `Runs` relates the two over whole runs. `Theme`
has the same operations as the program performs them, on heap objects, a linked list, a
two-dimensional back buffer and a flat framebuffer; every method of it is proved to do what `Scene`
says, so the results about runs hold for them. `Session` handles any sequence of events with these
methods, and shows that every object leads the life that `Lives` describes. `Reveals` looks at single pixels of an incremental paint, `Missed` at runs in which
paints miss objects, `FadedRuns` puts fade-ins into runs, and `FirstScreen` gives the first picture of
a theme from its configuration alone.

**Around it** stand the fade scheduler (`Fades`) and the life of an object under it (`Lives`), the
true-colour fade (`FadeColor`, `FadeRun`),
pixel packing (`Pixels`), the service store and its replay (`Services`, `ServiceStore`, `Reloads`), the command
language and its reader (`Commands`, `Fifo`, `Clients`), the message log (`MsgLog`), the text
evaluator (`TextEval`), the UTF-8 decoder (`Utf8`), and the locks and signals (`Locks`).

Run `dafny verify dfyconfig.toml`.

## Findings

Where the code does not do what is expected of it, the model keeps the code as it is, a lemma shows
the failure, and another says exactly when the code is right.

- An interpolated box or cropped icon that becomes visible is not drawn by the next `paint` unless
  its rectangle or colours have moved far enough (`Runs.RevealCanBeMissed`, `Objects.MarksAllIff`);
  `Reveals.PixelRightIff` says for every pixel when it is right, and `Missed.PaintsEndMixed` what can
  be on a pixel however many objects have been missed. Plain boxes and icons are always drawn (`PlainRuns.PlainRunsEndExact`).
- A cropped icon shown for the first time at the progress it was loaded with is drawn over the bound
  of both its crops (`Reveals.FirstShowOverdraws`), which is right if and only if that is where its
  crop is (`Reveals.FirstShowSettlesIff`); `Reveals.PrerenderSettlesIff` has the general condition.
- A gradient box that is one pixel high draws nothing (`Boxes.ThinGradientIsInvisible`);
  `Boxes.GradientShowsIff` says exactly which gradients can be seen.
- A rectangle that lies off the screen is clamped to an edge strip instead of vanishing
  (`Rects.SanitizeExact`): a box is painted there (`Objects.BoxOnScreenIff`), and for an icon the
  drawing routine reads outside the picture (`Objects.IconReadsInsideIff`), as it does for a crop
  beyond the picture (`Objects.CropReadsInsideIff`).
- The byte-offset path of `put_pixel` is chosen by component lengths alone; it agrees with the
  general path only for byte-aligned components (`Pixels.PathsAgreeIffAligned`).
- A fade shorter than ten milliseconds gets a waiting time of zero and never ends
  (`Fades.FadeEndsIff`), a fade-out as short never hides its object (`Fades.FadeOutHidesIff`), and
  either keeps the list of fading objects from emptying (`Fades.AllFadesEndIff`); a delay of more than
  32 seconds beyond the waiting time wraps the 16-bit counter, and the object keeps waiting
  (`Fades.ExpiresIff`).
- An icon that is wanted again during its blend-out goes on falling and vanishes
  (`Lives.WantedAgainVanishes`); `Lives.SettlesIff` says exactly when a command gets the visibility it
  asked for.
- A repaint with fade-in clears the margins and does not write the padding bytes, so the window is
  what a plain repaint leaves if and only if the padding is zero (`FadedRuns.FadedInShowsIff`).
- A fade-in leaves wrong colours on 24- and 32-bit pixels with components of fewer than eight bits
  (`FadeColor.FadeInExactIff`).
- A message log of one line loses its head at the second message and follows a null pointer at the
  third; a bare `log` command passes a null pointer (`MsgLog.LogIsLastIff`, `MsgLog.AfterIs`).
- `paint rect` also runs `paint`, because the command loop does not stop at a match
  (`Commands.PrintedDispatchIff`, `Clients.TextRunsCommand`).
- A message longer than 254 characters loses its newline and swallows the next one
  (`Commands.LongMessageSwallowsNext`, `Commands.SentWholeIff`), and a message is used as a format, so
  that percent signs have to be doubled (`Commands.SentIff`).
- A line of 4095 characters or more is read in pieces, each of which loses its last character
  (`Commands.LongLineIsCut`); shorter ones are read whole (`Commands.RequestsArrive`).
- A reload replays the last service states only. It brings back icons that have vanished although
  their state was the last one (`Reloads.ReloadRevives`), hides icons that are still blending out, and
  shows objects of the textbox even when the textbox is off. `Reloads.ReloadSettledIff` and
  `Reloads.ReloadListedIff` say exactly when an object is as visible as before, and
  `Reloads.ReloadAgreesIff` says it for every object and every history.
- If SIGUSR1 and SIGUSR2 are pending together, the daemon can take the terminal for its own when it
  is not, and write to a framebuffer that belongs to somebody else (`Locks.OverlapIsStale`,
  `Locks.AckIff`).
- `progress`, `log`, `set message` and the F3 key change the theme without the paint lock
  (`Locks.BareTouchRaces`); threads never meet at the theme if and only if none of these four routines
  is used (`Locks.AccessAloneIff`).
- Four-byte UTF-8 sequences are decoded to their low sixteen bits (`Utf8.InvertsIff`), and a text whose
  last sequence is cut off is read past its end (`Utf8.StopsAtEndIff`).

## Model

| member | source | states |
|---|---|---|
| Runs.RunsEndExact | core/src/render.c:718-774 | any run of commands that ends in a paint, repaint or animation round with the silent terminal in front and a synchronised history ends with back buffer and framebuffer window equal to the cache-free composition at every pixel; ending in a repaint or animation round always synchronises |
| Runs.RunKeeps | core/src/libfbsplashrender.c:354-370 | every run from any well-formed state, whatever the buffers hold, stays well-formed and keeps the invariant that ties caches, pending rectangles, back buffer and framebuffer together while its history is synchronised |
| Runs.StepKeeps | core/src/libfbsplashrender.c:385-410 | each single command keeps that invariant, with the history updated alongside |
| Runs.BetweenPaints | core/src/render.c:718-774 | while the history is synchronised, the back buffer can differ from the composition only inside pending rectangles and inside the old or new area of an invalidated visible object |
| Runs.WindowShowsBuffer | core/src/libfbsplashrender.c:385-410 | from the first repaint in front until the silent terminal is released, the window shows the back buffer, whatever has been revealed, missed or left pending |
| Runs.RepaintFrames | core/src/libfbsplashrender.c:385-410 | so it does in every run that begins with a repaint in front and does not leave the terminal |
| Runs.RepaintIsExact | core/src/libfbsplashrender.c:354-370 | a full repaint gives the exact picture from any well-formed state |
| Runs.PaintIsExact | core/src/libfbsplashrender.c:385-410 | an incremental paint gives the exact picture in a synchronised state if it repaints every revealed object whole |
| Runs.RevealCanBeMissed | core/src/render.c:601-635 | a concrete run of three commands, repaint, service start and paint, that ends with a wrong picture |
| Runs.RunKeepsMargins | core/src/effects.c:28-69 | no run of any commands but drawing by others changes a byte of the framebuffer outside the window |
| Runs.RunProgress | core/src/libfbsplashrender.c:753-763 | after any run the progress is the value in range nearest to that of the last progress command, and the silent terminal is in front if the last switch says so |
| Runs.RepaintKeepsDamage | core/src/libfbsplashrender.c:385-410 | a repaint leaves the pending rectangles in the list |
| Reveals.PixelRightIff | core/src/render.c:718-774 | after an incremental paint of a synchronised state, a repainted pixel is right if and only if stale objects, drawn over their bounding rectangles, do not change it, and any other pixel if and only if it looks the same without the objects revealed since the last paint |
| Reveals.PaintedPixel | core/src/render.c:718-774 | what such a paint leaves at each pixel: in the repainted rectangles the scene with stale objects over their bounding rectangles, elsewhere the scene without the revealed objects |
| Reveals.RepaintedPixelRight | core/src/render.c:718-774 | a repainted pixel is right if it lies in both or in none of bounding rectangle and area of every stale object |
| Missed.PaintsEndMixed | core/src/render.c:718-774 | after a paint, however many reveals have been missed since the last repaint, every pixel is the picture of the current scene without some of the missed objects, with cropped icons that have not moved since loading drawn over their first rectangle; it is the exact picture if none is missed and all caches are consistent |
| Missed.SyncedIsClean | core/src/render.c:718-774 | while the history is synchronised, nothing has been missed |
| Missed.RunKeepsTrail | core/src/render.c:688-774 | in every run, outside the pending rectangles, every pixel of the back buffer is the composition of the scene without the revealed and some of the missed objects, until an inconsistent box cache is mistaken for an up-to-date one or the terminal is released |
| Reveals.PrerenderSettlesIff | core/src/render.c:394-483 | an incremental prerender leaves a consistent cache of the current progress if and only if the cache was consistent before or the routine does not return early |
| Reveals.FirstShowOverdraws | core/src/render.c:601-635 | a cropped icon of a service that is shown for the first time at the progress it was loaded with is drawn over the bound of both crops |
| Reveals.FirstShowSettlesIff | core/src/render.c:897-960 | a loaded cropped icon has a consistent cache if and only if its first bounding rectangle is that of its crop, and its routine returns early until the progress moves the crop |
| Reveals.StepKeepsSettled | core/src/render.c:394-483 | no command makes a consistent cache inconsistent |
| PlainRuns.PlainRunsEndExact | core/src/render.c:718-774 | every run that begins with a repaint and keeps the silent terminal ends exactly after each paint, if only plain objects belong to services or the textbox |
| PlainRuns.RunInStep | core/src/render.c:688-716 | in such runs every prefix from the first repaint on is synchronised and has only plain objects waiting to be revealed |
| FirstScreen.FirstRepaint | core/src/libfbsplashrender.c:418-515 | a repaint of a theme just loaded shows, from its configuration alone, every box and every icon that belongs to no service and is not to fade in, at full opacity, in list order, over the background |
| FirstScreen.LoadAndShow | core/src/libfbsplashrender.c:354-410 | the same for the heap: loading a theme and repainting |
| Scene.RedrawIsUnion | core/src/render.c:750-773 | the second pass gives the full composition on the union of the rectangles and leaves all other pixels alone, however the rectangles overlap, repeat or are ordered |
| Scene.RenderedPixel | core/src/render.c:718-774 | what both passes together leave at each pixel of the back buffer |
| Scene.CompositionIsReference | core/src/render.c:750-773 | compositions agree when each object draws what the cache-free reference draws |
| Objects.PrerenderSettles | core/src/render.c:394-483 | after its prerender routine an object has a consistent cache that belongs to the current progress |
| Objects.DamageIsEnough | core/src/render.c:394-483 | outside the marked rectangles an object draws after an incremental prerender exactly what it drew before |
| Objects.ForcedMarksAll | core/src/render.c:464-482 | a forced prerender marks all of the object |
| Objects.MarksOnlyNear | core/src/render.c:394-483 | no prerender marks a pixel outside the bound of the old and the new rectangle |
| Objects.MarksAllIff | core/src/render.c:402-482 | an incremental prerender marks all of the object if and only if the guards of the optimised branches say that it has moved far enough |
| Objects.CachedIsReference | core/src/render.c:645-679 | a settled and current object draws on screen what the cache-free reference draws |
| Objects.FirstBndCovers | core/src/render.c:897-960 | the first bounding rectangle has every on-screen pixel the object can ever occupy, at any progress |
| Objects.FirstBndIsSmallest | core/src/render.c:897-960 | it is the smallest such rectangle: any that has the object at every progress has it, cut to the screen |
| Objects.LoadedFits | core/src/libfbsplashrender.c:418-515 | objects as parser and loader leave them meet every assumption made about objects, if plain boxes and pictures overlap the screen and crops lie in the picture |
| Objects.BoxOnScreenIff | core/src/render.c:228-249 | a plain box is drawn as its reference if and only if it overlaps the screen or the edge strip it is clamped to is transparent |
| Objects.IconReadsInsideIff | core/src/render.c:582-599 | the part of a plain icon that is drawn lies inside its picture if and only if the icon overlaps the screen |
| Objects.CropReadsInsideIff | core/src/render.c:601-635 | the crop of an icon lies inside its picture at every progress if and only if both ends do, and its first bounding rectangle then does if and only if the picture overlaps the screen |
| Objects.IconFades | core/src/render.c:112-135 | an icon at opacity 0 draws nothing, and more opacity brings every component nearer to the picture |
| Objects.IconBlends | core/src/render.c:112-135 | an icon blends the colour of its own pixel by its alpha scaled with the opacity, rounded down, and draws nothing outside its picture |
| Objects.AreaIsShare | core/src/render.c:373-392 | where every kind of object is at any progress |
| Objects.DrawAtBlends | core/src/render.c:645-679 | what an object of either mode, visible or not, does to any pixel |
| Objects.LastOpaqueShows | core/src/render.c:750-773 | the last opaque object of the list at a pixel decides its colour |
| Objects.SetVisibleIs | core/src/render.c:329-365 | in each case: the fields that change and their values, with the parameters of a fade as shares of opacity and time, and whether the object is marked and listed |
| Objects.LoadedIs | core/src/libfbsplashrender.c:418-515 | a loaded object is opaque unless it is to fade in, invisible only as the icon of a service, invalidated, and has the cache of the progress at loading |
| Objects.Steps | core/src/render.c:315-327 | the number of steps of a fade lies between 10 and 255 |
| Objects.StepsAre | core/src/render.c:315-327 | it is ten below half a second, one for every 50 milliseconds after that, and 255 from 12.8 seconds on |
| Boxes.ClassifiedKeepsColours | core/src/parse.c:1268-1284 | a box classified as solid or gradient keeps its colours and the promise of its attribute bits at every progress value |
| Boxes.ClassifyIff | core/src/parse.c:1268-1284 | exactly when the parser sets the solid and gradient bits of an interpolated box |
| Boxes.ClassifyPlainIff | core/src/parse.c:1287-1294 | a plain box is marked solid exactly when its corners have one colour |
| Boxes.SolidIsAShortcut | core/src/parse.c:1287-1294 | marking a plain box as solid does not change what is drawn if it is more than one pixel high |
| Boxes.MoveAlongX | core/src/render.c:416-438 | when a solid or vertical-gradient box changes its horizontal extent, every pixel whose drawing changes lies in the edge strips |
| Boxes.MoveAlongY | core/src/render.c:440-462 | the same for solid or horizontal-gradient boxes and the vertical extent |
| Boxes.StripsXCoverAll | core/src/render.c:416-438 | the edge strips cover the whole new box if and only if they meet |
| Boxes.StripsYCoverAll | core/src/render.c:440-462 | the same for the other axis |
| Boxes.StripsXAreEdges | core/src/render.c:416-438 | the strips have exactly the pixels between the old and the new place of an edge that moves |
| Boxes.StripsYAreEdges | core/src/render.c:440-462 | the same for the other axis |
| Boxes.GradientInRange | core/src/render.c:490-568 | no gradient component leaves the range of the corner components, so narrowing to bytes loses nothing |
| Boxes.GradientMeetsCorners | core/src/render.c:515-568 | a gradient has exactly its corner colours at the right edge, top and bottom, and also on the left where a row has one colour |
| Boxes.BoxAtEnds | core/src/render.c:373-392 | an interpolated box is its first end at progress 0 and its second end, with the attributes of the first, at full progress |
| Boxes.BoxIsShare | core/src/render.c:373-392 | at every progress, rectangle and corner colours of an interpolated box are the share of the way that the progress is of 65535 |
| Boxes.GradientIsShare | core/src/render.c:515-568 | the colour of every pixel of a gradient: the share of the way down between the corners of each side, then that of the way across between the sides, one step further than the column |
| Boxes.BoxBlends | core/src/render.c:569-578 | a box blends its colour at a pixel by its alpha, and a solid one has that of its upper left corner |
| Boxes.ThinGradientIsInvisible | core/src/render.c:516-545 | a gradient box one pixel high draws nothing |
| Boxes.GradientShowsIff | core/src/render.c:515-568 | a gradient box changes some pixel if and only if it is more than one pixel high and has a right-hand corner that is not transparent, or a left-hand corner of alpha two or more and more than one column |
| Rects.ContainsMeansInclusion | core/src/render.c:214-220 | containment of rectangles is inclusion of their pixel sets |
| Rects.IntersectsMeansSharedPixel | core/src/render.c:195-209 | the intersection test holds exactly when a pixel is shared, and rect_min is then the set of shared pixels |
| Rects.SanitizeCovers | core/src/render.c:228-249 | sanitising loses no on-screen pixel and always gives an on-screen rectangle |
| Rects.SanitizeExact | core/src/render.c:228-249 | sanitising keeps exactly the on-screen part if and only if there is one |
| Rects.InterpolateStaysInBound | core/src/render.c:171-190 | an interpolated rectangle is valid, lies in the common bound of its ends, and meets them at progress 0 and 65535 |
| Rects.MixForward | core/src/render.c:171-179 | more progress moves a coordinate toward its end and never back |
| Rects.MixIsShare | core/src/render.c:171-179 | an interpolated coordinate is exactly the share of the way that the progress is of 65535, truncated toward zero |
| Rects.InterpolateIsShare | core/src/render.c:171-179 | so is every coordinate of an interpolated rectangle, between its own two ends |
| Rects.BoundIsSmallest | core/src/render.c:184-190 | rect_bnd is the smallest rectangle that contains both |
| Rects.SanitizeIsNearest | core/src/render.c:228-249 | the corners of a sanitised rectangle are the places on the screen nearest to its corners |
| Rects.MixOverflow | core/src/render.c:171-179 | 32-bit interpolation is free of overflow at every progress if and only if both coordinates lie in -32768..32768 |
| Rects.MixSame | core/src/render.c:373-392 | equal end values interpolate to themselves |
| Pixels.Blend | core/src/render.c:36-58 | a blended component lies between source and colour; alpha 0 and 255 are the shortcuts of the code |
| Pixels.BlendForward | core/src/render.c:36-58 | more alpha brings a component nearer to the new value and never back |
| Pixels.BlendIsShare | core/src/render.c:36-58 | a blended component is exactly the share that alpha is of 255, rounded down |
| Pixels.FastIsBlended | core/src/render.c:36-53 | the byte-offset path writes that share for each component and no other byte |
| Pixels.GeneralIsBlended | core/src/render.c:54-109 | so does the general path for byte-aligned components, and it clears the padding |
| Pixels.GeneralComponents | core/src/render.c:54-109 | read back at its bit offset, aligned or not, every component the general path writes is that share |
| Pixels.EncodedComponents | core/src/common.c:126-139 | the byte of each component of a pixel in memory |
| Pixels.FastIsOver | core/src/render.c:36-53 | the byte-offset path on the memory image is blending on the decoded pixel |
| Pixels.EncodeDecode | core/src/common.c:126-139 | encoding a decoded pixel restores every byte |
| Pixels.PathsAgree | core/src/render.c:36-109 | for byte-aligned components both paths of put_pixel write the same three colour bytes for every alpha, colour, source and destination |
| Pixels.PathsAgreeIffAligned | core/src/common.c:112-139 | they agree on all inputs if and only if the components are byte-aligned |
| Pixels.PutPixel | core/src/render.c:36-109 | put_pixel on arrays, in place or not, writes the bytes of the chosen path and no others, with every component blended by alpha |
| Blit.NormalizeIsMaximal | core/src/render.c:282-307 | normalising keeps exactly the rectangles that no other one contains, each once |
| Blit.NormalizeIsAntichain | core/src/render.c:282-307 | afterwards no rectangle contains another |
| Blit.NormalizeKeepsCoverage | core/src/render.c:282-307 | the set of covered pixels does not change |
| Blit.BlitNormalize | core/src/render.c:282-307 | the in-place walk over the linked list, with its restarting jump, terminates, computes this normal form and keeps the list well formed |
| Lists.List.Add | core/src/list.c:15-27 | appends, keeping head, tail and links well formed |
| Lists.List.RingAdd | core/src/list.c:33-41 | drops the head and appends for lists of at least two items; a one-item list is left without a head |
| Lists.List.Del | core/src/list.c:58-70 | unlinks one item, keeping the order of the rest and the list well formed |
| Framebuffer.CopiedAllIsUnion | core/src/effects.c:54-69 | copying rectangles in any order and overlap puts the picture on their union and leaves every other byte alone |
| Framebuffer.CopyingDamageShows | core/src/effects.c:54-69 | copying the pending rectangles makes the window show the back buffer everywhere and touches no byte outside the window |
| Framebuffer.FullCopyShows | core/src/effects.c:28-40 | a full copy shows the back buffer whatever was there, margins untouched |
| Framebuffer.FullCopyAt | core/src/effects.c:28-40 | the address of every byte of every pixel of a full copy |
| Framebuffer.CopyKeepsShowing | core/src/effects.c:42-52 | copying any rectangle keeps a window that already shows the picture |
| Framebuffer.PutImg | core/src/effects.c:28-40 | the row loop with its advancing pointer performs the full copy on a flat framebuffer |
| Framebuffer.PaintRect | core/src/effects.c:42-52 | the row loop copies exactly one rectangle |
| Framebuffer.PaintImg | core/src/effects.c:54-69 | the list walk copies all rectangles and leaves the list empty and well formed |
| Rendering.BlitBackground | core/src/render.c:137-149 | restores the background inside a rectangle only |
| Rendering.BoxRender | core/src/render.c:485-580 | the incremental gradient loop draws the closed-form colour at each pixel of the clip rectangle |
| Rendering.IconRender | core/src/render.c:582-599 | draws each icon pixel of the clip rectangle under the opacity of the object |
| Theme.Theme.Load | core/src/libfbsplashrender.c:418-515 | a loaded theme is valid, with arbitrary buffers, no pending rectangle, and exactly the objects that fade in on the list of fading objects |
| Theme.Theme.BlitAdd | core/src/render.c:257-273 | a sanitised copy joins the rectangle list |
| Theme.Theme.BoxPrerender | core/src/render.c:394-483 | the box routine changes object and list exactly as the value-level routine says, on all four branches |
| Theme.Theme.CropPrerender | core/src/render.c:601-635 | the same for cropped icons |
| Theme.Theme.RenderAll | core/src/render.c:718-774 | both passes on the heap compute the two-pass function on objects, list and back buffer |
| Theme.Theme.RebuildBuffer | core/src/libfbsplashrender.c:354-370 | rendering with repaint builds the back buffer from the background as the state machine says |
| Theme.Theme.RepaintScreen | core/src/libfbsplashrender.c:354-410 | the repaint path without effects computes the full repaint of the state machine |
| Theme.Theme.PaintScreen | core/src/libfbsplashrender.c:354-410 | the incremental path computes the partial paint of the state machine |
| Theme.Theme.ObjVisibilitySet | core/src/render.c:329-365 | sets or fades an object and marks its rectangle as the value-level function says |
| Theme.Theme.InvalidateWanted | core/src/render.c:792-842 | the walks of invalidate_service and invalidate_textbox change every object concerned, in order, and no other, and list exactly the objects that begin to fade |
| Theme.Theme.ProgressSet | core/src/libfbsplashrender.c:753-763 | clamps the progress and invalidates exactly the objects that follow it |
| Theme.Theme.CmdPaint | core/src/daemon_cmd.c:264-281 | is the paint step of the state machine, nothing while another terminal is in front |
| Theme.Theme.CmdRepaint | core/src/daemon_cmd.c:288-311 | without effects, is the repaint step of the state machine |
| FadedRuns.CmdRepaint | core/src/daemon_cmd.c:288-311 | with or without the fade-in effect, is the repaint step of runs with effects, and uses the effect up |
| Theme.Theme.CmdPaintRect | core/src/daemon_cmd.c:371-430 | copies the area between two corners given in any order, clamped to the theme |
| Scene.AreaBetweenCorners | core/src/daemon_cmd.c:371-430 | the area between two corners, given in any order, has exactly its pixels on the screen, or is the nearest strip |
| Scene.ClampIsNearestProgress | core/src/libfbsplashrender.c:753-763 | the progress set is the value in range nearest to the one asked for |
| Scene.TouchedIff | core/src/render.c:847-893 | a progress change invalidates interpolated boxes and cropped icons and leaves alone plain objects, which look the same at every progress |
| Theme.Theme.AnimRound | core/src/daemon.c:141-216 | a round of the animation thread is a Tick of the state machine, hides only objects whose step is negative, and leaves list and objects as the pass of the effects loop does, up to drawing caches |
| Session.Handle | core/src/daemon_cmd.c:608-671 | handling any scene event is one step of the state machine and one event in the life of every object |
| Session.Serve | core/src/daemon_cmd.c:608-671 | any sequence of scene events reaches the state of a run with matching commands; it is exact whenever the run result says so, icons follow their services, and every object has led the life these events make |
| Session.ServedSettles | core/src/render.c:329-365 | the visibility of any object of a served theme, with or without blend-out: what the last command that concerned it asked for, if and only if that did not come too late |
| Session.LoadedIsBorn | core/src/libfbsplashrender.c:505-512 | in a theme just loaded every object is at the beginning of its life |
| Fades.RiseExactly | core/src/daemon.c:153-175 | an upward fade rises by its step until the wrap-around is noticed, at the first expiry that would pass 255, and ends at 255 |
| Fades.FallExactly | core/src/daemon.c:153-175 | a downward fade mirrors it and ends at 0 and invisible |
| Fades.FullFade | core/src/render.c:315-365 | the life of a whole fade-in from the parameters that obj_visibility_set gives it |
| Fades.FullFadeOut | core/src/render.c:315-365 | the life of a whole fade-out |
| Fades.ExpiriesBounds | core/src/daemon.c:153-175 | a full fade with n steps takes at least n+1 and at most 2n expiries |
| Fades.FadeTime | core/src/render.c:315-365 | the waiting times of a whole fade add up to more than the time asked for less a millisecond for each step, and to at most twice that time |
| Fades.ExpireKeeps | core/src/daemon.c:153-175 | an expiry invalidates the object, starts the next waiting time, and changes nothing but opacity and visibility besides |
| Fades.WaitPositiveIff | core/src/render.c:329-365 | a fade gets a positive waiting time if and only if it is to last ten milliseconds or more |
| Fades.FadeEndsIff | core/src/daemon.c:147-184 | a started fade-in can end if and only if it is to last ten milliseconds or more |
| Fades.FadeOutHidesIff | core/src/daemon.c:147-184 | a started fade-out can hide its object if and only if it is to last ten milliseconds or more |
| Fades.ExpiresIff | core/src/daemon.c:153-156 | a delay lets the waiting time expire if and only if it reaches it without wrapping the 16-bit counter |
| Fades.AllFadesEnd | core/src/daemon.c:147-184 | repeated passes of the loop, with delays of 1 to 32768 milliseconds, empty any list of objects in the middle of a fade, even if objects are listed more than once; as many passes as entries times the longest fade are enough |
| Fades.AllFadesEndIff | core/src/daemon.c:147-184 | a list can be emptied if and only if no object in it is without a waiting time |
| Fades.PassOfNode | core/src/daemon.c:147-184 | what one pass does to an object listed any number of times, and to its number of entries |
| Fades.PassOverDistinct | core/src/daemon.c:147-184 | a pass over distinct objects visits each once, removes exactly the finished ones, keeps the order of the rest and touches nothing else |
| Fades.EffectsPass | core/src/daemon.c:147-184 | the list walk with deletion and jump computes this pass and keeps the list well formed, even when an object is listed twice |
| Lives.SettlesIff | core/src/render.c:329-365 | whatever service updates, passes of the loop and repaints an object has been through, a command that concerns it has led to the visibility asked for, once its fades are over, if and only if it does not want an object shown that is still listed with a downward fade it does not replace; and what holds before the fades are over |
| Lives.FadesEnd | core/src/daemon.c:147-184 | how many passes it takes until the fades of an object are over, whatever else happens that does not concern it |
| Lives.FadesEndIff | core/src/daemon.c:147-184 | they can end if and only if the object has a waiting time or is not listed |
| Lives.WantedAgainVanishes | core/src/render.c:329-365 | an icon with a blend-out of ten milliseconds or more whose state comes back during it ends invisible |
| Lives.RoundOfPass | core/src/daemon.c:147-184 | a pass over the whole list is a round in the life of each object |
| Lives.SoundStart | core/src/libfbsplashrender.c:505-512 | the loader lists exactly the objects it fades in, with the parameters of a fade |
| Lives.OpaqueStays | core/src/render.h:255-265 | an object that no fade has concerned stays opaque through its whole life |
| FadeColor.FadeInEnds | core/src/effects.c:114-225 | for the same pixels, at 15, 16, 24 and 32 bits, the last step of a fade-in writes exactly the colour bits of the picture, other bits zero |
| FadeColor.FadeInExactIff | core/src/effects.c:192-200 | it does so for every pixel if and only if pixels have sixteen bits or all components have eight |
| FadeColor.FadeOutEnds | core/src/effects.c:162-200 | the last step of a fade-out writes zero bytes in any format |
| FadeColor.ClutIsShare | core/src/effects.c:162-169 | the look-up table holds k sixty-fourths of each value for the k-th step, or what is left of 64 in a fade-out, rounded down |
| FadeColor.ShownIsShare | core/src/effects.c:175-222 | on sixteen-bit pixels or with components of a byte, after the k-th step each component on the screen is exactly k sixty-fourths of that of the picture, rounded down in the precision of the pixel |
| FadeColor.ComponentsMoveOneWay | core/src/effects.c:162-200 | for the same pixels each component on the screen moves in one direction over the 64 steps |
| FadeColor.PackOfFields | core/src/effects.c:153-155 | packing the unpacked components of a word keeps its colour bits and clears the rest |
| FadeRun.FadeTruecolor | core/src/effects.c:114-225 | all loops together: a fade-in ends with the colours of the picture in the window and zero elsewhere, a fade-out with a zero window and everything else unchanged, for any margins and line length |
| FadeRun.LastStepCounts | core/src/effects.c:175-222 | each step overwrites the one before, so only the last is seen |
| FadeRun.AfterSteps | core/src/effects.c:175-222 | after n steps every pixel of the window shows step n |
| FadeRun.ShareOnScreen | core/src/effects.c:114-225 | so after n steps every component of every pixel of the window is n sixty-fourths of that of the picture |
| FadeRun.FadeInShows | core/src/effects.c:114-225 | the result of a whole fade-in, pixel by pixel and byte by byte |
| FadeRun.FadeOutClears | core/src/effects.c:114-225 | the result of a whole fade-out, byte by byte |
| FadedRuns.FadedRunsEndExact | core/src/libfbsplashrender.c:385-410 | a run that switches the fade-in on and off at will ends with the right back buffer and the right colours in the window wherever the run of the same commands without effects ends exactly |
| FadedRuns.FadedRunAlike | core/src/daemon_cmd.c:288-311 | at every point such a run differs from the plain one only in bytes of the framebuffer that hold no colour of the window |
| FadedRuns.FadesOnce | core/src/daemon_cmd.c:288-311 | the first repaint in front after the effect has been set fades in, and no other does |
| FadedRuns.FadedInByte | core/src/effects.c:114-225 | after a fade-in of the back buffer every byte of the framebuffer is the colour byte a plain copy writes, or zero |
| FadedRuns.FadedInShowsIff | core/src/effects.c:114-225 | a fade-in ends with what a plain copy shows if and only if the picture has no padding bytes or they are zero |
| Services.ParseIsLongestMatch | core/src/parse.c:371-392 | the parser of service states finds the longest state name the text begins with, and fails if and only if there is none |
| Services.StateTexts | core/src/parse.c:371-392 | the text of each of the eight states |
| Services.RecordedIsLast | core/src/daemon_cmd.c:437-463 | the store has one entry for each service and holds exactly the last states |
| Services.SetVisibleIff | core/src/render.c:329-365 | a visibility change takes effect at once if and only if it is not a hiding with blend-out |
| Services.VisibleIsLast | core/src/render.c:806-842 | after any updates an icon without blend-out is visible exactly when the last state of its service is its own |
| Services.RunShowsLast | core/src/render.c:806-842 | the same after any run of all commands, as long as the animation thread does not hide the icon |
| Services.RunShowsTextbox | core/src/render.c:786-801 | after any run an object of the textbox without service and blend-out is visible exactly when the last setting of the textbox says so, as long as the animation thread does not hide it |
| Services.ReloadShowsLast | core/src/daemon.c:539-552 | after a reload every service icon, with or without blend-out, is visible exactly when the last state is its own |
| Reloads.ReloadAgreesIff | core/src/daemon.c:539-552 | for every object and every history of updates, presses of F3, passes and paints: when a reload leaves the object as visible as it was, in terms of the last command that concerned it |
| Reloads.ReloadSettledIff | core/src/daemon.c:539-552 | once its fades are over, an icon after a service update, or a textbox object without a service after F3, survives a reload if and only if the command did not come too late and, for F3, switched the textbox on |
| Reloads.ReloadListedIff | core/src/daemon.c:539-552 | an icon that is still listed survives it if and only if it is wanted and no downward fade has ended, or is not wanted and is hidden already |
| Reloads.ReloadUntold | core/src/daemon.c:539-552 | an object that no command has concerned survives every reload |
| Reloads.ReloadRevives | core/src/daemon.c:539-552 | an icon that goes, comes back during its blend-out and vanishes is shown again by a reload |
| Services.CalmRunFollows | core/src/daemon.c:153-175 | objects that never fade out are never hidden by the animation thread, so their icons follow their services over whole runs |
| ServiceStore.Store.Record | core/src/daemon_cmd.c:437-463 | the search loop updates the entry of the service or appends one |
| ServiceStore.CmdUpdateSvc | core/src/daemon_cmd.c:437-483 | an unknown state changes nothing and gives -1; any other is recorded and is the service step of the scene |
| ServiceStore.ReloadTheme | core/src/daemon.c:539-552 | the new theme is the loaded one with all recorded states replayed, and its icons follow the updates made before |
| Commands.PrintedIsRead | core/src/daemon_cmd.c:608-653 | printable arguments survive printing and parsing: words, rest-of-line strings and decimal numbers |
| Commands.RoundTripIff | core/src/daemon_cmd.c:608-653 | arguments of the right kinds survive if and only if they are printable |
| Commands.DecimalRead | core/src/daemon_cmd.c:643-650 | strtol reads back every printed 32-bit number |
| Commands.NumeralRead | core/src/daemon_cmd.c:643-650 | strtol reads hexadecimal numbers after 0x, octal ones after 0 and decimal ones, of any length, and stops at the first other character |
| Commands.StrtolSigned | core/src/daemon_cmd.c:643-650 | it skips blanks of every kind and takes one sign |
| Commands.StrtolReadsIff | core/src/daemon_cmd.c:643-650 | it reads a number if and only if there is a digit after blanks and sign |
| Commands.ToIntWraps | core/src/daemon_cmd.c:643-650 | the number stored in the int is the same modulo 2 to the 32, or that of the nearest long if it has more than 64 bits |
| Commands.FirstArgIs | core/src/daemon_cmd.c:630-652 | any number of spaces before an argument, missing arguments, unreadable numbers, and the last string of a line |
| Commands.TwoCommands | core/src/daemon_cmd.c:505-603 | paint rect and paint are the only two commands that can begin the same line |
| Commands.PrintedDispatchIff | core/src/daemon_cmd.c:624-655 | a printed command reaches its own handler with its arguments, and for paint rect also paint, if and only if the arguments are printable |
| Commands.SentIff | core/src/libfbsplash.c:669-699 | a text is sent as another one if and only if, cut to 255 characters, it is that one with every percent sign doubled |
| Commands.SentWholeIff | core/src/libfbsplash.c:669-699 | a message is sent as it is if and only if it has at most 255 characters and no percent sign |
| Commands.RequestsArrive | core/src/libfbsplash.c:669-699 | any number of sendable requests written to the pipe leads to exactly their handler calls, in order |
| Commands.LongMessageSwallowsNext | core/src/libfbsplash.c:669-699 | a longer message is joined with the one after it |
| Commands.LongLineIsCut | core/src/daemon_cmd.c:608-622 | a line of 4095 characters or more is read in pieces that each lose their last character |
| Clients.TextRunsCommand | core/src/daemon_cmd.c:505-653 | a scene command sent as text has its own effect, and for an area also that of an incremental paint |
| Clients.TextsRunCommands | core/src/daemon_cmd.c:608-653 | the same for any sequence of commands through the pipe, each paint with pointer fields of its own |
| Clients.TextsSetProgress | core/src/daemon_cmd.c:319-323 | after any sequence of scene commands sent as text the progress is the value in range nearest to that of the last progress command |
| Fifo.ParseEntry | core/src/daemon_cmd.c:630-652 | the in-place argument loop, which ends strings by overwriting spaces, leaves pointers to exactly the arguments the parse function reads |
| Fifo.CompareIsPrefix | core/src/daemon_cmd.c:624-628 | comparing the overwritten buffer with a command name still tells whether the line began with it |
| Fifo.HandleLine | core/src/daemon_cmd.c:620-668 | the table search on the buffer makes exactly the calls of the dispatch function |
| Fifo.DaemonComm | core/src/daemon_cmd.c:608-671 | the reading loop serves everything written to the pipe, in chunks of the buffer size |
| MsgLog.Cut | core/src/daemon_cmd.c:347-351 | a stored message is the longest beginning of the message that fits the columns |
| MsgLog.AfterIs | core/src/daemon_cmd.c:342-354 | the state of the message log after any number of messages, missing ones included, for every number of lines |
| MsgLog.LogIsLastIff | core/src/list.c:33-41 | a reader sees exactly the last messages, cut to the columns, if and only if no message is missing and there are two lines or no overflow yet |
| MsgLog.MessageLog.CmdLog | core/src/daemon_cmd.c:342-354 | one message on the linked list, including the loss of the head, the null pointer, and a bare command without a message |
| MsgLog.MessageLog.LogAll | core/src/daemon_cmd.c:342-354 | any number of messages on a new log |
| MsgLog.MessageLog.LogText | core/src/ttf.c:826-853 | the two walks give the joined messages, and the computed length is exactly what the text needs |
| MsgLog.LinesOfJoined | core/src/ttf.c:826-853 | cut at its newlines, the text of the log gives the messages back, in order |
| TextEval.EvalUndoesEscape | core/src/ttf.c:709-759 | evaluating an escaped string gives it back, for every string |
| TextEval.EvalReplacesVariable | core/src/ttf.c:745-749 | the variable between two escaped strings is replaced and nothing else |
| TextEval.PlainStays | core/src/ttf.c:709-759 | a text without backslash and variable stays as it is |
| TextEval.LoneBackslash | core/src/ttf.c:724-742 | a lone backslash at the end is dropped |
| TextEval.EvalFits | core/src/ttf.c:714-722 | the evaluated text fits the computed allocation |
| TextEval.RoomIsTight | core/src/ttf.c:714-722 | and needs all of it for a value of twelve characters |
| TextEval.PercentRange | core/src/ttf.c:747-749 | the percentage lies in 0..100 and grows with the progress |
| TextEval.PercentIsShare | core/src/ttf.c:747-749 | it is the progress in hundredths of 65535, rounded toward zero |
| TextEval.TextEval | core/src/ttf.c:709-759 | the loop writes the evaluated text and a terminator and never leaves the buffer, for any 32-bit number printed |
| Utf8.DecodeEncoded | core/src/ttf.c:274-301 | decoding an encoded string gives each code point cut to sixteen bits |
| Utf8.InvertsIff | core/src/ttf.c:274-301 | decoding inverts encoding if and only if every code point is at most U+FFFF |
| Utf8.StopsAtEndIff | core/src/ttf.c:274-301 | the decoder stops at the end of a text if and only if the text consists of complete sequences |
| Utf8.ReadsBeforeStop | core/src/ttf.c:274-301 | memories that agree before the stopping position are decoded alike, so nothing at or after it is read |
| Utf8.Utf8ToUnicode | core/src/ttf.c:274-301 | the loop stores the decoded units and a terminator, at most one more than the length, and leaves the memory if and only if the stopping position is beyond it |
| Locks.StepInv | core/src/daemon.c:309-336 | every step of every thread and of the kernel keeps the invariant, as long as the terminal is in front when ctty is set to silent |
| Locks.WritesAreOwned | core/src/daemon_cmd.c:264-311 | in every interleaving in which the terminal is in front at each acknowledgement, a thread about to write to the framebuffer holds the paint lock, is the only one, and the terminal is the daemon's |
| Locks.InTurnIsSafe | core/src/daemon.c:309-336 | if each switch signal is handled before the next is sent, no write happens on a foreign terminal |
| Locks.AckIff | core/src/daemon.c:321-333 | from an acknowledgement on, no continuation writes to a foreign framebuffer if and only if the terminal is in front when ctty is set |
| Locks.OverlapIsStale | core/src/daemon.c:346-362 | a legal run with both signals pending that reaches an acknowledgement without the terminal |
| Locks.NoWaitCycle | core/src/daemon_cmd.c:475-480 | in every interleaving, whatever the kernel does, no threads wait for each other in a cycle |
| Locks.HoldersGoOn | core/src/daemon_cmd.c:475-480 | while any thread holds a mutex, some holder can go on |
| Locks.ThemeIsGuarded | core/src/daemon_cmd.c:264-311 | at most one thread at a time is about to change the theme under the paint lock or to write |
| Locks.AccessAloneIff | core/src/daemon_cmd.c:319-354 | for any set of routines with a round of the animation thread, in no interleaving do two threads meet at the theme if and only if the set has none of progress, log, set message and the F3 key |
| Locks.BareTouchRaces | core/src/daemon.c:445-449 | for each of these four routines, a legal run of it and an animation round in which both are at the theme |

## Modelling decisions

- FBSPL_PROGRESS_MAX is 65535 (core/src/fbsplash.h.in:18).
- The back buffer is a two-dimensional array of decoded pixels; `Pixels.EncodeDecode` and
  `Pixels.FastIsOver` say that nothing is lost by that. The framebuffer is a flat array of bytes.
- Gradients are computed in rational arithmetic. Truncation to a byte is the C conversion.
- The comparison of box structures at core/src/render.c:406 also reads pointer fields that
  `box_interpolate` does not set. Whether those bytes agree is an input of the model (`padsEqual`,
  `pads`), and all results hold for every choice.
- Box opacity is ignored by the code (core/src/render.c:571) and by the model; icon opacity is used.
- `Tick` in `Scene` allows any change a pass of the effects loop could make; `Theme.AnimRound` shows
  that the loop makes no other.
- C's `long` has 64 bits and `int` 32. Progress arithmetic is unbounded in the model;
  `Rects.MixOverflow` says when that is right.
- Command texts are C strings, so they contain no NUL.
- In `Locks` a routine is the list of operations other threads can notice. VT_RELDISP 1 gives the
  terminal up if the kernel has asked for it; VT_RELDISP 2 changes nothing.

## Left out

- Theme.Theme.CmdRepaint: has no effects, and Theme.Theme.RepaintScreen neither; `FadedRuns.CmdRepaint` adds the fade-in.
- Theme.Theme.RepaintScreen: the fade-out, which is used at `exit` only, fades in the background by a forked process, and the DIRECTCOLOR fade are not part of runs.
- FadedRuns.FadedRunsEndExact: covers pixels of 24 and 32 bits with components of a whole byte, like the compositor itself, and a framebuffer that is a whole number of lines.
- Objects.LoadedFits: leaves out plain boxes and pictures that lie off the screen and crops beyond the picture, which the parser accepts; `Objects.BoxOnScreenIff`, `Objects.IconReadsInsideIff` and `Objects.CropReadsInsideIff` say what becomes of them. Reads outside a picture have no value to model.
- Theme.Theme.Load: the same, and the memory is always there.
- ServiceStore.ReloadTheme: the same.
- Missed.RunKeepsTrail: nothing is said of the back buffer after an interpolated box of the textbox that has never been on display since loading is revealed with an up-to-date box, until the next repaint.
- Session.Handle: theme, effects, message, log and exit commands are not among the events; `ServiceStore.ReloadTheme`, `FadedRuns.CmdRepaint` and `MsgLog.MessageLog.CmdLog` have their own methods.
- Session.Serve: the same.
- FadeColor.ShownIsShare: leaves out 24- and 32-bit pixels with narrower components, whose values run into each other; `FadeColor.FadeInExactIff` says what becomes of those at the end.
- FadeColor.ComponentsMoveOneWay: the same.
- Theme.Theme.AnimRound: has no animation objects, because the MNG decoder is a library.
- Boxes.GradientInRange: does not model the rounding of floats, only exact rationals.
- Boxes.GradientMeetsCorners: the same, so a float sum that misses its last value by rounding is not covered.
- Boxes.GradientShowsIff: the same.
- Rendering.BoxRender: the same; its accumulators are exact.
- Pixels.PutPixel: covers 24 and 32 bits with 8-bit components, without dithering.
- Fades.EffectsPass: models deletion as unlinking; the program also frees the item, and reads its link once more after deleting the last one.
- Lists.List.RingAdd: models freed items as items that have left the list, so writes through a stale tail are not seen as memory errors.
- MsgLog.MessageLog.CmdLog: the message counter does not overflow.
- ServiceStore.CmdUpdateSvc: the time stamps of service updates are not part of this model, and a missing argument, which makes the program follow a null pointer, is excluded.
- Clients.TextsRunCommands: effects of commands that do not change the scene (theme, mode, terminal, effects, message, log, exit) are not part of it.
- Commands.RequestsArrive: the pipe loses nothing and writers are not interleaved.
- Commands.SentIff: a format that asks for an argument is undefined, also where a C library defines it.
- Locks.WritesAreOwned: SIGALRM, thread cancellation, `set tty`, `set event dev` and the shutdown after `exit` are not part of this model.
- Locks.AccessAloneIff: is about the theme; the list of services, which update_svc extends without a lock while a reload may walk it, is not part of the machine.
- Text objects and FreeType; MNG, PNG and JPEG loading; the font tables.
- Dithering and 8-, 15- and 16-bit drawing (the fade covers 15 and 16 bits); palettes and DIRECTCOLOR; big-endian layouts.
- Verbose mode, whose objects and background the compositor treats alike.
- The configuration grammar, apart from the classification of boxes, the names of service states and the first visibility of icons.
- `fbsplash_get_res`, caches, mounts, /proc and /sys, terminal and framebuffer set-up, failing allocation.
- The decoding loop of the fade reads four bytes for a three-byte pixel, one past the end of the picture for the last one; the model reads three, which are all that is used.
