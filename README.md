# Weatherpaper core, modelled in Dafny

Weatherpaper is a desktop daemon. It polls a weather feed and picks a wallpaper
whose `codes` attribute lists the current condition code. It then draws a text
overlay onto the wallpaper, as an overlay document describes. This project
models three parts of `weatherpaper.py` and proves properties of them:

- **`getWallpaper`** (module `Catalog`).
  - It scans the `<image>` elements of the image metadata document.
  - Each `codes` attribute is read without its spaces and split at the commas.
  - It keeps the images listed for the code and picks one of them at random.
  - When nothing matches, it falls back to the configured error code.
- **The line loop of `drawOverlayFromFile`** (module `Overlay`).
  - It walks the font blocks and their lines.
  - It decides which lines apply to the status record (ordinary lines, or `errorline`s for the error record).
  - It substitutes the `%token%` placeholders.
  - It resolves negative coordinates against the image edges and applies right alignment.
  - A missing y continues below the previous line.
  - It issues the border strokes (four per ring), then the text itself.
- **The body of `main`'s endless loop** (module `Poller`). A pass:
  - checks the refresh delay;
  - follows the connection-error path, which draws the error image and clears the previous date;
  - tests whether the sample's date is stale;
  - converts the temperature and the humidity with `int()`, as `getHeatIndex` does;
  - applies the hot override;
  - chooses a new wallpaper only when the condition code changed as a number;
  - reloads the settings, which forces a full refresh when they changed.

`main`'s state is the class `Poller.Weatherpaper`. Its methods change its
fields in place, as the loop changes its local variables. Each method is proved
against a specification function: `PollSpec`, `ConnectErrorEvents`,
`SampleSpec`, `NewSampleSpec`, `CodeChangeSpec`, `ReloadSpec`, `StepSpec` and
`RunSpec`. Those functions carry the properties. Across a whole
run, the loop keeps `Consistent`: the previous code always converts with
`int`, and the previous date is cleared or equal to the status date.

Python's string operations are written out in module `Text`:
- `str.replace` is leftmost and non-overlapping;
- `str.split` of an empty string gives `[""]`;
- Python 2's `int()` on a string accepts surrounding whitespace, an optional sign, whitespace between the sign and the digits, and at least one ASCII digit.

The failures of the modelled code that end the program are explicit error values:
- `CatalogError` for `getWallpaper`: an image with neither `codes` nor `<file>`, and the endless fallback;
- `LayoutError` for the overlay: a bad `size`, `fill`, `border`, `x` or `y`, or an `errorline` for a record without `errormsg`;
- `Fault` for the loop: a failed `getWallpaper`, a chosen image without `<file>`, and an `int()` that raises on the temperature or humidity (in `getHeatIndex`) or on a condition code.

Failures inside the recorded calls to `drawOverlayFromFile` and `updateWallpaper` are not among them; see "Left out".

The model takes these as inputs:
- the weather feed: one `Sample` per fetch;
- the clock: microsecond counts;
- the random shuffle: a `pick` number, and the image chosen is `matches[pick % |matches|]`;
- the settings file: a Settings value read after each pass;
- the image size and `draw.textsize`: a `Canvas`.

The calls to `updateWallpaper`, `drawOverlayFromFile` and `updateDesktop` are
recorded as a list of events. The overlay's drawing is the list of
`draw.text` calls, in order. `Overlay.Render` is what one overlay call draws;
the loop records the call and does not evaluate it.

The model follows the code, which is narrower than its documentation suggests:
- there is no `%feelslike%` token;
- there is no cold override;
- a line without an `x` does not inherit the previous x. The fallback names a variable that is never assigned, so it raises; see `Overlay.LineStepOutcome`.

## Model

| member | source | states |
|---|---|---|
| Text.RemoveChar | weatherpaper.py:170 | `replace(' ', '')` leaves no space, and a string without spaces is unchanged. |
| Text.RemoveCharLength | weatherpaper.py:170 | Exactly the spaces are removed: the result is shorter by the number of spaces. |
| Text.RemoveCharKeepsOthers | weatherpaper.py:170 | Every other character survives, and no character appears that was not there. |
| Text.RemoveCharAppend | weatherpaper.py:170 | Removal distributes over concatenation, so the surviving characters keep their order. |
| Text.RemoveCharSingle | weatherpaper.py:170 | One character is dropped if it is a space and kept otherwise. |
| Text.Split | weatherpaper.py:170 | `split(',')` gives at least one token. No token contains a comma. Every character of a token comes from the input. |
| Text.JoinSplit | weatherpaper.py:170 | Joining the tokens of `split(',')` with commas gives back the input. |
| Text.SplitJoin | weatherpaper.py:170 | Splitting comma-free parts joined with commas gives back exactly those parts. |
| Text.Replace | weatherpaper.py:247-258 | The definition of `str.replace`: a left-to-right scan that replaces each occurrence and resumes after it. It has no contract of its own; `ReplaceAbsent`, `ReplaceAbsentChar` and `ReplaceFirst` state its properties. |
| Text.ReplaceAbsent | weatherpaper.py:247-258 | `text.replace(token, v)` leaves a text that does not contain the token unchanged. |
| Text.OccursChar | weatherpaper.py:247-258 | A token with a character the text lacks does not occur in the text. |
| Text.ReplaceAbsentChar | weatherpaper.py:247-258 | So such a text is left unchanged by `replace`. |
| Text.ReplaceFirst | weatherpaper.py:247-258 | `replace` copies the text before the first occurrence of the token, puts the value in its place and goes on after the occurrence. |
| Text.ParseInt | weatherpaper.py:128-135 | The definition of Python 2's `int()` on a string, used at lines 132, 135, 215, 233, 267, 284, 558 and 562. It has no contract of its own; `ParseIntAccepts` and `ParseIntOnlyNumerals` characterise it in both directions. |
| Text.StripLeft | weatherpaper.py:562 | The result of the leading-whitespace strip inside `int()` is no longer than the text. It is empty or starts with a non-whitespace character. |
| Text.StripLeftDrops | weatherpaper.py:562 | The strip drops a prefix made only of whitespace and keeps the rest as it is. |
| Text.StripRight | weatherpaper.py:562 | As `StripLeft`, at the right end. |
| Text.StripRightDrops | weatherpaper.py:562 | The strip drops a suffix made only of whitespace and keeps the rest as it is. |
| Text.ParseIntAccepts | weatherpaper.py:128-135 | `int()` accepts whitespace, an optional sign, whitespace after a sign, digits and whitespace, and returns the signed value of the digits. |
| Text.ParseIntOnlyNumerals | weatherpaper.py:128-135 | Conversely, every string `int()` accepts has that shape, and its value is the signed value of its digits. |
| Text.FormatNat | weatherpaper.py:478 | The decimal form of a natural number is a non-empty string of digits. |
| Text.FormatNatValue | weatherpaper.py:478 | The digits of `FormatNat(n)` read back as `n`. |
| Text.ParseFormat | weatherpaper.py:478-562 | `int(str(n)) == n`. This is why the integer `-1` that starts `previous_weather_code` can be held as the string `"-1"`: `int(previous_weather_code)` gives the same number. |
| Catalog.CodeList | weatherpaper.py:170 | The definition of `codes`: the attribute without spaces, split at commas. It has no contract of its own; `CodeListShape` states its properties. |
| Catalog.CodeListShape | weatherpaper.py:170 | The code list of a `codes` attribute is non-empty. Its codes contain no space or comma. Joined with commas, they give the attribute without its spaces. |
| Catalog.Matches | weatherpaper.py:163-177 | The matches are no more than the images. |
| Catalog.MatchesListed | weatherpaper.py:166-177 | An image is among the matches if and only if it is in the document and listed for the code. |
| Catalog.FirstBroken | weatherpaper.py:166-173 | It finds the first image with no `codes` and no `<file>`, and no earlier image is like that; or it reports that there is none. |
| Catalog.CollectMatches | weatherpaper.py:163-177 | The scan loop either returns the images listed for the code, in order, or fails at the first image whose missing `codes` cannot be reported, because its `<file>` is missing too. |
| Catalog.Selection | weatherpaper.py:151-190 | A broken image fails the call. If the code matches, the result is an image listed for that code. Otherwise, if the error code matches, the result is an image listed for the error code. Otherwise the recursion never returns. The chosen image always has `codes`. |
| Catalog.SelectionReachesEveryMatch | weatherpaper.py:183-190 | Every image listed for the code is chosen by some outcome of the shuffle. |
| Catalog.GetWallpaper | weatherpaper.py:151-190 | The recursive procedure returns exactly `Selection`, including its fallback to the error code. |
| Overlay.BlockStyle | weatherpaper.py:213-237 | A block is usable if and only if its `size` is an integer, it has a `fill`, and any `border` is an integer. Each failure is reported as the first of these checks that fails, for that block. The font is the block's `file` at that size, or the configured font at that size. Fill and right alignment come from the attributes. There is a border if and only if both `border` and `bordercolor` are present, and then it has their values. |
| Overlay.Substitute | weatherpaper.py:247-255 | The nine replacements of an ordinary line, in the source's order. It has no contract of its own; `SubstituteFreeOfTokens`, `SubstituteDegree` and `SubstituteUnit` state its properties. |
| Overlay.SubstituteFreeOfTokens | weatherpaper.py:246-255 | Substitution leaves a template that contains none of the nine tokens unchanged. |
| Overlay.SubstituteDegree | weatherpaper.py:247-255 | The template `%degree%` becomes the degree sign, whatever the status. |
| Overlay.SubstituteUnit | weatherpaper.py:247-255 | The template `%unit%` becomes `C` with metric units and `F` otherwise, whatever the status. |
| Overlay.PassesThree | weatherpaper.py:247-249 | A text that lacks one character of each of three tokens passes their three replacements unchanged. |
| Overlay.ConstantStays | weatherpaper.py:252-255 | A value without `%`, once substituted, is not changed by the last four replacements. |
| Overlay.LineText | weatherpaper.py:240-261 | If the status code is not the error code, exactly the non-`errorline` lines are drawn, with the nine tokens substituted. If it is the error code, exactly the `errorline`s are drawn, with `%errormsg%` substituted. An `errorline` for a record without `errormsg` fails. |
| Overlay.FromEdge | weatherpaper.py:271-273 | A non-negative coordinate is kept. A negative one counts back from the far edge. A coordinate within one extent either way lands on the image. |
| Overlay.DrawX | weatherpaper.py:266-278 | The x is the edge-resolved x. With right alignment, the text's width is subtracted, so the text ends at that x. |
| Overlay.DrawY | weatherpaper.py:280-290 | An explicit y is edge-resolved. A missing one is the previous line's y plus this text's height. With no previous y, there is none. |
| Overlay.RingsLength | weatherpaper.py:293-306 | A border of width `n` makes `4n` strokes, and none when `n <= 0`. |
| Overlay.RingsPaint | weatherpaper.py:293-306 | Every border stroke writes the line's text in the border colour. |
| Overlay.RingsPrefix | weatherpaper.py:294 | The strokes of a narrower border are the first strokes of a wider one. |
| Overlay.RingsAt | weatherpaper.py:294-306 | Strokes `4i..4i+3` are ring `i`: one-pixel orthogonal offsets for ring 0, diagonal offsets of `i` after that. |
| Overlay.LineStep | weatherpaper.py:240-309 | The definition of one iteration of the line loop. It has no contract of its own; `LineStepOutcome` states what it does. |
| Overlay.LineStepOutcome | weatherpaper.py:240-309 | A skipped line draws nothing and keeps y. A drawn line without an integer x fails. So does one without an integer y when no earlier line set y. Otherwise it makes the border strokes in the border colour, then one call in the fill colour at the resolved position, and the next line sees that y. |
| Overlay.LinesFrom | weatherpaper.py:240-309 | The definition of the line loop of one block, with y carried from line to line. `DrawLine` and `RenderOverlay` are proved against it; `LinesSkipped` and `LinesFromErrorLocated` state its properties. |
| Overlay.BlocksFrom | weatherpaper.py:213-309 | The definition of the block loop, with y carried from block to block. `BlocksSkipped` and `BlocksFromErrorLocated` state its properties. |
| Overlay.Render | weatherpaper.py:213-309 | The definition of the draw calls of one overlay document. `RenderOverlay` is proved against it; `RenderErrorLocated` and `ErrorStatusWithoutErrorLines` state its properties. |
| Overlay.RenderErrorLocated | weatherpaper.py:213-309 | When rendering fails, the error names a font block of the document, and a line of that block for a line error. |
| Overlay.BlocksFromErrorLocated | weatherpaper.py:213-309 | The same from any block on: the failing block is that block or a later one. |
| Overlay.LinesFromErrorLocated | weatherpaper.py:240-309 | An error inside a block's line loop is a line error of that block, at that line or a later one. |
| Overlay.ErrorStatusWithoutErrorLines | weatherpaper.py:213-261 | For the error record, a document without `errorline`s draws nothing. It can fail only on a block's own attributes. |
| Overlay.BlocksSkipped | weatherpaper.py:213-261 | The same, from any block on. |
| Overlay.LinesSkipped | weatherpaper.py:240-261 | For the error record, a block without `errorline`s draws nothing and keeps y. |
| Overlay.DrawBorder | weatherpaper.py:293-306 | The border loop issues exactly the strokes of `Strokes`, ring by ring. |
| Overlay.DrawLine | weatherpaper.py:240-309 | The imperative body of the line loop returns exactly `LineStep`. |
| Overlay.RenderOverlay | weatherpaper.py:213-309 | The two nested loops return exactly `Render`: the calls of every block in order, with y carried across blocks, or the first error. |
| Poller.InitialMemory | weatherpaper.py:478-482 | The loop's starting variables satisfy `Consistent`. |
| Poller.FirstPassFetches | weatherpaper.py:478-491 | Starting a week back makes the first pass fetch, as long as the refresh delay is under a week and the clock has not gone back. If that pass continues and the sample has a date, it makes exactly one `updateWallpaper`. |
| Poller.RefreshDue | weatherpaper.py:491 | The refresh test: more than `refresh_delay` minutes since the last fetch. It has no contract of its own; `PollSpec`, `FirstPassFetches` and `ReloadForcesRefresh` state what follows from it. |
| Poller.EffectiveCode | weatherpaper.py:555-559 | The code is `36` or the feed's code. It is `36` when the heat index is used and reaches the threshold, or when the temperature does. Otherwise a temperature that is not an integer fails, and one below the threshold keeps the feed's code. |
| Poller.ErrorStatus | weatherpaper.py:514-520 | The error record has the error code, the message "Could Not Connect" and the chosen file, and no weather data. |
| Poller.ConnectErrorEvents | weatherpaper.py:512-524 | With the overlay off there are no calls. With it on, the image is the one `getWallpaper` picks for the error code. If that fails, or the image has no `<file>`, the pass fails. Otherwise there is one overlay of the error record for that file, then `updateDesktop`. There is never an `updateWallpaper`. |
| Poller.WithRecord | weatherpaper.py:540-549 | The date, code, temperature, condition, humidity, forecast, unit and heat index come from the sample. Title, author, file and error message stay. |
| Poller.WithWallpaper | weatherpaper.py:572-583 | It fails if and only if the image has no `<file>`. Otherwise title and author are the image's, or empty, and the filename is its file. Nothing else in the record changes. |
| Poller.NewSampleSpec | weatherpaper.py:537-587 | Line 549 calls `getHeatIndex`, whose `int()` of the temperature and then of the humidity (lines 130-135) fail the pass when they raise. On success, the sample's fields and the overridden code are copied, and the previous date becomes the sample's date. There is exactly one `updateWallpaper`. The previous code stays numerically equal to the status code. If the code did not change as a number, the wallpaper and the previous code are kept. If it did, title, author and file come from `Selection` for the new code. |
| Poller.NewSampleReaches | weatherpaper.py:537-562 | Once both conversions of `getHeatIndex`, the override and the two code conversions succeed, the new-sample branch carries on as `CodeChangeSpec`, with the sample's fields and the overridden code in the record. |
| Poller.CodeChangeSpec | weatherpaper.py:561-587 | If the code did not change as a number, only `updateWallpaper` is called, with the record unchanged. If it did, a failed `getWallpaper` or a missing `<file>` fails the pass. Otherwise the previous code becomes the new code, and only the title, author and file change, to the chosen image's. Then `updateWallpaper` is called. |
| Poller.SampleSpec | weatherpaper.py:534-587 | A sample whose date equals the previous date only stores that date. `Consistent` holds afterwards whenever the previous code converts. |
| Poller.CountsAppend | weatherpaper.py:501-587 | The counts of `updateWallpaper` calls and error overlays add up over concatenated event lists. |
| Poller.PollSpec | weatherpaper.py:487-587 | If the refresh delay has not passed, nothing happens. `Consistent` is preserved. |
| Poller.PollSpecFetched | weatherpaper.py:491-587 | A pass that fetches and continues records the clock and the sample's date. It draws one error overlay exactly on a connection failure with the overlay on. A date equal to the previous one leaves everything else alone, with no `updateWallpaper`. A new date means both conversions in `getHeatIndex` succeeded, and makes exactly one `updateWallpaper`, last, for the new record. |
| Poller.SampleAfter | weatherpaper.py:533-587 | After the connection-error calls, a continuing sample keeps the last update and stores the date. A repeated date makes no `updateWallpaper`. A new date means both `int()` conversions succeeded and makes exactly one `updateWallpaper`, last, for the new record. |
| Poller.ReloadSpec | weatherpaper.py:594-604 | Unchanged settings change nothing. Changed settings make one `updateWallpaper`, clear the previous date and move the last update a week back. `Consistent` is preserved. |
| Poller.ReloadForcesRefresh | weatherpaper.py:594-604 | After a settings change, the next pass always fetches, if the refresh delay is under a week and the clock has not gone back. If that pass continues and the sample has a date, it makes exactly one `updateWallpaper`. |
| Poller.StepSpec | weatherpaper.py:485-604 | One pass preserves `Consistent` and leaves the reloaded settings in use. |
| Poller.RunSpec | weatherpaper.py:485-604 | Any number of passes preserves `Consistent`. |
| Poller.RunUnfold | weatherpaper.py:485 | A run is its first pass followed, unless that pass was fatal, by the run of the remaining passes. |
| Poller.Weatherpaper.constructor | weatherpaper.py:463-482 | `main` starts with the initial variables, which are `Consistent`, and no calls. |
| Poller.Weatherpaper.Poll | weatherpaper.py:487-587 | The imperative first half of a pass ends as `PollSpec` says, in outcome, variables and calls, and keeps the class invariant. |
| Poller.Weatherpaper.ConnectionLost | weatherpaper.py:501-524 | The connection-error path clears the previous date, changes no other variable and makes the calls of `ConnectErrorEvents`, or fails as it does. |
| Poller.Weatherpaper.Arrived | weatherpaper.py:533-587 | Once the sample has arrived, the state ends as `SampleSpec` says. |
| Poller.Weatherpaper.NewSample | weatherpaper.py:537-587 | The imperative new-sample branch ends as `NewSampleSpec` says. |
| Poller.Weatherpaper.CodeChange | weatherpaper.py:561-587 | The code-change test and the wallpaper choice end as `CodeChangeSpec` says. |
| Poller.Weatherpaper.Reload | weatherpaper.py:594-604 | The settings reload ends as `ReloadSpec` says, and reports whether the settings changed. |
| Poller.Weatherpaper.Step | weatherpaper.py:485-604 | One pass ends as `StepSpec` says. |
| Poller.Weatherpaper.Pass | weatherpaper.py:485-604 | One iteration of the loop in `Run`: it ends as the first pass of the remaining run says, and what is left is the run of the passes after it. |
| Poller.Weatherpaper.Run | weatherpaper.py:485-604 | The loop over a finite list of passes ends as `RunSpec` says. It stops at the first fatal pass and otherwise keeps the class invariant. |

## Left out

- Loading and saving the settings file (`loadSettings`, `saveSettings`), the application lock and the command line. The settings are an input value.
- The weather feed and the network. A fetch is an input `Sample`. The retry loop ends when the sample arrives; a feed that never answers again is not modelled.
- `time.sleep`: it only delays. The clock is an input.
- The arithmetic of `getHeatIndex` and the Celsius/Fahrenheit conversions. They use floating point, so the heat index is an input of the sample. The two `int()` conversions `getHeatIndex` makes first are modelled, as faults of the pass.
- The image library: opening and saving the wallpaper, loading a font (a missing font file is not modelled), and the pixels drawn. The overlay is the list of `draw.text` calls, and the font is recorded as a value.
- `updateWallpaper` and `updateDesktop`: the conditions file, the file copy and the desktop command. They are recorded as events.
- Reading and parsing the XML documents. The model takes the parsed elements as values.
- The commented-out `drawOverlay` and the diagnostic `print`s.
- The state after a fatal outcome. The source ends with an uncaught exception, so the model reports only the fault.
- `random.shuffle`: only the image it moves to the front matters. That image is `matches[pick % |matches|]` for an input `pick`.
- Text.ParseInt: whitespace and digits outside ASCII, which Python 2 `int()` on `unicode` also accepts, are not modelled; only the six characters of `string.whitespace` count as whitespace.
- Poller.WithWallpaper: a `<title>` or `<author>` element with no text gives `None` in the source. The model reads it as an empty string.
- Catalog.Selection: the fallback's endless recursion is reported as `Exhausted`, not as a stack overflow.
- Poller.Weatherpaper.Run: a finite list of passes stands for the endless loop.
- Failures inside the recorded calls. The loop records `drawOverlayFromFile` (line 522) and `updateWallpaper` (lines 587 and 602) as events and does not evaluate them. So it does not model what can stop the program inside them: the `exit(2)` when the wallpaper file cannot be opened (line 203), a `LayoutError` of the overlay document, or a `<file/>` element without text, whose `None` reaches `os.path.join`. `Overlay.Render` states what one overlay call draws or how it fails.
- Poller.Weatherpaper.Run: the run stops at the first fault of the loop itself; a fault inside a recorded call, as in the line above, does not stop it.
