# Portfolio page: pointer trail, showcase carousel and scroll-driven card stack

This project models, in Dafny, the two pieces of the personal portfolio site
that hold real logic, and proves properties of them.

- **Pointer trail** (`trail.dfy`, module `PointerTrail`). The page's background
  canvas keeps an ordered buffer of trail cells `{x, y, opacity}`. A mouse move
  pushes a fully opaque cell when the buffer is empty or the pointer is more than
  `GRID_SIZE / 2` = 20 px from the newest cell. Each animation frame walks the
  buffer from newest to oldest. It lowers each opacity by `FADE_SPEED` = 0.01 and
  splices the cell out once its opacity is at most 0. The buffer is the class
  `TrailBuffer`. Its field `cells` is reassigned the way the component's array is
  pushed to and spliced. `AdvanceFrame` keeps the source's reverse loop with its
  in-place splice. It is proved equal to `Stepped`, a forward reference
  definition: fade every cell, keep those still positive, in order. The
  invariants are proved about `Recorded` and `Stepped`:
  - opacities stay in (0, 1];
  - opacities never decrease from oldest to newest, so a frame only drops a prefix;
  - consecutive cells stay more than 20 px apart;
  - a recorded cell lives exactly 99 frames.
- **Showcase card** (`showcase.dfy`, module `Showcase`). This covers the image
  carousel of each project card on the page: a 4-second tick `(prev + 1) %
  images.length`, clicks on the indicators, and the image shown. It also covers
  the rule that shows a "Live Demo" link.
- **Card stack** (`card_stack.dfy`, module `CardStack`). A pure function maps
  `(scrollProgress, index, totalProjects)` to a card's visual state: translateY
  (with its CSS unit), translateZ, scale, rotateX, opacity and z-index. It has
  three regimes: stacked, in focus and passed. The module also has the card's
  two-digit project number label.

Numbers are Dafny `real`s. `Math.hypot(dx, dy) > 20` is modelled as
`dx*dx + dy*dy > 400`. The two tests agree because the distance is never
negative. The CSS transform string is modelled as a record of its components.

Three facts about the card mapping that the proofs make explicit:

- The mapping jumps at the regime boundaries. A stacked card is tilted by
  `rotateX(2deg)`, while a card entering focus is tilted by 0
  (`FocusEntryJump`). A card leaving focus has scale above 0.5 and
  translateZ below 500 px, while a passed card has scale 0.2 and translateZ
  1000 px (`FocusExitJump`). Only the CSS transition smooths these jumps on
  screen.
- Nothing divides by the card count. The only divisor is the constant
  `0.75 - 0.25`. With zero cards every card progress is `-index`, so no
  guard is needed.
- `cardProgress == 1` is passed, as the half-open test at
  components/project-card.tsx:43 says (`RegimeOf`, `ThreeCardScenario`).

## Model

| member | source | states |
|---|---|---|
| PointerTrail.Recorded | components/ravindu-portfolio.tsx:50-55 | a mouse move adds at most one cell, at the end; earlier cells are untouched; it adds one exactly when the buffer is empty or the newest cell is more than 20 px away, and the new cell is `{x, y, 1.0}` |
| PointerTrail.Fade | components/ravindu-portfolio.tsx:83 | one frame's fade leaves the cell where it was drawn and lowers its opacity by exactly FADE_SPEED |
| PointerTrail.Survivor | components/ravindu-portfolio.tsx:83-84 | a frame removes a cell exactly when its opacity was at most FADE_SPEED; otherwise the cell stays, faded, with an opacity that is lower but still positive |
| PointerTrail.Stepped | components/ravindu-portfolio.tsx:76-85 | one frame never lengthens the buffer and leaves only cells of positive opacity |
| PointerTrail.SteppedFrom | components/ravindu-portfolio.tsx:76-85 | the frame's fate of cell i depends on that cell alone: stepping from i on is cell i's survivor followed by the step of the rest |
| PointerTrail.DeadCount | components/ravindu-portfolio.tsx:83-84 | the leading cells the next frame removes are exactly those with opacity at most FADE_SPEED, up to the first that survives |
| PointerTrail.SteppedAppend | components/ravindu-portfolio.tsx:76-85 | a frame handles every cell once and independently: stepping `a + b` is stepping `a` then `b`, order kept |
| PointerTrail.SteppedDropsPrefix | components/ravindu-portfolio.tsx:83-84 | with opacities ordered by age, a frame removes exactly a prefix (the DeadCount oldest cells) and fades every later cell by exactly 0.01 |
| PointerTrail.StepKeepsWellFormed | components/ravindu-portfolio.tsx:76-85 | a frame keeps opacities in (0, 1], ordered from oldest to newest, and consecutive cells more than 20 px apart |
| PointerTrail.RecordKeepsWellFormed | components/ravindu-portfolio.tsx:52-55 | a mouse move keeps the same three invariants |
| PointerTrail.RunKeepsWellFormed | components/ravindu-portfolio.tsx:48-85 | every history of mouse moves and frames, starting from a well-formed buffer, ends in a well-formed buffer |
| PointerTrail.SteppedLowersBound | components/ravindu-portfolio.tsx:83 | a frame lowers any upper bound on the opacities by FADE_SPEED |
| PointerTrail.NoneSurvive | components/ravindu-portfolio.tsx:83-84 | cells with opacity at most 0.01 are all removed by the next frame |
| PointerTrail.EmptyAfter | components/ravindu-portfolio.tsx:83-84 | a buffer whose opacities are at most m * 0.01 is empty after m frames |
| PointerTrail.EmptiesWithin100Frames | components/ravindu-portfolio.tsx:32 | once recording stops, a buffer with opacities in (0, 1] is empty after 100 frames |
| PointerTrail.StepNAppend | components/ravindu-portfolio.tsx:76-85 | over any number of frames, the two parts of a buffer evolve independently |
| PointerTrail.SingleCellFades | components/ravindu-portfolio.tsx:83 | a cell that stays positive loses exactly n * 0.01 over n frames |
| PointerTrail.RecordedCellSurvives | components/ravindu-portfolio.tsx:54 | a cell recorded with opacity 1.0 is still present after 99 frames, wherever it sits, with opacity 1 - n * 0.01 after n frames |
| PointerTrail.RecordedCellExpires | components/ravindu-portfolio.tsx:83-84 | the 100th frame after its recording removes the cell, and later frames do not bring it back |
| PointerTrail.RecordScenario | components/ravindu-portfolio.tsx:52-55 | moves to (0,0), (100,0), (100,100) are all recorded; a following move to (101,101) is not |
| PointerTrail.FadeAndSplice | components/ravindu-portfolio.tsx:82-84 | one iteration of the reverse loop fades cell i in place and splices it out at opacity at most 0, without disturbing the cells not yet visited or those already stepped |
| PointerTrail.TrailBuffer.constructor | components/ravindu-portfolio.tsx:22-27 | the trail starts empty and well formed, with the pointer at (0, 0) |
| PointerTrail.TrailBuffer.HandleMouseMove | components/ravindu-portfolio.tsx:48-56 | the handler stores the pointer position and leaves the buffer equal to `Recorded` of the old one, keeping the invariant |
| PointerTrail.TrailBuffer.AdvanceFrame | components/ravindu-portfolio.tsx:76-85 | the reverse loop with in-place fade and `splice` leaves the buffer equal to `Stepped` of the old one (no cell skipped or handled twice), keeping the invariant; in a valid buffer this drops exactly the DeadCount oldest cells and fades every other one |
| Showcase.Initial | components/ravindu-portfolio.tsx:703 | the carousel starts on image 0, a valid index exactly when the card has images |
| Showcase.NextImage | components/ravindu-portfolio.tsx:766 | the tick stays inside `[0, images.length)`: the next image, or the first after the last |
| Showcase.Tick | components/ravindu-portfolio.tsx:764-769 | a tick leaves the carousel valid and keeps its image count |
| Showcase.Select | components/ravindu-portfolio.tsx:796-806 | clicking indicator idx makes the carousel valid, with exactly indicator idx drawn active |
| Showcase.ShownImage | components/ravindu-portfolio.tsx:788 | the image shown is the current path when it exists and is non-empty, and the placeholder in every other case |
| Showcase.TicksAdvance | components/ravindu-portfolio.tsx:766 | within one round, k ticks move k places forward, wrapping past the end |
| Showcase.CarouselPeriod | components/ravindu-portfolio.tsx:766 | after exactly `images.length` ticks the carousel is back on its starting image, and not before |
| Showcase.ShowcaseCarouselsValid | components/ravindu-portfolio.tsx:394-455 | all four project cards on the page get a non-empty image list, so their index is valid initially and after any number of ticks |
| Showcase.ShowsLiveDemo | components/ravindu-portfolio.tsx:849 | a link is only shown for a non-empty URL, and always for one whose first character is not '#' |
| Showcase.LiveDemoByLength | components/ravindu-portfolio.tsx:849 | the link is shown exactly for URLs of two or more characters, or one character other than '#' |
| Showcase.ShowcaseLiveDemos | components/ravindu-portfolio.tsx:401-457 | the cards passing "#" get no link; ChatLink and Sinhala OCR, which pass real URLs, get one |
| CardStack.SectionProgress | components/project-card.tsx:30-32 | the unclamped section progress is negative exactly before scroll 0.25 and at least 1 exactly from 0.75 on |
| CardStack.CardProgress | components/project-card.tsx:30-35 | card index's progress is −index at scroll 0.25 (index windows before its focus) and total − index at scroll 0.75 |
| CardStack.RegimeOf | components/project-card.tsx:37-55 | exactly one regime applies: stacked iff p < 0, focus iff 0 <= p < 1, passed iff p >= 1 |
| CardStack.CardRegime | components/project-card.tsx:35-55 | every card 0 ≤ index < total is stacked before scroll 0.25 and has passed from scroll 0.75 on |
| CardStack.VisualAt | components/project-card.tsx:37-60 | only stacked cards are placed in px (the others in vh); focused and passed cards have opacity in [0, 1] and scale in [0.2, 1]; with index and total non-negative, a card is drawn above zIndex total exactly when it is in focus |
| CardStack.Visual | components/project-card.tsx:28-61 | for every card 0 ≤ index < total: before the section it is in the stack at zIndex total − index with a 2 degree tilt; from the section end on it is invisible at zIndex 0 |
| CardStack.StackedState | components/project-card.tsx:39-42 | a stacked card has translateY 8·index px, translateZ −20·index px, rotateX 2, scale 1, opacity 1 − 0.1·index, zIndex total − index |
| CardStack.FocusBounds | components/project-card.tsx:46-54 | a focused card at progress p has translateY −150p vh, translateZ 500p px, scale 1 − 0.5p, rotateX −10p, opacity 1 − p and zIndex total + 10; so translateY is in (−150, 0] vh, translateZ in [0, 500), scale in (0.5, 1], rotateX in (−10, 0] and opacity in (0, 1] |
| CardStack.FocusMotion | components/project-card.tsx:46-54 | between two focus progresses p1 < p2, the card at p2 is higher, nearer, smaller, more tilted and fainter |
| CardStack.PassedState | components/project-card.tsx:57-59 | a passed card is at translateY −200 vh, translateZ 1000 px, scale 0.2, opacity 0, zIndex 0 |
| CardStack.ProgressOffset | components/project-card.tsx:35 | at the same scroll, card i's progress exceeds card j's by exactly j − i |
| CardStack.AtMostOneInFocus | components/project-card.tsx:35-43 | two different cards are never in focus at the same scroll progress |
| CardStack.FocusOnTop | components/project-card.tsx:42-59 | with index and total non-negative, the focused card's zIndex is above that of every stacked or passed card |
| CardStack.StackOrder | components/project-card.tsx:39-42 | among stacked cards, an earlier one is drawn above, nearer and more opaque than a later one |
| CardStack.StackedSuffix | components/project-card.tsx:35-37 | while a card is stacked, every later card is stacked too |
| CardStack.ProgressMonotone | components/project-card.tsx:32-35 | with at least one card, card progress never decreases as scroll progress grows |
| CardStack.RegimeMonotone | components/project-card.tsx:37-55 | with at least one card, a card only moves stacked → focus → passed as the page scrolls down |
| CardStack.FocusWindow | components/project-card.tsx:30-43 | card index is in focus exactly for scroll in `[0.25 + 0.5·index/total, 0.25 + 0.5·(index+1)/total)` |
| CardStack.FocusEntryJump | components/project-card.tsx:37-52 | any stacked progress (below 0) and any focus progress (in [0, 1)) give tilts at least 2 degrees apart, so the mapping is not continuous at progress 0 |
| CardStack.FocusExitJump | components/project-card.tsx:43-59 | any focus progress (in [0, 1)) and any passed progress (1 or more) give scales more than 0.3 apart and translateZ more than 500 px apart, so the mapping is not continuous at progress 1 |
| CardStack.ThreeCardScenario | components/project-card.tsx:30-59 | with 3 cards, card 1 at scroll 0.25 is stacked with opacity 0.9, and card 2 at scroll 0.75 has progress exactly 1 and is passed with opacity 0 |
| CardStack.DigitChar | components/project-card.tsx:123 | digit d is written as the character whose code is '0' + d |
| CardStack.DecimalDigits | components/project-card.tsx:123 | `String(n)` of a non-negative number is one or more digits, one digit exactly below 10, with no leading zero from 10 on |
| CardStack.NumberString | components/project-card.tsx:123 | `String(n)` starts with '-' exactly for negative n; the rest is decimal digits, with no leading zero unless it is the single digit 0, whose value is the absolute value of n |
| CardStack.PadStart | components/project-card.tsx:123 | `padStart(width, fill)` keeps the string as its suffix and fills on the left up to the width |
| CardStack.DigitsRoundTrip | components/project-card.tsx:123 | reading the numeral of n back as decimal gives n |
| CardStack.LeadingZero | components/project-card.tsx:123 | a leading "0" does not change the value a numeral denotes |
| CardStack.PaddedValue | components/project-card.tsx:123 | padding a numeral with one leading "0" keeps it all digits and keeps its value |
| CardStack.ProjectLabel | components/project-card.tsx:123 | the label is the numeral of index + 1, left-padded with '0's to exactly two characters when it is shorter and unchanged otherwise |
| CardStack.LabelShape | components/project-card.tsx:123 | cards 1 to 9 are labelled "01" to "09"; from 10 on the label is the unpadded numeral |
| CardStack.LabelValue | components/project-card.tsx:123 | every card's label is at least two decimal digits and denotes index + 1 |

## Left out

- Canvas painting: clearing, the grid, the radial glows and the rgba colour strings (components/ravindu-portfolio.tsx:61-71, 78-82, 90-94) are browser drawing calls. `TrailBuffer` keeps the pointer position the live glow is drawn at, but nothing is drawn.
- Animation lifecycle: `requestAnimationFrame` scheduling and listener registration (components/ravindu-portfolio.tsx:96-103) are not modelled. The effect is keyed on the pointer position and not cancelled, so every mouse move starts one more frame loop over the same buffer. The model has one `AdvanceFrame` per loop iteration. `RunKeepsWellFormed` holds for any interleaving of such steps. The lifetime lemmas count steps, not wall-clock frames.
- Canvas resizing (components/ravindu-portfolio.tsx:41-46) only copies the window size into the canvas.
- Floating point: repeated `-= 0.01` is exact in the model. In IEEE doubles 99 subtractions from 1 leave about 0.0099999999999992, still positive, and the 100th leaves about −7.5e-16, so a cell is removed on the 100th frame there too, as the lifetime lemmas state; the rounding itself is not modelled. `Math.hypot` rounding is not modelled either.
- Showcase.NextImage: requires a non-empty image list. With zero images the source computes `NaN`, which is not modelled. Every card on the page has 2 to 5 images (`ShowcaseImageCounts`, `ShowcaseCarouselsValid`).
- The interval timer of the carousel (`setInterval` every 4000 ms, cleared on unmount) is modelled only as the `Tick` it triggers.
- CardStack.StackedState: the stacked opacity `1 - 0.1·index` is modelled as computed, so it is negative from index 11 on. The browser's clamping of CSS opacity to [0, 1] is not modelled.
- The CSS transform string, the `transition-all` easing that smooths the regime jumps, and React state and effect plumbing (components/project-card.tsx:24-26, 40, 52, 57, 65) are not modelled.
- CardStack.DecimalDigits: `String()` is modelled for integers only. The inputs are integer indices and counts, and fractional or exponent forms never arise.
- The EmailJS contact forms (components/ravindu-portfolio.tsx:593-627, app/components/Contact.tsx:11-33) are network calls to a third-party service.
- Presentation-only parts with no logic are not modelled: the marquee, the colour variant table, the hover state, and the other layout components.
