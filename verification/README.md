# Portfolio page script: a Dafny model of its decision rules

`main.js` wires up a static portfolio page. Almost all of it creates DOM
elements, assigns inline styles and registers listeners. Seven of its event
handlers contain a small, self-contained decision rule, and this project
models each of those rules as a pure function or a one-step state transition
over immutable data. The project proves what each rule promises.

| file | module | handler in main.js |
|---|---|---|
| `konami.dfy` | `Konami` | keydown easter egg: ten-key sliding buffer compared by `join('')` |
| `nav_highlight.dfy` | `NavHighlight` | scroll: pick the last section reached, mark the matching nav link |
| `scroll_effects.dfy` | `ScrollEffects` | scroll: scroll-to-top button past 300 px, navbar restyle past 50 px |
| `fade_in.dfy` | `FadeIn` | intersection: stagger delays of 150 ms times the sibling index |
| `typing.dfy` | `Typing` | hero heading typing effect, as a count of `typeChar` calls |
| `theme.dfy` | `Theme` | dark-mode load and toggle, with the stored `"theme"` value |
| `wrappers.dfy` | `Wrappers` | `Option`, standing for JavaScript `null` and unset style values |

The DOM is reduced to the values the handlers read and write:
- offsets are integers;
- attributes are `Option<string>`, with `None` for `null`;
- class membership is a boolean;
- `localStorage` is the single stored `Option<string>` under the key `"theme"`;
- timers are counted calls.

Some details of the code deserve a mention:
- The Konami comparison joins both sides into one string. If every key
  pressed is one of the six key names in the code, this is the same as
  comparing the keys one by one (`FiresIffCodeOnKeyNames`). With arbitrary
  key strings the join test is coarser (`JoinIsCoarser`).
- `getAttribute("id")` returns `null` for a `section` without an id. The
  template literal renders that as `"#null"` (`MissingIdSelectsNull`).
- The navbar background is only assigned past 50 px. If the theme changes
  while the page is near the top, the background keeps the old theme's
  colour (`BackgroundLagsTheme`).
- At start-up the icon depends only on the stored value. If the markup
  already gives the body `dark-mode`, the moon icon shows while dark mode is
  on (`MarkupDarkShowsMoon`).

## Model

| member | source | states |
|---|---|---|
| Konami.PushShape | main.js:411-412 | after a keydown the buffer ends with the new key, preceded by the old buffer's last nine entries; its length grows by one and stops at ten |
| Konami.BufferIsLastKeys | main.js:407-412 | after any keydown history the buffer is exactly the last min(n, 10) keys pressed, in order, and never longer than ten |
| Konami.TriggerRule | main.js:408-414 | the last keydown fires exactly when the join of the last min(n, 10) keys equals the join of the ten-key code |
| Konami.FiresAfterCode | main.js:408-414 | typing the ten-key code fires on its last key, whatever was typed before |
| Konami.UniqueDecoding | main.js:408 | the six key names of the code form a prefix code: key sequences over them with equal joins are equal |
| Konami.JoinEqualIffEqual | main.js:414 | over the six key names, equal joins happen exactly when the key sequences are equal |
| Konami.FiresIffCodeOnKeyNames | main.js:408-414 | when every key pressed is one of the code's six names, the effect fires exactly when the last ten keys are the code; with fewer than ten keys it never fires |
| Konami.JoinIsCoarser | main.js:414 | a nine-entry buffer that is not the code, with "ArrowUpArrowUp" as its first entry, still passes the join comparison |
| NavHighlight.LastReached | main.js:135-141 | reference search from the end: the index of the last section whose offsetTop - 100 is at most the scroll offset; none exactly when no section qualifies |
| NavHighlight.SelectFromIsLastReached | main.js:135-141 | the document-order walk leaves in `current` the id of the last qualifying section, or its starting value when none qualifies |
| NavHighlight.SelectIsLastReached | main.js:135-141 | the handler's `current` is the id of the last qualifying section, or "" when no section qualifies |
| NavHighlight.SelectionMonotone | main.js:137-139 | scrolling further down never selects a section earlier in document order |
| NavHighlight.SortedSelection | main.js:131-141 | with sections laid out top to bottom, the reached sections form a prefix, and a larger offset selects a section at or below the previous one |
| NavHighlight.MarkLinks | main.js:143-148 | every link keeps its href, and carries `active-link` exactly when its href is "#" followed by the rendered `current` |
| NavHighlight.HighlightForgetsPreviousMarks | main.js:143-148 | the marks after a scroll event do not depend on the marks before it, and repeating the event changes nothing |
| NavHighlight.AtMostOneActive | main.js:143-148 | when link hrefs are pairwise distinct, at most one link is active after a scroll event |
| NavHighlight.NothingReachedOnlyBareHash | main.js:135-148 | when no section has been reached, a link is active exactly when its href is "#" |
| NavHighlight.MissingIdSelectsNull | main.js:139-145 | when the last reached section has no id, `current` is null and only a "#null" link can be active |
| ScrollEffects.ButtonDisplay | main.js:84-86 | the scroll-to-top button is displayed ("block") exactly when scrollY exceeds 300, and is "none" otherwise |
| ScrollEffects.Restyle | main.js:157-170 | past 50 px the shadow is set and the background becomes #1e1e1e in dark mode or #ffffff otherwise; at 50 px or less only the shadow changes and the background stays as it was |
| ScrollEffects.NavbarAfterEvents | main.js:157-170 | after any scroll history the background is the one for the theme at the last event past 50 px (or the initial one), and the shadow follows the last event alone |
| ScrollEffects.RestyleIdempotent | main.js:160-167 | a second scroll event at the same offset and theme changes nothing |
| ScrollEffects.BackgroundLagsTheme | main.js:160-167 | scrolled past 50 px in light mode, then switched to dark near the top, the navbar keeps the light background |
| FadeIn.StaggerSiblings | main.js:27-34 | every stagger sibling is revealed, unobserved and given delay 150 times its position among all siblings; the other siblings are untouched |
| FadeIn.OnEntry | main.js:22-39 | a non-intersecting entry changes nothing; a stagger target staggers all stagger siblings by their index among all children; any other target only reveals itself |
| FadeIn.EntryRevealsTarget | main.js:22-39 | an intersecting entry leaves its target visible and unobserved, and never hides a visible child |
| FadeIn.DelaysFollowOrder | main.js:28-30 | of two stagger siblings the later gets the strictly larger delay, differing by 150 ms per position between them |
| FadeIn.IndexCountsAllChildren | main.js:27-30 | with a plain child between two stagger children, the second stagger child gets 300 ms, not 150 ms |
| FadeIn.OnEntryIdempotent | main.js:22-39 | handling the same entry twice gives the same children as handling it once |
| Typing.Start | main.js:265-270 | without a hero heading nothing happens; otherwise the text is saved and the heading starts empty |
| Typing.TypeChar | main.js:271-278 | while characters remain, a call appends exactly the next character and schedules another call; otherwise it changes nothing and schedules none |
| Typing.RunRevealsPrefix | main.js:271-281 | after k calls the heading holds the first min(k, text length) characters of the original text |
| Typing.RunStops | main.js:272-277 | once k is at least the text length, further calls change nothing and schedule no successor |
| Typing.CallsBeforeStop | main.js:272-277 | each of the first (text length) calls schedules a successor |
| Theme.Load | main.js:112-119 | at start-up dark mode is on when the stored value is exactly "dark" (or the markup already set it); the sun icon shows exactly when "dark" is stored; storage is untouched |
| Theme.Click | main.js:121-126 | a click flips dark mode, shows the icon for the new state, and stores "dark" or "light" accordingly |
| Theme.PlainStart | main.js:113-119 | on a page whose markup does not set dark mode, dark mode is on at start-up exactly when "dark" is stored, and the icon matches |
| Theme.MarkupDarkShowsMoon | main.js:113-119 | if the markup already sets dark mode and "dark" is not stored, the moon icon shows while dark mode is on |
| Theme.ClickTwice | main.js:121-126 | two clicks restore the on/off state, and the stored value then records that state |
| Theme.ClicksParity | main.js:121-123 | after n clicks dark mode has flipped exactly n times |
| Theme.ReloadAfterClicks | main.js:113-126 | after at least one click, reloading a plain page with the stored value reproduces the same state |

## Left out

- Page loader, smooth scrolling, and the scroll-to-top click (main.js:4-14, 47-59, 88-90): timers and `window.scrollTo` with no decision to state.
- Element creation, inline styling and injected CSS (main.js:64-82, 95-110, 269, 342-364, 422-429, 454-474): presentation only. This includes the hero heading's `opacity = '1'` at set-up of the typing effect.
- Observer wiring for fade-in, lazy images, timeline, exploring cards and skill bars (main.js:19-20, 42, 197-260, 369-385): visibility comes from the browser. Only one fade-in entry for one parent is modelled (`FadeIn.OnEntry`). A batch of entries from several parents is not.
- Floating-point effects: background hue, card tilt with `toFixed`, parallax and ripple geometry (main.js:178-186, 290-311, 319-339).
- Contact form focus styling (main.js:390-402): style assignment only.
- Debounce helper and its empty scroll listener (main.js:434-449), the 5-second reset of the rainbow animation (main.js:416-418) and console logging (main.js:476-477): timer plumbing, with no state visible to the model.
- Timer delays for typing (500 ms start, 50 ms per character) are abstracted to a count of `typeChar` calls.
- Typing.TypeChar: text is a sequence of Unicode scalar values. JavaScript's `length` and `charAt` count UTF-16 code units, so text outside the Basic Multilingual Plane is not split the way the browser splits it.
- FadeIn.StaggerSiblings: the delay is a number of milliseconds, not the CSS string `"<n>ms"` the script writes.
- NavHighlight.LastReached: `offsetTop` and `pageYOffset` are integers here. Browsers may report a fractional `pageYOffset`.
- ScrollEffects.Restyle: `lastScroll` is recorded because the handler writes it, but nothing in the script reads it.
- ScrollEffects.Restyle: assumes the page has a `.navbar` element. If `document.querySelector('.navbar')` (main.js:154) returns null, every scroll event throws at main.js:161 or 166 before `lastScroll` is written; the model has no such case.
- ScrollEffects.Restyle: `pageYOffset` (main.js:158) is an integer here. Browsers may report a fractional offset, such as 50.5, which the model cannot express.
- ScrollEffects.ButtonDisplay: `scrollY` (main.js:85) is an integer here. Browsers may report a fractional offset, such as 300.5, which shows the button and which the model cannot express.
