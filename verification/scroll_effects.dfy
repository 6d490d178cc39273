/** The two threshold rules main.js applies on every scroll event: the
    scroll-to-top button is displayed only past 300 pixels, and the navbar
    gets its scrolled look past 50 pixels, with a background that follows
    the theme at the moment of the event. */
module ScrollEffects {
  import opened Wrappers

  /** Offset past which the scroll-to-top button is displayed. */
  const ButtonThreshold: int := 300

  /** Offset past which the navbar takes its scrolled look. */
  const NavbarThreshold: int := 50

  const ScrolledShadow: string := "0 2px 10px rgba(0,0,0,0.1)"
  const RestingShadow: string := "0 1px 3px rgba(0,0,0,0.05)"
  const DarkBackground: string := "#1e1e1e"
  const LightBackground: string := "#ffffff"

  /** The `display` value the scroll handler gives the scroll-to-top button. */
  function ButtonDisplay(scrollY: int): (r: string)
    ensures r == "block" || r == "none"
    ensures r == "block" <==> scrollY > ButtonThreshold
  {
    if scrollY > ButtonThreshold then "block" else "none"
  }

  /** One scroll event as the navbar handler sees it: the offset, and whether
      the body carries `dark-mode` at that moment. */
  datatype ScrollEvent = ScrollEvent(y: int, dark: bool)

  /** The navbar's inline style as the handler leaves it: the box shadow and
      the background (None until first assigned), plus `lastScroll`, which
      the handler writes and nothing reads. */
  datatype Navbar = Navbar(shadow: Option<string>, background: Option<string>, lastScroll: int)

  /** The navbar before any scroll event. */
  const Unstyled: Navbar := Navbar(None, None, 0)

  /** The background the handler picks for the theme in force. */
  function BackgroundFor(dark: bool): string
  {
    if dark then DarkBackground else LightBackground
  }

  /** One scroll event of the navbar handler. Past the threshold the shadow
      and background are both set; at or below it only the shadow is, and the
      background keeps whatever an earlier event gave it. */
  function Restyle(n: Navbar, e: ScrollEvent): (r: Navbar)
    ensures r.lastScroll == e.y
    ensures e.y > NavbarThreshold ==> r.shadow == Some(ScrolledShadow)
    ensures e.y > NavbarThreshold ==> r.background == Some(if e.dark then "#1e1e1e" else "#ffffff")
    ensures e.y <= NavbarThreshold ==> r.shadow == Some(RestingShadow) && r.background == n.background
  {
    if e.y > NavbarThreshold then
      n.(shadow := Some(ScrolledShadow), background := Some(BackgroundFor(e.dark)), lastScroll := e.y)
    else
      n.(shadow := Some(RestingShadow), lastScroll := e.y)
  }

  /** The navbar after a history of scroll events, oldest first. */
  function Replay(n: Navbar, events: seq<ScrollEvent>): Navbar
  {
    if |events| == 0 then n
    else Restyle(Replay(n, events[..|events| - 1]), events[|events| - 1])
  }

  /** Reference definition: the index of the last event past the navbar
      threshold, if any. */
  function LastScrolledPast(events: seq<ScrollEvent>): (r: Option<nat>)
    ensures r.Some? ==> r.value < |events| && events[r.value].y > NavbarThreshold
    ensures r.Some? ==> forall j :: r.value < j < |events| ==> events[j].y <= NavbarThreshold
    ensures r.None? <==> forall j :: 0 <= j < |events| ==> events[j].y <= NavbarThreshold
  {
    if |events| == 0 then None
    else if events[|events| - 1].y > NavbarThreshold then Some(|events| - 1)
    else LastScrolledPast(events[..|events| - 1])
  }

  /** After any history, the background is the one chosen for the theme in
      force at the last event past the threshold, or the starting one when no
      event went past it; the shadow and `lastScroll` follow the last event
      alone. */
  lemma {:induction false} NavbarAfterEvents(n: Navbar, events: seq<ScrollEvent>)
    ensures Replay(n, events).background ==
            match LastScrolledPast(events)
            case Some(k) => Some(BackgroundFor(events[k].dark))
            case None => n.background
    ensures |events| > 0 ==>
              Replay(n, events).shadow ==
              Some(if events[|events| - 1].y > NavbarThreshold then ScrolledShadow else RestingShadow)
    ensures |events| > 0 ==> Replay(n, events).lastScroll == events[|events| - 1].y
  {
    if |events| > 0 {
      NavbarAfterEvents(n, events[..|events| - 1]);
    }
  }

  /** A second event at the same offset and theme changes nothing. */
  lemma RestyleIdempotent(n: Navbar, e: ScrollEvent)
    ensures Restyle(Restyle(n, e), e) == Restyle(n, e)
  {
  }

  /** The background can lag the theme: scrolled past the threshold in light
      mode, then switched to dark mode near the top of the page, the navbar
      keeps the light background. */
  lemma BackgroundLagsTheme()
    ensures var n := Replay(Unstyled, [ScrollEvent(100, false), ScrollEvent(10, true)]);
            n.background == Some(LightBackground)
  {
    var events := [ScrollEvent(100, false), ScrollEvent(10, true)];
    assert events[..1] == [ScrollEvent(100, false)];
    assert events[..1][..0] == [];
  }
}
