/** The dark-mode toggle of main.js. At start-up the stored preference is
    read; "dark" turns dark mode on and shows the sun icon, anything else
    (including no stored value) shows the moon. Each click flips dark mode,
    updates the icon and stores "dark" or "light". */
module Theme {
  import opened Wrappers

  /** The storage key the preference lives under. */
  const StorageKey: string := "theme"

  /** The button label while dark mode is on (U+2600 U+FE0F). */
  const SunIcon: string := "\U{2600}\U{FE0F}"

  /** The button label while dark mode is off (U+1F319). */
  const MoonIcon: string := "\U{1F319}"

  /** Whether the body carries `dark-mode`, the button's label, and the value
      stored under the storage key (None when nothing is stored). */
  datatype ThemeState = ThemeState(dark: bool, icon: string, stored: Option<string>)

  /** The icon agrees with the theme. */
  predicate Consistent(t: ThemeState)
  {
    t.icon == if t.dark then SunIcon else MoonIcon
  }

  /** Start-up. `markedDark` says whether the page's markup already gave the
      body `dark-mode`; the script only ever adds the class here. */
  function Load(stored: Option<string>, markedDark: bool): (t: ThemeState)
    ensures t.stored == stored
    ensures t.dark <==> markedDark || stored == Some("dark")
    ensures t.icon == SunIcon <==> stored == Some("dark")
    ensures t.icon == SunIcon || t.icon == MoonIcon
  {
    if stored == Some("dark") then ThemeState(true, SunIcon, stored)
    else ThemeState(markedDark, MoonIcon, stored)
  }

  /** One click of the toggle button. */
  function Click(t: ThemeState): (r: ThemeState)
    ensures r.dark == !t.dark
    ensures r.stored == Some(if r.dark then "dark" else "light")
    ensures Consistent(r)
  {
    var dark := !t.dark;
    ThemeState(dark, if dark then SunIcon else MoonIcon, Some(if dark then "dark" else "light"))
  }

  /** On a page whose markup does not set `dark-mode`, dark mode is on at
      start-up exactly when the stored value is "dark", and the icon agrees. */
  lemma PlainStart(stored: Option<string>)
    ensures Load(stored, false).dark <==> stored == Some("dark")
    ensures Consistent(Load(stored, false))
  {
  }

  /** Markup that already sets `dark-mode` with no "dark" stored leaves the
      moon icon showing while dark mode is on. */
  lemma MarkupDarkShowsMoon(stored: Option<string>)
    requires stored != Some("dark")
    ensures Load(stored, true).dark && Load(stored, true).icon == MoonIcon
    ensures !Consistent(Load(stored, true))
  {
  }

  /** Two clicks restore the on/off state; the stored value then records that
      state, whatever was stored before. */
  lemma ClickTwice(t: ThemeState)
    ensures Click(Click(t)).dark == t.dark
    ensures Click(Click(t)).stored == Some(if t.dark then "dark" else "light")
  {
  }

  /** The state after `n` clicks. */
  function Clicks(t: ThemeState, n: nat): ThemeState
  {
    if n == 0 then t else Click(Clicks(t, n - 1))
  }

  /** After n clicks dark mode has flipped n times. */
  lemma {:induction false} ClicksParity(t: ThemeState, n: nat)
    ensures Clicks(t, n).dark == (t.dark != (n % 2 == 1))
  {
    if n > 0 {
      ClicksParity(t, n - 1);
    }
  }

  /** Persistence round trip: after at least one click, reloading a plain page
      with the value just stored reproduces the state exactly. */
  lemma ReloadAfterClicks(t: ThemeState, n: nat)
    requires n > 0
    ensures Load(Clicks(t, n).stored, false) == Clicks(t, n)
  {
  }
}
