/** The typing effect of main.js: the hero heading's text is saved and
    cleared, and each call of `typeChar` appends the next character and
    schedules another call, until the whole text is back. Timers are
    abstracted to a count of calls. */
module Typing {
  import opened Wrappers

  /** The typing state: the saved text, the heading's current text, and
      `charIndex`. */
  datatype Typer = Typer(text: string, shown: string, charIndex: nat)

  /** What one call of `typeChar` leaves: the new state, and whether it
      scheduled another call. */
  datatype Step = Step(typer: Typer, rescheduled: bool)

  /** The heading shows exactly the first `charIndex` characters of the text. */
  predicate Valid(t: Typer)
  {
    t.charIndex <= |t.text| && t.shown == t.text[..t.charIndex]
  }

  /** Set-up: with no hero heading nothing happens; otherwise its text is
      saved and the heading emptied. */
  function Start(heading: Option<string>): (r: Option<Typer>)
    ensures r.None? <==> heading.None?
    ensures r.Some? ==> Valid(r.value) && r.value.text == heading.value && r.value.shown == ""
  {
    match heading
    case None => None
    case Some(text) => Some(Typer(text, "", 0))
  }

  /** One call of `typeChar`: while characters remain, append the next one
      and schedule another call; otherwise do nothing. */
  function TypeChar(t: Typer): (r: Step)
    ensures r.typer.text == t.text
    ensures r.rescheduled <==> t.charIndex < |t.text|
    ensures !r.rescheduled ==> r.typer == t
    ensures r.rescheduled ==> r.typer.charIndex == t.charIndex + 1
    ensures r.rescheduled ==> |r.typer.shown| == |t.shown| + 1 && r.typer.shown[..|t.shown|] == t.shown
    ensures Valid(t) ==> Valid(r.typer)
  {
    if t.charIndex < |t.text| then
      Step(Typer(t.text, t.shown + [t.text[t.charIndex]], t.charIndex + 1), true)
    else
      Step(t, false)
  }

  /** The state after `k` calls. */
  function Run(t: Typer, k: nat): Typer
  {
    if k == 0 then t else TypeChar(Run(t, k - 1)).typer
  }

  function Min(a: nat, b: nat): nat
  {
    if a <= b then a else b
  }

  /** After `k` calls from set-up, the heading holds the first min(k, |text|)
      characters of the original text. */
  lemma {:induction false} RunRevealsPrefix(text: string, k: nat)
    ensures Run(Typer(text, "", 0), k).text == text
    ensures Valid(Run(Typer(text, "", 0), k))
    ensures Run(Typer(text, "", 0), k).charIndex == Min(k, |text|)
    ensures Run(Typer(text, "", 0), k).shown == text[..Min(k, |text|)]
  {
    if k > 0 {
      RunRevealsPrefix(text, k - 1);
    }
  }

  /** Once the whole text is shown, further calls change nothing and no
      longer schedule a successor. */
  lemma {:induction false} RunStops(text: string, k: nat, m: nat)
    requires k >= |text|
    ensures Run(Typer(text, "", 0), k + m) == Run(Typer(text, "", 0), k)
    ensures !TypeChar(Run(Typer(text, "", 0), k + m)).rescheduled
  {
    RunRevealsPrefix(text, k);
    if m > 0 {
      RunStops(text, k, m - 1);
    }
  }

  /** Each of the first |text| calls schedules a successor, so the chain of
      calls started at set-up runs exactly |text| + 1 times. */
  lemma CallsBeforeStop(text: string, k: nat)
    requires k < |text|
    ensures TypeChar(Run(Typer(text, "", 0), k)).rescheduled
  {
    RunRevealsPrefix(text, k);
  }
}
