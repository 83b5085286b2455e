/**
 * The view state of the invitation page (src/App.tsx): the countdown to the end
 * of the concert, the one-way switch to the proposal screen, the two evasive
 * "No" buttons with their click counters and scales, the labels and messages
 * chosen from the click counts, and the music flag.
 */
module Invitation {
  import opened Wrappers

  // ---------------------------------------------------------------------------
  // Splitting a millisecond count into days, hours, minutes and seconds
  // ---------------------------------------------------------------------------

  const MsPerSecond: int := 1000
  const MsPerMinute: int := 60 * MsPerSecond
  const MsPerHour: int := 60 * MsPerMinute
  const MsPerDay: int := 24 * MsPerHour

  datatype Duration = Duration(days: int, hours: int, minutes: int, seconds: int)

  /** JavaScript's `%`: truncating, so the remainder has the sign of the dividend. */
  function JsRem(a: int, b: int): (r: int)
    requires b > 0
    ensures (a - r) % b == 0
    ensures -b < r < b
    ensures a >= 0 ==> r >= 0
    ensures a <= 0 ==> r <= 0
  {
    if a >= 0 then
      DivModUnique(a - a % b, b, a / b, 0);
      a % b
    else
      DivModUnique(a + (-a) % b, b, -((-a) / b), 0);
      -((-a) % b)
  }

  /** `Math.floor(a / b)` for a positive divisor. */
  function FloorDiv(a: int, b: int): (q: int)
    requires b > 0
    ensures q * b <= a < q * b + b
  {
    a / b
  }

  /** `formatTime`: the four fields shown on the countdown. */
  function FormatTime(ms: int): Duration
  {
    Duration(FloorDiv(ms, MsPerDay),
             FloorDiv(JsRem(ms, MsPerDay), MsPerHour),
             FloorDiv(JsRem(ms, MsPerHour), MsPerMinute),
             FloorDiv(JsRem(ms, MsPerMinute), MsPerSecond))
  }

  /** The number of milliseconds a duration stands for, ignoring sub-second parts. */
  function TotalMs(d: Duration): int
  {
    d.days * MsPerDay + d.hours * MsPerHour + d.minutes * MsPerMinute + d.seconds * MsPerSecond
  }

  /** A duration in normal form: non-negative, every field below its wrap-around value. */
  predicate IsNormal(d: Duration)
  {
    d.days >= 0 && 0 <= d.hours < 24 && 0 <= d.minutes < 60 && 0 <= d.seconds < 60
  }

  /** `(m % (k * b)) % b == m % b` for non-negative `m`. */
  lemma ModOfMultiple(m: int, k: int, b: int)
    requires m >= 0 && k > 0 && b > 0
    ensures (m % (k * b)) % b == m % b
  {
    var q, r := m / (k * b), m % (k * b);
    assert m == (q * k) * b + r;
    var r2 := r % b;
    assert r == (r / b) * b + r2;
    assert m == (q * k + r / b) * b + r2;
    DivModUnique(m, b, q * k + r / b, r2);
  }

  lemma DivModUnique(m: int, b: int, q: int, r: int)
    requires b > 0 && 0 <= r < b && m == q * b + r
    ensures m / b == q && m % b == r
  {
    var q', r' := m / b, m % b;
    assert (q - q') * b == r' - r;
    MulSign(q - q', b);
  }

  lemma MulSign(d: int, b: int)
    requires b > 0
    ensures d >= 1 ==> d * b >= b
    ensures d <= -1 ==> d * b <= -b
  {
  }

  /** For a non-negative count the split is in normal form and loses less than a second. */
  lemma {:induction false} FormatTimeReconstructs(ms: int)
    requires ms >= 0
    ensures IsNormal(FormatTime(ms))
    ensures TotalMs(FormatTime(ms)) <= ms < TotalMs(FormatTime(ms)) + MsPerSecond
  {
    var t := FormatTime(ms);
    ModOfMultiple(ms, 24, MsPerHour);
    ModOfMultiple(ms, 60, MsPerMinute);
    ModOfMultiple(ms, 60, MsPerSecond);
    assert ms == t.days * MsPerDay + ms % MsPerDay;
    assert ms % MsPerDay == t.hours * MsPerHour + ms % MsPerHour;
    assert ms % MsPerHour == t.minutes * MsPerMinute + ms % MsPerMinute;
    assert ms % MsPerMinute == t.seconds * MsPerSecond + ms % MsPerSecond;
  }

  /** Conversely, the normal-form duration within a second below `ms` is the split of `ms`. */
  lemma {:induction false} FormatTimeUnique(ms: int, d: Duration)
    requires IsNormal(d)
    requires TotalMs(d) <= ms < TotalMs(d) + MsPerSecond
    ensures FormatTime(ms) == d
  {
    var rs := ms - TotalMs(d);
    var rm := d.seconds * MsPerSecond + rs;
    var rh := d.minutes * MsPerMinute + rm;
    var rd := d.hours * MsPerHour + rh;
    DivModUnique(ms, MsPerDay, d.days, rd);
    DivModUnique(ms, MsPerHour, d.days * 24 + d.hours, rh);
    DivModUnique(ms, MsPerMinute, (d.days * 24 + d.hours) * 60 + d.minutes, rm);
    DivModUnique(rd, MsPerHour, d.hours, rh);
    DivModUnique(rh, MsPerMinute, d.minutes, rm);
    DivModUnique(rm, MsPerSecond, d.seconds, rs);
  }

  /** The boundary values of the countdown. */
  lemma FormatTimeExamples()
    ensures FormatTime(0) == Duration(0, 0, 0, 0)
    ensures FormatTime(1000) == Duration(0, 0, 0, 1)
    ensures FormatTime(90000) == Duration(0, 0, 1, 30)
  {
  }

  // ---------------------------------------------------------------------------
  // The scales of the two pairs of buttons
  // ---------------------------------------------------------------------------

  /** Invitation screen: "No" shrinks by 0.15 down to 0.3, "Yes" grows by 0.1 up to 1.5. */
  const NoStep: real := 0.15
  const NoFloor: real := 0.3
  const YesStep: real := 0.1
  const YesCap: real := 1.5

  /** Proposal screen: "No" shrinks by 0.2 down to 0.2, "Yes" grows by 0.15 up to 2. */
  const ProposalNoStep: real := 0.2
  const ProposalNoFloor: real := 0.2
  const ProposalYesStep: real := 0.15
  const ProposalYesCap: real := 2.0

  /** `Math.max` */
  function Max(a: real, b: real): (r: real)
    ensures r >= a && r >= b && (r == a || r == b)
  {
    if a >= b then a else b
  }

  /** `Math.min` */
  function Min(a: real, b: real): (r: real)
    ensures r <= a && r <= b && (r == a || r == b)
  {
    if a <= b then a else b
  }

  /** The scale of a button that starts at 1 after `n` clicks, each `Math.max(floor, prev - step)`. */
  function Shrunk(n: nat, step: real, floor: real): real
  {
    if n == 0 then 1.0 else Max(floor, Shrunk(n - 1, step, floor) - step)
  }

  /** The scale of a button that starts at 1 after `n` clicks, each `Math.min(cap, prev + step)`. */
  function Grown(n: nat, step: real, cap: real): real
  {
    if n == 0 then 1.0 else Min(cap, Grown(n - 1, step, cap) + step)
  }

  /** A shrinking scale is `1 - n * step` until it reaches its floor, and stays in `[floor, 1]`. */
  lemma {:induction false} ShrunkClosedForm(n: nat, step: real, floor: real)
    requires step > 0.0 && floor <= 1.0
    ensures Shrunk(n, step, floor) == Max(floor, 1.0 - step * n as real)
    ensures floor <= Shrunk(n, step, floor) <= 1.0
  {
    if n > 0 {
      var prev := Shrunk(n - 1, step, floor);
      assert Shrunk(n, step, floor) == Max(floor, prev - step);
      ShrunkClosedForm(n - 1, step, floor);
      OneMoreStep(step, n);
      ShrinkAgain(floor, 1.0 - step * (n - 1) as real, step);
    }
  }

  /** A growing scale is `1 + n * step` until it reaches its cap, and stays in `[1, cap]`. */
  lemma {:induction false} GrownClosedForm(n: nat, step: real, cap: real)
    requires step > 0.0 && cap >= 1.0
    ensures Grown(n, step, cap) == Min(cap, 1.0 + step * n as real)
    ensures 1.0 <= Grown(n, step, cap) <= cap
  {
    if n > 0 {
      var prev := Grown(n - 1, step, cap);
      assert Grown(n, step, cap) == Min(cap, prev + step);
      GrownClosedForm(n - 1, step, cap);
      OneMoreStep(step, n);
      GrowAgain(cap, 1.0 + step * (n - 1) as real, step);
    }
  }

  lemma OneMoreStep(step: real, n: nat)
    requires n > 0
    ensures step * n as real == step * (n - 1) as real + step
  {
    assert n as real == (n - 1) as real + 1.0;
  }

  /** Clamping below and then stepping down again is the same as stepping down once and clamping. */
  lemma ShrinkAgain(floor: real, prev: real, step: real)
    requires step > 0.0
    ensures Max(floor, Max(floor, prev) - step) == Max(floor, prev - step)
  {
  }

  lemma GrowAgain(cap: real, prev: real, step: real)
    requires step > 0.0
    ensures Min(cap, Min(cap, prev) + step) == Min(cap, prev + step)
  {
  }

  // ---------------------------------------------------------------------------
  // Labels and messages chosen from the click counts
  // ---------------------------------------------------------------------------

  const Sad: string := "😢"

  /** The label of the invitation screen's "No" button. */
  function NoButtonLabel(count: int): (caption: string)
    ensures caption == Sad <==> count > 4
    ensures caption == "No..." <==> 2 < count <= 4
    ensures caption == "No puedo" <==> count <= 2
  {
    if count > 4 then Sad else if count > 2 then "No..." else "No puedo"
  }

  /** The label of the proposal screen's "No" button. */
  function ProposalNoLabel(count: int): (caption: string)
    ensures caption == Sad <==> count > 5
    ensures caption == "No..." <==> 3 < count <= 5
    ensures caption == "No" <==> count <= 3
  {
    if count > 5 then Sad else if count > 3 then "No..." else "No"
  }

  /** One `{condition && "text"}` child of a message panel. */
  datatype Rule = Rule(holds: bool, text: string)

  /** The number of rules whose condition holds. */
  function Holding(rules: seq<Rule>): nat
  {
    if rules == [] then 0 else (if rules[0].holds then 1 else 0) + Holding(rules[1..])
  }

  /** The texts React renders: a child whose condition is false renders as nothing. */
  function Shown(rules: seq<Rule>): seq<string>
  {
    if rules == [] then [] else (if rules[0].holds then [rules[0].text] else []) + Shown(rules[1..])
  }

  /** One step of `Holding` and `Shown` on the suffix of `rules` that starts at `k`. */
  lemma UnfoldSuffix(rules: seq<Rule>, k: nat)
    requires k < |rules|
    ensures Holding(rules[k..]) == (if rules[k].holds then 1 else 0) + Holding(rules[k + 1..])
    ensures Shown(rules[k..]) == (if rules[k].holds then [rules[k].text] else []) + Shown(rules[k + 1..])
  {
    assert rules[k..][1..] == rules[k + 1..];
  }

  /** `{count > 0 && <div>…</div>}`: the panel, present only after the first click. */
  function Panel(count: int, rules: seq<Rule>): Option<seq<string>>
  {
    if count > 0 then Some(Shown(rules)) else None
  }

  const NoMessages: seq<string> := [
    "¿Estás segura? ¡Va a ser increíble! 🎵",
    "¡Pero es Sebastian Romero! 🌟",
    "¡Por favor, será una noche mágica! ✨",
    "¡Solo esta vez! 🥺",
    "Ok, pero ¿segura que no? 💔"
  ]

  const ProposalMessages: seq<string> := [
    "¿Estás segura? 🥺",
    "Pero... ¡fue una noche tan hermosa! 💫",
    "¿No te gustó el concierto? 🎵",
    "Solo dame una oportunidad... 💝",
    "¡Por favor! 🙏",
    "Ok, entiendo... pero ¿segura? 💔"
  ]

  function NoMessageRules(count: int): seq<Rule>
  {
    [Rule(count == 1, NoMessages[0]),
     Rule(count == 2, NoMessages[1]),
     Rule(count == 3, NoMessages[2]),
     Rule(count == 4, NoMessages[3]),
     Rule(count > 4, NoMessages[4])]
  }

  function ProposalMessageRules(count: int): seq<Rule>
  {
    [Rule(count == 1, ProposalMessages[0]),
     Rule(count == 2, ProposalMessages[1]),
     Rule(count == 3, ProposalMessages[2]),
     Rule(count == 4, ProposalMessages[3]),
     Rule(count == 5, ProposalMessages[4]),
     Rule(count > 5, ProposalMessages[5])]
  }

  /**
   * The invitation messages are exhaustive and exclusive: from the first click on exactly
   * one condition holds and the panel shows that one message; before it, none holds and
   * there is no panel.
   */
  lemma {:induction false} NoMessagesExhaustive(count: int)
    ensures Holding(NoMessageRules(count)) == if count >= 1 then 1 else 0
    ensures Panel(count, NoMessageRules(count))
         == if count >= 1 then Some([NoMessages[if count > 4 then 4 else count - 1]]) else None
  {
    var r := NoMessageRules(count);
    assert r[5..] == [];
    UnfoldSuffix(r, 4);
    UnfoldSuffix(r, 3);
    UnfoldSuffix(r, 2);
    UnfoldSuffix(r, 1);
    UnfoldSuffix(r, 0);
    if count >= 1 {
      var i := if count > 4 then 4 else count - 1;
      assert forall j :: 0 <= j < |r| ==> (r[j].holds <==> j == i);
      assert Shown(r) == [r[i].text];
    }
  }

  /** The proposal messages, likewise, with the last message from the sixth click on. */
  lemma {:induction false} ProposalMessagesExhaustive(count: int)
    ensures Holding(ProposalMessageRules(count)) == if count >= 1 then 1 else 0
    ensures Panel(count, ProposalMessageRules(count))
         == if count >= 1 then Some([ProposalMessages[if count > 5 then 5 else count - 1]]) else None
  {
    var r := ProposalMessageRules(count);
    assert r[6..] == [];
    UnfoldSuffix(r, 5);
    UnfoldSuffix(r, 4);
    UnfoldSuffix(r, 3);
    UnfoldSuffix(r, 2);
    UnfoldSuffix(r, 1);
    UnfoldSuffix(r, 0);
    if count >= 1 {
      var i := if count > 5 then 5 else count - 1;
      assert forall j :: 0 <= j < |r| ==> (r[j].holds <==> j == i);
      assert Shown(r) == [r[i].text];
    }
  }

  /** The button turns sad exactly when the panel shows its final message. */
  lemma LabelsAgreeWithMessages(count: int)
    ensures NoButtonLabel(count) == Sad
        <==> Panel(count, NoMessageRules(count)) == Some([NoMessages[4]])
    ensures ProposalNoLabel(count) == Sad
        <==> Panel(count, ProposalMessageRules(count)) == Some([ProposalMessages[5]])
  {
    NoMessagesExhaustive(count);
    ProposalMessagesExhaustive(count);
  }

  // ---------------------------------------------------------------------------
  // The music flag
  // ---------------------------------------------------------------------------

  /** `isPlaying` after `toggleMusic`: flipped when the audio element is there, else kept. */
  function ToggledPlaying(audioPresent: bool, playing: bool): bool
  {
    if audioPresent then !playing else playing
  }

  /** Two toggles restore the flag; without the audio element a toggle changes nothing. */
  lemma ToggleTwiceRestores(audioPresent: bool, playing: bool)
    ensures ToggledPlaying(audioPresent, ToggledPlaying(audioPresent, playing)) == playing
    ensures !audioPresent ==> ToggledPlaying(audioPresent, playing) == playing
    ensures audioPresent ==> ToggledPlaying(audioPresent, playing) != playing
  {
  }

  // ---------------------------------------------------------------------------
  // The component's state
  // ---------------------------------------------------------------------------

  /** The `useState` values of `App`; `concertEnd` and the audio element are fixed per view. */
  class InvitationView {
    const concertEnd: int
    const audioPresent: bool
    var isPlaying: bool
    var timeLeft: int
    var showProposal: bool
    var noButtonScale: real
    var yesButtonScale: real
    var noClickCount: nat
    var proposalNoScale: real
    var proposalYesScale: real
    var proposalNoClickCount: nat

    /** The countdown is never negative, and each scale is the one its click count reaches. */
    ghost predicate Valid()
      reads this
    {
      timeLeft >= 0 &&
      noButtonScale == Shrunk(noClickCount, NoStep, NoFloor) &&
      yesButtonScale == Grown(noClickCount, YesStep, YesCap) &&
      proposalNoScale == Shrunk(proposalNoClickCount, ProposalNoStep, ProposalNoFloor) &&
      proposalYesScale == Grown(proposalNoClickCount, ProposalYesStep, ProposalYesCap)
    }

    predicate ScalesInBounds()
      reads this
    {
      NoFloor <= noButtonScale <= 1.0 && 1.0 <= yesButtonScale <= YesCap &&
      ProposalNoFloor <= proposalNoScale <= 1.0 && 1.0 <= proposalYesScale <= ProposalYesCap
    }

    /** Over any sequence of clicks, all four scales stay within their clamps. */
    lemma ValidScalesInBounds()
      requires Valid()
      ensures ScalesInBounds()
    {
      ShrunkClosedForm(noClickCount, NoStep, NoFloor);
      GrownClosedForm(noClickCount, YesStep, YesCap);
      ShrunkClosedForm(proposalNoClickCount, ProposalNoStep, ProposalNoFloor);
      GrownClosedForm(proposalNoClickCount, ProposalYesStep, ProposalYesCap);
    }

    /** The initial `useState` values. */
    constructor (concertEnd: int, audioPresent: bool)
      ensures this.concertEnd == concertEnd && this.audioPresent == audioPresent
      ensures isPlaying && timeLeft == 0 && showProposal
      ensures noButtonScale == 1.0 && yesButtonScale == 1.0 && noClickCount == 0
      ensures proposalNoScale == 1.0 && proposalYesScale == 1.0 && proposalNoClickCount == 0
      ensures Valid()
    {
      this.concertEnd := concertEnd;
      this.audioPresent := audioPresent;
      isPlaying := true;
      timeLeft := 0;
      showProposal := true;
      noButtonScale, yesButtonScale, noClickCount := 1.0, 1.0, 0;
      proposalNoScale, proposalYesScale, proposalNoClickCount := 1.0, 1.0, 0;
    }

    /** `formatTime(timeLeft)`: the countdown as displayed. */
    function Time(): (d: Duration)
      reads this
      requires Valid()
      ensures IsNormal(d)
      ensures TotalMs(d) <= timeLeft < TotalMs(d) + MsPerSecond
    {
      FormatTimeReconstructs(timeLeft);
      FormatTime(timeLeft)
    }

    /**
     * One firing of the one-second interval at wall-clock time `now`. Only `timeLeft` and
     * `showProposal` may change; the proposal flag is never cleared, and once the concert
     * is over a further tick changes nothing.
     */
    method Tick(now: int)
      requires Valid()
      modifies this`timeLeft, this`showProposal
      ensures Valid()
      ensures concertEnd - now > 0 ==> timeLeft == concertEnd - now && showProposal == old(showProposal)
      ensures concertEnd - now <= 0 ==> timeLeft == 0 && showProposal
      ensures old(showProposal) ==> showProposal
      ensures concertEnd - now <= 0 && old(timeLeft) == 0 && old(showProposal) ==> unchanged(this)
    {
      var distance := concertEnd - now;
      if distance > 0 {
        timeLeft := distance;
      } else {
        showProposal := true;
        timeLeft := 0;
      }
    }

    /** `handleNoClick`, without the random move of the button. */
    method HandleNoClick()
      requires Valid()
      modifies this`noClickCount, this`noButtonScale, this`yesButtonScale
      ensures Valid() && ScalesInBounds()
      ensures noClickCount == old(noClickCount) + 1
      ensures noButtonScale == Max(NoFloor, old(noButtonScale) - NoStep)
      ensures yesButtonScale == Min(YesCap, old(yesButtonScale) + YesStep)
    {
      noClickCount := noClickCount + 1;
      noButtonScale := Max(NoFloor, noButtonScale - NoStep);
      yesButtonScale := Min(YesCap, yesButtonScale + YesStep);
      ValidScalesInBounds();
    }

    /** `handleProposalNoClick`, without the random move of the button. */
    method HandleProposalNoClick()
      requires Valid()
      modifies this`proposalNoClickCount, this`proposalNoScale, this`proposalYesScale
      ensures Valid() && ScalesInBounds()
      ensures proposalNoClickCount == old(proposalNoClickCount) + 1
      ensures proposalNoScale == Max(ProposalNoFloor, old(proposalNoScale) - ProposalNoStep)
      ensures proposalYesScale == Min(ProposalYesCap, old(proposalYesScale) + ProposalYesStep)
    {
      proposalNoClickCount := proposalNoClickCount + 1;
      proposalNoScale := Max(ProposalNoFloor, proposalNoScale - ProposalNoStep);
      proposalYesScale := Min(ProposalYesCap, proposalYesScale + ProposalYesStep);
      ValidScalesInBounds();
    }

    /**
     * The state flip of `toggleMusic`. The flag flips as soon as the audio element is
     * there, whatever `play()` later does: its rejection is only logged.
     */
    method ToggleMusic()
      requires Valid()
      modifies this`isPlaying
      ensures Valid()
      ensures isPlaying == ToggledPlaying(audioPresent, old(isPlaying))
    {
      if audioPresent {
        isPlaying := !isPlaying;
      }
    }
  }
}
