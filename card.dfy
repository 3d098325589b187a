/** The navigation state machine of the greeting card in src/App.tsx, as values.

    The App component keeps three pieces of state: whether the envelope is open,
    an index into the photo list (where the list's length stands for "show the
    letter"), and an animation flag that nothing ever sets. Three click targets
    drive it: the envelope itself, a previous button and a next button. What is
    rendered, and which of those targets exist and are enabled, is a pure
    function of the state and the build-time photo list.
 */
module Card {

  /** One polaroid: an image locator and the caption printed under it. */
  datatype Photo = Photo(url: string, caption: string)

  /** The build-time data the card shows: the photos in browse order and the letter. */
  datatype Config = Config(photos: seq<Photo>, letter: string)

  /** The component's state: `isOpen`, `currentIndex` and `isFlipped`. */
  datatype CardState = CardState(isOpen: bool, currentIndex: int, isFlipped: bool)

  /** The three click targets of the card. */
  datatype Control = EnvelopeClick | PrevButton | NextButton

  /** The one thing the card renders at a time. A polaroid also carries the
      `disabled` attribute of its previous button; its next button has none. */
  datatype View =
    | Envelope
    | Polaroid(index: nat, photo: Photo, prevDisabled: bool)
    | Letter(text: string)

  /** The state at mount: closed, at the first photo, not flipped. */
  const Initial := CardState(false, 0, false)

  /** The range invariant: the index is a photo position or the letter sentinel `n`. */
  predicate InRange(s: CardState, n: nat) {
    0 <= s.currentIndex <= n
  }

  /** The states the card can actually be in while a user clicks through it:
      in range, still at the first photo while closed, never flipped. */
  predicate Reachable(s: CardState, n: nat) {
    InRange(s, n) && (!s.isOpen ==> s.currentIndex == 0) && !s.isFlipped
  }

  /** The index after `handleNext` with `n` photos: one step forward, unless the
      letter is already showing. */
  function NextIndex(i: int, n: nat): (r: int)
    ensures r == i || r == i + 1
    ensures r == i + 1 <==> i < n
    ensures 0 <= i <= n ==> i <= r <= n
  {
    if i < n then i + 1 else i
  }

  /** The index after `handlePrev`: one step back, unless at the first photo. */
  function PrevIndex(i: int): (r: int)
    ensures r == i || r == i - 1
    ensures r == i - 1 <==> i > 0
    ensures 0 <= i ==> 0 <= r <= i
  {
    if i > 0 then i - 1 else i
  }

  /** The effect of one click handler on the state, with `n` photos. */
  function Step(s: CardState, c: Control, n: nat): (r: CardState)
    ensures r.isFlipped == s.isFlipped
    ensures r.isOpen <==> s.isOpen || c == EnvelopeClick
    ensures c == EnvelopeClick ==> r.currentIndex == s.currentIndex
    ensures c != EnvelopeClick ==> r.currentIndex in {s.currentIndex - 1, s.currentIndex, s.currentIndex + 1}
    ensures InRange(s, n) ==> InRange(r, n)
  {
    match c
    case EnvelopeClick => s.(isOpen := true)
    case NextButton => s.(currentIndex := NextIndex(s.currentIndex, n))
    case PrevButton => s.(currentIndex := PrevIndex(s.currentIndex))
  }

  /** The render-time choice of view from `isOpen` and `currentIndex` alone. */
  function ViewOf(isOpen: bool, i: int, cfg: Config): (v: View)
    requires 0 <= i
    ensures v.Envelope? <==> !isOpen
    ensures v.Polaroid? <==> isOpen && i < |cfg.photos|
    ensures v.Letter? <==> isOpen && |cfg.photos| <= i
    ensures v.Polaroid? ==> v.index == i < |cfg.photos| && v.photo == cfg.photos[i]
    ensures v.Polaroid? ==> (v.prevDisabled <==> i == 0)
    ensures v.Letter? ==> v.text == cfg.letter
  {
    if !isOpen then Envelope
    else if i < |cfg.photos| then Polaroid(i, cfg.photos[i], i == 0)
    else Letter(cfg.letter)
  }

  /** The click targets a view renders and leaves enabled: the whole envelope
      while closed, both buttons beside a polaroid (previous only when not
      disabled), and nothing around the letter. */
  function Controls(v: View): (cs: set<Control>)
    ensures EnvelopeClick in cs <==> v.Envelope?
    ensures NextButton in cs <==> v.Polaroid?
    ensures PrevButton in cs <==> v.Polaroid? && !v.prevDisabled
    ensures v.Letter? ==> cs == {}
  {
    match v
    case Envelope => {EnvelopeClick}
    case Polaroid(_, _, prevDisabled) => if prevDisabled then {NextButton} else {PrevButton, NextButton}
    case Letter(_) => {}
  }

  /** Every enabled control of a rendered view has an effect: none is a no-op. */
  lemma ControlsTakeEffect(s: CardState, c: Control, cfg: Config)
    requires InRange(s, |cfg.photos|)
    requires c in Controls(ViewOf(s.isOpen, s.currentIndex, cfg))
    ensures Step(s, c, |cfg.photos|) != s
  {
  }

  /** While a photo is showing, a control is offered exactly when its handler
      would change the state; in particular the previous button is disabled
      exactly at the first photo. */
  lemma PhotoControlsExact(s: CardState, c: Control, cfg: Config)
    requires s.isOpen && 0 <= s.currentIndex < |cfg.photos|
    ensures c in Controls(ViewOf(s.isOpen, s.currentIndex, cfg)) <==> Step(s, c, |cfg.photos|) != s
    ensures PrevButton !in Controls(ViewOf(s.isOpen, s.currentIndex, cfg)) <==> s.currentIndex == 0
  {
  }

  /** The letter renders no buttons, although `handlePrev` would still step
      back from it if it were called. */
  lemma LetterHasNoControls(s: CardState, cfg: Config)
    requires s.isOpen && s.currentIndex == |cfg.photos|
    ensures Controls(ViewOf(s.isOpen, s.currentIndex, cfg)) == {}
    ensures |cfg.photos| > 0 ==> Step(s, PrevButton, |cfg.photos|).currentIndex == |cfg.photos| - 1
  {
  }

  // ---------------------------------------------------------------------------
  // Sequences of handler calls

  /** The state after calling the handlers `cs` in order, whatever is on screen. */
  function Run(s: CardState, cs: seq<Control>, n: nat): CardState
    decreases |cs|
  {
    if cs == [] then s else Run(Step(s, cs[0], n), cs[1..], n)
  }

  /** `k` clicks on the same control. */
  function Repeat(c: Control, k: nat): (cs: seq<Control>)
    ensures |cs| == k
  {
    if k == 0 then [] else [c] + Repeat(c, k - 1)
  }

  /** Running two sequences of handlers one after the other is running their concatenation. */
  lemma {:induction false} RunAppend(s: CardState, a: seq<Control>, b: seq<Control>, n: nat)
    ensures Run(s, a + b, n) == Run(Run(s, a, n), b, n)
    decreases |a|
  {
    if a != [] {
      assert (a + b)[0] == a[0];
      assert (a + b)[1..] == a[1..] + b;
      RunAppend(Step(s, a[0], n), a[1..], b, n);
    } else {
      assert a + b == b;
    }
  }

  /** The range invariant holds after any sequence of handler calls. */
  lemma {:induction false} RunKeepsRange(s: CardState, cs: seq<Control>, n: nat)
    requires InRange(s, n)
    ensures InRange(Run(s, cs, n), n)
    decreases |cs|
  {
    if cs != [] {
      RunKeepsRange(Step(s, cs[0], n), cs[1..], n);
    }
  }

  /** Once open, the card never closes again. */
  lemma {:induction false} RunNeverCloses(s: CardState, cs: seq<Control>, n: nat)
    requires s.isOpen
    ensures Run(s, cs, n).isOpen
    decreases |cs|
  {
    if cs != [] {
      RunNeverCloses(Step(s, cs[0], n), cs[1..], n);
    }
  }

  /** No handler touches the flip flag. */
  lemma {:induction false} RunKeepsFlipped(s: CardState, cs: seq<Control>, n: nat)
    ensures Run(s, cs, n).isFlipped == s.isFlipped
    decreases |cs|
  {
    if cs != [] {
      RunKeepsFlipped(Step(s, cs[0], n), cs[1..], n);
    }
  }

  /** From mount, any sequence of handler calls keeps the index in `[0, n]` and the card unflipped. */
  lemma RunFromInitial(cs: seq<Control>, n: nat)
    ensures InRange(Run(Initial, cs, n), n)
    ensures !Run(Initial, cs, n).isFlipped
  {
    RunKeepsRange(Initial, cs, n);
    RunKeepsFlipped(Initial, cs, n);
  }

  /** Opening is idempotent: one or more clicks on the envelope only set `isOpen`. */
  lemma {:induction false} OpenIdempotent(s: CardState, k: nat, n: nat)
    requires k >= 1
    ensures Run(s, Repeat(EnvelopeClick, k), n) == s.(isOpen := true)
    decreases k
  {
    var cs := Repeat(EnvelopeClick, k);
    assert cs[0] == EnvelopeClick && cs[1..] == Repeat(EnvelopeClick, k - 1);
    if k > 1 {
      OpenIdempotent(s.(isOpen := true), k - 1, n);
    }
  }

  /** `k` clicks on next advance the index by `k`, stopping at the letter;
      at the letter further clicks change nothing. */
  lemma {:induction false} NextsAdvance(s: CardState, k: nat, n: nat)
    requires InRange(s, n)
    ensures Run(s, Repeat(NextButton, k), n)
         == s.(currentIndex := if s.currentIndex + k <= n then s.currentIndex + k else n)
    decreases k
  {
    if k > 0 {
      var cs := Repeat(NextButton, k);
      assert cs[0] == NextButton && cs[1..] == Repeat(NextButton, k - 1);
      NextsAdvance(Step(s, NextButton, n), k - 1, n);
    }
  }

  /** `k` clicks on previous move the index back by `k`, stopping at the first photo. */
  lemma {:induction false} PrevsRetreat(s: CardState, k: nat, n: nat)
    requires InRange(s, n)
    ensures Run(s, Repeat(PrevButton, k), n)
         == s.(currentIndex := if s.currentIndex - k >= 0 then s.currentIndex - k else 0)
    decreases k
  {
    if k > 0 {
      var cs := Repeat(PrevButton, k);
      assert cs[0] == PrevButton && cs[1..] == Repeat(PrevButton, k - 1);
      PrevsRetreat(Step(s, PrevButton, n), k - 1, n);
    }
  }

  /** Going forward `k` steps without passing the letter and then back `k`
      steps returns to the same state. */
  lemma NextsThenPrevs(s: CardState, k: nat, n: nat)
    requires InRange(s, n) && s.currentIndex + k <= n
    ensures Run(s, Repeat(NextButton, k) + Repeat(PrevButton, k), n) == s
  {
    RunAppend(s, Repeat(NextButton, k), Repeat(PrevButton, k), n);
    NextsAdvance(s, k, n);
    PrevsRetreat(s.(currentIndex := s.currentIndex + k), k, n);
  }

  // ---------------------------------------------------------------------------
  // Sequences of clicks on what is rendered

  /** The state after the user clicks `cs` in order, where a click lands only on
      a control that the current view renders and leaves enabled. */
  function Interact(s: CardState, cs: seq<Control>, cfg: Config): (r: CardState)
    requires InRange(s, |cfg.photos|)
    ensures InRange(r, |cfg.photos|)
    ensures s.isOpen ==> r.isOpen
    ensures r.isFlipped == s.isFlipped
    decreases |cs|
  {
    if cs == [] then s
    else
      var shown := Controls(ViewOf(s.isOpen, s.currentIndex, cfg));
      var next := if cs[0] in shown then Step(s, cs[0], |cfg.photos|) else s;
      Interact(next, cs[1..], cfg)
  }

  /** Clicking on the card never leaves the reachable states. */
  lemma {:induction false} InteractKeepsReachable(s: CardState, cs: seq<Control>, cfg: Config)
    requires Reachable(s, |cfg.photos|)
    ensures Reachable(Interact(s, cs, cfg), |cfg.photos|)
    decreases |cs|
  {
    if cs != [] {
      var shown := Controls(ViewOf(s.isOpen, s.currentIndex, cfg));
      var next := if cs[0] in shown then Step(s, cs[0], |cfg.photos|) else s;
      InteractKeepsReachable(next, cs[1..], cfg);
    }
  }

  /** From mount, whatever the user clicks, the card is in a reachable state. */
  lemma InteractFromInitial(cs: seq<Control>, cfg: Config)
    ensures Reachable(Interact(Initial, cs, cfg), |cfg.photos|)
  {
    InteractKeepsReachable(Initial, cs, cfg);
  }

  /** Once the letter shows, no click changes anything: the letter is terminal. */
  lemma {:induction false} LetterIsTerminal(s: CardState, cs: seq<Control>, cfg: Config)
    requires s.isOpen && s.currentIndex == |cfg.photos|
    ensures Interact(s, cs, cfg) == s
    decreases |cs|
  {
    if cs != [] {
      LetterIsTerminal(s, cs[1..], cfg);
    }
  }
}
