/** The App component of src/App.tsx as an object whose fields its click
    handlers update in place. Each handler is proved against `Card.Step`, so
    every lemma about sequences of steps in module Card applies to it. */
module CardComponent {
  import opened Card

  class CardView {
    /** The photos and the letter, fixed at build time. */
    const cfg: Config
    var isOpen: bool
    var currentIndex: int
    var isFlipped: bool

    /** The range invariant: a photo position or the letter sentinel. */
    ghost predicate Valid()
      reads this
    {
      InRange(State(), |cfg.photos|)
    }

    /** The three fields as one value. */
    function State(): CardState
      reads this
    {
      CardState(isOpen, currentIndex, isFlipped)
    }

    /** What the component renders in its current state. */
    function View(): View
      reads this
      requires Valid()
    {
      ViewOf(isOpen, currentIndex, cfg)
    }

    /** Mounting the component: closed, at the first photo, not flipped. */
    constructor (cfg: Config)
      ensures this.cfg == cfg
      ensures State() == Initial
      ensures Valid()
    {
      this.cfg := cfg;
      isOpen := false;
      currentIndex := 0;
      isFlipped := false;
    }

    /** The envelope's click handler. */
    method Open()
      modifies this`isOpen
      ensures isOpen
      ensures State() == Step(old(State()), EnvelopeClick, |cfg.photos|)
      ensures old(Valid()) ==> Valid()
    {
      isOpen := true;
    }

    /** `handleNext`: advance one photo, or from the last photo to the letter. */
    method HandleNext()
      modifies this`currentIndex
      ensures currentIndex == NextIndex(old(currentIndex), |cfg.photos|)
      ensures State() == Step(old(State()), NextButton, |cfg.photos|)
      ensures old(Valid()) ==> Valid()
    {
      if currentIndex < |cfg.photos| {
        currentIndex := currentIndex + 1;
      }
    }

    /** `handlePrev`: go back one photo unless at the first. */
    method HandlePrev()
      modifies this`currentIndex
      ensures currentIndex == PrevIndex(old(currentIndex))
      ensures State() == Step(old(State()), PrevButton, |cfg.photos|)
      ensures old(Valid()) ==> Valid()
    {
      if currentIndex > 0 {
        currentIndex := currentIndex - 1;
      }
    }
  }
}
