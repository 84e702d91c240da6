/** The scroll-driven project card stack: from the page's scroll progress, a
    card's index and the number of cards, each card gets a 3-D transform, an
    opacity and a stacking order. The cards wait in a stack, pass one at a time
    through focus towards the viewer, and leave the screen. */
module CardStack {

  /** The part of the page's scroll range over which the cards move. */
  const SectionStart: real := 0.25
  const SectionEnd: real := 0.75

  /** The three visual states a card can be in. */
  datatype Regime = Stacked | Focus | Passed

  /** A CSS length: the stacked offset is in pixels, the others in viewport heights. */
  datatype Length = Px(px: real) | Vh(vh: real)

  /** What the card renders with: translateY, translateZ (px), scale,
      rotateX (degrees), opacity and z-index. A transform without a scale
      or a rotation has scale 1 and rotation 0. */
  datatype CardVisual = CardVisual(
    translateY: Length,
    translateZ: real,
    scale: real,
    rotateX: real,
    opacity: real,
    zIndex: int)

  /** Scroll progress measured in section lengths from the section start;
      not clamped, so it is negative before the section and above 1 after it. */
  function SectionProgress(scroll: real): (r: real)
    ensures r < 0.0 <==> scroll < SectionStart
    ensures r >= 1.0 <==> scroll >= SectionEnd
  {
    (scroll - SectionStart) / (SectionEnd - SectionStart)
  }

  /** How far card index is through its own focus window: each card owns a
      window of 1 / total section lengths, card 0 first. */
  function CardProgress(scroll: real, index: int, total: int): (p: real)
    ensures scroll == SectionStart ==> p == -(index as real)
    ensures scroll == SectionEnd ==> p == (total - index) as real
  {
    SectionProgress(scroll) * (total as real) - (index as real)
  }

  /** The regime for a card progress p: stacked before 0, in focus on [0, 1),
      passed from 1 on (so p == 1 is passed). */
  function RegimeOf(p: real): (r: Regime)
    ensures r == Stacked <==> p < 0.0
    ensures r == Focus <==> 0.0 <= p < 1.0
    ensures r == Passed <==> 1.0 <= p
  {
    if p < 0.0 then Stacked
    else if p >= 0.0 && p < 1.0 then Focus
    else Passed
  }

  /** The regime card index is in at the given scroll progress. */
  function CardRegime(scroll: real, index: int, total: int): (r: Regime)
    ensures 0 <= index < total && scroll < SectionStart ==> r == Stacked
    ensures 0 <= index < total && scroll >= SectionEnd ==> r == Passed
  {
    RegimeOf(CardProgress(scroll, index, total))
  }

  /** The card's visual state, recomputed from the three inputs alone. */
  function Visual(scroll: real, index: int, total: int): (v: CardVisual)
    ensures 0 <= index < total && scroll < SectionStart
         ==> v.zIndex == total - index && v.rotateX == 2.0
    ensures 0 <= index < total && scroll >= SectionEnd
         ==> v.opacity == 0.0 && v.zIndex == 0
  {
    var p := CardProgress(scroll, index, total);
    assert RegimeOf(p) == CardRegime(scroll, index, total);
    VisualAt(p, index, total)
  }

  /** The visual state of card index once its progress p is known. */
  function VisualAt(p: real, index: int, total: int): (v: CardVisual)
    ensures v.translateY.Px? <==> p < 0.0
    ensures 0.0 <= p ==> 0.0 <= v.opacity <= 1.0 && 0.2 <= v.scale <= 1.0
    ensures 0 <= index && 0 <= total ==> (v.zIndex > total <==> 0.0 <= p < 1.0)
  {
    match RegimeOf(p)
    case Stacked =>
      CardVisual(Px(index as real * 8.0), -(index as real) * 20.0, 1.0, 2.0,
                 1.0 - index as real * 0.1, total - index)
    case Focus =>
      CardVisual(Vh(p * -150.0), p * 500.0, 1.0 - p * 0.5, p * -10.0, 1.0 - p, total + 10)
    case Passed =>
      CardVisual(Vh(-200.0), 1000.0, 0.2, 0.0, 0.0, 0)
  }

  /** Rank of a regime in the order a card goes through them. */
  function Rank(r: Regime): nat
  {
    match r
    case Stacked => 0
    case Focus => 1
    case Passed => 2
  }

  // ---------------------------------------------------------------------------
  // The three regimes

  /** A stacked card sits 8 px lower and 20 px further back per index, tilted
      by 2 degrees, slightly faded per index, and earlier cards above later ones. */
  lemma StackedState(scroll: real, index: int, total: int)
    requires CardRegime(scroll, index, total) == Stacked
    ensures Visual(scroll, index, total).translateY == Px(8.0 * index as real)
    ensures Visual(scroll, index, total).translateZ == -20.0 * index as real
    ensures Visual(scroll, index, total).rotateX == 2.0 && Visual(scroll, index, total).scale == 1.0
    ensures Visual(scroll, index, total).opacity == 1.0 - 0.1 * index as real
    ensures Visual(scroll, index, total).zIndex == total - index
  {
  }

  /** A focused card at progress p is raised by 150p vh, brought 500p px
      nearer, scaled to 1 - p/2, tilted by -10p degrees and faded to 1 - p:
      it rises (up to 150 vh), comes towards the viewer (up to 500 px),
      shrinks towards half size and fades out, above every other card. */
  lemma FocusBounds(scroll: real, index: int, total: int)
    requires CardRegime(scroll, index, total) == Focus
    ensures var p := CardProgress(scroll, index, total);
      Visual(scroll, index, total)
      == CardVisual(Vh(p * -150.0), p * 500.0, 1.0 - p * 0.5, p * -10.0, 1.0 - p, total + 10)
    ensures Visual(scroll, index, total).translateY.Vh?
    ensures -150.0 < Visual(scroll, index, total).translateY.vh <= 0.0
    ensures 0.0 <= Visual(scroll, index, total).translateZ < 500.0
    ensures 0.5 < Visual(scroll, index, total).scale <= 1.0
    ensures -10.0 < Visual(scroll, index, total).rotateX <= 0.0
    ensures 0.0 < Visual(scroll, index, total).opacity <= 1.0
    ensures Visual(scroll, index, total).zIndex == total + 10
  {
  }

  /** Further into focus, a card is higher, nearer, smaller, more tilted and
      fainter. */
  lemma FocusMotion(p1: real, p2: real, index: int, total: int)
    requires 0.0 <= p1 < p2 < 1.0
    ensures VisualAt(p2, index, total).translateY.vh < VisualAt(p1, index, total).translateY.vh
    ensures VisualAt(p2, index, total).translateZ > VisualAt(p1, index, total).translateZ
    ensures VisualAt(p2, index, total).scale < VisualAt(p1, index, total).scale
    ensures VisualAt(p2, index, total).rotateX < VisualAt(p1, index, total).rotateX
    ensures VisualAt(p2, index, total).opacity < VisualAt(p1, index, total).opacity
  {
  }

  /** A passed card is off-screen, a fifth of its size, invisible and at the bottom. */
  lemma PassedState(scroll: real, index: int, total: int)
    requires CardRegime(scroll, index, total) == Passed
    ensures Visual(scroll, index, total)
         == CardVisual(Vh(-200.0), 1000.0, 0.2, 0.0, 0.0, 0)
  {
  }

  // ---------------------------------------------------------------------------
  // Relations between cards

  /** At the same scroll progress, card i is exactly j - i ahead of card j. */
  lemma ProgressOffset(scroll: real, i: int, j: int, total: int)
    ensures CardProgress(scroll, i, total) - CardProgress(scroll, j, total) == (j - i) as real
  {
  }

  /** Two different cards are never in focus together. */
  lemma AtMostOneInFocus(scroll: real, i: int, j: int, total: int)
    requires i != j
    ensures !(CardRegime(scroll, i, total) == Focus && CardRegime(scroll, j, total) == Focus)
  {
    ProgressOffset(scroll, i, j, total);
  }

  /** The card in focus is drawn above every card that is not. */
  lemma FocusOnTop(scroll: real, i: int, j: int, total: int)
    requires 0 <= j && 0 <= total
    requires CardRegime(scroll, i, total) == Focus
    requires CardRegime(scroll, j, total) != Focus
    ensures Visual(scroll, i, total).zIndex > Visual(scroll, j, total).zIndex
  {
  }

  /** In the stack, an earlier card is drawn above, nearer and more opaque
      than a later one. */
  lemma StackOrder(scroll: real, i: int, j: int, total: int)
    requires i < j
    requires CardRegime(scroll, i, total) == Stacked
    requires CardRegime(scroll, j, total) == Stacked
    ensures Visual(scroll, i, total).zIndex > Visual(scroll, j, total).zIndex
    ensures Visual(scroll, i, total).translateZ > Visual(scroll, j, total).translateZ
    ensures Visual(scroll, i, total).opacity > Visual(scroll, j, total).opacity
  {
  }

  /** The stack empties from the front: while a card is stacked, every later
      card is stacked too. */
  lemma StackedSuffix(scroll: real, i: int, j: int, total: int)
    requires i < j
    requires CardRegime(scroll, i, total) == Stacked
    ensures CardRegime(scroll, j, total) == Stacked
  {
    ProgressOffset(scroll, i, j, total);
  }

  /** With at least one card, scrolling further never moves a card back. */
  lemma ProgressMonotone(s1: real, s2: real, index: int, total: int)
    requires total > 0 && s1 <= s2
    ensures CardProgress(s1, index, total) <= CardProgress(s2, index, total)
  {
    var t := total as real;
    assert SectionProgress(s1) <= SectionProgress(s2);
    assert SectionProgress(s1) * t <= SectionProgress(s2) * t;
  }

  /** So a card only goes stacked, then focus, then passed as the page scrolls down. */
  lemma RegimeMonotone(s1: real, s2: real, index: int, total: int)
    requires total > 0 && s1 <= s2
    ensures Rank(CardRegime(s1, index, total)) <= Rank(CardRegime(s2, index, total))
  {
    ProgressMonotone(s1, s2, index, total);
  }

  /** The focus window of card index, in scroll progress: it starts at
      SectionStart + index / total section lengths and lasts 1 / total of one. */
  lemma FocusWindow(scroll: real, index: int, total: int)
    requires total > 0
    ensures CardRegime(scroll, index, total) == Focus
        <==> index as real <= SectionProgress(scroll) * (total as real) < (index + 1) as real
    ensures CardRegime(scroll, index, total) == Focus
        <==> SectionStart + 0.5 * (index as real) / (total as real) <= scroll
             && scroll < SectionStart + 0.5 * ((index + 1) as real) / (total as real)
  {
    var t := total as real;
    var sp := SectionProgress(scroll);
    var lo := SectionStart + 0.5 * (index as real) / t;
    var hi := SectionStart + 0.5 * ((index + 1) as real) / t;
    assert sp == (scroll - SectionStart) * 2.0;
    assert lo <= scroll <==> index as real <= sp * t by {
      assert (lo - SectionStart) * t == 0.5 * index as real;
    }
    assert scroll < hi <==> sp * t < (index + 1) as real by {
      assert (hi - SectionStart) * t == 0.5 * (index + 1) as real;
    }
  }

  // ---------------------------------------------------------------------------
  // Regime boundaries

  /** Entering focus is a jump, not a continuous change: a stacked card is
      tilted by 2 degrees, a focused one by at most 0. */
  lemma FocusEntryJump(p1: real, p2: real, index: int, total: int)
    requires p1 < 0.0 <= p2 < 1.0
    ensures VisualAt(p1, index, total).rotateX - VisualAt(p2, index, total).rotateX >= 2.0
  {
  }

  /** Leaving focus is a jump too: a focused card is larger than half size
      and nearer than 500 px, a passed one is a fifth of its size at 1000 px. */
  lemma FocusExitJump(p1: real, p2: real, index: int, total: int)
    requires 0.0 <= p1 < 1.0 <= p2
    ensures VisualAt(p1, index, total).scale - VisualAt(p2, index, total).scale > 0.3
    ensures VisualAt(p2, index, total).translateZ - VisualAt(p1, index, total).translateZ > 500.0
  {
  }

  /** Three cards: at the section start the middle card is still stacked and
      slightly faded; at the section end the last card has just passed. */
  lemma ThreeCardScenario()
    ensures CardProgress(0.25, 1, 3) == -1.0
    ensures CardRegime(0.25, 1, 3) == Stacked && Visual(0.25, 1, 3).opacity == 0.9
    ensures CardProgress(0.75, 2, 3) == 1.0
    ensures CardRegime(0.75, 2, 3) == Passed && Visual(0.75, 2, 3).opacity == 0.0
  {
  }

  // ---------------------------------------------------------------------------
  // The project-number label

  /** The character for decimal digit d. */
  function DigitChar(d: nat): (c: char)
    requires d < 10
    ensures '0' <= c <= '9'
    ensures c as int - '0' as int == d
  {
    (('0' as int) + d) as char
  }

  predicate IsDigit(c: char)
  {
    '0' <= c <= '9'
  }

  /** The decimal numeral of n, without leading zeros. */
  function DecimalDigits(n: nat): (s: string)
    ensures |s| >= 1
    ensures forall k :: 0 <= k < |s| ==> IsDigit(s[k])
    ensures n < 10 <==> |s| == 1
    ensures n >= 10 ==> s[0] != '0'
    decreases n
  {
    if n < 10 then [DigitChar(n)] else DecimalDigits(n / 10) + [DigitChar(n % 10)]
  }

  /** The number a string of decimal digits denotes (the reference reading). */
  function DigitsValue(s: string): nat
    requires forall k :: 0 <= k < |s| ==> IsDigit(s[k])
  {
    if s == [] then 0
    else DigitsValue(s[..|s| - 1]) * 10 + DigitValue(s[|s| - 1])
  }

  function DigitValue(c: char): nat
    requires IsDigit(c)
  {
    c as int - '0' as int
  }

  /** JavaScript's String() of an integer: a minus sign, then the digits. */
  function NumberString(n: int): (r: string)
    ensures |r| >= 1
    ensures r[0] == '-' <==> n < 0
    ensures n >= 0 ==> |r| == 1 || r[0] != '0'
    ensures n < 0 ==> |r| >= 2 && (|r| == 2 || r[1] != '0')
    ensures n >= 0 ==> (forall k :: 0 <= k < |r| ==> IsDigit(r[k])) && DigitsValue(r) == n
    ensures n < 0 ==> (forall k :: 1 <= k < |r| ==> IsDigit(r[k])) && DigitsValue(r[1..]) == -n
  {
    if n < 0 then
      var digits := DecimalDigits(-n);
      DigitsRoundTrip(-n);
      assert ("-" + digits)[1..] == digits;
      "-" + digits
    else
      DigitsRoundTrip(n);
      DecimalDigits(n)
  }

  /** JavaScript's padStart with a one-character pad: fill on the left up to width. */
  function PadStart(s: string, width: nat, fill: char): (r: string)
    ensures |r| == if |s| >= width then |s| else width
    ensures r[|r| - |s|..] == s
    ensures forall k :: 0 <= k < |r| - |s| ==> r[k] == fill
    decreases width - |s|
  {
    if |s| >= width then s else PadStart([fill] + s, width, fill)
  }

  /** The large faint number in the card's corner: index + 1, two digits at least. */
  function ProjectLabel(index: int): (text: string)
    ensures |text| >= 2 && |text| >= |NumberString(index + 1)|
    ensures |text| == if |NumberString(index + 1)| >= 2 then |NumberString(index + 1)| else 2
    ensures text[|text| - |NumberString(index + 1)|..] == NumberString(index + 1)
    ensures forall k :: 0 <= k < |text| - |NumberString(index + 1)| ==> text[k] == '0'
  {
    PadStart(NumberString(index + 1), 2, '0')
  }

  /** Reading the numeral back gives the number. */
  lemma {:induction false} DigitsRoundTrip(n: nat)
    ensures DigitsValue(DecimalDigits(n)) == n
    decreases n
  {
    if n >= 10 {
      var s := DecimalDigits(n);
      assert s[..|s| - 1] == DecimalDigits(n / 10);
      DigitsRoundTrip(n / 10);
    }
  }

  /** A leading zero does not change the value. */
  lemma {:induction false} LeadingZero(s: string)
    requires forall k :: 0 <= k < |s| ==> IsDigit(s[k])
    ensures DigitsValue(['0'] + s) == DigitsValue(s)
    decreases |s|
  {
    if s != [] {
      assert (['0'] + s)[..|s|] == ['0'] + s[..|s| - 1];
      LeadingZero(s[..|s| - 1]);
    }
  }

  /** Cards 1 to 9 are labelled "01" to "09"; from 10 on the numeral is unpadded. */
  lemma LabelShape(index: int)
    requires index >= 0
    ensures index + 1 < 10 ==> ProjectLabel(index) == ['0', DigitChar(index + 1)]
    ensures index + 1 >= 10 ==> ProjectLabel(index) == DecimalDigits(index + 1)
  {
    var digits := DecimalDigits(index + 1);
    assert NumberString(index + 1) == digits;
    if index + 1 < 10 {
      assert digits == [DigitChar(index + 1)];
      assert PadStart(digits, 2, '0') == PadStart(['0'] + digits, 2, '0');
    }
  }

  /** Padding a numeral with at most one leading zero keeps it a numeral of the same value. */
  lemma PaddedValue(digits: string, padded: string)
    requires forall k :: 0 <= k < |digits| ==> IsDigit(digits[k])
    requires padded == digits || padded == ['0'] + digits
    ensures forall k :: 0 <= k < |padded| ==> IsDigit(padded[k])
    ensures DigitsValue(padded) == DigitsValue(digits)
  {
    if padded != digits {
      LeadingZero(digits);
    }
  }

  /** For every card the label is a string of at least two decimal digits
      whose value is the card's one-based number. */
  lemma LabelValue(index: int)
    requires index >= 0
    ensures |ProjectLabel(index)| >= 2
    ensures forall k :: 0 <= k < |ProjectLabel(index)| ==> IsDigit(ProjectLabel(index)[k])
    ensures DigitsValue(ProjectLabel(index)) == index + 1
  {
    var digits := DecimalDigits(index + 1);
    var text := ProjectLabel(index);
    LabelShape(index);
    assert text == digits || text == ['0'] + digits;
    DigitsRoundTrip(index + 1);
    PaddedValue(digits, text);
  }
}
