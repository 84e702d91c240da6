/** The showcase project card of the portfolio page: its image carousel, which
    advances on a timer and jumps when an indicator is clicked, and the rule
    that decides whether a "Live Demo" link is shown. */
module Showcase {

  /** Shown when the current image path is empty or missing. */
  const Placeholder: string := "/placeholder.svg"

  /** The carousel's state: the index of the image on show, and how many images
      the card was given. */
  datatype Carousel = Carousel(current: nat, count: nat)
  {
    /** The index on show names one of the card's images. */
    predicate Valid()
    {
      current < count
    }
  }

  /** The carousel a card starts with. */
  function Initial(count: nat): (c: Carousel)
    ensures c.current == 0 && c.count == count
    ensures c.Valid() <==> count > 0
  {
    Carousel(0, count)
  }

  /** The timer tick's successor index: the next image, and back to the first
      after the last one. */
  function NextImage(current: nat, count: nat): (next: nat)
    requires count > 0
    ensures next < count
    ensures current + 1 < count ==> next == current + 1
    ensures current + 1 == count ==> next == 0
  {
    (current + 1) % count
  }

  /** One timer tick. */
  function Tick(c: Carousel): (r: Carousel)
    requires c.count > 0
    ensures r.count == c.count && r.Valid()
  {
    c.(current := NextImage(c.current, c.count))
  }

  /** A click on the indicator for image idx; an indicator is rendered for
      every image and for nothing else, so idx is always one of them. */
  function Select(c: Carousel, idx: nat): (r: Carousel)
    requires idx < c.count
    ensures r.Valid() && r.count == c.count
    ensures forall j :: 0 <= j < r.count ==> (IndicatorActive(r, j) <==> j == idx)
  {
    c.(current := idx)
  }

  /** Indicator j is drawn wide and in the card's accent colour. */
  predicate IndicatorActive(c: Carousel, j: nat)
  {
    j == c.current
  }

  /** The image source for the state: the current path, or the placeholder
      when that path is empty or missing. */
  function ShownImage(images: seq<string>, c: Carousel): (src: string)
    ensures src in images || src == Placeholder
    ensures c.current < |images| && images[c.current] != "" ==> src == images[c.current]
    ensures !(c.current < |images| && images[c.current] != "") ==> src == Placeholder
  {
    if c.current < |images| && images[c.current] != "" then images[c.current] else Placeholder
  }

  /** The carousel after k timer ticks. */
  function AfterTicks(c: Carousel, k: nat): Carousel
    requires c.count > 0
  {
    if k == 0 then c else Tick(AfterTicks(c, k - 1))
  }

  /** Within one round, k ticks move start + k places forward, wrapping past the end. */
  lemma {:induction false} TicksAdvance(c: Carousel, k: nat)
    requires c.Valid() && k <= c.count
    ensures AfterTicks(c, k).count == c.count
    ensures AfterTicks(c, k).current
         == if c.current + k < c.count then c.current + k else c.current + k - c.count
  {
    if k > 0 {
      TicksAdvance(c, k - 1);
    }
  }

  /** The carousel comes back to its starting image after exactly count ticks,
      and not before. */
  lemma CarouselPeriod(c: Carousel)
    requires c.Valid()
    ensures AfterTicks(c, c.count) == c
    ensures forall k :: 0 < k < c.count ==> AfterTicks(c, k).current != c.current
  {
    TicksAdvance(c, c.count);
    forall k | 0 < k < c.count ensures AfterTicks(c, k).current != c.current {
      TicksAdvance(c, k);
    }
  }

  /** The image counts the page passes to its four project cards
      (SpendSense, ChatLink, Personal Portfolio, Sinhala OCR). */
  const ShowcaseImageCounts: seq<nat> := [5, 5, 2, 3]

  /** Every card on the page starts in a valid state and stays valid under
      ticks, so the index on show is always one of its images. */
  lemma ShowcaseCarouselsValid(card: nat, k: nat)
    requires card < |ShowcaseImageCounts|
    ensures Initial(ShowcaseImageCounts[card]).Valid()
    ensures AfterTicks(Initial(ShowcaseImageCounts[card]), k).Valid()
  {
    if k > 0 {
      ShowcaseCarouselsValid(card, k - 1);
    }
  }

  /** A "Live Demo" link is rendered when the URL is a non-empty string other than "#". */
  predicate ShowsLiveDemo(liveUrl: string)
    ensures ShowsLiveDemo(liveUrl) ==> |liveUrl| >= 1
    ensures |liveUrl| >= 1 && liveUrl[0] != '#' ==> ShowsLiveDemo(liveUrl)
  {
    liveUrl != "" && liveUrl != "#"
  }

  /** The link shows exactly for URLs of two or more characters, or a single
      character other than '#'. */
  lemma LiveDemoByLength(liveUrl: string)
    ensures ShowsLiveDemo(liveUrl) <==> |liveUrl| >= 2 || (|liveUrl| == 1 && liveUrl[0] != '#')
  {
    if |liveUrl| == 1 && liveUrl[0] == '#' {
      assert liveUrl == "#";
    }
  }

  /** The four cards on the page: SpendSense and the portfolio itself pass "#",
      so they get no link; ChatLink and Sinhala OCR pass real URLs and get one. */
  lemma ShowcaseLiveDemos()
    ensures !ShowsLiveDemo("#")
    ensures ShowsLiveDemo("https://chatlink-app-ravindu-f3bkbabrfmfahshx.westus3-01.azurewebsites.net")
    ensures ShowsLiveDemo("https://sinhala-ocr-converter.vercel.app/")
  {
  }
}
