/** `EPrintsProgressBar`: a bordered image whose background bar is slid into
    place by a periodic timer. The stored progress is a fraction in [0, 1];
    `current` is the number of pixels of bar shown, and each tick moves it to
    the rounded target for the image's measured width. */
module ProgressBar {
  import opened Wrappers

  /** `Math.round(x)`: the nearest integer, halves rounded up. */
  function Round(x: real): (r: int)
    ensures r as real <= x + 0.5 < r as real + 1.0
  {
    (x + 0.5).Floor
  }

  /** The bar length a tick aims for: `Math.round(progress * width)`. */
  function Target(progress: real, width: nat): int
  {
    Round(progress * width as real)
  }

  /** What `update` accepts: a value that is present and within [0, 1]. */
  predicate Accepts(p: Option<real>)
  {
    p.Some? && 0.0 <= p.value <= 1.0
  }

  /** The bar never runs outside the image: the target lies in 0..width. */
  lemma TargetBounds(progress: real, width: nat)
    requires 0.0 <= progress <= 1.0
    ensures 0 <= Target(progress, width) <= width
  {
    var x := progress * width as real;
    assert 0.0 <= x <= width as real by {
      assert (1.0 - progress) * width as real >= 0.0;
    }
  }

  /** The background offset `current - width` of a bar that reached its
      target lies in [-width, 0]: -width when empty and 0 when full. */
  lemma OffsetBounds(progress: real, width: nat)
    requires 0.0 <= progress <= 1.0
    ensures -(width as int) <= Target(progress, width) - width <= 0
    ensures progress == 0.0 ==> Target(progress, width) == 0
    ensures progress == 1.0 ==> Target(progress, width) - width == 0
  {
    TargetBounds(progress, width);
  }

  /** The target is the length nearest to the exact fraction of the width. */
  lemma TargetIsNearest(progress: real, width: nat)
    ensures var t := Target(progress, width) as real;
            var x := progress * width as real;
            -0.5 < t - x <= 0.5
  {
  }

  /** A `PeriodicalExecuter`: only whether it is still running matters. */
  class Timer {
    var running: bool

    constructor ()
      ensures running
    {
      running := true;
    }
  }

  class Bar {
    /** The image files and the text flag, each defaulted when not given. */
    const bar: string
    const border: string
    const showText: int
    /** The directory the images are served from. */
    const imgPath: string
    /** The image's `src`, its background set on load, and its `alt`. */
    const src: string
    var background: Option<string>
    var alt: Option<string>
    /** `progress`, `current`, `timer`, and the background position last
        written (its horizontal pixel offset). */
    var progress: real
    var current: int
    var timer: Timer?
    var offset: Option<int>

    ghost predicate Valid()
      reads this
    {
      0.0 <= progress <= 1.0 && current >= 0
    }

    constructor (httpRoot: string, bar: Option<string>, border: Option<string>, showText: Option<int>)
      ensures current == 0 && progress == 0.0 && timer == null
      ensures this.bar == (if bar == None then "progress_bar.png" else bar.value)
      ensures this.border == (if border == None then "progress_border.png" else border.value)
      ensures this.showText == (if showText == None then 0 else showText.value)
      ensures imgPath == httpRoot + "/style/images/" && src == imgPath + this.border
      ensures background == None && alt == None && offset == None
      ensures Valid()
    {
      imgPath := httpRoot + "/style/images/";
      current := 0;
      progress := 0.0;
      this.bar := if bar == None then "progress_bar.png" else bar.value;
      this.border := if border == None then "progress_border.png" else border.value;
      this.showText := if showText == None then 0 else showText.value;
      src := httpRoot + "/style/images/" + (if border == None then "progress_border.png" else border.value);
      background := None;
      alt := None;
      offset := None;
      timer := null;
    }

    /** `_update`, run by the timer with the image's current width: nothing
        while the width is 0; otherwise the bar moves to its target, and the
        timer is stopped on the tick that finds it already there. */
    method Tick(width: nat)
      requires timer != null && Valid()
      modifies this, timer
      ensures timer == old(timer) && progress == old(progress) && alt == old(alt) && background == old(background)
      ensures width == 0 ==> current == old(current) && offset == old(offset) && timer.running == old(timer.running)
      ensures width > 0 ==> current == Target(progress, width) && offset == Some(current - width)
      ensures width > 0 ==> timer.running == (old(timer.running) && old(current) != Target(progress, width))
      ensures Valid()
    {
      if width == 0 {
        return;
      }
      var x := Target(progress, width);
      TargetBounds(progress, width);
      if x == current {
        timer.running := false;
      } else {
        current := x;
      }
      offset := Some(current - width);
    }

    /** `update(progress, alt)`: a missing value or one outside [0, 1] is
        ignored; otherwise it is stored with the alt text, the old timer is
        stopped, a new one started, and a first tick run at once. */
    method Update(p: Option<real>, alt: string, width: nat)
      requires Valid()
      modifies this, timer
      ensures !Accepts(p) ==> progress == old(progress) && current == old(current) && offset == old(offset)
      ensures !Accepts(p) ==> this.alt == old(this.alt) && timer == old(timer)
      ensures !Accepts(p) && timer != null ==> timer.running == old(timer.running)
      ensures Accepts(p) ==> progress == p.value && this.alt == Some(alt)
      ensures Accepts(p) ==> timer != null && fresh(timer) && (old(timer) != null ==> !old(timer).running)
      ensures Accepts(p) && width == 0 ==> current == old(current) && offset == old(offset) && timer.running
      ensures Accepts(p) && width > 0 ==> current == Target(progress, width) && offset == Some(current - width)
      ensures Accepts(p) && width > 0 ==> timer.running == (old(current) != Target(progress, width))
      ensures background == old(background)
      ensures Valid()
    {
      if !Accepts(p) {
        return;
      }
      progress := p.value;
      this.alt := Some(alt);
      if timer != null {
        timer.running := false;
      }
      timer := new Timer();
      Tick(width);
    }

    /** The image's load handler: the bar image becomes its background and
        the stored progress is applied again with an empty alt text, so a
        value set before the image had a width is not lost. */
    method Onload(width: nat)
      requires Valid()
      modifies this, timer
      ensures background == Some("url(" + imgPath + bar + ") top left no-repeat")
      ensures progress == old(progress) && alt == Some("")
      ensures timer != null && fresh(timer) && (old(timer) != null ==> !old(timer).running)
      ensures width == 0 ==> current == old(current) && offset == old(offset) && timer.running
      ensures width > 0 ==> current == Target(progress, width) && offset == Some(current - width)
      ensures width > 0 ==> timer.running == (old(current) != Target(progress, width))
      ensures Valid()
    {
      background := Some("url(" + imgPath + bar + ") top left no-repeat");
      Update(Some(progress), "", width);
    }
  }
}
