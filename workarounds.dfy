/** Page-wide workarounds: the guard that keeps a missed drop from replacing
    the page, which tracks how deeply a drag has entered the body, and the
    flags that tell Internet Explorer versions apart by the user agent. */
module Workarounds {
  import opened Wrappers
  import Text

  /** The drag events the body listens to. */
  datatype DragInput = Enter | Leave | Exit | Over | Drop

  /** The custom events the guard fires on the body. */
  datatype Fired = Commence | Finish

  /** What one drag event does: the new depth, what was fired, and whether
      the browser's default handling was stopped. */
  datatype Reaction = Reaction(depth: int, fired: seq<Fired>, stopped: bool)

  /** One listener call. `dragenter` fires `ep:dragcommence` when the depth
      was 0 and then counts one level in; `dragleave` counts one level out
      and fires `ep:dragfinish` when that reaches 0; `drop` resets the depth
      and always fires `ep:dragfinish`; `dragexit` and `dragover` are only
      stopped. */
  function Step(depth: int, input: DragInput): (r: Reaction)
    ensures input.Enter? ==> r.depth == depth + 1 && (Commence in r.fired <==> depth == 0) && Finish !in r.fired
    ensures input.Leave? ==> r.depth == depth - 1 && (Finish in r.fired <==> depth == 1) && Commence !in r.fired
    ensures input.Drop? ==> r.depth == 0 && r.fired == [Finish]
    ensures (input.Exit? || input.Over?) ==> r.depth == depth && r.fired == []
    ensures r.stopped <==> !input.Leave?
  {
    match input
    case Enter => Reaction(depth + 1, if depth == 0 then [Commence] else [], true)
    case Leave => Reaction(depth - 1, if depth - 1 == 0 then [Finish] else [], false)
    case Exit => Reaction(depth, [], true)
    case Over => Reaction(depth, [], true)
    case Drop => Reaction(0, [Finish], true)
  }

  /** The depth after a series of events, and everything fired on the way. */
  function Run(depth: int, inputs: seq<DragInput>): (int, seq<Fired>)
    decreases |inputs|
  {
    if |inputs| == 0 then (depth, [])
    else
      var r := Step(depth, inputs[0]);
      var rest := Run(r.depth, inputs[1..]);
      (rest.0, r.fired + rest.1)
  }

  function Repeat(input: DragInput, n: nat): (s: seq<DragInput>)
    ensures |s| == n && forall k :: 0 <= k < n ==> s[k] == input
  {
    if n == 0 then [] else [input] + Repeat(input, n - 1)
  }

  lemma {:induction false} RunAppend(depth: int, a: seq<DragInput>, b: seq<DragInput>)
    ensures Run(depth, a + b) == (Run(Run(depth, a).0, b).0, Run(depth, a).1 + Run(Run(depth, a).0, b).1)
    decreases |a|
  {
    if |a| == 0 {
      assert a + b == b;
      assert [] + Run(depth, b).1 == Run(depth, b).1;
    } else {
      var r := Step(depth, a[0]);
      assert (a + b)[0] == a[0];
      assert (a + b)[1..] == a[1..] + b;
      RunAppend(r.depth, a[1..], b);
      var mid := Run(r.depth, a[1..]);
      assert Run(depth, a) == (mid.0, r.fired + mid.1);
      assert r.fired + (mid.1 + Run(mid.0, b).1) == (r.fired + mid.1) + Run(mid.0, b).1;
    }
  }

  /** Entering `n` levels from depth `d` fires `ep:dragcommence` once when
      `d` is 0 and never otherwise. */
  lemma {:induction false} EnterLevels(d: int, n: nat)
    requires d >= 0
    ensures Run(d, Repeat(Enter, n)).0 == d + n
    ensures Run(d, Repeat(Enter, n)).1 == (if d == 0 && n > 0 then [Commence] else [])
    decreases n
  {
    if n > 0 {
      var s := Repeat(Enter, n);
      assert s[0] == Enter && s[1..] == Repeat(Enter, n - 1);
      EnterLevels(d + 1, n - 1);
      assert Run(d, s) == (Run(d + 1, s[1..]).0, Step(d, Enter).fired + Run(d + 1, s[1..]).1);
    } else {
      assert Repeat(Enter, n) == [];
    }
  }

  /** Leaving `n` levels from depth `n` fires `ep:dragfinish` exactly once,
      at the last level. */
  lemma {:induction false} LeaveLevels(n: nat)
    ensures Run(n, Repeat(Leave, n)).0 == 0
    ensures Run(n, Repeat(Leave, n)).1 == (if n > 0 then [Finish] else [])
    decreases n
  {
    if n > 0 {
      var s := Repeat(Leave, n);
      assert s[0] == Leave && s[1..] == Repeat(Leave, n - 1);
      LeaveLevels(n - 1);
      assert Run(n, s) == (Run(n - 1, s[1..]).0, Step(n, Leave).fired + Run(n - 1, s[1..]).1);
      if n - 1 > 0 {
        assert Step(n, Leave).fired == [];
      }
    }
  }

  /** A drag that enters `n` nested elements and leaves them all fires one
      `ep:dragcommence` and one `ep:dragfinish`, and the depth is back at 0. */
  lemma NestedDrag(n: nat)
    requires n > 0
    ensures Run(0, Repeat(Enter, n) + Repeat(Leave, n)) == (0, [Commence, Finish])
  {
    RunAppend(0, Repeat(Enter, n), Repeat(Leave, n));
    EnterLevels(0, n);
    LeaveLevels(n);
    assert [Commence] + [Finish] == [Commence, Finish];
  }

  /** Nothing bounds the depth from below: a `dragleave` with no matching
      `dragenter` leaves it at -1, and the next `dragenter` then fires no
      `ep:dragcommence`. */
  lemma UnmatchedLeave()
    ensures Run(0, [Leave]) == (-1, [])
    ensures Run(0, [Leave, Enter]) == (0, [])
  {
    var r := Step(-1, Enter);
    assert r.depth == 0 && r.fired == [];
    assert [Enter][1..] == [];
    assert Run(-1, [Enter]) == (0, r.fired + Run(0, []).1);
    assert [Leave, Enter][1..] == [Enter];
  }

  /** The body's drag state. */
  class DragGuard {
    var depth: int
    /** Every custom event fired so far. */
    var fired: seq<Fired>

    constructor ()
      ensures depth == 0 && fired == []
    {
      depth := 0;
      fired := [];
    }

    /** The listener for one drag event; returns whether it stopped the
        event. */
    method Handle(input: DragInput) returns (stopped: bool)
      modifies this
      ensures depth == Step(old(depth), input).depth
      ensures fired == old(fired) + Step(old(depth), input).fired
      ensures stopped == Step(old(depth), input).stopped
    {
      match input {
        case Enter =>
          if depth == 0 {
            fired := fired + [Commence];
          }
          depth := depth + 1;
          stopped := true;
        case Leave =>
          depth := depth - 1;
          if depth == 0 {
            fired := fired + [Finish];
          }
          stopped := false;
        case Exit =>
          stopped := true;
        case Over =>
          stopped := true;
        case Drop =>
          depth := 0;
          fired := fired + [Finish];
          stopped := true;
      }
    }
  }

  /** Length of the run of digits at the start of `s`. */
  function DigitRun(s: string): (n: nat)
    ensures n <= |s|
    ensures forall k :: 0 <= k < n ==> '0' <= s[k] <= '9'
    ensures n < |s| ==> !('0' <= s[n] <= '9')
  {
    if |s| == 0 || !('0' <= s[0] <= '9') then 0 else 1 + DigitRun(s[1..])
  }

  /** The two digit groups of `MSIE x.y;` when it occurs at the start of `s`.
      Digit runs are matched whole: a run is never followed by `.` or `;`
      part-way, so the pattern's backtracking cannot split one. */
  function MsieAt(s: string): (r: Option<(string, string)>)
    ensures r.Some? ==> |r.value.0| > 0 && |r.value.1| > 0
    ensures r.Some? ==> forall k :: 0 <= k < |r.value.0| ==> '0' <= r.value.0[k] <= '9'
    ensures r.Some? ==> forall k :: 0 <= k < |r.value.1| ==> '0' <= r.value.1[k] <= '9'
  {
    if |s| < 5 || s[..5] != "MSIE " then None
    else
      var t := s[5..];
      var a := DigitRun(t);
      if a == 0 || a >= |t| || t[a] != '.' then None
      else
        var u := t[a + 1..];
        var b := DigitRun(u);
        if b == 0 || b >= |u| || u[b] != ';' then None
        else Some((t[..a], u[..b]))
  }

  /** `/MSIE (\d+\.\d+);/` on the user agent: the leftmost match's groups. */
  function MsieVersion(ua: string): (r: Option<(string, string)>)
    ensures r.Some? ==> |r.value.0| > 0 && |r.value.1| > 0
    ensures r.Some? ==> forall k :: 0 <= k < |r.value.0| ==> '0' <= r.value.0[k] <= '9'
    ensures r.Some? ==> forall k :: 0 <= k < |r.value.1| ==> '0' <= r.value.1[k] <= '9'
    decreases |ua|
  {
    if |ua| == 0 then None
    else if MsieAt(ua).Some? then MsieAt(ua)
    else MsieVersion(ua[1..])
  }

  function Pow10(n: nat): (p: nat)
    ensures p >= 1
  {
    if n == 0 then 1 else 10 * Pow10(n - 1)
  }

  /** A string of `n` digits is worth less than `10^n`. */
  lemma {:induction false} DigitsValueBound(s: string)
    requires forall k :: 0 <= k < |s| ==> '0' <= s[k] <= '9'
    ensures Text.DigitsValue(s) < Pow10(|s|)
    decreases |s|
  {
    if |s| > 0 {
      DigitsValueBound(s[..|s| - 1]);
    }
  }

  /** `Number(RegExp.$1)`: the matched `x.y` as a number. */
  function VersionNumber(whole: string, fraction: string): (v: real)
    requires forall k :: 0 <= k < |whole| ==> '0' <= whole[k] <= '9'
    requires forall k :: 0 <= k < |fraction| ==> '0' <= fraction[k] <= '9'
  {
    Text.DigitsValue(whole) as real + Text.DigitsValue(fraction) as real / Pow10(|fraction|) as real
  }

  /** `Prototype.Browser.IE<n>`. */
  predicate IeFlag(ua: string, n: nat)
  {
    var v := MsieVersion(ua);
    v.Some? && VersionNumber(v.value.0, v.value.1) == n as real
  }

  /** IE`n` holds exactly when the user agent's first `MSIE x.y;` has whole
      part `n` and a fraction of zeros only. */
  lemma IeFlagDigits(ua: string, n: nat)
    ensures IeFlag(ua, n) <==>
              && MsieVersion(ua).Some?
              && Text.DigitsValue(MsieVersion(ua).value.0) == n
              && Text.DigitsValue(MsieVersion(ua).value.1) == 0
  {
    var v := MsieVersion(ua);
    if v.Some? {
      var f := Text.DigitsValue(v.value.1);
      DigitsValueBound(v.value.1);
      FractionBounds(f, Pow10(|v.value.1|));
      WholePlusFraction(Text.DigitsValue(v.value.0), f as real / Pow10(|v.value.1|) as real, n);
    }
  }

  lemma FractionBounds(f: nat, p: nat)
    requires f < p
    ensures 0.0 <= f as real / p as real < 1.0
    ensures f as real / p as real == 0.0 <==> f == 0
  {
    var x := f as real / p as real;
    assert x * p as real == f as real;
  }

  /** A whole number plus a fraction in [0, 1) is a whole `n` only when the
      fraction is 0. */
  lemma WholePlusFraction(w: int, x: real, n: int)
    requires 0.0 <= x < 1.0
    ensures w as real + x == n as real <==> w == n && x == 0.0
  {
    if w as real + x == n as real {
      assert x == (n - w) as real;
    }
  }

  /** At most one of the IE flags is true. */
  lemma AtMostOneIeFlag(ua: string, n: nat, m: nat)
    requires n != m
    ensures !(IeFlag(ua, n) && IeFlag(ua, m))
  {
  }

  /** Text in which no `M` is followed by `S` holds no match, so the search
      goes on past it. */
  predicate NoMatchStart(pre: string, i: nat)
    requires i < |pre|
  {
    pre[i] != 'M' || (i + 1 < |pre| && pre[i + 1] != 'S')
  }

  lemma {:induction false} MsieVersionSkips(pre: string, rest: string)
    requires forall i :: 0 <= i < |pre| ==> NoMatchStart(pre, i)
    ensures MsieVersion(pre + rest) == MsieVersion(rest)
    decreases |pre|
  {
    if |pre| > 0 {
      var s := pre + rest;
      assert s[0] == pre[0];
      assert |pre| > 1 ==> s[1] == pre[1];
      assert NoMatchStart(pre, 0);
      assert MsieAt(s).None? by {
        if |s| >= 5 {
          var m := "MSIE ";
          assert m[0] == 'M' && m[1] == 'S';
          assert s[..5][0] == s[0] && s[..5][1] == s[1];
          assert s[0] != 'M' || s[1] != 'S';
        }
      }
      assert s[1..] == pre[1..] + rest;
      var tail := pre[1..];
      forall i | 0 <= i < |tail|
        ensures NoMatchStart(tail, i)
      {
        assert NoMatchStart(pre, i + 1);
        assert tail[i] == pre[i + 1];
        assert i + 1 < |tail| ==> tail[i + 1] == pre[i + 2];
      }
      MsieVersionSkips(tail, rest);
      assert MsieVersion(s) == MsieVersion(s[1..]);
    } else {
      assert pre + rest == rest;
    }
  }

  /** Text whose only `M` is its first character, not followed by `S`,
      holds no match. */
  lemma MsieVersionSkipsPlain(pre: string, rest: string)
    requires |pre| >= 2 && pre[1] != 'S'
    requires forall i :: 1 <= i < |pre| ==> pre[i] != 'M'
    ensures MsieVersion(pre + rest) == MsieVersion(rest)
  {
    forall i | 0 <= i < |pre| ensures NoMatchStart(pre, i) {
    }
    MsieVersionSkips(pre, rest);
  }

  /** A run of digits ends at the first non-digit. */
  lemma {:induction false} DigitRunOf(w: string, c: char, rest: string)
    requires forall k :: 0 <= k < |w| ==> '0' <= w[k] <= '9'
    requires !('0' <= c <= '9')
    ensures DigitRun(w + [c] + rest) == |w|
    decreases |w|
  {
    var s := w + [c] + rest;
    if |w| > 0 {
      assert s[0] == w[0];
      assert s[1..] == w[1..] + [c] + rest;
      DigitRunOf(w[1..], c, rest);
    } else {
      assert s[0] == c;
    }
  }

  /** `MSIE x.y;` is matched with its two digit groups. */
  lemma MsieAtMatch(whole: string, fraction: string, tail: string)
    requires |whole| > 0 && forall k :: 0 <= k < |whole| ==> '0' <= whole[k] <= '9'
    requires |fraction| > 0 && forall k :: 0 <= k < |fraction| ==> '0' <= fraction[k] <= '9'
    ensures MsieAt("MSIE " + whole + "." + fraction + ";" + tail) == Some((whole, fraction))
  {
    var s := "MSIE " + whole + "." + fraction + ";" + tail;
    assert s[..5] == "MSIE ";
    var t := s[5..];
    assert t == whole + ['.'] + (fraction + ";" + tail);
    DigitRunOf(whole, '.', fraction + ";" + tail);
    assert t[|whole|] == '.' && t[..|whole|] == whole;
    var u := t[|whole| + 1..];
    assert u == fraction + [';'] + tail;
    DigitRunOf(fraction, ';', tail);
    assert u[|fraction|] == ';' && u[..|fraction|] == fraction;
  }

  /** The version read from an Internet Explorer 7 user agent. */
  lemma Ie7Version()
    ensures MsieVersion("Mozilla/4.0 (compatible; MSIE 7.0; Windows NT 6.0)") == Some(("7", "0"))
  {
    var pre := "Mozilla/4.0 (compatible; ";
    var rest := "MSIE " + "7" + "." + "0" + ";" + " Windows NT 6.0)";
    assert pre + rest == "Mozilla/4.0 (compatible; MSIE 7.0; Windows NT 6.0)";
    MsieVersionSkipsPlain(pre, rest);
    MsieAtMatch("7", "0", " Windows NT 6.0)");
  }

  /** Version 7.0 sets IE7 and not IE6. */
  lemma Version7Flags(ua: string)
    requires MsieVersion(ua) == Some(("7", "0"))
    ensures IeFlag(ua, 7) && !IeFlag(ua, 6)
  {
    assert Text.DigitsValue("7") == 7 && Text.DigitsValue("0") == 0;
    IeFlagDigits(ua, 7);
    IeFlagDigits(ua, 6);
  }

  /** The flags for an Internet Explorer 7 user agent. */
  lemma Ie7Example()
    ensures IeFlag("Mozilla/4.0 (compatible; MSIE 7.0; Windows NT 6.0)", 7)
    ensures !IeFlag("Mozilla/4.0 (compatible; MSIE 7.0; Windows NT 6.0)", 6)
  {
    Ie7Version();
    Version7Flags("Mozilla/4.0 (compatible; MSIE 7.0; Windows NT 6.0)");
  }
}
