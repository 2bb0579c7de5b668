/**
 * The slideshow loop of src/main.c: the current slide `cx` is drawn, a key
 * is read, and the `switch` on the key moves `cx` or ends the loop.
 *
 * Keys are the `int` values `getch` returns; the terminal that produces
 * them is not modelled, so the keys pressed are a parameter.
 */
module Slideshow {

  /** What the `switch` decides: leave the loop, or show a slide next. */
  datatype Step = Quit | Show(index: int)

  /** `q` and `Q` end the slideshow. */
  predicate IsQuitKey(key: int)
  {
    key == 'q' as int || key == 'Q' as int
  }

  /**
   * The key dispatch: `h`/`j` go back one slide but not below the first,
   * `k`/`l` go forward one but not past the last, `H`/`J` jump to the first,
   * `K`/`L` to the last, `q`/`Q` quit, and every other key keeps the slide.
   */
  function Navigate(cx: int, slideCount: int, key: int): (st: Step)
    ensures st.Quit? <==> IsQuitKey(key)
    ensures st.Show? && 0 <= cx < slideCount ==> 0 <= st.index < slideCount
    ensures st.Show? ==> st.index == cx || st.index == cx - 1 || st.index == cx + 1
                         || st.index == 0 || st.index == slideCount - 1
  {
    if key == 'q' as int || key == 'Q' as int then Quit
    else if key == 'h' as int || key == 'j' as int then Show(if cx > 0 then cx - 1 else cx)
    else if key == 'H' as int || key == 'J' as int then Show(0)
    else if key == 'k' as int || key == 'l' as int then Show(if cx + 1 < slideCount then cx + 1 else cx)
    else if key == 'K' as int || key == 'L' as int then Show(slideCount - 1)
    else Show(cx)
  }

  /** The slide shown after pressing the non-quitting `key` `m` times from slide `cx`. */
  function Pressed(cx: int, slideCount: int, key: int, m: nat): int
    requires !IsQuitKey(key)
  {
    if m == 0 then cx else Navigate(Pressed(cx, slideCount, key, m - 1), slideCount, key).index
  }

  /** Pressing `l` (or `k`) `m` times from slide `cx` goes `m` slides on, stopping at the last. */
  lemma {:induction false} ForwardPresses(cx: int, slideCount: int, key: int, m: nat)
    requires key == 'l' as int || key == 'k' as int
    requires 0 <= cx < slideCount
    ensures Pressed(cx, slideCount, key, m) == if cx + m < slideCount then cx + m else slideCount - 1
  {
    if m > 0 {
      ForwardPresses(cx, slideCount, key, m - 1);
    }
  }

  /** Pressing `h` (or `j`) `m` times from slide `cx` goes `m` slides back, stopping at the first. */
  lemma {:induction false} BackwardPresses(cx: int, slideCount: int, key: int, m: nat)
    requires key == 'h' as int || key == 'j' as int
    requires 0 <= cx
    ensures Pressed(cx, slideCount, key, m) == if cx >= m then cx - m else 0
  {
    if m > 0 {
      BackwardPresses(cx, slideCount, key, m - 1);
    }
  }

  /** Every slide can be reached from the first one with the forward key. */
  lemma EverySlideReachable(slideCount: int, target: nat)
    requires target < slideCount
    ensures Pressed(0, slideCount, 'l' as int, target) == target
  {
    ForwardPresses(0, slideCount, 'l' as int, target);
  }

  /** One step forward followed by one step back returns to the slide, unless it was the last. */
  lemma BackUndoesForward(cx: int, slideCount: int)
    requires 0 <= cx && cx + 1 < slideCount
    ensures Navigate(Navigate(cx, slideCount, 'l' as int).index, slideCount, 'h' as int) == Show(cx)
  {
  }

  /**
   * The jumps land on the first slide (`H`, `J`) or the last (`K`, `L`),
   * whatever the slide was.
   */
  lemma JumpsIgnoreCurrent(cx: int, other: int, slideCount: int, key: int)
    requires key in {'H' as int, 'J' as int, 'K' as int, 'L' as int}
    ensures Navigate(cx, slideCount, key) == Navigate(other, slideCount, key)
    ensures (key == 'H' as int || key == 'J' as int) ==> Navigate(cx, slideCount, key) == Show(0)
    ensures (key == 'K' as int || key == 'L' as int) ==> Navigate(cx, slideCount, key) == Show(slideCount - 1)
  {
  }

  /** A key the `switch` has no case for keeps the current slide. */
  lemma OtherKeysKeepSlide(cx: int, slideCount: int, key: int)
    requires key !in {'q' as int, 'Q' as int, 'h' as int, 'j' as int, 'H' as int, 'J' as int,
                      'k' as int, 'l' as int, 'K' as int, 'L' as int}
    ensures Navigate(cx, slideCount, key) == Show(cx)
  {
  }

  /**
   * The loop of `main` over the keys `keys`: it starts on slide 0, draws
   * the current slide, reads the next key and applies the `switch`.
   * `shown` lists the slides drawn in order; `quit` says whether a quit
   * key ended the loop before the keys ran out.
   */
  method Run(keys: seq<int>, slideCount: int) returns (shown: seq<int>, quit: bool)
    ensures 1 <= |shown| <= |keys| + 1 && shown[0] == 0
    ensures forall k :: 0 <= k < |shown| - 1 ==> Navigate(shown[k], slideCount, keys[k]) == Show(shown[k + 1])
    ensures quit ==> |shown| <= |keys| && Navigate(shown[|shown| - 1], slideCount, keys[|shown| - 1]) == Quit
    ensures !quit ==> |shown| == |keys| + 1
    ensures slideCount >= 1 ==> forall k :: 0 <= k < |shown| ==> 0 <= shown[k] < slideCount
  {
    var cx := 0;
    shown := [cx];
    var k := 0;
    while k < |keys|
      invariant 0 <= k <= |keys| && |shown| == k + 1
      invariant shown[0] == 0 && shown[k] == cx
      invariant forall j :: 0 <= j < k ==> Navigate(shown[j], slideCount, keys[j]) == Show(shown[j + 1])
      invariant slideCount >= 1 ==> forall j :: 0 <= j <= k ==> 0 <= shown[j] < slideCount
    {
      var key := keys[k];
      if key == 'q' as int || key == 'Q' as int {
        return shown, true;
      } else if key == 'h' as int || key == 'j' as int {
        cx := if cx > 0 then cx - 1 else cx;
      } else if key == 'H' as int || key == 'J' as int {
        cx := 0;
      } else if key == 'k' as int || key == 'l' as int {
        cx := if cx + 1 < slideCount then cx + 1 else cx;
      } else if key == 'K' as int || key == 'L' as int {
        cx := slideCount - 1;
      }
      shown := shown + [cx];
      k := k + 1;
    }
    quit := false;
  }
}
