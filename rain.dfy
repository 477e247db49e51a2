/**
 The falling-digits background: one drop counter per glyph column, set up
 once from the canvas width and advanced in place on every timer tick.
 The random draws of a tick (which glyph to paint, whether a column that
 has passed the bottom restarts) are explicit inputs.
 */
module DigitRain {

  /** Pixel size of one glyph cell. */
  const FontSize: nat := 14

  /** The alphabet the glyphs are drawn from. */
  const Chars: string := "01"

  /** Columns that fit in a canvas of the given width: the floor of width / FontSize. */
  function Columns(width: nat): (n: nat)
    ensures n * FontSize <= width < n * FontSize + FontSize
  {
    width / FontSize
  }

  /** A 1400-pixel-wide canvas has 100 columns. */
  lemma HundredColumns()
    ensures Columns(1400) == 100
  {
  }

  /** The drop array right after set-up: every column at 1. */
  function Initial(n: nat): (s: seq<nat>)
    ensures |s| == n && forall i :: 0 <= i < n ==> s[i] == 1
  {
    seq(n, _ => 1)
  }

  /**
   One column in one tick: it restarts (set to 0, then incremented to 1)
   only when its pixel position is past the bottom and its draw succeeded;
   otherwise it moves down one cell.
   */
  function Step(d: nat, height: nat, reset: bool): (d': nat)
    ensures d' >= 1
    ensures d' == d + 1 || d' == 1
    ensures d * FontSize <= height ==> d' == d + 1
    ensures d' != d + 1 ==> d * FontSize > height && reset
    ensures d * FontSize > height && reset ==> d' == 1
  {
    (if d * FontSize > height && reset then 0 else d) + 1
  }

  /**
   One tick over all columns, column by column. Column i of the result
   depends only on column i of the input, on the height and on draw i.
   */
  function Ticked(s: seq<nat>, height: nat, resets: seq<bool>): (s': seq<nat>)
    requires |resets| == |s|
    ensures |s'| == |s|
    ensures forall i :: 0 <= i < |s| ==> s'[i] == Step(s[i], height, resets[i])
  {
    if s == [] then []
    else [Step(s[0], height, resets[0])] + Ticked(s[1..], height, resets[1..])
  }

  /** Two states that agree on column i, under the same draw for i, agree on column i after a tick. */
  lemma ColumnsIndependent(s: seq<nat>, t: seq<nat>, height: nat, rs: seq<bool>, rt: seq<bool>, i: nat)
    requires |rs| == |s| && |rt| == |t|
    requires i < |s| && i < |t| && s[i] == t[i] && rs[i] == rt[i]
    ensures Ticked(s, height, rs)[i] == Ticked(t, height, rt)[i]
  {
  }

  /** Successive ticks at a fixed height, one row of draws per tick. */
  function Run(s: seq<nat>, height: nat, draws: seq<seq<bool>>): (s': seq<nat>)
    requires forall k :: 0 <= k < |draws| ==> |draws[k]| == |s|
    ensures |s'| == |s|
    ensures forall i :: 0 <= i < |s| ==> s'[i] <= s[i] + |draws|
    ensures (forall i :: 0 <= i < |s| ==> s[i] >= 1) ==> forall i :: 0 <= i < |s| ==> s'[i] >= 1
    decreases |draws|
  {
    if draws == [] then s
    else Run(Ticked(s, height, draws[0]), height, draws[1..])
  }

  /**
   A set of columns that share one value c falls in step: while a column
   has not passed the bottom it cannot restart, so after k ticks every
   column is at c + k, provided c + k - 1 cells still fit in the height.
   */
  lemma {:induction false} UniformAdvance(s: seq<nat>, c: nat, height: nat, draws: seq<seq<bool>>)
    requires forall k :: 0 <= k < |draws| ==> |draws[k]| == |s|
    requires forall i :: 0 <= i < |s| ==> s[i] == c
    requires (c + |draws|) * FontSize <= height + FontSize
    ensures forall i :: 0 <= i < |s| ==> Run(s, height, draws)[i] == c + |draws|
    decreases |draws|
  {
    if draws != [] {
      var t := Ticked(s, height, draws[0]);
      assert c * FontSize <= height;
      forall i | 0 <= i < |s| ensures t[i] == c + 1 {
        assert t[i] == Step(s[i], height, draws[0][i]);
      }
      UniformAdvance(t, c + 1, height, draws[1..]);
    }
  }

  /** From set-up, no column can restart during the first height / FontSize ticks. */
  lemma NoEarlyRestart(n: nat, height: nat, draws: seq<seq<bool>>)
    requires forall k :: 0 <= k < |draws| ==> |draws[k]| == n
    requires |draws| * FontSize <= height
    ensures Run(Initial(n), height, draws) == seq(n, _ => 1 + |draws|)
  {
    UniformAdvance(Initial(n), 1, height, draws);
  }

  /** One `fillText` call: a glyph at a pixel position. */
  datatype Glyph = Glyph(text: char, x: nat, y: nat)

  /** The drawing surface and the drop state the animation owns. */
  class Rain {
    var width: nat
    var height: nat
    const columns: nat
    const drops: array<nat>

    /** Every drop array has its set-up length and every column is at least 1. */
    ghost predicate Valid()
      reads this, drops
    {
      drops.Length == columns &&
      forall i :: 0 <= i < drops.Length ==> drops[i] >= 1
    }

    /**
     Set-up: size the canvas to the viewport, then fix the column count
     from that width and start every column at 1.
     */
    constructor (viewportWidth: nat, viewportHeight: nat)
      ensures Valid() && fresh(drops)
      ensures width == viewportWidth && height == viewportHeight
      ensures columns == Columns(viewportWidth)
      ensures drops[..] == Initial(columns)
    {
      width, height := viewportWidth, viewportHeight;
      columns := Columns(viewportWidth);
      drops := new nat[Columns(viewportWidth)](_ => 1);
    }

    /** The resize listener: only the canvas size changes; the drops keep their length and contents. */
    method Resize(viewportWidth: nat, viewportHeight: nat)
      requires Valid()
      modifies this`width, this`height
      ensures Valid()
      ensures width == viewportWidth && height == viewportHeight
      ensures drops[..] == old(drops[..])
    {
      width, height := viewportWidth, viewportHeight;
    }

    /**
     One timer tick. For each column i, in order: paint glyph
     Chars[ones[i] ? 1 : 0] at (i * FontSize, drops[i] * FontSize) using the
     value before the update, then restart the column if it is past the
     bottom and resets[i] holds, then move it down one cell.
     */
    method Tick(resets: seq<bool>, ones: seq<bool>) returns (painted: seq<Glyph>)
      requires Valid()
      requires |resets| == drops.Length && |ones| == drops.Length
      modifies drops
      ensures Valid()
      ensures drops[..] == Ticked(old(drops[..]), height, resets)
      ensures |painted| == drops.Length
      ensures forall i :: 0 <= i < |painted| ==>
                painted[i] == Glyph(Chars[if ones[i] then 1 else 0], i * FontSize, old(drops[i]) * FontSize)
    {
      painted := [];
      var i := 0;
      while i < drops.Length
        invariant 0 <= i <= drops.Length
        invariant forall k :: 0 <= k < i ==> drops[k] == Step(old(drops[k]), height, resets[k])
        invariant forall k :: i <= k < drops.Length ==> drops[k] == old(drops[k])
        invariant |painted| == i
        invariant forall k :: 0 <= k < i ==>
                    painted[k] == Glyph(Chars[if ones[k] then 1 else 0], k * FontSize, old(drops[k]) * FontSize)
      {
        var text := Chars[if ones[i] then 1 else 0];
        painted := painted + [Glyph(text, i * FontSize, drops[i] * FontSize)];
        if drops[i] * FontSize > height && resets[i] {
          drops[i] := 0;
        }
        drops[i] := drops[i] + 1;
        i := i + 1;
      }
    }
  }

  /** Set-up on a 1400 x 800 viewport yields 100 columns, all at 1, and a tick moves every one to 2. */
  method Scenario() returns (first: seq<nat>, second: seq<nat>)
    ensures |first| == 100 && |second| == 100
    ensures forall i :: 0 <= i < 100 ==> first[i] == 1 && second[i] == 2
  {
    var rain := new Rain(1400, 800);
    first := rain.drops[..];
    var all := seq(100, _ => true);
    var _ := rain.Tick(all, all);
    second := rain.drops[..];
  }
}
