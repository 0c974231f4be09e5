/**
 * percent_to_graph: a fixed-width bar of '=' then spaces whose filled part
 * is the percentage of the width, rounded.
 */
module Bar {
  import opened Errors
  import opened Numbers
  import opened Text

  /** percent * total_chars / 100: the exact share of the width. */
  function Share(percent: real, width: real): real {
    percent * width / 100.0
  }

  /** round(percent * total_chars / 100), with Python's ties-to-even rounding. */
  function Filled(percent: real, totalChars: int): int {
    RoundHalfEven(Share(percent, totalChars as real))
  }

  /** The share lies between 0 and the width for a percentage in [0, 100]. */
  lemma ShareBetween(percent: real, w: real)
    requires 0.0 <= percent <= 100.0
    ensures w >= 0.0 ==> 0.0 <= Share(percent, w) <= w
    ensures w < 0.0 ==> w <= Share(percent, w) <= 0.0
  {
    var rest := 100.0 - percent;
    assert percent * w + rest * w == 100.0 * w;
    if w >= 0.0 {
      assert percent * w >= 0.0;
      assert rest * w >= 0.0;
    } else {
      assert percent * (-w) >= 0.0;
      assert rest * (-w) >= 0.0;
    }
  }

  /**
   * For a percentage in [0, 100] the fill count lies between 0 and the
   * width (on the side of 0 where the width is), and is within one half of
   * the exact share of the width.
   */
  lemma FilledWithin(percent: real, totalChars: int)
    requires 0.0 <= percent <= 100.0
    ensures totalChars >= 0 ==> 0 <= Filled(percent, totalChars) <= totalChars
    ensures totalChars < 0 ==> totalChars <= Filled(percent, totalChars) <= 0
    ensures var exact := percent * totalChars as real / 100.0;
            exact - 0.5 <= Filled(percent, totalChars) as real <= exact + 0.5
  {
    ShareBetween(percent, totalChars as real);
  }

  /**
   * percent_to_graph(percent, total_chars): ValueError outside [0, 100];
   * otherwise max(total_chars, 0) characters, '=' exactly at the first
   * Filled(percent, total_chars) positions and a space everywhere else.
   */
  function PercentToGraph(percent: real, totalChars: int): (r: Result<string>)
    ensures r.Err? <==> percent < 0.0 || percent > 100.0
    ensures r.Err? ==> r.error == PercentOutOfRange
    ensures r.Ok? ==> |r.value| == (if totalChars > 0 then totalChars else 0)
    ensures r.Ok? ==> forall i :: 0 <= i < |r.value| ==>
      (r.value[i] == '=' || r.value[i] == ' ') &&
      (r.value[i] == '=' <==> i < Filled(percent, totalChars))
  {
    if !(0.0 <= percent <= 100.0) then Err(PercentOutOfRange)
    else
      var filled := Filled(percent, totalChars);
      FilledWithin(percent, totalChars);
      Ok(Repeat('=', filled) + Repeat(' ', totalChars - filled))
  }

  lemma ShareMonotone(p: real, q: real, w: real)
    requires p <= q && w >= 0.0
    ensures Share(p, w) <= Share(q, w)
  {
    assert (q - p) * w >= 0.0;
  }

  /** A larger percentage never gives a shorter fill. */
  lemma FilledMonotone(p: real, q: real, totalChars: nat)
    requires p <= q
    ensures Filled(p, totalChars) <= Filled(q, totalChars)
  {
    ShareMonotone(p, q, totalChars as real);
    RoundHalfEvenMonotone(Share(p, totalChars as real), Share(q, totalChars as real));
  }
}
