/** Taking the marked bytes out of a buffer and putting others back in their place. */
module Masking {
  import opened Bytes

  /** The bytes of t that the mask marks, in order. */
  function Gather(t: seq<byte>, mask: seq<bool>): (g: seq<byte>)
    requires |t| == |mask|
    ensures |g| == Marked(mask)
  {
    if t == [] then []
    else (if mask[0] then [t[0]] else []) + Gather(t[1..], mask[1..])
  }

  /** t with its marked bytes replaced, in order, by those of g. */
  function Scatter(t: seq<byte>, mask: seq<bool>, g: seq<byte>): (r: seq<byte>)
    requires |t| == |mask| && |g| == Marked(mask)
    ensures |r| == |t|
  {
    if t == [] then []
    else if mask[0] then [g[0]] + Scatter(t[1..], mask[1..], g[1..])
    else [t[0]] + Scatter(t[1..], mask[1..], g)
  }

  function Marked(mask: seq<bool>): (n: nat)
    ensures n <= |mask|
  {
    if mask == [] then 0 else (if mask[0] then 1 else 0) + Marked(mask[1..])
  }

  function Fill(b: bool, n: nat): (mask: seq<bool>)
    ensures |mask| == n
  {
    seq(n, _ => b)
  }

  /** Unmarked bytes stay as they are. */
  lemma {:induction false} ScatterKeepsClear(t: seq<byte>, mask: seq<bool>, g: seq<byte>, i: nat)
    requires |t| == |mask| && |g| == Marked(mask) && i < |t| && !mask[i]
    ensures Scatter(t, mask, g)[i] == t[i]
  {
    if i > 0 {
      ScatterKeepsClear(t[1..], mask[1..], if mask[0] then g[1..] else g, i - 1);
    }
  }

  lemma {:induction false} GatherScatter(t: seq<byte>, mask: seq<bool>, g: seq<byte>)
    requires |t| == |mask| && |g| == Marked(mask)
    ensures Gather(Scatter(t, mask, g), mask) == g
  {
    if t != [] {
      var r := Scatter(t, mask, g);
      if mask[0] {
        GatherScatter(t[1..], mask[1..], g[1..]);
        assert r[1..] == Scatter(t[1..], mask[1..], g[1..]);
        assert g == [g[0]] + g[1..];
      } else {
        GatherScatter(t[1..], mask[1..], g);
        assert r[1..] == Scatter(t[1..], mask[1..], g);
      }
    }
  }

  /** Putting back what was taken out restores the buffer, whatever stood there meanwhile. */
  lemma {:induction false} ScatterGather(t: seq<byte>, mask: seq<bool>, g: seq<byte>)
    requires |t| == |mask| && |g| == Marked(mask)
    ensures Scatter(Scatter(t, mask, g), mask, Gather(t, mask)) == t
  {
    if t != [] {
      var r := Scatter(t, mask, g);
      var rest := Gather(t[1..], mask[1..]);
      if mask[0] {
        ScatterGather(t[1..], mask[1..], g[1..]);
        assert r[1..] == Scatter(t[1..], mask[1..], g[1..]);
        assert Gather(t, mask) == [t[0]] + rest && Gather(t, mask)[1..] == rest;
      } else {
        ScatterGather(t[1..], mask[1..], g);
        assert r[1..] == Scatter(t[1..], mask[1..], g);
        assert Gather(t, mask) == rest;
      }
      assert t == [t[0]] + t[1..];
    }
  }

  lemma {:induction false} MarkedConcat(m: seq<bool>, m': seq<bool>)
    ensures Marked(m + m') == Marked(m) + Marked(m')
  {
    if m == [] {
      assert m + m' == m';
    } else {
      MarkedConcat(m[1..], m');
      assert (m + m')[1..] == m[1..] + m';
    }
  }

  lemma {:induction false} GatherConcat(t: seq<byte>, m: seq<bool>, t': seq<byte>, m': seq<bool>)
    requires |t| == |m| && |t'| == |m'|
    ensures Gather(t + t', m + m') == Gather(t, m) + Gather(t', m')
  {
    if t == [] {
      assert t + t' == t' && m + m' == m';
    } else {
      GatherConcat(t[1..], m[1..], t', m');
      assert (t + t')[1..] == t[1..] + t' && (m + m')[1..] == m[1..] + m';
      Associative(if m[0] then [t[0]] else [], Gather(t[1..], m[1..]), Gather(t', m'));
    }
  }

  lemma {:induction false} ScatterConcat(
      t: seq<byte>, m: seq<bool>, g: seq<byte>, t': seq<byte>, m': seq<bool>, g': seq<byte>)
    requires |t| == |m| && |t'| == |m'| && |g| == Marked(m) && |g'| == Marked(m')
    ensures Marked(m + m') == |g + g'|
    ensures Scatter(t + t', m + m', g + g') == Scatter(t, m, g) + Scatter(t', m', g')
  {
    MarkedConcat(m, m');
    if t == [] {
      assert t + t' == t' && m + m' == m' && g + g' == g';
    } else {
      assert (t + t')[1..] == t[1..] + t' && (m + m')[1..] == m[1..] + m';
      if m[0] {
        ScatterConcat(t[1..], m[1..], g[1..], t', m', g');
        assert (g + g')[1..] == g[1..] + g';
        Associative([g[0]], Scatter(t[1..], m[1..], g[1..]), Scatter(t', m', g'));
      } else {
        ScatterConcat(t[1..], m[1..], g, t', m', g');
        Associative([t[0]], Scatter(t[1..], m[1..], g), Scatter(t', m', g'));
      }
    }
  }

  lemma {:induction false} FullMask(t: seq<byte>, g: seq<byte>)
    requires |g| == |t|
    ensures var m := Fill(true, |t|);
            Marked(m) == |t| && Gather(t, m) == t && Scatter(t, m, g) == g
  {
    if t != [] {
      FullMask(t[1..], g[1..]);
      assert Fill(true, |t|)[1..] == Fill(true, |t| - 1);
      assert t == [t[0]] + t[1..] && g == [g[0]] + g[1..];
    }
  }

  lemma {:induction false} EmptyMask(t: seq<byte>)
    ensures var m := Fill(false, |t|);
            Marked(m) == 0 && Gather(t, m) == [] && Scatter(t, m, []) == t
  {
    if t != [] {
      EmptyMask(t[1..]);
      assert Fill(false, |t|)[1..] == Fill(false, |t| - 1);
      assert t == [t[0]] + t[1..];
    }
  }

  /** A marked stretch, a clear stretch, and a masked rest. */
  lemma Stretches(x: seq<byte>, y: seq<byte>, t: seq<byte>, m: seq<bool>, gx: seq<byte>, g: seq<byte>)
    requires |gx| == |x| && |t| == |m| && |g| == Marked(m)
    ensures var full := Fill(true, |x|) + (Fill(false, |y|) + m);
            && Marked(full) == |gx + g|
            && Gather(x + (y + t), full) == x + Gather(t, m)
            && Scatter(x + (y + t), full, gx + g) == gx + (y + Scatter(t, m, g))
  {
    FullMask(x, gx);
    EmptyMask(y);
    GatherConcat(y, Fill(false, |y|), t, m);
    GatherConcat(x, Fill(true, |x|), y + t, Fill(false, |y|) + m);
    ScatterConcat(y, Fill(false, |y|), [], t, m, g);
    ScatterConcat(x, Fill(true, |x|), gx, y + t, Fill(false, |y|) + m, g);
    assert [] + g == g && [] + Gather(t, m) == Gather(t, m);
  }
}
