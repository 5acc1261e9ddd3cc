/** Cyclic extension of a series: the series repeated from its start, in its
    own order, until the required length is reached. */
module Cyclic {

  /** s repeated from its start until len entries are produced; the last round
      is cut short. */
  function Repeat<T>(s: seq<T>, len: nat): (r: seq<T>)
    requires |s| > 0
    ensures |r| == len
    decreases len
  {
    if len <= |s| then s[..len] else s + Repeat(s, len - |s|)
  }

  /** A larger factor adds at least one more m. */
  lemma MulStep(m: int, a: int, b: int)
    requires 0 < m && a < b
    ensures m * a + m <= m * b
  {
    var d := b - a - 1;
    assert 0 <= m * d;
    assert m * b == m * a + m * d + m;
  }

  /** A quotient and remainder of x by m determine x % m. */
  lemma ModOfDecomposition(x: int, m: int, q: int, r: int)
    requires 0 < m && 0 <= r < m && x == m * q + r
    ensures x % m == r
  {
    var q', r' := x / m, x % m;
    assert m * q' + r' == x;
    if q' < q {
      MulStep(m, q', q);
      assert false;
    } else if q' > q {
      MulStep(m, q, q');
      assert false;
    }
  }

  /** Entry t of the repeated series is entry t mod |s| of the series. */
  lemma {:induction false} RepeatAt<T>(s: seq<T>, len: nat, t: nat)
    requires |s| > 0 && t < len
    ensures Repeat(s, len)[t] == s[t % |s|]
    decreases len
  {
    var m := |s|;
    if len <= m || t < m {
      ModOfDecomposition(t, m, 0, t);
    } else {
      RepeatAt(s, len - m, t - m);
      var q, r := (t - m) / m, (t - m) % m;
      assert t == m * (q + 1) + r;
      ModOfDecomposition(t, m, q + 1, r);
    }
  }
}
