/**
 The progress figure logged after each stored image: `processed / total * 100`,
 kept as the integer pair and read as an exact rational percentage (the
 source's floating-point division and `toFixed(2)` formatting are not modelled).
 */
module Progress {

  /** One progress report: images stored so far, out of all `img` elements. */
  datatype Report = Report(processed: nat, total: nat)

  /** The percentage a report stands for; only defined when there are images. */
  function Percent(p: Report): (pct: real)
    requires p.total > 0
    ensures 0.0 <= pct
    ensures pct <= 100.0 <==> p.processed <= p.total
    ensures pct == 100.0 <==> p.processed == p.total
  {
    PercentScales(p.processed, p.total);
    (p.processed as real) / (p.total as real) * 100.0
  }

  lemma PercentScales(n: nat, t: nat)
    requires t > 0
    ensures 0.0 <= (n as real) / (t as real) * 100.0
    ensures (n as real) / (t as real) * 100.0 <= 100.0 <==> n <= t
    ensures (n as real) / (t as real) * 100.0 == 100.0 <==> n == t
  {
    var q := (n as real) / (t as real);
    QuotientTimes(n as real, t as real);
    RatioAgainstOne(q, n as real, t as real);
  }

  /** A ratio `q = n / t` with `t > 0` is compared with 0 and 1 by comparing `n` with 0 and `t`. */
  lemma RatioAgainstOne(q: real, n: real, t: real)
    requires t > 0.0 && q * t == n
    ensures 0.0 <= q <==> 0.0 <= n
    ensures q <= 1.0 <==> n <= t
    ensures 1.0 <= q <==> t <= n
  {
    ScaleOrder(0.0, q, t);
    ScaleOrder(q, 1.0, t);
    ScaleOrder(1.0, q, t);
  }

  /** Dividing by a positive real and multiplying back gives the original. */
  lemma QuotientTimes(n: real, t: real)
    requires t > 0.0
    ensures (n / t) * t == n
  {
  }

  /** Multiplying by a positive factor keeps the order of two reals. */
  lemma ScaleOrder(a: real, b: real, c: real)
    requires c > 0.0
    ensures a <= b <==> a * c <= b * c
  {
    assert b * c - a * c == (b - a) * c;
  }

  /** With the same total, more images stored means a strictly larger percentage. */
  lemma PercentStrictlyIncreasing(a: Report, b: Report)
    requires a.total == b.total && a.total > 0
    requires a.processed < b.processed
    ensures Percent(a) < Percent(b)
  {
    var t := a.total as real;
    var qa := (a.processed as real) / t;
    var qb := (b.processed as real) / t;
    QuotientTimes(a.processed as real, t);
    QuotientTimes(b.processed as real, t);
    RatioOrder(qa, qb, a.processed as real, b.processed as real, t);
  }

  /** Ratios over the same positive denominator are ordered as their numerators. */
  lemma RatioOrder(qa: real, qb: real, na: real, nb: real, t: real)
    requires t > 0.0 && qa * t == na && qb * t == nb
    requires na < nb
    ensures qa < qb
  {
    ScaleOrder(qb, qa, t);
  }
}
