/** Arithmetic of time buckets. */
module Buckets {
  import opened TextIndexer

  ghost predicate Multiple(i: nat, b: nat) {
    exists q: nat :: b == i * q
  }

  lemma FloorMultiple(cfg: Config, t: nat)
    requires cfg.interval > 0
    ensures Multiple(cfg.interval, Floor(cfg, t))
  {
    assert Floor(cfg, t) == cfg.interval * (t / cfg.interval);
  }

  lemma MulMonotone(i: nat, x: nat, y: nat)
    requires x <= y
    ensures i * x <= i * y
  {
  }

  lemma MulOrder(i: nat, x: nat, y: nat)
    requires i > 0
    ensures i * x <= i * y <==> x <= y
  {
    if x <= y {
      MulMonotone(i, x, y);
    } else {
      MulMonotone(i, y + 1, x);
    }
  }

  /** Between multiples of the interval a later one is a whole interval later. */
  lemma NextMultiple(i: nat, b: nat, s: nat)
    requires i > 0 && Multiple(i, b) && Multiple(i, s)
    ensures b < s ==> b + i <= s
  {
    var q: nat :| b == i * q;
    var r: nat :| s == i * r;
    MulOrder(i, r, q);
    MulOrder(i, q + 1, r);
  }

  /** A time whose bucket is below `b + i` is itself below it, when `b` is a bucket. */
  lemma FloorStep(cfg: Config, t: nat, b: nat)
    requires cfg.interval > 0 && Multiple(cfg.interval, b) && Floor(cfg, t) < b + cfg.interval
    ensures t < b + cfg.interval
  {
    FloorMultiple(cfg, t);
    NextMultiple(cfg.interval, b, Floor(cfg, t));
  }

  lemma FloorMonotone(cfg: Config, t: nat, u: nat)
    requires cfg.interval > 0 && t <= u
    ensures Floor(cfg, t) <= Floor(cfg, u)
  {
    FloorMultiple(cfg, t);
    FloorMultiple(cfg, u);
    NextMultiple(cfg.interval, Floor(cfg, u), Floor(cfg, t));
  }

  lemma FloorReaches(cfg: Config, t: nat)
    requires cfg.interval > 0 && t >= cfg.interval
    ensures Floor(cfg, t) >= cfg.interval
  {
    assert Floor(cfg, t) == cfg.interval * (t / cfg.interval);
    MulMonotone(cfg.interval, 1, t / cfg.interval);
  }

  lemma DivisionIsMultiple(i: nat, s: nat)
    requires i > 0 && s % i == 0
    ensures Multiple(i, s)
  {
    assert s == i * (s / i) + s % i;
  }
}
