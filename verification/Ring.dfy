/** Arithmetic of the memtable ring. */
module Ring {
  import opened Modulo

  /** `generation % max_memtables`. */
  function Slot(g: int, n: nat): (i: nat)
    requires n > 0
    ensures i < n
  {
    g % n
  }

  lemma SlotPeriodic(g: int, n: nat)
    requires n > 0
    ensures Slot(g + n, n) == Slot(g, n)
  {
    assert g + n == (g / n + 1) * n + g % n;
    ModIs(g + n, n, g / n + 1, g % n);
  }

  lemma SlotInjective(g: int, h: int, n: nat)
    requires n > 0
    requires 0 - n < g - h < n
    requires Slot(g, n) == Slot(h, n)
    ensures g == h
  {
    var d := g / n - h / n;
    assert g == g / n * n + g % n && h == h / n * n + h % n;
    assert g - h == d * n;
    MultipleBounds(d, n);
  }
}
