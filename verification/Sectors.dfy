/** Sector arithmetic: what whole sectors a byte range holds. */
module Sectors {
  import opened Words

  /** The filesystem's sector size. It is left unspecified, so everything proved
      here holds of every sector size there is. */
  const SECTORSIZE: Positive

  /** Whether `n` is a whole number of sectors. Counting down keeps proofs about
      it linear; `FloorIsDivision` ties it to the remainder. */
  predicate Aligned(n: nat) {
    n == 0 || (SECTORSIZE <= n && Aligned(n - SECTORSIZE))
  }

  /** `n` rounded down to a whole number of sectors. */
  function Floor(n: nat): (f: nat)
    ensures f <= n < f + SECTORSIZE
    ensures Aligned(f)
  {
    if n < SECTORSIZE then 0 else SECTORSIZE + Floor(n - SECTORSIZE)
  }

  /** `n` rounded up to a whole number of sectors. */
  function Ceil(n: nat): (c: nat)
    ensures n <= c < n + SECTORSIZE
    ensures Aligned(c)
  {
    Floor(n + SECTORSIZE - 1)
  }

  lemma {:induction false} AlignedSum(a: nat, b: nat)
    requires Aligned(a)
    ensures Aligned(a + b) <==> Aligned(b)
  {
    if a == 0 {
    } else {
      AlignedSum(a - SECTORSIZE, b);
    }
  }

  lemma AlignedDifference(a: nat, b: nat)
    requires Aligned(a) && Aligned(b) && a <= b
    ensures Aligned(b - a)
  {
    AlignedSum(a, b - a);
  }

  /** Two aligned offsets are at least a sector apart. */
  lemma {:induction false} AlignedStep(a: nat, b: nat)
    requires Aligned(a) && Aligned(b) && a < b
    ensures a + SECTORSIZE <= b
  {
    if a == 0 {
    } else {
      AlignedStep(a - SECTORSIZE, b - SECTORSIZE);
    }
  }

  lemma FloorGreatest(a: nat, n: nat)
    requires Aligned(a) && a <= n
    ensures a <= Floor(n)
  {
    if Floor(n) < a {
      AlignedStep(Floor(n), a);
    }
  }

  /** The sector a byte is in, named by any aligned offset less than a sector before it. */
  lemma FloorIs(a: nat, n: nat)
    requires Aligned(a) && a <= n < a + SECTORSIZE
    ensures Floor(n) == a
  {
    FloorGreatest(a, n);
    if a < Floor(n) {
      AlignedStep(a, Floor(n));
    }
  }

  lemma CeilLeast(a: nat, n: nat)
    requires Aligned(a) && n <= a
    ensures Ceil(n) <= a
  {
    if a < Ceil(n) {
      AlignedStep(a, Ceil(n));
    }
  }

  function SectorCount(n: nat): nat {
    if n < SECTORSIZE then 0 else 1 + SectorCount(n - SECTORSIZE)
  }

  lemma {:induction false} FloorCount(n: nat)
    ensures Floor(n) == SectorCount(n) * SECTORSIZE
  {
    if n < SECTORSIZE {
    } else {
      FloorCount(n - SECTORSIZE);
    }
  }

  lemma QuotientUnique(n: nat, d: nat, q: nat)
    requires 0 < d && q * d <= n < q * d + d
    ensures n / d == q
  {
    var e := n / d;
    assert e * d <= n < e * d + d;
    if e < q {
      Product(e + 1, q, d);
    } else if q < e {
      Product(q + 1, e, d);
    }
  }

  lemma Product(a: nat, b: nat, d: nat)
    requires a <= b
    ensures a * d <= b * d
  {
  }

  /** Dividing by the sector size and multiplying again rounds down to a sector. */
  lemma FloorIsDivision(n: nat)
    ensures Floor(n) == n / SECTORSIZE * SECTORSIZE
  {
    FloorCount(n);
    QuotientUnique(n, SECTORSIZE, SectorCount(n));
  }

  method RoundDown(n: nat) returns (f: nat)
    ensures f == Floor(n)
  {
    FloorIsDivision(n);
    f := n / SECTORSIZE * SECTORSIZE;
  }

  method RoundUp(n: nat) returns (c: nat)
    ensures c == Ceil(n)
  {
    c := RoundDown(n + SECTORSIZE - 1);
  }
}
