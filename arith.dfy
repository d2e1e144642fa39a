/// Facts about Euclidean division by a positive divisor used by the wrapping proofs.
module Arith {
  lemma MulStep(a: int, w: int)
    ensures (a + 1) * w == a * w + w
  {
  }

  lemma {:induction false} MulMonotone(a: nat, b: nat, w: nat)
    requires a <= b
    ensures a * w <= b * w
  {
    if a < b {
      MulMonotone(a, b - 1, w);
      MulStep(b - 1, w);
    }
  }

  lemma DivUnique(n: nat, w: nat, q: nat, r: nat)
    requires w > 0 && r < w && n == q * w + r
    ensures n / w == q && n % w == r
  {
    var q', r' := n / w, n % w;
    assert n == q' * w + r';
    assert q' >= 0;
    if q' < q {
      MulMonotone(q' + 1, q, w);
      MulStep(q', w);
    } else if q < q' {
      MulMonotone(q + 1, q', w);
      MulStep(q, w);
    }
  }

  lemma DivStep(n: nat, w: nat)
    requires w > 0
    ensures (n + 1) / w == n / w + (if (n + 1) % w == 0 then 1 else 0)
  {
    var q, r := n / w, n % w;
    assert n == q * w + r;
    if r + 1 < w {
      DivUnique(n + 1, w, q, r + 1);
    } else {
      MulStep(q, w);
      DivUnique(n + 1, w, q + 1, 0);
    }
  }

  lemma DivMonotone(i: nat, n: nat, w: nat)
    requires w > 0 && i <= n
    ensures i / w <= n / w
  {
    var a, b := i / w, n / w;
    assert i == a * w + i % w && n == b * w + n % w;
    if b < a {
      MulMonotone(b + 1, a, w);
      MulStep(b, w);
    }
  }
}
