/** Larger and smaller of two numbers. */
module Numbers {
  function Max(a: int, b: int): int { if a < b then b else a }

  function Min(a: int, b: int): int { if a < b then a else b }

  function MaxR(a: real, b: real): real { if a < b then b else a }

  function MinR(a: real, b: real): real { if a < b then a else b }

  lemma LargerAndSmaller(a: int, b: int, x: real, y: real)
    ensures Max(a, b) >= a && Max(a, b) >= b && Max(a, b) in {a, b}
    ensures Min(a, b) <= a && Min(a, b) <= b && Min(a, b) in {a, b}
    ensures MaxR(x, y) >= x && MaxR(x, y) >= y && MaxR(x, y) in {x, y}
    ensures MinR(x, y) <= x && MinR(x, y) <= y && MinR(x, y) in {x, y}
  {
  }
}
