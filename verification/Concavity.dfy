/** Concavity of a curve as falling slopes between three points in order. */
module Concavity {

  /** The slope from (x,p) to (y,q) is at least the slope from (y,q) to (z,s), cleared of
      the denominators. */
  ghost predicate FallingSlopes(p: real, q: real, s: real, x: real, y: real, z: real) {
    (q - p) * (z - y) >= (s - q) * (y - x)
  }

  /** Subtracting the line k*x + c keeps falling slopes. */
  lemma MinusLine(p: real, q: real, s: real, x: real, y: real, z: real, k: real, c: real)
    requires FallingSlopes(p, q, s, x, y, z)
    ensures FallingSlopes(p - (k * x + c), q - (k * y + c), s - (k * z + c), x, y, z)
  {
    assert (q - p - k * (y - x)) * (z - y) == (q - p) * (z - y) - k * ((y - x) * (z - y));
    assert (s - q - k * (z - y)) * (y - x) == (s - q) * (y - x) - k * ((y - x) * (z - y));
    assert k * (y - x) == k * y - k * x && k * (z - y) == k * z - k * y;
  }
}
