/**
 * The simulation's source of randomness, made explicit and injectable.
 *
 * A `Source` is an arbitrary stream of raw draws together with the number of
 * draws consumed so far; nothing is assumed about the stream, so every
 * property proved here holds whatever numbers it yields. The three operations
 * the simulation uses are written the way CPython's `random` module builds
 * them on top of its `_randbelow`: `choice(s)` is `s[_randbelow(len(s))]` and
 * `shuffle(x)` is the Fisher-Yates loop that runs `i` from `len(x) - 1` down
 * to 1 and swaps `x[i]` with `x[_randbelow(i + 1)]`.
 */
module Random {

  datatype Source = Source(draw: nat -> nat, used: nat)

  /** `_randbelow(n)`: a value in [0, n); consumes one draw. */
  function Below(src: Source, n: nat): (r: (nat, Source))
    requires n > 0
    ensures r.0 < n
    ensures r.1.used == src.used + 1
  {
    (src.draw(src.used) % n, Source(src.draw, src.used + 1))
  }

  /** `random.choice(s)`: some element of the non-empty sequence `s`. */
  function Choice<T>(src: Source, s: seq<T>): (r: (T, Source))
    requires |s| > 0
    ensures r.0 in s
    ensures r.1.used == src.used + 1
  {
    var (j, next) := Below(src, |s|);
    (s[j], next)
  }

  /** `random.shuffle(x)`: the result is a permutation of `s`. */
  method Shuffle<T>(s: seq<T>, src: Source) returns (t: seq<T>, next: Source)
    ensures |t| == |s|
    ensures multiset(t) == multiset(s)
  {
    t, next := s, src;
    var i := |t|;
    while i > 1
      invariant 0 <= i <= |t| == |s|
      invariant multiset(t) == multiset(s)
    {
      i := i - 1;
      var pick := Below(next, i + 1);
      var j := pick.0;
      next := pick.1;
      t := t[i := t[j]][j := t[i]];
    }
  }
}
