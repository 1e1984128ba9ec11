/** Fitting the tessellation payload: threads per patch, patches per group and the factor actually
    used. The payload and mesh estimates are arbitrary functions; factors are real numbers. */
module Tessellation {
  import opened Bits

  const PAYLOAD_LIMIT: nat := 16384
  const MESH_LIMIT: nat := 32768
  const GROUP_THREADS: nat := 32

  // ----- rounding up to a power of two

  /** Number of bits in v: 32 minus the count of leading zeros of a 32-bit word. */
  function BitLength(v: nat): nat { if v == 0 then 0 else 1 + BitLength(v / 2) }

  /** The shift by the bit length; not defined for 0. */
  function NextPow2(x: nat): nat
    requires x >= 1
  {
    if x == 1 then 1 else Pow2(BitLength(x - 1))
  }

  lemma {:induction false} BitLengthBounds(v: nat)
    ensures v < Pow2(BitLength(v))
    ensures v > 0 ==> Pow2(BitLength(v) - 1) <= v
  {
    if v > 0 {
      BitLengthBounds(v / 2);
      if v / 2 == 0 { assert BitLength(v) == 1 && Pow2(0) == 1 && Pow2(1) == 2; }
    }
  }

  lemma {:induction false} Pow2Grows(a: nat, b: nat)
    requires a < b
    ensures 2 * Pow2(a) <= Pow2(b)
  {
    if a + 1 < b { Pow2Grows(a, b - 1); }
  }

  /** NextPow2 is the least power of two not below x. */
  lemma NextPow2Least(x: nat, k: nat)
    requires x >= 1
    ensures NextPow2(x) >= x && exists e: nat :: NextPow2(x) == Pow2(e)
    ensures Pow2(k) >= x ==> Pow2(k) >= NextPow2(x)
  {
    if x == 1 {
      assert Pow2(0) == 1;
      if k > 0 { Pow2Grows(0, k); }
    } else {
      var e := BitLength(x - 1);
      BitLengthBounds(x - 1);
      assert NextPow2(x) == Pow2(e);
      if k < e {
        if k < e - 1 { Pow2Grows(k, e - 1); }
      } else if k > e {
        Pow2Grows(e, k);
      }
    }
  }

  // ----- the configurations, in the order they are tried

  datatype Config = Config(factor: real, patches: nat)
  datatype Outcome = Fitted(threads: nat, config: Config) | TooManyThreads | PayloadTooLarge

  /** How often two can be taken off before the factor stands at one: (factor - 1) / 2 rounded up. */
  function Reductions(declared: real): nat {
    if declared <= 1.0 then 0 else -((1.0 - declared) / 2.0).Floor
  }

  /** The factor after j reductions. */
  function FactorAfter(declared: real, j: nat): real {
    if j == 0 then declared else if declared - 2.0 * j as real > 1.0 then declared - 2.0 * j as real else 1.0
  }

  /** Configuration k of the search from Pow2(p) patches: patches are halved down to one at the
      declared factor, and only then is the factor reduced. */
  function Tried(declared: real, p: nat, k: nat): Config {
    if k <= p then Config(declared, Pow2(p - k)) else Config(FactorAfter(declared, k - p), 1)
  }

  function Attempts(declared: real, p: nat): nat { p + 1 + Reductions(declared) }

  lemma ReductionsExact(declared: real, j: nat)
    requires j <= Reductions(declared)
    ensures FactorAfter(declared, j) > 1.0 <==> j < Reductions(declared)
    ensures j < Reductions(declared) ==>
              FactorAfter(declared, j + 1) == if FactorAfter(declared, j) - 2.0 > 1.0
                then FactorAfter(declared, j) - 2.0 else 1.0
    ensures FactorAfter(declared, j) <= declared && FactorAfter(declared, 0) == declared
    ensures j > 0 ==> 1.0 <= FactorAfter(declared, j) < declared
  {
    if declared > 1.0 {
      var x := (1.0 - declared) / 2.0;
      assert x.Floor as real <= x < x.Floor as real + 1.0;
    }
  }

  /** The exponents of a power of two up to 32 and of its quotient of 32. */
  lemma Complement(requested: nat) returns (p: nat)
    requires requested >= 1 && NextPow2(requested) <= GROUP_THREADS
    ensures p <= 5 && NextPow2(requested) == Pow2(5 - p) && GROUP_THREADS / NextPow2(requested) == Pow2(p)
  {
    NextPow2Least(requested, 0);
    var e: nat :| NextPow2(requested) == Pow2(e);
    Pow2Values();
    hide Pow2, NextPow2;
    if e > 5 { Pow2Grows(5, e); }
    p := 5 - e;
    Pow2Add(e, p);
    DivUnique(GROUP_THREADS, Pow2(e), Pow2(p), 0);
  }

  /** Runs the search. It ends at the first configuration, in the order above, whose estimate is
      within the limit, and fails exactly when none of them is; 32 threads are always in use. */
  method Fit(
    estimate: (real, nat) -> nat, requested: nat, declared: real)
    returns (r: Outcome, ghost p: nat, ghost k: nat)
    requires requested >= 1
    ensures r == TooManyThreads <==> NextPow2(requested) > 32
    ensures r != TooManyThreads ==>
              p <= 5 && NextPow2(requested) == Pow2(5 - p) && k <= Attempts(declared, p)
              && forall j: nat :: j < k ==>
                   var c := Tried(declared, p, j); estimate(c.factor, c.patches) > 16384
    ensures r == PayloadTooLarge ==> k == Attempts(declared, p)
    ensures r.Fitted? ==>
              k < Attempts(declared, p) && r.config == Tried(declared, p, k)
              && estimate(r.config.factor, r.config.patches) <= 16384
    ensures r.Fitted? ==> r.threads * r.config.patches == 32 && r.threads >= requested
    ensures r.Fitted? ==> r.config.factor <= declared && (r.config.factor < declared ==> r.config.patches == 1)
  {
    hide Pow2, NextPow2, FactorAfter, Reductions;
    p, k := 0, 0;
    var threads := NextPow2(requested);
    if threads > GROUP_THREADS {
      return TooManyThreads, 0, 0;
    }
    p := Complement(requested);
    var patches: nat := GROUP_THREADS / threads;
    var factor := declared;
    while estimate(factor, patches) > PAYLOAD_LIMIT
      invariant k < Attempts(declared, p) && Config(factor, patches) == Tried(declared, p, k)
      invariant forall j: nat :: j < k ==> var c := Tried(declared, p, j); estimate(c.factor, c.patches) > PAYLOAD_LIMIT
      decreases Attempts(declared, p) - k
    {
      PatchesAt(p, k);
      if patches == 1 {
        ReductionsExact(declared, k - p);
        if factor > 1.0 {
          factor := if factor - 2.0 > 1.0 then factor - 2.0 else 1.0;
        } else {
          k := k + 1;
          return PayloadTooLarge, p, k;
        }
      } else {
        patches := patches / 2;
      }
      k := k + 1;
    }
    PatchesAt(p, k);
    if k > p { ReductionsExact(declared, k - p); }
    NextPow2Least(requested, 0);
    ThreadsAt(requested, p, if k <= p then p - k else 0);
    r := Fitted(GROUP_THREADS / patches, Config(factor, patches));
  }

  lemma PatchesAt(p: nat, k: nat)
    ensures k < p ==> Pow2(p - k) > 1 && Pow2(p - k) / 2 == Pow2(p - (k + 1))
    ensures k == p ==> Pow2(p - k) == 1
  {
  }

  lemma ThreadsAt(requested: nat, p: nat, q: nat)
    requires requested >= 1 && q <= p <= 5 && NextPow2(requested) == Pow2(5 - p)
    ensures GROUP_THREADS / Pow2(q) * Pow2(q) == GROUP_THREADS && GROUP_THREADS / Pow2(q) >= NextPow2(requested)
  {
    hide Pow2, NextPow2;
    Pow2Values();
    Pow2Add(q, 5 - q);
    DivUnique(GROUP_THREADS, Pow2(q), Pow2(5 - q), 0);
    Pow2Monotone(5 - p, 5 - q);
  }

  // ----- the mesh estimate of the domain shader

  /** Largest factor up to 64 such that no factor up to it exceeds the mesh limit; one at least. */
  method MaxPotentialFactor(estimate: nat -> nat) returns (best: nat)
    ensures 1 <= best <= 64
    ensures best > 1 ==> forall f :: 1 <= f <= best ==> estimate(f) <= 32768
    ensures best < 64 ==> exists f :: 1 <= f <= best + 1 && estimate(f) > 32768
  {
    best := 1;
    var f := 1;
    while f <= 64
      invariant 1 <= f <= 65 && best == (if f == 1 then 1 else f - 1)
      invariant forall g :: 1 <= g < f ==> estimate(g) <= MESH_LIMIT
    {
      if estimate(f) > MESH_LIMIT { break; }
      best := f;
      f := f + 1;
    }
  }
}
