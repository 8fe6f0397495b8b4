/**
 * The issuance rate limit of src/app/api/auth/request-otp/route.ts: a new
 * code is issued only while fewer than 5 codes for the same address were
 * created in the last 10 minutes (used and expired ones included).
 */
module RateLimit {
  const RateLimitMax: nat := 5
  const RateLimitWindowMs: int := 600000

  /** What the limit reads of a stored code: its address and creation time (ms). */
  datatype Stamp = Stamp(email: string, at: int)

  /** `emailOtp.count({ where: { email, createdAt: { gte: since } } })`. */
  function CountSince(stamps: seq<Stamp>, email: string, since: int): (n: nat)
    ensures n <= |stamps|
  {
    if stamps == [] then 0
    else
      var last := stamps[|stamps| - 1];
      CountSince(stamps[..|stamps| - 1], email, since) + (if last.email == email && last.at >= since then 1 else 0)
  }

  /** The number of codes for `email` created in the closed interval [lo, hi]. */
  function CountWindow(stamps: seq<Stamp>, email: string, lo: int, hi: int): nat {
    if stamps == [] then 0
    else
      var last := stamps[|stamps| - 1];
      CountWindow(stamps[..|stamps| - 1], email, lo, hi) + (if last.email == email && lo <= last.at <= hi then 1 else 0)
  }

  /** The route's test, when the code at index `i` was created: fewer than 5 earlier codes for its address in the window. */
  predicate AdmittedAt(stamps: seq<Stamp>, i: nat)
    requires i < |stamps|
  {
    CountSince(stamps[..i], stamps[i].email, stamps[i].at - RateLimitWindowMs) < RateLimitMax
  }

  /** Every stored code passed the test when it was created. */
  predicate Admitted(stamps: seq<Stamp>) {
    forall i :: 0 <= i < |stamps| ==> AdmittedAt(stamps, i)
  }

  /** Appending a code that passed the test keeps the table admitted. */
  lemma AdmitAppend(stamps: seq<Stamp>, s: Stamp)
    requires Admitted(stamps)
    requires CountSince(stamps, s.email, s.at - RateLimitWindowMs) < RateLimitMax
    ensures Admitted(stamps + [s])
  {
    var t := stamps + [s];
    forall i | 0 <= i < |t| ensures AdmittedAt(t, i) {
      if i < |stamps| {
        assert t[..i] == stamps[..i];
        assert AdmittedAt(stamps, i);
      } else {
        assert t[..i] == stamps;
      }
    }
  }

  lemma {:induction false} WindowWithinSince(stamps: seq<Stamp>, email: string, lo: int, hi: int, since: int)
    requires since <= lo
    ensures CountWindow(stamps, email, lo, hi) <= CountSince(stamps, email, since)
  {
    if stamps != [] {
      WindowWithinSince(stamps[..|stamps| - 1], email, lo, hi, since);
    }
  }

  /**
   * However the clock behaves, an admitted table holds at most 5 codes for
   * one address in any closed 10-minute interval: the latest of them was
   * created inside the interval, so all the others counted against it.
   */
  lemma {:induction false} RateBound(stamps: seq<Stamp>, email: string, t: int)
    requires Admitted(stamps)
    ensures CountWindow(stamps, email, t - RateLimitWindowMs, t) <= RateLimitMax
  {
    if stamps != [] {
      var n := |stamps| - 1;
      var init := stamps[..n];
      var last := stamps[n];
      assert Admitted(init) by {
        forall i | 0 <= i < |init| ensures AdmittedAt(init, i) {
          assert init[..i] == stamps[..i];
          assert AdmittedAt(stamps, i);
        }
      }
      if last.email == email && t - RateLimitWindowMs <= last.at <= t {
        assert AdmittedAt(stamps, n);
        WindowWithinSince(init, email, t - RateLimitWindowMs, t, last.at - RateLimitWindowMs);
      } else {
        RateBound(init, email, t);
      }
    }
  }
}
