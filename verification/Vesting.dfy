/** Linear vesting with a cliff, and claiming what has vested. */
module Vesting {
  import opened Common

  const U128_MAX: int := (U64_MAX + 1) * (U64_MAX + 1) - 1

  datatype VestingError = NothingToClaim | InvalidSchedule

  /** The parameters of a schedule, not necessarily consistent. */
  datatype Terms = Terms(total: u64, startAt: u64, cliffAt: u64, endAt: u64) {
    /** What `new_checked` demands. */
    predicate Consistent() {
      startAt <= cliffAt <= endAt && startAt < endAt
    }

    function Elapsed(t: u64): u64 {
      SatSub(t, startAt)
    }

    function Duration(): u64 {
      SatSub(endAt, startAt)
    }

    /** `vested_at`. */
    function VestedAt(t: u64): u64 {
      if t < cliffAt then 0
      else if t >= endAt then total
      else if Duration() == 0 then total
      else Share(total, Elapsed(t), Duration())
    }
  }

  /** The part of a total that a part of a duration stands for: the product is formed in 128 bits, saturating, and the
      quotient must fit 64 bits again. */
  function Share(total: u64, elapsed: u64, duration: u64): u64
    requires duration > 0
  {
    var product := if total * elapsed <= U128_MAX then total * elapsed else U128_MAX;
    var quotient := product / duration;
    if 0 <= quotient <= U64_MAX then quotient else U64_MAX
  }

  lemma ProductIsMonotone(a: nat, b: nat, c: nat, d: nat)
    requires a <= c && b <= d
    ensures a * b <= c * d
  {
    assert (c - a) * b >= 0 && c * (d - b) >= 0;
    assert c * d - a * b == (c - a) * b + c * (d - b);
  }
  lemma QuotientIsAtMost(n: nat, d: nat, q: nat)
    requires d > 0 && n <= q * d
    ensures n / d <= q
  {
    assert (q + 1) * d == q * d + d;
    if n / d > q {
      ProductIsMonotone(q + 1, d, n / d, d);
    }
  }

  lemma ProductsFit(a: u64, b: u64)
    ensures 0 <= a * b <= U128_MAX
  {
    ProductIsMonotone(a, b, U64_MAX, U64_MAX);
  }

  lemma ShareIsExact(total: u64, elapsed: u64, duration: u64)
    requires elapsed < duration
    ensures Share(total, elapsed, duration) <= total
    ensures Share(total, elapsed, duration) == total * elapsed / duration
  {
    ProductsFit(total, elapsed);
    ProductIsMonotone(total, elapsed, total, duration);
    QuotientIsAtMost(total * elapsed, duration, total);
  }

  /** Between the cliff and the end the 128-bit arithmetic never saturates: the vested amount is the exact
      proportion of the elapsed time, rounded down, and so never more than the total. */
  lemma VestedIsProportion(s: Terms, t: u64)
    requires s.cliffAt <= t < s.endAt && s.Duration() > 0
    ensures s.VestedAt(t) * s.Duration() <= s.total * s.Elapsed(t) < (s.VestedAt(t) + 1) * s.Duration()
    ensures s.VestedAt(t) <= s.total
  {
    ShareIsExact(s.total, s.Elapsed(t), s.Duration());
    ProductsFit(s.total, s.Elapsed(t));
  }

  /** What has vested by a time, for any terms: nothing before the cliff; everything from the end on, or from the
      cliff on if the end does not come after the start; and in between the proportion of the time since the start,
      rounded down. */
  lemma VestedByTime(s: Terms, t: u64)
    ensures var q, since := s.VestedAt(t), if s.startAt <= t then t - s.startAt else 0;
      if t < s.cliffAt then q == 0
      else if s.endAt <= t || s.endAt <= s.startAt then q == s.total
      else q * (s.endAt - s.startAt) <= s.total * since < (q + 1) * (s.endAt - s.startAt)
  {
    if s.cliffAt <= t < s.endAt && s.startAt < s.endAt {
      VestedIsProportion(s, t);
    }
  }

  lemma VestedIsAtMostTotal(s: Terms, t: u64)
    ensures s.VestedAt(t) <= s.total
  {
    if s.cliffAt <= t < s.endAt && s.Duration() > 0 {
      VestedIsProportion(s, t);
    }
  }

  /** Vested amounts never go down, whether or not the schedule is consistent. */
  lemma VestingIsMonotone(s: Terms, t: u64, u: u64)
    requires t <= u
    ensures s.VestedAt(t) <= s.VestedAt(u) <= s.total
  {
    VestedIsAtMostTotal(s, t);
    VestedIsAtMostTotal(s, u);
    if s.cliffAt <= t && u < s.endAt && s.Duration() > 0 {
      VestedIsProportion(s, t);
      VestedIsProportion(s, u);
      ProductIsMonotone(s.total, s.Elapsed(t), s.total, s.Elapsed(u));
      if s.VestedAt(u) < s.VestedAt(t) {
        ProductIsMonotone(s.VestedAt(u) + 1, s.Duration(), s.VestedAt(t), s.Duration());
      }
    }
  }

  function ClaimableAt(s: Terms, claimed: u64, t: u64): u64 {
    SatSub(s.VestedAt(t), claimed)
  }

  /** The answer of one claim, and the amount claimed afterwards. */
  function Claimed(s: Terms, claimed: u64, t: u64): (Result<u64, VestingError>, u64) {
    var claimable := ClaimableAt(s, claimed, t);
    if claimable == 0 then (Err(NothingToClaim), claimed) else (Ok(claimable), SatAdd(claimed, claimable))
  }

  function Payment(r: Result<u64, VestingError>): u64 {
    if r.Ok? then r.value else 0
  }

  /** Claiming at each of the given times, starting from an amount already claimed: what is claimed in the end, and
      the sum of the payments. */
  function ClaimAll(s: Terms, claimed: u64, times: seq<u64>): (u64, nat) {
    if times == [] then
      (claimed, 0)
    else
      var (before, paid) := ClaimAll(s, claimed, times[..|times| - 1]);
      var (r, after) := Claimed(s, before, times[|times| - 1]);
      (after, paid + Payment(r))
  }

  function Latest(times: seq<u64>): (t: u64)
    requires times != []
    ensures t in times && forall u :: u in times ==> u <= t
  {
    var n := |times| - 1;
    assert times == times[..n] + [times[n]];
    if n == 0 || Latest(times[..n]) <= times[n] then times[n] else Latest(times[..n])
  }

  /** One claim pays up to the vested amount: afterwards the larger of the two is claimed. */
  lemma ClaimCatchesUp(s: Terms, claimed: u64, t: u64)
    ensures var (r, after) := Claimed(s, claimed, t);
      && after == claimed + Payment(r)
      && after == (if claimed <= s.VestedAt(t) then s.VestedAt(t) else claimed)
      && (r.Err? <==> s.VestedAt(t) <= claimed)
  {
  }

  /** Whenever and however often claims are made, the payments add up to what was claimed, and that is what had vested
      at the latest claim: no order or frequency of claims pays more or less. */
  lemma {:induction false} ClaimsArePathIndependent(s: Terms, times: seq<u64>)
    requires times != []
    ensures ClaimAll(s, 0, times) == (s.VestedAt(Latest(times)), s.VestedAt(Latest(times)) as nat)
  {
    var n := |times| - 1;
    var (before, _) := ClaimAll(s, 0, times[..n]);
    ClaimCatchesUp(s, before, times[n]);
    if n > 0 {
      ClaimsArePathIndependent(s, times[..n]);
      if Latest(times[..n]) <= times[n] {
        VestingIsMonotone(s, Latest(times[..n]), times[n]);
      } else {
        VestingIsMonotone(s, times[n], Latest(times[..n]));
      }
    }
  }

  /** A claim at or after the end leaves nothing unpaid, and the schedule never pays more than its total. */
  lemma AllIsPaidInTheEnd(s: Terms, times: seq<u64>)
    requires times != []
    ensures ClaimAll(s, 0, times).1 <= s.total
    ensures s.cliffAt <= s.endAt <= Latest(times) ==> ClaimAll(s, 0, times).1 == s.total
  {
    ClaimsArePathIndependent(s, times);
    VestedIsAtMostTotal(s, Latest(times));
  }

  class VestingSchedule {
    const owner: string
    const terms: Terms
    var claimed: u64
    /** The times of all claims so far, and everything paid. */
    ghost var times: seq<u64>
    ghost var paid: nat

    ghost predicate Valid()
      reads this
    {
      (claimed, paid) == ClaimAll(terms, 0, times)
    }

    constructor (owner: string, terms: Terms)
      ensures Valid() && this.owner == owner && this.terms == terms && claimed == 0 && times == []
    {
      this.owner, this.terms, claimed := owner, terms, 0;
      times, paid := [], 0;
    }

    static method NewChecked(owner: string, terms: Terms) returns (r: Result<VestingSchedule, VestingError>)
      ensures r.Ok? <==> terms.Consistent()
      ensures r.Err? ==> r.error == InvalidSchedule
      ensures r.Ok? ==> fresh(r.value) && r.value.Valid() && r.value.terms == terms && r.value.claimed == 0
    {
      if terms.cliffAt < terms.startAt || terms.cliffAt > terms.endAt || terms.endAt <= terms.startAt {
        return Err(InvalidSchedule);
      }
      var v := new VestingSchedule(owner, terms);
      return Ok(v);
    }

    /** `claim`: pays the difference to what has vested, or fails without a change if there is none. */
    method Claim(t: u64) returns (r: Result<u64, VestingError>)
      requires Valid()
      modifies this
      ensures Valid() && times == old(times) + [t]
      ensures (r, claimed) == Claimed(terms, old(claimed), t)
      ensures claimed == paid == terms.VestedAt(Latest(times))
      ensures r.Ok? ==> r.value > 0 && claimed == old(claimed) + r.value
      ensures r.Err? ==> claimed == old(claimed)
    {
      var claimable := ClaimableAt(terms, claimed, t);
      assert (times + [t])[..|times|] == times;
      times := times + [t];
      ClaimsArePathIndependent(terms, times);
      if claimable == 0 {
        return Err(NothingToClaim);
      }
      claimed := SatAdd(claimed, claimable);
      paid := paid + claimable;
      return Ok(claimable);
    }
  }
}
