/** The aggregate memory ceiling of the sandbox fleet. */
module FleetCeiling {

  const CONSERVATIVE_MB := 4096
  const BYTES_PER_MIB := 0x10_0000
  const MAX_INT32 := 0x7FFF_FFFF

  /** A 64-bit reading of the host's memory in bytes, or a failed probe. */
  datatype Probe = Failed | Bytes(total: int)

  ghost predicate Uint64(n: int) {
    0 <= n < 0x1_0000_0000_0000_0000
  }

  datatype Source = Flag | Policy | Fallback | Disabled
  datatype Ceiling = Ceiling(maxTotalMB: int, hostMB: int, source: Source)

  function Max(a: int, b: int): int { if a < b then b else a }
  function Min(a: int, b: int): int { if a < b then a else b }

  /** The ceiling a percentage of a host of `mib` mebibytes comes to. */
  function Share(mib: int, percent: int): int {
    Max(1, mib * percent / 100)
  }

  /** The policy's ceiling for a reading in bytes, through the 32-bit clamp. */
  function PolicyCeiling(total: int, percent: int): int {
    Share(Min(total / BYTES_PER_MIB, MAX_INT32), percent)
  }

  predicate Measured(percent: int, probe: Probe) {
    0 <= percent <= 100 && probe.Bytes? && probe.total != 0
  }

  /** `ceilingFromPolicy`. The product is taken in 64 bits and cannot wrap. */
  method CeilingFromPolicy(percent: int, probe: Probe) returns (ok: bool, ceilingMB: int, hostMB: int)
    requires probe.Bytes? ==> Uint64(probe.total)
    ensures ok <==> Measured(percent, probe)
    ensures ok ==>
              hostMB == Min(probe.total / BYTES_PER_MIB, MAX_INT32) && ceilingMB == PolicyCeiling(probe.total, percent)
    ensures ok ==> 1 <= ceilingMB <= MAX_INT32
  {
    if percent < 0 || percent > 100 || probe.Failed? || probe.total == 0 {
      return false, 0, 0;
    }
    var hostMiB := probe.total / BYTES_PER_MIB;
    if hostMiB > MAX_INT32 {
      hostMiB := MAX_INT32;
    }
    ShareIsBounded(hostMiB, percent);
    assert Uint64(hostMiB * percent);
    var resolved := hostMiB * percent / 100;
    if resolved < 1 {
      resolved := 1;
    }
    return true, resolved, hostMiB;
  }

  lemma ShareIsBounded(mib: int, percent: int)
    requires 0 <= mib <= MAX_INT32 && 0 <= percent <= 100
    ensures 0 <= mib * percent <= mib * 100 && mib * percent / 100 <= mib
  {
    assert mib * percent <= mib * 100;
  }

  /** `resolveFleetCeiling`, memory dimension: the flag, else the policy's share of
      the host, else a conservative absolute. It is 0 only on purpose. */
  method ResolveFleetCeiling(percent: int, overrideMB: int, probe: Probe) returns (c: Ceiling)
    requires probe.Bytes? ==> Uint64(probe.total)
    ensures c.maxTotalMB == 0 <==> overrideMB <= 0 && percent == 0
    ensures c.maxTotalMB >= 0
    ensures c.source == Flag <==> overrideMB > 0
    ensures c.source == Flag ==> c.maxTotalMB == overrideMB
    ensures c.source == Disabled <==> overrideMB <= 0 && percent == 0
    ensures c.source == Policy ==>
              Measured(percent, probe) && c.maxTotalMB == PolicyCeiling(probe.total, percent) <= MAX_INT32
    ensures c.source == Fallback ==> !Measured(percent, probe) && c.maxTotalMB == CONSERVATIVE_MB
  {
    c := Ceiling(0, 0, Disabled);
    if overrideMB > 0 {
      c := c.(maxTotalMB := overrideMB, source := Flag);
    } else if percent != 0 {
      var ok, ceilingMB, hostMB := CeilingFromPolicy(percent, probe);
      if ok {
        c := Ceiling(ceilingMB, hostMB, Policy);
      } else {
        c := c.(maxTotalMB := CONSERVATIVE_MB, source := Fallback);
      }
    }
  }

  lemma ShareIsMonotone(a: int, p: int, b: int, q: int)
    requires 0 <= a <= b && 0 <= p <= q
    ensures Share(a, p) <= Share(b, q)
  {
    assert a * p <= b * p <= b * q;
  }

  /** A larger reading or a larger percentage never lowers the ceiling, whatever the
      rounding to mebibytes and the clamp do to it. */
  lemma PolicyCeilingIsMonotone(a: int, p: int, b: int, q: int)
    requires 0 <= a <= b && 0 <= p <= q
    ensures PolicyCeiling(a, p) <= PolicyCeiling(b, q)
  {
    hide Share;
    assert a / BYTES_PER_MIB <= b / BYTES_PER_MIB;
    ShareIsMonotone(Min(a / BYTES_PER_MIB, MAX_INT32), p, Min(b / BYTES_PER_MIB, MAX_INT32), q);
  }
}
