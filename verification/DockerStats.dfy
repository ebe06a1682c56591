/** Differencing two stats samples of one container. */
module DockerStats {
  import opened Text

  /** The figures CPU percentages are computed from. */
  datatype Sample = Sample(running: bool, cpuTotal: nat, systemTotal: nat, hasSystem: bool, cpus: int)

  /** CPU use over the window between two samples; None when it is unusable. */
  function CPUPercent(prev: Sample, now: Sample): Option<real>
  {
    if !prev.hasSystem || !now.hasSystem || now.cpus == 0 then None
    else if now.systemTotal <= prev.systemTotal || now.cpuTotal < prev.cpuTotal then None
    else
      var cpuDelta := (now.cpuTotal - prev.cpuTotal) as real;
      var systemDelta := (now.systemTotal - prev.systemTotal) as real;
      Some(cpuDelta / systemDelta * now.cpus as real * 100.0)
  }

  predicate Differenced(prev: Sample, now: Sample)
  {
    CPUPercent(prev, now).Some?
  }

  /** What makes a window usable: both samples have host time and the CPUs are
      known, host time advanced, and container time did not go back. */
  predicate Usable(prev: Sample, now: Sample)
  {
    && prev.hasSystem && now.hasSystem && now.cpus != 0
    && prev.systemTotal < now.systemTotal && prev.cpuTotal <= now.cpuTotal
  }

  /** Exactly the usable windows are differenced, the idle ones included, and a
      window reads zero exactly when the container used no CPU time in it. */
  lemma {:induction false} DifferencedExactlyWhenUsable(prev: Sample, now: Sample)
    ensures Differenced(prev, now) <==> Usable(prev, now)
    ensures Differenced(prev, now) ==> (CPUPercent(prev, now).value == 0.0 <==> now.cpuTotal == prev.cpuTotal)
  {
    if Differenced(prev, now) {
      var used, host := (now.cpuTotal - prev.cpuTotal) as real, (now.systemTotal - prev.systemTotal) as real;
      ScaleBack(used, host, now.cpus as real);
      ZeroProduct(used, now.cpus as real);
      assert used == 0.0 ==> used / host == 0.0;
    }
  }

  lemma {:induction false} ZeroProduct(u: real, k: real)
    requires k != 0.0
    ensures u * k * 100.0 == 0.0 ==> u == 0.0
  {
    assert u == u * k * 100.0 / 100.0 / k;
  }

  lemma {:induction false} ScaleBack(u: real, s: real, k: real)
    requires s > 0.0
    ensures (u / s * k * 100.0) * s == u * k * 100.0
  {
    var q := u / s;
    assert q * s == u;
    calc {
      (q * k * 100.0) * s;
      (q * s) * k * 100.0;
      u * k * 100.0;
    }
  }

  lemma {:induction false} Spread(u: real, s: real, k: real)
    requires s > 0.0
    ensures u / s * k * 100.0 == (u * k * 100.0) / s
  {
    ScaleBack(u, s, k);
    var x := u / s * k * 100.0;
    assert x == (x * s) / s;
  }

  /** The scale: a container that used one CPU's share of the host's time, all of
      it on n CPUs' worth of host time, reads 100, and the percentage grows in
      proportion to the CPU time used. */
  lemma {:induction false} OneFullCoreIsAHundred(prev: Sample, now: Sample)
    requires Differenced(prev, now)
    ensures var used, host := (now.cpuTotal - prev.cpuTotal) as real, (now.systemTotal - prev.systemTotal) as real;
            && CPUPercent(prev, now).value * host == used * now.cpus as real * 100.0
            && (used * now.cpus as real == host ==> CPUPercent(prev, now).value == 100.0)
  {
    var used, host := (now.cpuTotal - prev.cpuTotal) as real, (now.systemTotal - prev.systemTotal) as real;
    ScaleBack(used, host, now.cpus as real);
    var pct := CPUPercent(prev, now).value;
    assert pct == pct * host / host;
    assert 100.0 * host / host == 100.0;
  }

  /** Over a window cut at b, the percentage is the mean of the two parts,
      weighted by the host CPU time of each. */
  ghost predicate Averages(a: Sample, b: Sample, c: Sample)
    requires Differenced(a, b) && Differenced(b, c) && Differenced(a, c)
  {
    var first := (b.systemTotal - a.systemTotal) as real;
    var second := (c.systemTotal - b.systemTotal) as real;
    && first > 0.0 && second > 0.0
    && CPUPercent(a, c).value ==
       (CPUPercent(a, b).value * first + CPUPercent(b, c).value * second) / (first + second)
  }

  /** Usable windows compose, and over equal CPU counts the percentage of the
      joined window is the mean of the two, weighted by host CPU time. */
  lemma {:induction false} WindowsCompose(a: Sample, b: Sample, c: Sample)
    requires Differenced(a, b) && Differenced(b, c)
    ensures Differenced(a, c)
    ensures b.cpus == c.cpus ==> Averages(a, b, c)
  {
    var s1, s2 := (b.systemTotal - a.systemTotal) as real, (c.systemTotal - b.systemTotal) as real;
    var u1, u2 := (b.cpuTotal - a.cpuTotal) as real, (c.cpuTotal - b.cpuTotal) as real;
    var k := c.cpus as real;
    if b.cpus == c.cpus {
      ScaleBack(u1, s1, k);
      ScaleBack(u2, s2, k);
      Spread(u1 + u2, s1 + s2, k);
      assert u1 * k * 100.0 + u2 * k * 100.0 == (u1 + u2) * k * 100.0;
    }
  }

}
