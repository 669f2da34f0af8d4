/** How often `build_chain_inner` can be called for a pool of a given size (src/verify_cert.rs:149-161, 214-248). */
module PathBounds {
  import opened Basics
  import opened Certificates
  import opened NameConstraints
  import opened PathSearch

  // ----- counting arrangements

  function Left(n: nat, taken: nat): nat {
    if taken < n then n - taken else 0
  }

  /** n(n-1)...(n-i+1): the ways to place `i` different entries of `n` in a row. */
  function Arrangements(n: nat, i: nat): nat {
    if i == 0 then 1 else Arrangements(n, i - 1) * Left(n, i - 1)
  }

  function ArrangementsUpTo(n: nat, i: nat): nat {
    if i == 0 then 1 else ArrangementsUpTo(n, i - 1) + Arrangements(n, i)
  }

  /** Calls made from a certificate above which `height - 1` levels are still allowed. */
  function CallsBelow(n: nat, height: nat): nat
    requires height <= 8
  {
    if height <= 1 then 1 else 1 + Left(n, 8 - height) * CallsBelow(n, height - 1)
  }

  lemma {:induction false} CallsAreArrangements(n: nat, d: nat, top: nat)
    requires d <= top == 7
    ensures ArrangementsUpTo(n, top) == ArrangementsUpTo(n, d) - Arrangements(n, d) + Arrangements(n, d) * CallsBelow(n, top + 1 - d)
    decreases top - d
  {
    if d < top {
      CallsAreArrangements(n, d + 1, top);
      Regroup(Arrangements(n, d), Left(n, d), CallsBelow(n, top - d));
    }
  }

  lemma Regroup(a: nat, l: nat, c: nat)
    ensures a * (1 + l * c) == a + (a * l) * c
  {
  }

  // ----- counting entries

  /** How many entries from `i` on are not among `used`. */
  function Unused(used: set<nat>, i: nat, n: nat): nat
    requires i <= n
    decreases n - i
  {
    if i == n then 0 else (if i in used then 0 else 1) + Unused(used, i + 1, n)
  }

  function AtLeast(used: set<nat>, i: nat): set<nat> {
    set k | k in used && i <= k
  }

  lemma {:induction false} UnusedExactly(used: set<nat>, i: nat, n: nat)
    requires i <= n && forall k :: k in used ==> k < n
    ensures Unused(used, i, n) + |AtLeast(used, i)| == n - i
    decreases n - i
  {
    if i == n {
      assert AtLeast(used, i) == {};
    } else {
      UnusedExactly(used, i + 1, n);
      var later := AtLeast(used, i + 1);
      assert AtLeast(used, i) == if i in used then later + {i} else later;
    }
  }

  /** These entries of the pool stand on the path, one for each level that is used up. */
  ghost predicate OnPath(o: ChainOptions, cert: Cert, subCaCount: nat, used: set<nat>) {
    && 1 <= Height(cert, subCaCount) && |used| == 8 - Height(cert, subCaCount)
    && forall i :: i in used ==> i < |o.intermediates| && o.intermediates[i].Ok? && LoopsBack(o.intermediates[i].value, cert)
  }

  lemma UsedIsNotClimbed(o: ChainOptions, cert: Cert, subCaCount: nat, used: set<nat>, i: nat)
    requires OnPath(o, cert, subCaCount, used) && i in used
    ensures ClimbStep(o, cert, o.intermediates[i]).Err?
  {
    hide CheckNameConstraints;
  }

  /** A climb takes an entry that is not on the path yet. */
  lemma ClimbUses(o: ChainOptions, cert: Cert, subCaCount: nat, used: set<nat>, i: nat)
    requires !cert.UsedAsCa() ==> subCaCount == 0
    requires OnPath(o, cert, subCaCount, used) && !TooDeep(cert, subCaCount)
    requires i < |o.intermediates| && ClimbStep(o, cert, o.intermediates[i]).Ok?
    ensures i !in used
    ensures OnPath(o, Cert(ClimbStep(o, cert, o.intermediates[i]).value, Ca(cert)), NextSubCaCount(cert, subCaCount), used + {i})
  {
    if i in used {
      UsedIsNotClimbed(o, cert, subCaCount, used, i);
    }
    ClimbKeepsLinks(o, cert, o.intermediates[i]);
    hide ClimbStep;
  }

  // ----- counting calls

  lemma {:induction false} SignaturesCallNothing(o: ChainOptions, cert: Cert, spki: Bytes, keyUsage: Option<Bytes>, t: Tally)
    ensures CheckSignatures(o, cert, spki, keyUsage, t).1.calls == t.calls
    decreases cert
  {
    hide CheckSigned, CrlToCheck;
    if cert.eeOrCa.Ca? {
      SignaturesCallNothing(o, cert.eeOrCa.child, cert.own.spki, cert.own.keyUsage, CountCrl(o, cert, CountVerify(t)));
    }
  }

  lemma {:induction false} AnchorsCallNothing(o: ChainOptions, cert: Cert, anchors: seq<TrustAnchor>, err: Error, t: Tally)
    ensures TryAnchors(o, cert, anchors, err, t).1.calls == t.calls
  {
    hide CheckNameConstraints, CheckSignatures, Error.MostSpecific;
    if anchors != [] {
      SignaturesCallNothing(o, cert, anchors[0].spki, None, t);
      var r := AnchorStep(o, cert, anchors[0], t);
      if r.0.Err? {
        AnchorsCallNothing(o, cert, anchors[1..], err.MostSpecific(r.0.error), r.1);
      }
    }
  }

  /** On every call the path holds at most seven intermediates and no entry of the pool twice, which
      bounds the calls. */
  lemma {:induction false} SearchCalls(o: ChainOptions, cert: Cert, subCaCount: nat, t: Tally, used: set<nat>)
    requires !cert.UsedAsCa() ==> subCaCount == 0
    requires OnPath(o, cert, subCaCount, used)
    ensures Search(o, cert, subCaCount, t).1.calls <= t.calls + CallsBelow(|o.intermediates|, Height(cert, subCaCount))
    decreases Height(cert, subCaCount), 1, 0
  {
    hide CheckIssuerIndependentProperties, TryAnchors, TryPool;
    var n := |o.intermediates|;
    var t0 := t.(calls := t.calls + 1);
    AnchorsCallNothing(o, cert, o.trustAnchors, UnknownIssuer, t0);
    var a := TryAnchors(o, cert, o.trustAnchors, UnknownIssuer, t0);
    if !TooDeep(cert, subCaCount) && a.0.Err? {
      PoolCalls(o, cert, subCaCount, 0, a.0.error, a.1, used);
      UnusedExactly(used, 0, n);
      assert AtLeast(used, 0) == used;
    }
  }

  lemma {:induction false} PoolCalls(o: ChainOptions, cert: Cert, subCaCount: nat, i: nat, err: Error, t: Tally, used: set<nat>)
    requires (!cert.UsedAsCa() ==> subCaCount == 0) && !TooDeep(cert, subCaCount)
    requires OnPath(o, cert, subCaCount, used) && i <= |o.intermediates|
    ensures
      var n := |o.intermediates|;
      TryPool(o, cert, subCaCount, o.intermediates[i..], err, t).1.calls
        <= t.calls + Unused(used, i, n) * CallsBelow(n, Height(cert, subCaCount) - 1)
    decreases Height(cert, subCaCount), 0, |o.intermediates| - i
  {
    hide ClimbStep, Search, Error.MostSpecific, OnPath, CallsBelow, Unused;
    var n := |o.intermediates|;
    var bound := CallsBelow(n, Height(cert, subCaCount) - 1);
    if i < n {
      UnusedStep(used, i, n, bound);
      var pool := o.intermediates[i..];
      assert pool[0] == o.intermediates[i] && pool[1..] == o.intermediates[i + 1..];
      var step := ClimbStep(o, cert, pool[0]);
      var r := EntryStep(o, cert, subCaCount, pool[0], t);
      if step.Ok? {
        ClimbUses(o, cert, subCaCount, used, i);
        SearchCalls(o, Cert(step.value, Ca(cert)), NextSubCaCount(cert, subCaCount), t, used + {i});
        assert r.1.calls <= t.calls + bound;
      }
      if r.0.Err? {
        PoolCalls(o, cert, subCaCount, i + 1, err.MostSpecific(r.0.error), r.1, used);
      }
    }
  }

  lemma UnusedStep(used: set<nat>, i: nat, n: nat, bound: nat)
    requires i < n
    ensures Unused(used, i, n) * bound == Unused(used, i + 1, n) * bound + if i in used then 0 else bound
    ensures Unused(used, i + 1, n) * bound >= 0
  {
    Regroup(1, Unused(used, i + 1, n), bound);
  }

  lemma CallsFromTheEndEntity(n: nat, top: nat)
    requires top == 7
    ensures CallsBelow(n, top + 1) == ArrangementsUpTo(n, top)
  {
    hide CallsBelow;
    CallsAreArrangements(n, 0, top);
  }

  /** A whole run calls `build_chain_inner` at most once for every way to place up to seven different
      entries of the pool in a row. */
  lemma RunIsBounded(o: ChainOptions, endEntity: Parsed)
    ensures Search(o, Cert(endEntity, EndEntity), 0, Tally(0, 0, 0, 0)).1.calls <= ArrangementsUpTo(|o.intermediates|, 7)
  {
    SearchCalls(o, Cert(endEntity, EndEntity), 0, Tally(0, 0, 0, 0), {});
    hide Search, CallsBelow;
    CallsFromTheEndEntity(|o.intermediates|, 7);
  }
}
