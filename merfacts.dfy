/**
 * What the mer admissibility check of `pdbParser` decides, stated over
 * all chain counts and mer counts.
 */
module MerFacts {
  import opened Wrappers
  import opened PyArith
  import opened PdbParser

  /** Without a mer count nothing is checked, nothing is warned about, the
      run never exits and `div` is the CA set unchanged. */
  lemma AbsentMerPassesThrough(n: nat)
    requires n >= 1
    ensures Run(n, None) == Completed(Unchecked, CaUnchanged)
    ensures !Alerted(MerCheck(n, None).log)
  {
  }

  /** An explicit mer count of zero is not taken for an absent one: it
      reaches the divisibility test and divides by zero. */
  lemma ZeroMerIsNotAbsent(n: nat)
    requires n >= 1
    ensures Run(n, Some(0)) == Halted(Crashed(ZeroDivision))
    ensures Run(n, Some(0)) != Run(n, None)
  {
  }

  /** An empty chain list fails on its first element before the mer count
      is looked at. */
  lemma NoChainsCrash(mer: Option<int>)
    ensures Run(0, mer) == Halted(Crashed(IndexError))
    ensures MerCheck(0, mer).log == [ChainsDetected(0)]
  {
  }

  /** Fewer mers than chains that do not split evenly: a critical message,
      then `exit()`, before any CA or missing-residue work. */
  lemma UnevenSplitExits(n: nat, m: int)
    requires 1 <= m < n && n % m != 0
    ensures Run(n, Some(m)) == Halted(Exited(AmbiguousAssembly))
    ensures var log := MerCheck(n, Some(m)).log;
      log[|log| - 1] == CannotDetermineAssembly
  {
  }

  /** Fewer mers than chains that split evenly: a warning, and the chains
      are handed on to the mer split. */
  lemma EvenSplitDividesMers(n: nat, m: int)
    requires 1 <= m < n && n % m == 0
    ensures Run(n, Some(m)) == Completed(SplitAttempt, DivideMer(n, m))
    ensures var log := MerCheck(n, Some(m)).log;
      log[|log| - 1] == WillSeparate
  {
  }

  /** More mers than chains: the incomplete-structure warning, then
      `exit()`. */
  lemma MoreMersThanChainsExits(n: nat, m: int)
    requires 1 <= n < m
    ensures Run(n, Some(m)) == Halted(Exited(IncompleteAssembly))
    ensures var log := MerCheck(n, Some(m)).log;
      log[|log| - 1] == FewerChainsThanMers
  {
  }

  /** As many mers as chains: no warning, and the mer split is still
      called, since the mer count was given. */
  lemma ExactMerCountDividesMers(n: nat)
    requires n >= 1
    ensures Run(n, Some(n)) == Completed(ExactMatch, DivideMer(n, n))
    ensures !Alerted(MerCheck(n, Some(n)).log)
  {
  }

  /** With at least one chain and a non-zero mer count, negative counts
      included, the run goes on (and calls the mer split) exactly when the
      mer count divides the chain count. */
  lemma CompletesIffDivides(n: nat, m: int)
    requires n >= 1 && m != 0
    ensures Run(n, Some(m)).Completed? <==> n % m == 0
    ensures Run(n, Some(m)).Completed? ==> Run(n, Some(m)).div == DivideMer(n, m)
  {
  }

  /** The "assuming monomeric assembly" arm never runs: reaching it needs
      `m >= n`, `m == 1` and `n != 1`, so `n == 0`, which has already
      crashed on the first chain. */
  lemma MonomerArmUnreachable(n: nat, mer: Option<int>)
    ensures MerCheck(n, mer).outcome != Continues(MonomerAssumed)
    ensures AssumingMonomeric !in MerCheck(n, mer).log
  {
  }

  /** One mer on a multi-chain structure takes the even-split arm instead. */
  lemma OneMerSplits(n: nat)
    requires n > 1
    ensures Run(n, Some(1)) == Completed(SplitAttempt, DivideMer(n, 1))
  {
  }

  /** With at least one chain and at least one mer, exactly one of the
      uneven-split, even-split, too-many-mers and exact-count arms applies,
      each exactly when its guard holds. */
  lemma ArmsPartition(n: nat, m: int)
    requires n >= 1 && m >= 1
    ensures var o := MerCheck(n, Some(m)).outcome;
      && (o == Exited(AmbiguousAssembly) <==> m < n && n % m != 0)
      && (o == Continues(SplitAttempt) <==> m < n && n % m == 0)
      && (o == Exited(IncompleteAssembly) <==> m > n)
      && (o == Continues(ExactMatch) <==> m == n)
  {
  }

  /** The only critical message is the uneven-split one, and it is logged
      exactly when the run exits for that reason. */
  lemma CriticalIffAmbiguous(n: nat, mer: Option<int>)
    ensures CriticalLogged(MerCheck(n, mer).log) <==> MerCheck(n, mer).outcome == Exited(AmbiguousAssembly)
  {
    var v := MerCheck(n, mer);
    if v.outcome == Exited(AmbiguousAssembly) {
      assert LevelOf(v.log[|v.log| - 1]) == Critical;
    }
  }

  /** On a structure with chains, the check stays quiet (info messages only)
      exactly when no mer count was given or it equals the chain count. */
  lemma QuietIffUncheckedOrExact(n: nat, mer: Option<int>)
    requires n >= 1
    ensures !Alerted(MerCheck(n, mer).log) <==> mer.None? || mer == Some(n)
  {
    var v := MerCheck(n, mer);
    match mer
    case None =>
    case Some(m) =>
      if m != n {
        // the last event, or the one before a crash, is a warning
        var k := if m < n then (if n != 1 then 3 else 2) else |v.log| - 1;
        assert LevelOf(v.log[k]) == Warning;
      }
  }

  /** Every `exit()` is announced: the last message before it is a warning
      or a critical one. */
  lemma ExitIsAnnounced(n: nat, mer: Option<int>)
    ensures var v := MerCheck(n, mer);
      v.outcome.Exited? ==> LevelOf(v.log[|v.log| - 1]) != Info
  {
  }

  // Worked examples: each checks one input and is not used by any proof;
  // the general facts are CompletesIffDivides and ProcessPair's contract.

  /** A negative mer count is below every chain count, so it goes to the
      divisibility test, where Python's remainder decides: `4 % -2 == 0`
      lets the run go on, `3 % -2 == -1` exits. */
  lemma NegativeMerExamples()
    ensures Run(4, Some(-2)) == Completed(SplitAttempt, DivideMer(4, -2))
    ensures Run(3, Some(-2)) == Halted(Exited(AmbiguousAssembly))
  {
    assert PyMod(4, -2) == 0;
    assert PyMod(3, -2) == -1;
  }

  /** An uneven split on the start structure stops the end structure even
      when the end structure would pass the check. */
  lemma UnevenStartBlocksEvenEnd()
    ensures Run(4, Some(2)) == Completed(SplitAttempt, DivideMer(4, 2))
    ensures ProcessPair(5, 4, Some(2)) == (Halted(Exited(AmbiguousAssembly)), None)
  {
  }
}
