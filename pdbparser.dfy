/**
 * The multimeric (mer-count) admissibility check of `pdbParser` and the
 * choice it makes about handing the chains on to the mer split.
 *
 * The readers that produce the compound/chain list, the CA coordinates and
 * the missing-residue information are not part of this model: the only
 * thing taken from them is `n`, the number of chains found in the compound
 * records. Log calls become `Event`s, `exit()` becomes an `Exited` outcome and
 * a Python exception a `Crashed` outcome.
 */
module PdbParser {
  import opened Wrappers
  import opened PyArith

  datatype Level = Info | Warning | Critical

  /** The diagnostics the check emits, in the order it emits them. */
  datatype Event =
    | ChainsDetected(chains: nat)   // the chain list was read
    | ContinuingWithFirstChain      // more (or fewer) than one chain: note the first one
    | MultimericChosen              // a mer count was given
    | SeveralAssemblies             // fewer mers than chains
    | CannotDetermineAssembly       // the chains do not split evenly
    | WillSeparate                  // the chains split evenly
    | AssumingMonomeric             // one mer asked for on a multi-chain file
    | OnlyOneChainChosen            // companion of AssumingMonomeric
    | FewerChainsThanMers           // more mers than chains

  /** The logging call each message goes through. */
  function LevelOf(e: Event): (l: Level)
    ensures l == Critical <==> e == CannotDetermineAssembly
    ensures l == Info <==> e.ChainsDetected? || e == ContinuingWithFirstChain || e == MultimericChosen
  {
    match e
    case ChainsDetected(_) => Info
    case ContinuingWithFirstChain => Info
    case MultimericChosen => Info
    case CannotDetermineAssembly => Critical
    case _ => Warning
  }

  /** The Python exceptions the check can raise. */
  datatype Crash =
    | IndexError     // `compnd[0]` on an empty chain list
    | ZeroDivision   // `len(compnd) % 0`

  /** Why the check called `exit()`. */
  datatype AbortReason = AmbiguousAssembly | IncompleteAssembly

  /** Which arm of the check let processing go on. */
  datatype Branch =
    | Unchecked        // no mer count: the check was skipped
    | SplitAttempt     // mer divides the chain count: "will attempt to separate"
    | MonomerAssumed   // "assuming monomeric assembly"
    | ExactMatch       // as many mers as chains

  datatype Outcome =
    | Crashed(cause: Crash)
    | Exited(reason: AbortReason)
    | Continues(branch: Branch)

  /** What the check logged and how it ended. */
  datatype Verdict = Verdict(log: seq<Event>, outcome: Outcome)

  /** True when some event in `log` is a warning or worse. */
  predicate Alerted(log: seq<Event>)
  {
    exists i :: 0 <= i < |log| && LevelOf(log[i]) != Info
  }

  /** True when some event in `log` is critical. */
  predicate CriticalLogged(log: seq<Event>)
  {
    exists i :: 0 <= i < |log| && LevelOf(log[i]) == Critical
  }

  /**
   * The mer admissibility check for a structure with `n` chains. `mer` is
   * `None` when `--multimeric` was not given (its default is `False`, tested
   * by identity), and `Some(m)` for any integer given, zero and negative
   * numbers included.
   */
  function MerCheck(n: nat, mer: Option<int>): (v: Verdict)
    ensures v.outcome == Crashed(IndexError) <==> n == 0
    ensures v.outcome == Crashed(ZeroDivision) <==> n > 0 && mer == Some(0)
    ensures v.outcome.Exited? ==> mer.Some?
    ensures mer.None? && n > 0 ==> v.outcome == Continues(Unchecked)
    ensures |v.log| > 0 && v.log[0] == ChainsDetected(n)
  {
    var read := [ChainsDetected(n)];
    if n == 0 then
      // the note about the first chain indexes an empty list
      Verdict(read, Crashed(IndexError))
    else
      var noted := read + (if n != 1 then [ContinuingWithFirstChain] else []);
      match mer
      case None => Verdict(noted, Continues(Unchecked))
      case Some(m) =>
        var chosen := noted + [MultimericChosen];
        if m < n then
          var several := chosen + [SeveralAssemblies];
          if m == 0 then Verdict(several, Crashed(ZeroDivision))
          else if PyMod(n, m) != 0 then
            Verdict(several + [CannotDetermineAssembly], Exited(AmbiguousAssembly))
          else Verdict(several + [WillSeparate], Continues(SplitAttempt))
        else if m == 1 && n != 1 then
          Verdict(chosen + [AssumingMonomeric, OnlyOneChainChosen], Continues(MonomerAssumed))
        else if m > n then
          Verdict(chosen + [FewerChainsThanMers], Exited(IncompleteAssembly))
        else
          // what is left is m == n, where the check does nothing
          Verdict(chosen, Continues(ExactMatch))
  }

  /** The value bound to `div`: the mer split of the CA set, or the CA set
      itself. The split is reduced to the arguments it is called with. */
  datatype Div =
    | DivideMer(chains: nat, mer: int)
    | CaUnchanged

  /** How one call of `pdbParser` ends. */
  datatype RunResult =
    | Halted(outcome: Outcome)
    | Completed(branch: Branch, div: Div)

  /**
   * One call of `pdbParser` on a structure with `n` chains: the check, then
   * (when it lets processing go on) the CA and missing-residue steps, which
   * are not modelled, then the choice of `div`.
   */
  function Run(n: nat, mer: Option<int>): (r: RunResult)
    ensures r.Completed? <==> MerCheck(n, mer).outcome.Continues?
    ensures r.Halted? ==> r.outcome == MerCheck(n, mer).outcome
    ensures r.Completed? ==> r.branch == MerCheck(n, mer).outcome.branch
    ensures r.Completed? ==> (r.div.DivideMer? <==> mer.Some?)
    ensures r.Completed? && mer.Some? ==> r.div == DivideMer(n, mer.value)
  {
    match MerCheck(n, mer).outcome
    case Continues(b) =>
      var div := match mer
        case Some(m) => DivideMer(n, m)
        case None => CaUnchanged;
      Completed(b, div)
    case o => Halted(o)
  }

  /**
   * The script's two calls, on the start structure and then on the end
   * structure, with the same mer count. An `exit()` or an exception in the
   * first call ends the process, so the second never happens.
   */
  function ProcessPair(nStart: nat, nEnd: nat, mer: Option<int>): (r: (RunResult, Option<RunResult>))
    ensures r.0 == Run(nStart, mer)
    ensures r.1.Some? <==> r.0.Completed?
    ensures r.1.Some? ==> r.1.value == Run(nEnd, mer)
  {
    var first := Run(nStart, mer);
    if first.Completed? then (first, Some(Run(nEnd, mer))) else (first, None)
  }
}
