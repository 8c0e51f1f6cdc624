# Mer-count admissibility check of `pdbParser`

`pdbParser.py` reads a structure file from the Protein Data Bank, lists its
chains, and then runs a multimeric check. The check decides whether the chains
can be split into the number of biological units ("mers") the user asked for
with `--multimeric`. The check lets processing continue, stops the process with
`exit()`, or raises an exception (IndexError with no chains,
ZeroDivisionError for a mer count of 0). If processing continues, the script collects CA
coordinates and missing-residue information. It then binds `div` either to
the mer split of the CA set (`divide_mer`) or to the CA set unchanged.

The model is pure Dafny:

- `wrappers.dfy` defines `Option`. The mer count is `Option<int>`. `None` is
  the argparse default `False`, which the source tests by identity, so an
  explicit `0` is a value and not an absence.
- `pyarith.dfy` defines Python's floor division and remainder
  (`FloorDivMod`, `PyMod`). The source tests `len(compnd) % mer`, and Python's
  `%` takes the sign of the divisor while Dafny's is never negative.
- `pdbparser.dfy` defines the check (`MerCheck`), one call of `pdbParser`
  (`Run`) and the script's two calls in sequence (`ProcessPair`). Log calls
  become `Event`s with a `Level`, `exit()` becomes the `Exited` outcome, and
  a Python exception becomes the `Crashed` outcome. The chain list is reduced
  to its length `n`.
- `merfacts.dfy` holds the lemmas about every arm of the check.

Three consequences of the order of the tests in the code:

- The "assuming monomeric assembly" arm (lines 44-46) can never run. One mer
  on a multi-chain file takes the even-split arm (lines 37-43), and line 63
  calls `divide_mer` (`MonomerArmUnreachable`, `OneMerSplits`).
- The `exit()` calls on lines 41 and 49 end the whole process. This happens
  before the CA and missing-residue work and, when it happens on the start
  structure (line 83), before line 84 runs
  (`ProcessPair`, `UnevenStartBlocksEvenEnd`).
- When `mer == len(compnd)` (lines 50-51), the check does nothing extra, and
  line 63 still calls `divide_mer` (`ExactMerCountDividesMers`).

## Model

| member | source | states |
|---|---|---|
| PyArith.FloorDivMod | pdbParser.py:39 | Python's quotient and remainder satisfy `a == q*b + r`, and the remainder lies in `[0, b)` for a positive divisor and in `(b, 0]` for a negative one |
| PyArith.FloorDivModUnique | pdbParser.py:39 | any pair with the division equation and that sign rule is the pair `FloorDivMod` gives, so it is Python's `divmod` |
| PyArith.PyMod | pdbParser.py:39 | Python's `n % mer` equals Dafny's remainder or Dafny's remainder plus `mer`, and takes the sign of `mer` (in `[0, mer)` for a positive `mer`, in `(mer, 0]` for a negative one) |
| PyArith.PyModZeroIff | pdbParser.py:39 | Python's remainder is zero exactly when Dafny's is, so the test on line 39 can be read either way |
| PyArith.NegativeDivisorExample | pdbParser.py:39 | worked example: the two remainders differ for a negative divisor (`3 % -2` is `-1` in Python and `1` in Dafny) |
| PdbParser.LevelOf | pdbParser.py:32-48 | the only critical message is the line-40 one; the info messages are those of lines 32, 34 and 36; every other message (lines 38, 43, 45, 46, 48) is a warning |
| PdbParser.MerCheck | pdbParser.py:29-51 | the check crashes with IndexError exactly when there are no chains. It divides by zero exactly when there are chains and the mer count is 0. It exits only when a mer count was given, it skips itself when none was given, and it always logs the detected chains first |
| PdbParser.Run | pdbParser.py:29-65 | the run completes exactly when the check lets it continue, and otherwise halts with the check's outcome. On completion `divide_mer(ca, compnd, mer)` is chosen exactly when a mer count was given, and `ca` is kept unchanged otherwise |
| PdbParser.ProcessPair | pdbParser.py:83-84 | the end structure is processed, with the same mer count, exactly when the run on the start structure completes; an exit or crash on the start structure means the end structure is never processed |
| MerFacts.AbsentMerPassesThrough | pdbParser.py:35 | without a mer count, a structure with chains completes with `div` equal to `ca`, and nothing above info level is logged |
| MerFacts.ZeroMerIsNotAbsent | pdbParser.py:35-39 | a mer count of 0 is not treated as absent. It reaches line 39 and divides by zero |
| MerFacts.NoChainsCrash | pdbParser.py:32-34 | an empty chain list crashes on `compnd[0]` whatever the mer count, after logging only the chain list |
| MerFacts.UnevenSplitExits | pdbParser.py:37-41 | for `1 <= m < n` with `n % m != 0` the run exits as ambiguous, and the critical message is the last one logged |
| MerFacts.EvenSplitDividesMers | pdbParser.py:37-43 | for `1 <= m < n` with `n % m == 0` the run completes through the split arm and calls `divide_mer` with `m` |
| MerFacts.MoreMersThanChainsExits | pdbParser.py:47-49 | for `m > n >= 1` the run exits as incomplete, after the fewer-chains warning |
| MerFacts.ExactMerCountDividesMers | pdbParser.py:50-51 | for `m == n` the run completes with no warning and still calls `divide_mer` |
| MerFacts.CompletesIffDivides | pdbParser.py:37-51 | with chains and any non-zero mer count, negative ones included, the run completes (and calls `divide_mer`) exactly when the mer count divides the chain count |
| MerFacts.MonomerArmUnreachable | pdbParser.py:33-46 | no chain count and mer count reach the "assuming monomeric assembly" arm, and its warning is never logged |
| MerFacts.OneMerSplits | pdbParser.py:37-43 | one mer on a multi-chain structure takes the even-split arm and calls `divide_mer` |
| MerFacts.ArmsPartition | pdbParser.py:37-51 | for `n, m >= 1`, exactly one of the uneven-split, even-split, too-many-mers and exact-count arms applies, each exactly when its guard holds |
| MerFacts.CriticalIffAmbiguous | pdbParser.py:38-49 | a critical message is logged exactly when the run exits as ambiguous |
| MerFacts.QuietIffUncheckedOrExact | pdbParser.py:32-51 | with chains, only info messages are logged exactly when no mer count was given or it equals the chain count |
| MerFacts.ExitIsAnnounced | pdbParser.py:40-41 | every `exit()` is preceded by a warning or critical message |
| MerFacts.NegativeMerExamples | pdbParser.py:37-43 | worked example: a negative mer count goes through Python's remainder: `(4, -2)` completes with `divide_mer` and `(3, -2)` exits as ambiguous |
| MerFacts.UnevenStartBlocksEvenEnd | pdbParser.py:83-84 | worked example: five chains in two mers on the start structure stop a four-chain end structure that would itself split evenly |

## Left out

- Command-line parsing and the module-level globals (lines 16-27). These are I/O glue. The mer count is a parameter, and its absence is `None`.
- Remote retrieval through `getpdb`/`urlopen` and local file reads (lines 5, 69-78). These are network and file I/O.
- The `--local` path (lines 69-73, 80-81) never calls `pdbParser`, and its `getca` calls come from a module that is not part of this model.
- Log message texts and the `print` calls (lines 30, 61). Only each message's identity and level are kept, in order. The info messages of lines 52-53 after the check are not modelled.
- `readcompnd`, `readatom`, `coord`, `getca`, `readremark`, `readseq`, `missinginfo` and `divide_mer` come from modules (`readpdb`, `clean_pdb`, `divide_mer`, `missing`) that are not part of this model. The chain list is reduced to its length. `divide_mer` is reduced to the arguments it is called with. Any failure inside these calls is not modelled, so `Run` completes whenever the check lets it continue.
- `exit()` is modelled as an outcome, not as process termination. Its effect on the second structure is captured by `ProcessPair`.
- `len(compnd) is not 1` (line 33) is read as `!= 1`. This relies on CPython caching small integers. The chain list is assumed to be indexable by position.
