# Perch, modelled and proved in Dafny

Perch compiles reviewed policy documents to small stack programs, evaluates them
fail-closed inside a shared interpreter, analyses them statically and symbolically, and
derives recovery documents from them. This project models those parts as Dafny datatypes,
functions, methods and classes, and proves what the four readings of a rule (document,
stack machine, interval analysis, SMT term) have to do with each other, what the canonical
and wire encodings identify, and what holds over whole runs of the interpreter and of an
account's recoveries.

`dafny verify dfyconfig.toml` checks everything. There is one module per file.

## Map

| modules | component |
|---|---|
| Base, Text, Lex | bounded integers, results, UTF-8, decimal, hex, byte order |
| StackMachine, Program, FailClosed, Analysis, LeafRange | the postfix machine over any algebra; validator, evaluator, leaves; what a three-valued verdict means; stack bounds and the interval interpreter; the verdicts a leaf can take, and on what |
| Doc, Validate, Limits, Strkey, Radix, Polynomial, Field | the policy document, its validation and what the limits are for; strkey base-32 and CRC16, and both as arithmetic; BN254 field elements |
| Compile, Lowering, Attenuation | lowering documents to plans, its meaning and totality; the coarse narrowing check |
| Encoder, Agreement, Relocation, Scripts, Narrows, Exactness, Conformance, Comparison | the symbolic encoder as a term AST with a denotation; its agreement with the evaluator; moving an invocation to another account; solver scripts; semantic narrowing, and that it raises no false alarms; liveness and intent conformance; semantic against coarse narrowing |
| Interpreter | the `(account, rule)` program store |
| Canon, Order, Reader, Json, RoundTrip, Identity, Shortest, Scanner, RulesKey | the RFC 8785 emitter, a reference reader, the fail-closed walker, what makes the canonical text the one it is, the independent bracket scanner, and the rules cut out of a document |
| Credentials, Wire, Replacements | credentials; recovery statements, credentials and replacement sets on the wire |
| Derive, Revocation, Account, Keys | target derivation, revocation, the account's history over `apply_doc` calls, batched key canonicalization |
| Controller, ControllerContract, Evidence, Safeguards, Recoverable, Lifecycle, Generations, Views | the recovery controller's attempts, evidence and completions; its entry points over storage; where evidence comes from; what the guards are for; that enough evidence recovers; the account and its controllers together, and what its recovery generation counts, and what controllers read from it |

Main results, hardest first:

- `Narrows.NarrowsSound`: an empty `narrows` result is a theorem about whole runs of any
  account. The solver is a parameter; only the soundness of its `Unsat` is used. The result
  covers string arguments that are not UTF-8, through a stand-in text for bytes that are not
  text, and accounts whose own address the documents name, by moving the invocation to an
  account they do not. `Narrows.SolverDecidesNarrowing` adds the converse for an exact
  solver, `Narrows.UnmixedExactly` and `Narrows.PlacedExactly` say exactly for which children.
- `Exactness.NarrowsIff`, `Exactness.ReportedIff`: and no finding is a false alarm. For an
  exact solver and children with some effect, the result is empty exactly when every child
  rule has the first parent rule of its name with the same scope and token and every run it
  admits is admitted there; each kind of finding has a ledger, a spending or an invocation
  behind it.
- `Comparison.CoarseExactly`: for which child documents no findings imply the coarse check,
  by the verdicts of `dead_rules`; `Conformance.ClearedIff` and `Conformance.DeadDecides` say
  what the other two analyses decide.
- `Lifecycle.RevocationNeedsEvidence`, `Evidence.CompletionNeedsEvidence`,
  `Lifecycle.RunSound`, `Controller.CompletesOnce`: over any interleaving of calls to an
  account and its controllers, credentials are revoked only by completing an attempt whose
  own statement a quorum of distinct enrolled guardians each signed, and a proof of which was
  verified if the configuration asks for one, in earlier calls of that run, after the delay
  and inside the window; it happens once, and no revoked credential comes back.
- `Lifecycle.LostKeySource`, `Lifecycle.FreezeExact`, `Safeguards.CompletableIff`: a lost-key
  recovery completes over the very document it was derived from, the account is frozen
  exactly while an attempt is authorized under `Protected`, and an authorized attempt can
  always be completed in its window.
- `Recoverable.BeginRecovers`, `Recoverable.Recovers`, `Recoverable.NeverStuck`,
  `Recoverable.ApprovalIff`: recovery succeeds. In no reachable store does an attempt wait
  with enough evidence; approvals by as many different guardians as the quorum, with a proof
  if one is asked for, in any order and in time, make the attempt completable at every ledger
  of the window that the call which brings enough opens.
- `Generations.GenerationIsEpochs`: conservation between the account and all the controllers
  it ever used: its recovery generation and the upgrades executed are the epochs ended.
- `FailClosed.AuthorizedMeans`, `FailClosed.Refinement`, `FailClosed.UndecodableDenied`: a
  definite verdict is the program's Boolean value under every reading of what could not be
  decoded, and nothing definite comes out of undecodable leaves alone.
- `Agreement.EncoderAgrees`, `Lowering.ProgramMeaning`, `Analysis.AuthorizeIsPredicted` and
  `Analysis.BestVerdictAttained`: the four readings of a rule agree.
- `Program.Validate`, `StackMachine.ParseUnique`, `Program.Eval`: validation accepts exactly
  the postfix forms of trees that fit, each has one tree, and the 128-slot machine computes
  that tree's Kleene value.
- `Identity.CanonicalRoundTrip`, `RoundTrip.FromJsonIff`, `Scanner.ScannerInvertsEmitter`,
  `RulesKey.RulesKeyUnique`, `Order.CanonicalOrderFree`: reading canonical text gives the
  document back, the text depends on nothing but the document, and its rules can be cut out
  of it without parsing.
- `Shortest.CanonicalShortest`, `Shortest.CanonicalQualifies`: the canonical text is the
  shortest of all whitespace-free texts with ascending keys that mean the document, and any
  other one of its length differs in the case of hex digits only.
- `Polynomial.AcceptedIff`, `Polynomial.OneStrkeyPerBody`, `Polynomial.CrcUnique`: a strkey is
  accepted exactly when its code word is divisible by x^16 + x^12 + x^5 + 1 over GF(2), and
  every 33-byte body has exactly one accepted string; with `Strkey.SingleErrorRejected`,
  `Strkey.BodyDetermines` and `Radix.DecodingIsRadixChange`.
- `Derive.DeriveCommutes`, `Account.RunSound`, `Account.NeverReturns`, `Account.NoLostUpdate`,
  `Interpreter.EntryIsolated`, `Keys.CanonicalCredentials`, `Wire.StatementRoundTrip`,
  `Replacements.SetRoundTrip`.

## How the model relates to the code

- Loops and in-place updates are methods with invariants, each tied by its postcondition to
  a specification function or to the promised property. Functions that only compute are
  Dafny functions, and the lemma that states their property is listed instead of them.
- Addresses are identified with their strkey strings, symbols with their names, and lowered
  scopes and signers with the document's shapes. Document text is a `string` of Unicode
  scalar values; on-chain strings are UTF-8 bytes.
- A hash is kept as its preimage, so "the hash identifies" becomes "the preimage
  identifies". No property of SHA-256 is used.
- `Compile.Countable` says that every list of a rule has a 32-bit length, as on the target
  the contracts are built for. `Compile.Lowerable` adds that the expiry is not zero, which
  validation guarantees and lowering relies on.
- Every controller an account adopts is taken to run the modelled contract, which is the trust
  the design places in it; `Lifecycle` says nothing about an account that adopts another.
- A trapping contract call is an `Err` that leaves the state unchanged. Authorization arrives
  as the set of accounts that authorized the call, or as a flag of it. Ledger numbers never
  go back along a run of `Lifecycle`.
- Where comments and code disagree, the model follows the code.
  - `is_contract_address_shape` and `is_address_shape` are documented as not verifying the
    checksum; they do (crates/perch-ir/src/validate.rs:679-691).
  - `reachable_calls` is documented as an upper bound for hand-built programs
    (crates/perch-compile/src/analysis.rs:61-66). It is not one for all of them:
    `Attenuation.NotEscapesFunctions` and `Attenuation.AnyEscapesFunctions` are accepted
    programs that list one function and allow others. `Attenuation.FunctionsBound` gives the
    bound to every op sequence whose root stays below `True` in the interval analysis once
    function lists are pinned below `True`, and `Attenuation.FunctionsUnbound` shows that an
    analysis that knows only leaf intervals can promise no more. Programs built from `All`
    alone, so every compiled program, meet that condition.
  - The own address being no address literal of the documents is listed as an assumption of
    the encoding (crates/perch-analyze/src/lib.rs:25-26). `Agreement.EncoderAgrees` says
    exactly what breaks without it; `narrows` and `only_calls` are sound without it for every
    rule that does not ask one argument to be both the account and a literal, which holds of
    every valid document (`Narrows.UnmixedExactly`, `Narrows.ValidCompiledAnalyzable`).
  - `narrows` is called strictly stronger than the coarse check
    (crates/perch-analyze/src/lib.rs:427-432). `Comparison.CoverageIff` and
    `Comparison.CoarseExactly` give the exact condition, on what `dead_rules` reports about
    the child; `Comparison.DeadChildSeparates` is a child rule that allows nothing, has no
    findings and fails the coarse check.
  - `only_calls` is documented to report every function-unrestricted rule on the contract
    (crates/perch-analyze/src/lib.rs:350-353). It reports those that are not dead
    (`Conformance.ClearedIff`).
  - A comment says every leaf but two can take any verdict
    (crates/perch-compile/src/analysis.rs:201). `LeafRange.LeafAttains` says which verdicts
    each leaf can take: an empty function list is never `True`, `LedgerAtOrAfter(0)` never
    `False`, an over-long prefix always `Unknown`, and a leaf on argument position 2^32-1 is
    never definite.
  - `check_config` is documented to check that the quorum is reachable
    (crates/perch-recovery/src/contract.rs:1155-1161). It counts list entries:
    `Recoverable.RepeatedGuardian` is a configuration that lists one guardian twice, which is
    served and cannot be recovered; `Recoverable.ServableIff` is the promise for every list
    without repetitions, which documents are validated to have.
  - `narrows` reports conservatively in three cases where nothing is widened: a child rule
    that allows nothing (`Exactness.DeadChildAlarm`), two negative limits
    (`Exactness.NegativeLimitAlarm`), and a limit that cannot be read, which counts as the
    largest one (`Exactness.UnreadableIsLargest`). `Exactness.Effective` shuts out the first
    two; no valid document has the last two.
  - `narrows` compares signer floors only, not which signers a rule names
    (crates/perch-analyze/src/lib.rs:434-501), and the theorems say no more.

## Model

| member | source | states |
|---|---|---|
| StackMachine.ParseUnique | crates/perch-program/src/rpn.rs:82-133 | two well-formed trees with the same postfix form are equal |
| StackMachine.ParseExists | crates/perch-program/src/rpn.rs:103-133 | any op sequence the machine runs to a single value is the postfix form of a well-formed tree |
| StackMachine.RunOfTree | crates/perch-program/src/rpn.rs:147-220 | under any algebra, the machine run on a tree's postfix form leaves exactly the tree's recursive fold |
| StackMachine.CappedRun | crates/perch-program/src/rpn.rs:147-220 | a run with a stack cap equals the uncapped run when the peak fits, and fails otherwise |
| StackMachine.PeakOfTree | crates/perch-compile/src/analysis.rs:108-124 | the machine's largest stack on a tree's postfix form is the slot count the tree needs |
| Program.StrBytes | crates/perch-program/src/leaf.rs:109-116 | fills the buffer with the whole string, or refuses exactly the strings over 256 bytes |
| Program.StrHead | crates/perch-program/src/leaf.rs:122-130 | succeeds exactly when the string has `n` bytes, and then the buffer holds its first `n` |
| Program.ArgStrInLeaf | crates/perch-program/src/leaf.rs:145-162 | the buffered comparison is membership of the byte string; an over-long argument is `Unknown`, an over-long candidate never matches |
| Program.ArgStrPrefixLeaf | crates/perch-program/src/leaf.rs:165-180 | the head comparison is the byte-prefix relation for arguments of any length; an over-long prefix is `Unknown` |
| Program.Validate | crates/perch-program/src/rpn.rs:103-133 | accepts exactly the version-1 programs of 1 to 256 ops that are the postfix form of a tree with non-zero arities fitting 128 slots; each rejection names the first defect |
| Program.AcceptedIsSimulated | crates/perch-program/src/rpn.rs:103-133 | the stack-effect simulation ends at depth one exactly when such a tree exists |
| Program.AcceptedTreeUnique | crates/perch-program/src/rpn.rs:103-133 | the expression tree of an accepted program is unique |
| Program.VerdictOfTree | crates/perch-program/src/rpn.rs:147-220 | on an accepted program no defensive guard fires: the machine's verdict is the tree's |
| Program.EvalOp | crates/perch-program/src/rpn.rs:147-220 | pops an op's operands and yields its Kleene verdict, or refuses exactly zero arities and underflow |
| Program.PopAll | crates/perch-program/src/rpn.rs:147-220 | the inner pop loop computes the minimum of the top `n` verdicts |
| Program.PopAny | crates/perch-program/src/rpn.rs:147-220 | the inner pop loop computes the maximum of the top `n` verdicts |
| Program.Eval | crates/perch-program/src/rpn.rs:147-220 | evaluation with a 128-slot array gives every op sequence a verdict, and gives an accepted program its tree's Kleene value |
| FailClosed.AllOfMeans | crates/perch-program/src/lib.rs:106-110 | `True` exactly when every verdict is, `False` exactly when some verdict is |
| FailClosed.AnyOfMeans | crates/perch-program/src/lib.rs:112-116 | `False` exactly when every verdict is, `True` exactly when some verdict is |
| FailClosed.DefiniteIsValue | crates/perch-program/src/lib.rs:91-148 | a definite verdict of a tree is its Boolean value under every completion of the undecided leaves |
| FailClosed.Refinement | crates/perch-program/src/lib.rs:91-148 | deciding more leaves never changes a definite verdict |
| FailClosed.UnknownStays | crates/perch-program/src/lib.rs:91-148 | a tree none of whose leaves is decided is `Unknown` |
| FailClosed.AuthorizedMeans | crates/perch-program/src/rpn.rs:147-220 | a program is `True` of a call only if its Boolean value is true under every reading of what could not be decoded, and `False` only if it is false under every one |
| FailClosed.UndecodableDenied | crates/perch-program/src/rpn.rs:147-220 | a call none of whose leaves decodes is `Unknown`, so denied, however the program is put together |
| FailClosed.DecodedVerdict | crates/perch-program/src/rpn.rs:147-220 | a call all of whose leaves decode gets the Boolean value of the program's tree |
| Analysis.ComputeBounds | crates/perch-compile/src/analysis.rs:108-124 | on every program that spells a tree the reported depth is the machine's exact peak and the tree's slot count; on every other one it covers what the machine holds before it stops |
| Analysis.PeakIsMaximum | crates/perch-compile/src/analysis.rs:108-124 | the peak is attained by some prefix of the run and exceeded by none |
| Analysis.MaxVerdict | crates/perch-compile/src/analysis.rs:144-191 | the interval loop computes the upper bound of the root; a malformed program folds to `Unknown` |
| Analysis.IntervalStep | crates/perch-compile/src/analysis.rs:144-191 | one op of the interval loop is one step of the machine over intervals |
| Analysis.LeafWithin | crates/perch-compile/src/analysis.rs:194-203 | no leaf ever leaves its interval |
| Analysis.ConstantLeaves | crates/perch-compile/src/analysis.rs:194-203 | the two constant leaves have the one-point interval of their verdict |
| LeafRange.LeafAttains | crates/perch-compile/src/analysis.rs:193-203 | for every leaf and every verdict: some invocation gives the leaf that verdict exactly when a stated condition on the leaf holds |
| LeafRange.IntervalTight | crates/perch-compile/src/analysis.rs:193-203 | both ends of a leaf's interval are verdicts it takes exactly for the two constant leaves and those that can be `True` and `False` |
| LeafRange.Unlisted | crates/perch-program/src/leaf.rs:145-162 | no list of choices the host can hold exhausts the strings that fit the buffer |
| LeafRange.ArgLeafMeans | crates/perch-program/src/leaf.rs:30-180 | a leaf on an argument is `True` exactly of a value it asks for and `False` exactly of another value of the type it reads, within the string buffer |
| LeafRange.CallLeafMeans | crates/perch-program/src/leaf.rs:38-198 | the signer and ledger leaves are always definite and the two ledger leaves complementary; the function and count leaves are undecided exactly outside a contract call |
| Analysis.VerdictWithin | crates/perch-compile/src/analysis.rs:144-203 | the verdict of any invocation lies in the interval computed for the tree |
| Analysis.AuthorizeIsPredicted | crates/perch-compile/src/analysis.rs:137-203 | soundness for every op sequence, malformed ones included: a `True` on any input implies `can_ever_authorize` |
| Analysis.UpperBoundAttained | crates/perch-compile/src/analysis.rs:144-191 | for any leaf bounds, some assignment within them attains at the root the upper bound the interval machine computes |
| Analysis.BestVerdictAttained | crates/perch-compile/src/analysis.rs:137-203 | exactness: on every accepted program some assignment of leaf verdicts within the leaf intervals attains the computed upper bound at the root |
| Validate.ValidateDoc | crates/perch-ir/src/validate.rs:699-805 | returns the complete report, every violation in document order; it is empty exactly when the document meets the declarative validity conditions |
| Validate.ValidateSigners | crates/perch-ir/src/validate.rs:708-777 | the report of all signers; empty exactly when every signer is valid and no two share an id or a physical credential |
| Validate.ValidateSigner | crates/perch-ir/src/validate.rs:714-776 | a signer's violations given the earlier signers; the seen-set keeps the ids and the maps keep each credential's first holder |
| Validate.SignerErrorIff | crates/perch-ir/src/validate.rs:708-777 | a violation is in the signers' report exactly when some signer, given the ones before it, has it |
| Validate.DuplicateKeyIff | crates/perch-ir/src/validate.rs:735-773 | `DuplicateSignerKey(id, first)` is reported exactly for a later signer `id` with a credential whose first declarer is `first` |
| Validate.FirstWith | crates/perch-ir/src/validate.rs:709-713 | the id of the first signer declared with a credential, if there is one |
| Validate.ValidateRules | crates/perch-ir/src/validate.rs:783-793 | the report of all rules; empty exactly when names are non-empty and distinct and every rule is valid |
| Validate.RuleErrorIff | crates/perch-ir/src/validate.rs:783-793 | a violation is in the rules' report exactly when some rule has it by itself, or by a name that is empty or used before |
| Validate.ValidateRule | crates/perch-ir/src/validate.rs:839-1012 | a rule's violations in order: scope, principals, functions, arguments, expiry, cap; none exactly when all are valid |
| Validate.ValidatePrincipals | crates/perch-ir/src/validate.rs:810-885 | each empty, repeated or undeclared id, a threshold out of range, or each defect of an acknowledged policy; none exactly when valid |
| Validate.ValidateArgs | crates/perch-ir/src/validate.rs:910-969 | an empty list, each repeated position and each predicate's violations; none exactly when positions are distinct and every predicate is valid |
| Validate.ValidateCap | crates/perch-ir/src/validate.rs:975-1011 | each cap violation; none exactly when the limit is a positive 128-bit integer, the window is non-zero and the token is the scoped contract |
| Validate.ValidateRecovery | crates/perch-ir/src/validate.rs:1044-1094 | each violation of the recovery section in order; none exactly when it is valid |
| Validate.ValidateGuardians | crates/perch-ir/src/validate.rs:1100-1123 | each empty, repeated or malformed guardian and a quorum out of range; none exactly when valid |
| Validate.ValidateZk | crates/perch-ir/src/validate.rs:1133-1159 | each malformed field of the factor in order; none exactly when both addresses, both ids and the commitment are valid |
| Validate.ValidateRulesAvoidZk | crates/perch-ir/src/validate.rs:1016-1035 | each rule scoped to the adapter or the pool, in rule order |
| Text.ParseI128Iff | crates/perch-ir/src/validate.rs:975-980 | a limit is read as the number it writes in decimal, with or without a sign, exactly when that is a 128-bit integer |
| Text.ParseU32Iff | crates/perch-ir/src/parse.rs:270-280 | likewise for unsigned 32-bit integers |
| Limits.AddressKinds | crates/perch-ir/src/validate.rs:679-691 | a contract address is an accepted strkey whose version byte names a contract, an address one that names a contract or an account |
| Limits.SymbolLimit | crates/perch-ir/src/validate.rs:626-635 | a valid function name is 1 to 32 of the 63 characters of a Soroban symbol |
| Limits.PrefixLimit | crates/perch-ir/src/validate.rs:940-960 | validation refuses exactly the prefixes whose lowered leaf no invocation can satisfy |
| Limits.KeyLimit | crates/perch-ir/src/validate.rs:714-776 | an external credential is valid exactly with a contract verifier and a hex key of 1 to 256 bytes |
| Limits.FactorOutOfReach | crates/perch-ir/src/validate.rs:1016-1035 | no rule of a valid document is scoped to the proof factor's adapter or pool |
| Strkey.DecodeBase32 | crates/perch-ir/src/validate.rs:638-663 | the accumulator loop succeeds exactly on 56 base-32 characters, with the bytes they spell; its `out` guards are dead |
| Strkey.CrcOf | crates/perch-ir/src/validate.rs:664-676 | the bit loop is the CRC16-XModem register over the 33-byte body |
| Strkey.StrkeyChecksumOk | crates/perch-ir/src/validate.rs:638-677 | accepts exactly the strings whose body checksum equals the stored one |
| Strkey.SameWord | crates/perch-ir/src/validate.rs:638-663 | eight quintets and their five bytes are one 40-bit word |
| Strkey.BodyDetermines | crates/perch-ir/src/validate.rs:617-677 | two accepted strings with the same 33-byte body are equal |
| Strkey.SingleErrorRejected | crates/perch-ir/src/validate.rs:617-677 | changing any single character of an accepted strkey is always rejected |
| Radix.DecodingIsRadixChange | crates/perch-ir/src/validate.rs:638-663 | the 280-bit number the 56 base-32 digits write is the number the 35 decoded bytes write in base 256 |
| Polynomial.QuintetIsIndex | crates/perch-ir/src/validate.rs:638-650 | the quintet of a character is its index in the RFC 4648 alphabet, and other characters have none |
| Polynomial.CrcIsRemainder | crates/perch-ir/src/validate.rs:664-676 | the register after a body is congruent to the body's polynomial times x^16 modulo x^16 + x^12 + x^5 + 1 over GF(2) |
| Polynomial.CrcUnique | crates/perch-ir/src/validate.rs:664-676 | and it is the only register that is: the remainder |
| Polynomial.AcceptedIff | crates/perch-ir/src/validate.rs:638-677 | a string is accepted exactly when it is 56 base-32 characters whose body followed by the stored checksum, high byte first, is divisible by the generator |
| Polynomial.OneStrkeyPerBody | crates/perch-ir/src/validate.rs:617-677 | every 33-byte body has exactly one accepted string |
| Field.IsCanonicalField | crates/perch-recovery-interface/src/zk.rs:82-89 | the byte loop decides `x < r` as numbers |
| Field.CommitmentIsCanonical | crates/perch-ir/src/validate.rs:1125-1159 | lowercase-hex text order, byte order and numeric order against the modulus agree, so validation accepts a commitment exactly when its bytes are a canonical field element |
| Field.HexBytes32 | crates/perch-doc-compiler/src/lib.rs:746-764 | decodes exactly the 64-character hex strings, to the bytes they spell |
| Field.SplitHiLo | crates/perch-recovery-interface/src/zk.rs:93-99 | both halves are below 2^128, hence canonical, and determine the value |
| Lex.BytesLt | crates/perch-recovery-interface/src/credential.rs:219-228 | the index loop decides lexicographic order, a proper prefix first |
| Lex.LexTransitive | crates/perch-recovery-interface/src/credential.rs:219-228 | the order is transitive |
| Lex.LexTotal | crates/perch-recovery-interface/src/credential.rs:219-228 | the order is total |
| Lex.LexIsNumeric | crates/perch-recovery-interface/src/zk.rs:82-89 | on equally long digit strings lexicographic order is numeric order |
| Compile.LowerArgPred | crates/perch-compile/src/lib.rs:303-319 | lowers each predicate to its leaf, string values as UTF-8 |
| Compile.BuildProgram | crates/perch-compile/src/lib.rs:265-301 | yields an accepted conjunction exactly up to 128 leaves, and otherwise the error of the limit hit first: `StackOverflow` below 256 leaves, `TooLarge` from there |
| Compile.LowerRuleImpl | crates/perch-compile/src/lib.rs:169-260 | the loop version of lowering one rule, errors in source order |
| Compile.CompileImpl | crates/perch-compile/src/lib.rs:151-167 | the loop version of lowering a document; the interpreter hash is pinned exactly when some rule attaches it |
| Compile.ConjunctionAccepted | crates/perch-compile/src/lib.rs:265-301 | a conjunction program validates exactly up to 128 leaves |
| Compile.ConjunctionVerdict | crates/perch-compile/src/lib.rs:265-301 | the machine's verdict on a conjunction is the minimum of its leaves' verdicts |
| Lowering.PredMeaning | crates/perch-compile/src/lib.rs:303-319 | a lowered predicate is `True` exactly when the document's constraint holds of the argument |
| Lowering.ProgramMeaning | crates/perch-compile/src/lib.rs:265-301 | compiler correctness: the machine answers `True` exactly when the signer floor, the function list and every argument constraint of the rule are met |
| Lowering.ZeroSignersDenied | crates/perch-compile/src/lib.rs:262-273 | every attached program gives a definite `False` to an invocation without signers |
| Lowering.LoweredRuleShape | crates/perch-compile/src/lib.rs:169-260 | a lowered rule is live exactly while the document's is unexpired, resolves each principal in order, keeps name, scope and cap, and attaches an accepted program with the rule's own preimage exactly when constrained |
| Lowering.CompileTotality | crates/perch-compile/src/lib.rs:150-301 | a valid document fails to compile exactly when some rule is self-authenticating or attaches a program of more than 128 leaves; no expiry underflows |
| Attenuation.CollectFunctions | crates/perch-compile/src/analysis.rs:79-103 | the loop yields the listed functions, or any function when there is no program or no list |
| Attenuation.ListedMembers | crates/perch-compile/src/analysis.rs:79-103 | the set holds exactly the functions some list names, each once |
| Attenuation.FunctionsBound | crates/perch-compile/src/analysis.rs:61-103 | for every op sequence whose root stays below `True` with function lists pinned there, a call it allows is to a listed function |
| Attenuation.FunctionsUnbound | crates/perch-compile/src/analysis.rs:61-103 | the converse for the analysis: otherwise some assignment within those intervals makes the root `True` with every function list below it |
| Attenuation.AllOnlyBounded | crates/perch-compile/src/analysis.rs:61-66 | programs built from `All` alone that list functions meet the condition |
| Attenuation.NotEscapesFunctions | crates/perch-compile/src/analysis.rs:61-66 | an accepted `Not` program lists one function and allows every other call |
| Attenuation.AnyEscapesFunctions | crates/perch-compile/src/analysis.rs:61-66 | an accepted `Any` program lists one function and allows every signed invocation |
| Attenuation.UncoveredIff | crates/perch-compile/src/attenuation.rs:44-55 | the check passes exactly when every child rule is covered by a parent rule of the same scope |
| Attenuation.NarrowingReflexive | crates/perch-compile/src/attenuation.rs:44-84 | every plan narrows itself |
| Attenuation.NarrowingTransitive | crates/perch-compile/src/attenuation.rs:44-84 | narrowing composes |
| Attenuation.NarrowingSound | crates/perch-compile/src/attenuation.rs:44-84 | a call the child authorizes on a scope is in the function set of a parent rule on that scope, for any child program that meets the condition of `FunctionsBound` or lists nothing |
| Attenuation.CompiledNarrowingSound | crates/perch-compile/src/attenuation.rs:44-75 | the same for any two compiled documents, without side condition |
| Attenuation.ListedIsReachable | crates/perch-compile/src/analysis.rs:61-78 | for a valid function-restricted rule, a listed function has an invocation evaluating to `True` exactly when each argument constraint can be met on its own |
| Encoder.SymbolicEncoder.AddrId | crates/perch-analyze/src/lib.rs:128-135 | interning keeps ids injective and never changes an earlier one |
| Encoder.IdsFit | crates/perch-analyze/src/lib.rs:128-135 | there are at most as many ids as constraints, so they fit 32 bits whenever the constraints do |
| Encoder.SymbolicEncoder.PredHolds | crates/perch-analyze/src/lib.rs:178-222 | yields the predicate's term, records its position, extends the table |
| Encoder.SymbolicEncoder.RuleAllows | crates/perch-analyze/src/lib.rs:145-176 | yields the rule's term over the resulting table and records every position it inspects |
| Encoder.InternArgsGrows | crates/perch-analyze/src/lib.rs:128-135 | after any constraints the table is still injective, extends the old one and knows every literal |
| Encoder.RuleTermStable | crates/perch-analyze/src/lib.rs:128-176 | later interning never changes an earlier term |
| Agreement.RuleTermHolds | crates/perch-analyze/src/lib.rs:145-222 | in every model that mirrors an invocation the rule's term holds exactly when the rule allows it |
| Agreement.EncoderAgrees | crates/perch-analyze/src/lib.rs:128-222 | for every rule that lowers and every invocation, strings text or not, the term holds in its symbolic model exactly when the built program evaluates to `True` and the own address is no literal of the rule |
| Agreement.StandInExists | crates/perch-program/src/leaf.rs:145-180 | any bytes, text or not, have a text that answers every one of up to 55295 given constraints as the bytes do, and that is their own text if they have one |
| Agreement.ModelMirrors | crates/perch-analyze/src/lib.rs:25-26 | under the encoder's assumption that the own address is no literal, one well-sorted model mirrors an invocation for all rules it was made for |
| Agreement.InvocationMirrors | crates/perch-analyze/src/lib.rs:227-244 | every well-sorted model mirrors an invocation of some account, if no predicate inspects position 2^32-1 |
| Relocation.ChildMoves | crates/perch-analyze/src/lib.rs:25-26 | moving an invocation to another account, with the arguments the child requires to be the account, keeps what the child allows |
| Relocation.ParentReturns | crates/perch-analyze/src/lib.rs:25-26 | what the parent allows after the move to an account nothing names, it allowed before |
| Narrows.CheckNarrows | crates/perch-analyze/src/lib.rs:434-501 | returns the findings of every child rule against the first parent rule of its name, in order |
| Narrows.CheckMatched | crates/perch-analyze/src/lib.rs:443-498 | the findings for a matched pair: scope, solver verdict, expiry, cap |
| Narrows.UnsatNarrows | crates/perch-analyze/src/lib.rs:450-469 | `Unsat` from a sound solver: every invocation of every account the child's program allows, the parent's allows |
| Narrows.SolverDecidesNarrowing | crates/perch-analyze/src/lib.rs:450-469 | for an exact solver, `Unsat` if and only if every invocation carries over, for any parent and any child that does not inspect position 2^32-1 or is reported dead |
| Narrows.LastPositionDenies | crates/perch-program/src/leaf.rs:30-36 | a rule that inspects position 2^32-1 allows nothing |
| Narrows.PhantomWidening | crates/perch-analyze/src/lib.rs:450-469 | a pair of rules where it fails: the child allows nothing and is reported as a widening |
| Narrows.PlacedExactly | crates/perch-analyze/src/lib.rs:450-469 | an exact solver decides narrowing against every parent if and only if the child does not inspect position 2^32-1 or is reported dead |
| Narrows.DeadNarrows | crates/perch-analyze/src/lib.rs:450-469 | a child reported dead is cleared against every parent |
| Narrows.UnmixedExactly | crates/perch-analyze/src/lib.rs:450-469 | for a live child and an exact solver, `Unsat` is sound against every parent if and only if no argument of the child must be both the account and a literal |
| Narrows.TighterCap | crates/perch-analyze/src/lib.rs:483-498 | a non-negative history within a smaller limit over a longer window is within the larger limit over the shorter one |
| Narrows.NarrowsSound | crates/perch-analyze/src/lib.rs:434-501 | no findings: each child rule has a parent rule of the same name and scope that admits every run of every account the child rule admits, calls, expiry and rolling cap included |
| Narrows.NarrowsReflexive | crates/perch-analyze/src/lib.rs:434-501 | with an exact solver a document with distinct rule names has no findings against itself, nor does any prefix of its rules |
| Exactness.ExpiryMeans | crates/perch-analyze/src/lib.rs:471-482 | the expiry test fails exactly when some ledger finds the child live and the parent expired |
| Exactness.CapMeans | crates/perch-analyze/src/lib.rs:483-498 | the cap test fails exactly when the tokens differ or some spending, under some reading of the window's edge, is within the child's cap and beyond the parent's |
| Exactness.NegativeLimitAlarm | crates/perch-analyze/src/lib.rs:483-498 | two negative limits: reported as looser, though no spending is admitted that was not |
| Exactness.UnreadableIsLargest | crates/perch-analyze/src/lib.rs:483-498 | a limit that cannot be read counts as the largest one |
| Exactness.ReportedIff | crates/perch-analyze/src/lib.rs:451-501 | each finding for a matched pair is reported exactly for its reason |
| Exactness.CarriesOverIff | crates/perch-analyze/src/lib.rs:451-501 | for an exact solver and a child rule with some effect, a matched pair has no findings exactly when scope and token agree and every run the child admits the parent admits |
| Exactness.NarrowsIff | crates/perch-analyze/src/lib.rs:434-501 | for an exact solver and children with some effect, there are no findings exactly when every child rule has the first parent rule of its name and carries over to it |
| Exactness.DeadChildAlarm | crates/perch-analyze/src/lib.rs:434-501 | a child rule that allows nothing is reported for its expiry, though it admits no run |
| Narrows.ValidCompiledAnalyzable | crates/perch-compile/src/lib.rs:151-167 | every rule of a valid document that compiles meets the side conditions of these theorems |
| Conformance.OnlyCalls | crates/perch-analyze/src/lib.rs:355-383 | returns the rules on the contract the solver does not clear |
| Conformance.OnlyCallsSound | crates/perch-analyze/src/lib.rs:350-383 | no violations: on that contract the document's programs allow only the listed functions |
| Conformance.OnlyCallsDecides | crates/perch-analyze/src/lib.rs:350-383 | for an exact solver, `Unsat` if and only if every call the program allows, for any account, is listed; for rules that do not inspect position 2^32-1 or are reported dead |
| Conformance.ClearedIff | crates/perch-analyze/src/lib.rs:350-383 | for every rule, an exact solver clears it exactly when it is reported dead or lists only allowed functions |
| Scripts.DeadRules | crates/perch-analyze/src/lib.rs:320-341 | each rule's name with the solver's verdict on its query, in order |
| Conformance.DeadSound | crates/perch-analyze/src/lib.rs:320-341 | a rule a sound solver proves dead allows no invocation of any account |
| Conformance.DeadDecides | crates/perch-analyze/src/lib.rs:320-341 | an exact solver's verdict is whether the rule allows anything if and only if the rule does not inspect position 2^32-1 or is reported dead |
| Scripts.LiveCalling | crates/perch-analyze/src/lib.rs:145-176 | a model of a rule's term stays one as a call of any function the rule does not exclude, whatever other positions are declared |
| Comparison.CoverageIff | crates/perch-analyze/src/lib.rs:427-469 | against every parent, `Unsat` implies that the parent's list covers the child's if and only if the child is not reported dead or lists no function |
| Comparison.ModelsImplyCoarse | crates/perch-analyze/src/lib.rs:427-501 | for any sound solver: no findings imply the coarse check if every child rule is covered by a child rule of its scope that has a model |
| Comparison.SemanticImpliesCoarse | crates/perch-analyze/src/lib.rs:427-501 | no findings imply the coarse check on the compiled plans, if every child rule is covered by a child rule of its scope, itself for instance, that is not reported dead |
| Comparison.LiveBacked | crates/perch-analyze/src/lib.rs:427-432 | a rule that is not reported dead meets that condition |
| Comparison.CoarseExactly | crates/perch-analyze/src/lib.rs:427-501 | for a child with distinct rule names, that condition holds if and only if no findings imply the coarse check against every parent that compiles |
| Comparison.CoarseIff | crates/perch-compile/src/attenuation.rs:44-55 | the coarse check on two compiled documents passes exactly when every child rule has a parent rule of its scope whose function list covers it |
| Comparison.DeadChildSeparates | crates/perch-compile/src/attenuation.rs:44-55 | a child rule that allows nothing has no findings and fails the coarse check |
| Interpreter.Contract.constructor | crates/perch-interpreter/src/lib.rs:71-78 | a fresh contract stores nothing |
| Interpreter.Contract.Install | crates/perch-interpreter/src/lib.rs:158-179 | stores a validated program under a free key of the authorizing account, or fails with the first applicable error and changes nothing |
| Interpreter.Contract.Uninstall | crates/perch-interpreter/src/lib.rs:183-191 | removes the authorizing account's entry, or fails and changes nothing |
| Interpreter.Contract.Enforce | crates/perch-interpreter/src/lib.rs:115-152 | succeeds exactly when authorized, installed, signed by someone, and the program's tree evaluates to `True`; changes nothing |
| Interpreter.ReachableAccepted | crates/perch-interpreter/src/lib.rs:158-179 | after any interleaving every stored program validates |
| Interpreter.StepTouchesOwnEntry | crates/perch-interpreter/src/lib.rs:115-191 | a call changes an entry only as its own account's authorized install into a free slot or uninstall |
| Interpreter.EntryIsolated | crates/perch-interpreter/src/lib.rs:115-191 | over any run without its own account's install or uninstall, an entry stays exactly as it was |
| Interpreter.NeverOverwritten | crates/perch-interpreter/src/lib.rs:158-191 | between two different programs under one key the account itself uninstalled |
| Interpreter.EnforceIff | crates/perch-interpreter/src/lib.rs:115-152 | in every reachable state enforcement succeeds if and only if authorized, installed, at least one signer, and the tree's value is `True` |
| Canon.WriteJsonString | crates/perch-ir/src/canon.rs:389-412 | appends the quoted, escaped literal |
| Canon.WriteValue | crates/perch-ir/src/canon.rs:353-383 | appends the text of the tree with every object's members in canonical order |
| Canon.SortKeepsMembers | crates/perch-ir/src/canon.rs:353-383 | sorting permutes an object's members |
| Order.SortAscends | crates/perch-ir/src/canon.rs:353-383 | distinct keys come out in strictly ascending UTF-16 code-unit order |
| Order.CanonicalOrderFree | crates/perch-ir/src/canon.rs:353-383 | the text of an object does not depend on the order its members came in |
| Order.UnitsMean | crates/perch-ir/src/canon.rs:369-370 | the UTF-16 code units of a character decode to it, and a surrogate pair is one |
| Reader.ReadEscape | crates/perch-ir/src/canon.rs:389-412 | each escape denotes the character it was written for, as section 7 of RFC 8259 reads it |
| Reader.ReadEmit | crates/perch-ir/src/canon.rs:353-412 | the reader inverts the emitter: it returns the value denoted and stops where the text ends |
| Json.FindField | crates/perch-ir/src/parse.rs:190-204 | the loop finds a field that occurs once and refuses a repeated one |
| Json.DenyUnknownLoop | crates/perch-ir/src/parse.rs:231-241 | the loop refuses exactly at the first unknown field |
| RoundTrip.RecordSpells | crates/perch-ir/src/parse.rs:190-241 | an object spells a record, in any member order, exactly when each member is present once and nothing else is |
| RoundTrip.ScopeIff | crates/perch-ir/src/parse.rs:399-416 | the walker returns a scope exactly on the spellings of its canonical tree |
| RoundTrip.PrincipalsIff | crates/perch-ir/src/parse.rs:418-459 | likewise for principals |
| RoundTrip.PredIff | crates/perch-ir/src/parse.rs:472-510 | likewise for argument predicates |
| RoundTrip.SignerIff | crates/perch-ir/src/parse.rs:319-343 | likewise for signers of both kinds |
| RoundTrip.CapIff | crates/perch-ir/src/parse.rs:512-526 | likewise for caps |
| RoundTrip.RuleIff | crates/perch-ir/src/parse.rs:345-397 | likewise for rules |
| RoundTrip.ModeIff | crates/perch-ir/src/parse.rs:585-655 | likewise for recovery modes |
| RoundTrip.RecoveryIff | crates/perch-ir/src/parse.rs:530-571 | likewise for recovery sections |
| RoundTrip.DocIff | crates/perch-ir/src/parse.rs:287-317 | the walker returns a document exactly on the values that spell its canonical tree, under any permutation of members at any level |
| RoundTrip.FromJsonIff | crates/perch-ir/src/parse.rs:140-188 | parsing accepts exactly the spellings of version-1 documents |
| Identity.CanonicalRoundTrip | crates/perch-ir/src/canon.rs:73-412 | reading the canonical text of a version-1 document and walking the value gives the document |
| Identity.CanonicalJsonInjective | crates/perch-ir/src/canon.rs:73-412 | equal canonical texts come from equal documents |
| Shortest.CharOver | crates/perch-ir/src/canon.rs:389-412 | whatever text a reader takes for a character is no shorter than the emitted one, and as long only if it is the same up to the case of a hex digit |
| Shortest.DecimalShortest | crates/perch-ir/src/canon.rs:356 | among the digit strings of a number the emitted one is the shortest, and the only one of its length |
| Shortest.TextShortest | crates/perch-ir/src/canon.rs:353-412 | the canonical text of a tree is the shortest of all texts that spell it with ascending keys, and every text as long is the same but for capital hex digits |
| Shortest.CanonicalShortest | crates/perch-ir/src/canon.rs:73-77 | the canonical text of a document is the shortest of all texts with ascending keys that the reader and the walker map to it, and every text as long is the same but for capital hex digits |
| Shortest.RuleShortest | crates/perch-ir/src/canon.rs:97-108 | likewise for the text a rule's provenance hash is taken of |
| Shortest.CanonicalQualifies | crates/perch-ir/src/canon.rs:73-77 | the canonical text is itself one of those texts |
| Identity.RulePreimageInjective | crates/perch-ir/src/canon.rs:104-120 | a rule's hash preimage identifies the rule |
| Identity.RecoveryJsonInjective | crates/perch-ir/src/canon.rs:85-89 | the canonical recovery member identifies the configuration |
| Scanner.TopLevelElements | scripts/rule-hash-vectors.py:27-55 | the six-variable loop, at any emitted array with any text around it, returns each element's text and the index just past the bracket |
| Scanner.ScannerInvertsEmitter | scripts/rule-hash-vectors.py:27-55 | the same as a theorem about the scanner's state machine, whatever quotes, backslashes, brackets or commas the strings hold |
| RulesKey.RulesKeyUnique | scripts/rule-hash-vectors.py:69-71 | the key of the rules array occurs exactly once in the canonical text of every document, whatever its strings hold |
| RulesKey.ScannerCutsRules | scripts/rule-hash-vectors.py:27-71 | the scanner, started at the bracket of that occurrence, returns exactly the canonical text of each rule, in order, and stops just past the array |
| Wire.WriteStatement | crates/perch-recovery-interface/src/statement.rs:234-276 | the buffer holds the fixed-width fields in order, or the first address error |
| Wire.StatementRoundTrip | crates/perch-recovery-interface/src/statement.rs:234-276 | decoding an encoded statement gives it back, for all five actions and both configuration changes |
| Wire.StatementInjective | crates/perch-recovery-interface/src/statement.rs:230-276 | statements with equal encodings are equal |
| Replacements.WriteCredential | crates/perch-recovery-interface/src/credential.rs:37-54 | the credential's bytes, or the refusal of an unsupported address |
| Replacements.WriteSet | crates/perch-recovery-interface/src/credential.rs:126-153 | the set's bytes, or the first error in loop order |
| Replacements.CredentialRoundTrip | crates/perch-recovery-interface/src/credential.rs:37-54 | decoding gives the credential back and stops at its end, for keys of any length |
| Replacements.SetRoundTrip | crates/perch-recovery-interface/src/credential.rs:126-153 | decoding gives the set back, for ids and keys of any length |
| Replacements.EncodableIff | crates/perch-recovery-interface/src/credential.rs:126-153 | a set has an encoding exactly when its addresses are supported, its ids strictly ascend and it rotates at most one enrollment |
| Replacements.SetInjective | crates/perch-recovery-interface/src/credential.rs:120-153 | sets with equal encodings are equal |
| Replacements.CredentialInjective | crates/perch-recovery-interface/src/credential.rs:37-54 | credentials with equal encodings are equal |
| Replacements.SameMembersSameSet | crates/perch-recovery-interface/src/credential.rs:120-153 | two accepted sets with the same members are the same sequence |
| Replacements.DomainsSeparate | crates/perch-recovery-interface/src/statement.rs:23-27 | the five domain tags separate the hashed preimages of statements, credentials, replacement sets, configurations and rules from each other and from the untagged preimage of every document |
| Replacements.RuleTagged | crates/perch-ir/src/canon.rs:91-122 | what a rule's provenance hash is taken of is the rule tag and the rule's canonical text, as UTF-8 |
| Derive.DeriveTarget | crates/perch-ir/src/recovery.rs:102-173 | the loop version of derivation, errors in source order |
| Derive.OverwriteSigners | crates/perch-ir/src/recovery.rs:129-156 | overwrites each replaced signer where it stands, or stops at the first refusal |
| Derive.ReplaceAllEffect | crates/perch-ir/src/recovery.rs:129-156 | ids keep their places, and each id resolves to its replacement or to what it had |
| Derive.OrderIsStrict | crates/perch-ir/src/recovery.rs:111-116 | comparing neighbours suffices: all replaced ids ascend strictly as UTF-8, so none occurs twice |
| Derive.DerivableIff | crates/perch-ir/src/recovery.rs:102-173 | a target exists exactly when enrolled, canonically ordered, not an empty lost-key set, every replacement permitted and of the replaced kind, and the rotation matches the mode |
| Derive.DerivedContent | crates/perch-ir/src/recovery.rs:121-173 | the target is the source's version, network and rules with the current recovery member, only enrollment id and commitment rotated |
| Derive.VerifiersKept | crates/perch-ir/src/recovery.rs:129-156 | a target's signers have the source's ids and verifiers in their places: a delegated one stays delegated, an external one keeps its verifier |
| Derive.DeriveCommutes | crates/perch-ir/src/recovery.rs:102-173 | the target compiles exactly when the source does, with the same error otherwise, and its plan differs from the source's only in the replaced ids' credentials |
| Derive.AdminIff | crates/perch-doc-compiler/src/lib.rs:278-290 | the anti-brick check passes exactly when the document has a bare, unanimous, unexpiring self-admin rule |
| Derive.AdminUnchanged | crates/perch-doc-compiler/src/lib.rs:278-290 | a derived target passes the anti-brick check exactly when its source does |
| Revocation.Revocations | crates/perch-recovery-interface/src/credential.rs:184-203 | duplicate-free, in first-seen order, and as a set exactly replaced together with current minus target |
| Revocation.LeaveIff | crates/perch-recovery-interface/src/credential.rs:178-216 | a completion revokes nothing it installs exactly when every replaced credential leaves |
| Account.AccountStore.constructor | crates/perch-smart-account/src/lib.rs:376-397 | a fresh account has no history |
| Account.AccountStore.RevokeAll | crates/perch-smart-account/src/lib.rs:856-863 | adds every listed fingerprint to the revoked set and removes none |
| Account.AccountStore.Check | crates/perch-smart-account/src/lib.rs:903-975 | the first reason to refuse a call, in source order, or the recovery generation it leads to |
| Account.AccountStore.ApplyDoc | crates/perch-smart-account/src/lib.rs:903-1020 | refuses an unauthorized call, a stale revision, a document that does not compile or locks the admin out, revoked credentials, a factor changed in place, a reused id, a controller's and the pool's refusal, in that order and without effect; otherwise inserts the leaf, revokes, applies and counts |
| Account.AcceptedIff | crates/perch-smart-account/src/lib.rs:903-990 | from any sound state a call is accepted exactly when it is authorized, its expected revision is the current one, the document compiles, keeps an admin and names no revoked credential, its ZK factor is absent, unchanged, or under a never-enrolled id that the pool accepts, and no asked controller refuses or hands back a credential without a fingerprint |
| Account.StepSoundIff | crates/perch-recovery-interface/src/credential.rs:164-216 | an accepted step keeps the invariant exactly when a completion's replaced credentials leave |
| Account.RunSound | crates/perch-recovery-interface/src/config.rs:164-186 | along every run whose completions replace only credentials that leave, applied credentials stay disjoint from revoked ones, and the enrolled factor's pool, id and commitment have been inserted, under an id used for no other leaf |
| Account.HistoryGrows | crates/perch-smart-account/src/lib.rs:376-412 | nothing ever leaves the revoked, enrolled or inserted sets, and neither counter goes back |
| Account.NeverReturns | crates/perch-recovery-interface/src/credential.rs:164-216 | along such a run, a credential replaced or dropped by a completion is in no document applied then or later |
| Account.SameIdInsertsNothing | crates/perch-recovery-interface/src/config.rs:164-186 | a step that keeps the enrollment id keeps the whole factor and inserts nothing |
| Account.SameRevisionSameState | crates/perch-smart-account/src/lib.rs:441-446 | a run that ends at the revision it began with changed nothing |
| Account.NoLostUpdate | crates/perch-smart-account/src/lib.rs:441-446 | a call accepted with an expected revision is applied over exactly the state that had it, whatever calls came between |
| ControllerContract.Contract.constructor | crates/perch-recovery/src/storage.rs:20-48 | an account is unknown to a controller until it enrolls |
| ControllerContract.Contract.BeginAttempt | crates/perch-recovery/src/contract.rs:658-768 | opens a collecting attempt for a derived target that retains no replaced credential and no revoked one, or refuses in source order and changes nothing |
| ControllerContract.Contract.CountGuardian | crates/perch-recovery/src/contract.rs:360-395 | counts an enrolled guardian once for a live attempt, or refuses in source order |
| ControllerContract.Contract.CountProof | crates/perch-recovery/src/contract.rs:399-434 | counts one accepted proof with an unspent nullifier for a live attempt, or refuses in source order |
| ControllerContract.Contract.CountEvidence | crates/perch-recovery/src/contract.rs:772-793 | promotes or cancels when the condition is met, and keeps the evidence otherwise |
| ControllerContract.Contract.Authorize | crates/perch-recovery/src/contract.rs:799-843 | opens the completion window and invalidates every sibling, or invalidates a lost-key attempt whose source is no longer applied |
| ControllerContract.Contract.CancelAttempt | crates/perch-recovery/src/contract.rs:846-880 | ends the attempt; only evidence-based cancellations of authorized attempts are counted and bounded |
| ControllerContract.Contract.RcvCancel | crates/perch-recovery/src/contract.rs:281-289 | the owner cancels a live attempt, under `Loss` only |
| ControllerContract.Contract.AuthorizeCompletion | crates/perch-recovery/src/contract.rs:883-923 | leaves a marker for the exact target inside the completion window, or refuses |
| ControllerContract.Contract.Synchronize | crates/perch-recovery/src/contract.rs:190-277 | classifies an applied document as completion, no change, enrollment, reconfiguration or removal, or refuses |
| ControllerContract.Contract.FinishAttempt | crates/perch-recovery/src/contract.rs:926-968 | spends the nullifier, ends the attempt and the epoch, and hands back the replaced credentials, or refuses |
| ControllerContract.Contract.ExecuteUpgrade | crates/perch-recovery/src/contract.rs:297-330 | ends the epoch, unless an attempt is authorized or the epoch moved |
| Controller.RunSound | crates/perch-recovery/src/contract.rs:658-968 | in every reachable store: ids are unique, evidence is recorded for distinct guardians of the attempt's own configuration, authorized attempts met their condition in their window, what an attempt replaces is not in its target, and no open attempt of the epoch has a spent nullifier |
| Controller.CompletionRecorded | crates/perch-recovery/src/contract.rs:926-968 | a completion applies its attempt's own target in its own epoch, with quorum and proof recorded as configured, at least the delay after authorization and before expiry, spends an unspent nullifier, and what it hands back is not in the target |
| Controller.WindowBlocks | crates/perch-recovery/src/contract.rs:190-277 | while an attempt is authorized and live only its completion gets through: no other document, attempt or upgrade |
| Controller.NeverLate | crates/perch-recovery/src/contract.rs:360-434 | in no reachable store is evidence for a live attempt refused as late, or for an overflowing window |
| Controller.ClosedForever | crates/perch-recovery/src/contract.rs:1312-1329 | an attempt that ended, is of an earlier epoch or was superseded stays exactly as it is along every run and is never live again |
| Controller.AuthorizationCloses | crates/perch-recovery/src/contract.rs:799-843 | authorizing an attempt closes every other one |
| Controller.CompletesOnce | crates/perch-recovery/src/contract.rs:926-968 | over any run, two completions are of different attempts and spend different nullifiers |
| Evidence.RunWitnessed | crates/perch-recovery/src/contract.rs:360-434 | along every run, each guardian recorded for an attempt signed its statement, to initiate or to cancel, and each recorded proof was verified, in an earlier accepted call in the attempt's epoch and before the statement's freshness bound |
| Evidence.NextEvidence | crates/perch-recovery/src/contract.rs:360-434 | a call changes an attempt's evidence only by one signed approval or one verified proof for that attempt, and never what the attempt stands for |
| Evidence.EpochHasOneConfig | crates/perch-recovery/src/contract.rs:1229-1248 | within an epoch the configuration is one and the same |
| Evidence.CompletionNeedsEvidence | crates/perch-recovery/src/contract.rs:15-20 | along every run, an attempt completes only if as many distinct enrolled guardians as the quorum each signed its statement, and a proof of it was verified if one is asked for: under its configuration, in its epoch, by its deadline, at least the delay before |
| Safeguards.NextPhase | crates/perch-recovery/src/contract.rs:772-880 | an attempt's phase changes only by met initiation over the applied source, invalidation, the owner under `Loss`, met cancellation below the bound, or completion |
| Safeguards.OneAuthorized | crates/perch-recovery/src/contract.rs:799-812 | while an attempt is authorized and live no other one is authorized |
| Safeguards.CancellationNeedsEvidence | crates/perch-recovery/src/contract.rs:846-880 | along every run, an attempt is cancelled either by the owner under `Loss`, or after a quorum of distinct enrolled guardians each signed its cancellation and a proof of it was verified if one is asked for |
| Safeguards.LifetimeCancels | crates/perch-recovery/src/contract.rs:846-866 | over a run, authorized attempts are cancelled by evidence at most as often as the largest `max-cancels` in force, whatever is removed, enrolled or reconfigured in between |
| Safeguards.ProtectedChanges | crates/perch-recovery/src/contract.rs:238-277 | under `Protected` the configuration changes only by an approved change or a completion |
| Safeguards.ProtectedStays | crates/perch-recovery/src/contract.rs:238-277 | along every run without either, a protected configuration stays |
| Safeguards.SyncMeans | crates/perch-recovery/src/contract.rs:190-277 | what each answer to an applied document means for configuration and epoch; an enrolled or replaced configuration can be served and proved |
| Safeguards.BeginIff | crates/perch-recovery/src/contract.rs:658-768 | an attempt can be opened exactly under the listed conditions, and is then collecting for the derived target over its source |
| Safeguards.CompletableIff | crates/perch-recovery/src/contract.rs:883-968 | in every reachable store, authorizing and applying a document completes exactly when an authorized attempt is in its window and names that target and configuration; no spent nullifier stands in the way |
| Safeguards.NextLive | crates/perch-recovery/src/contract.rs:1312-1343 | an attempt that is authorized and live after a call was so before, or the call authorized it over the applied source; one that no longer is leaves nothing authorized |
| Safeguards.UpgradeEnds | crates/perch-recovery/src/contract.rs:297-330 | an upgrade goes through exactly when it was recorded in the running epoch and no attempt is in its window; it closes every attempt, and no request of that epoch or before goes through later |
| Recoverable.ServableIff | crates/perch-recovery/src/contract.rs:1155-1173 | a configuration is served, if it lists no guardian twice, exactly when every completion window exists and comes after its authorization, some cancellation counts, and the guardians, the account not among them, can reach a quorum of at least one |
| Recoverable.RepeatedGuardian | crates/perch-recovery/src/contract.rs:1155-1173 | a configuration with a guardian listed twice is served though nobody can reach its quorum |
| Recoverable.ReachableIff | crates/perch-recovery/src/contract.rs:1155-1173 | a quorum can be reached exactly when it is at most the number of different guardians |
| Recoverable.ApprovalIff | crates/perch-recovery/src/contract.rs:360-398 | a signed approval of an enrolled, uncounted guardian counts exactly when the attempt can take it; it authorizes or cancels exactly when the set of different approvers then reaches the quorum and a proof is there if asked for |
| Recoverable.ProofIff | crates/perch-recovery/src/contract.rs:399-440 | the same for a verified proof with an unspent nullifier |
| Recoverable.CountedIff | crates/perch-recovery/src/contract.rs:772-880 | what one more piece of evidence comes to, in counts: collecting, authorized with its window, over, cancelled, or refused because another attempt is authorized or the bound on cancellations is reached |
| Recoverable.NeverStuck | crates/perch-recovery/src/contract.rs:772-797 | in every reachable store no collecting attempt has enough evidence for it and no open one enough against it |
| Recoverable.Collected | crates/perch-recovery/src/contract.rs:772-842 | after any evidence nothing is wrong with, in any order and with repetitions, a pending attempt lacks evidence or is authorized since the call that brought enough |
| Recoverable.Recovers | crates/perch-recovery/src/contract.rs:772-990 | from any sound store, as soon as the evidence is enough the attempt can be completed at every ledger of the window that the call which brings enough opens |
| Recoverable.BeginRecovers | crates/perch-recovery/src/contract.rs:658-990 | the same from the beginning of an attempt |
| Views.BegunOverView | crates/perch-recovery/src/contract.rs:658-735 | an attempt is begun only for a target without a credential revoked by then, and for a lost key only over the document applied by then |
| Views.ApprovalAuthorizes | crates/perch-recovery/src/contract.rs:799-842 | in the whole system, the approval that brings enough authorizes at once, unless a key was lost and its source is no longer applied: then the attempt is over |
| Views.ProofAuthorizes | crates/perch-recovery/src/contract.rs:799-842 | likewise the proof that brings enough |
| Lifecycle.CallDeclared | crates/perch-recovery/src/contract.rs:712-725 | what the account assumes of completions is what the controllers enforce: replaced credentials leave, and each has a fingerprint |
| Lifecycle.RunSound | crates/perch-smart-account/src/lib.rs:903-1020 | over any interleaving of calls to the account and its controllers, applied credentials stay disjoint from revoked ones, the enrolled factor's leaf has been inserted, only the adopted controller has a configuration for the account, and the freeze mirrors its attempt; what the account assumes of completions is proved of the controllers |
| Lifecycle.RevocationNeedsEvidence | crates/perch-smart-account/src/lib.rs:844-869 | a step revokes only by completing an attempt for the applied document, whose statement a quorum of distinct enrolled guardians each signed, and a proof of which was verified if asked for, in earlier steps at the adopted controller, under the configuration still in force and at least the delay before |
| Lifecycle.CompletionNeedsEvidence | crates/perch-smart-account/src/lib.rs:844-869 | the same for every completing step |
| Lifecycle.LostKeySource | crates/perch-recovery/src/contract.rs:796-820 | a lost-key attempt completes only while its source is still the applied document |
| Lifecycle.FreezeExact | crates/perch-smart-account/src/lib.rs:536-559 | from any reachable state on, the account is frozen exactly while the adopted controller holds an authorized live attempt for it under `Protected` |
| Lifecycle.StoreIsRun | crates/perch-recovery/src/contract.rs:190-277 | what a controller stores is the result of its own calls along the run |
| Lifecycle.NeverReturns | crates/perch-recovery-interface/src/credential.rs:164-216 | over any interleaving, a credential revoked at some point is in no document applied then or later |
| Generations.SyncEpoch | crates/perch-recovery/src/contract.rs:190-276 | a controller's answer ends an epoch exactly when it is not `Unchanged` |
| Generations.GenerationMoves | crates/perch-smart-account/src/lib.rs:940-972 | an applied document moves the generation by one for each controller asked that did not answer `Unchanged` |
| Generations.GenerationIsEpochs | crates/perch-smart-account/src/lib.rs:940-972 | along every run the generation and the upgrades executed together are the epochs ended at all controllers |
| Keys.GroupKeys | crates/perch-doc-compiler/src/lib.rs:512-528 | groups keys by verifier in declaration order, with each signer's slot, or stops at the first key that is not hex |
| Keys.CanonicalizeBatches | crates/perch-doc-compiler/src/lib.rs:529-553 | succeeds exactly when every verifier returns its batch unchanged |
| Keys.Scatter | crates/perch-doc-compiler/src/lib.rs:554-567 | reading the slots back yields each signer's declared credential in declaration order |
| Keys.CanonicalCredentials | crates/perch-doc-compiler/src/lib.rs:508-568 | for any verifiers: fails with `DocInvalid` exactly on a key that is not hex, succeeds exactly when every batch is returned unchanged, and then yields the declared credentials in order |
| Keys.PointwiseIff | crates/perch-doc-compiler/src/lib.rs:508-568 | for per-key canonicalizers every batch is returned unchanged exactly when every external key is its own canonical form |

## Left out

- JSON lexing with whitespace, literals and negative or fractional numbers: `Reader` reads the whitespace-free fragment of strings, numbers without sign, arrays and objects; the walker takes any value tree, including those.
- RoundTrip.FromJsonIff: starts from a value tree; the lexer of `from_json` and its depth bound are not part of this model.
- SMT-LIB text and the z3 process: terms are an AST and the solver is a function; `smt_string` and its treatment of backslash sequences in literals are not modelled.
- Narrows.NarrowsSound: where exactly an entry leaves the spending window is a parameter, because the metering policy is an external library; the theorem holds for every choice.
- Encoder.SymbolicEncoder.AddrId: ids are unbounded naturals, where the code counts in 32 bits; `Encoder.IdsFit` bounds them by the number of constraints.
- `can_call`: the same query as `only_calls` with one function asserted, so it would only add easy members.
- SHA-256, Poseidon2, signature and proof verification: hashes are their preimages.
- The recovery controller's approvals of reconfigurations and upgrades, published baselines, the wiring check of a new proof factor and the views: their results are inputs of a call. Guardian signatures and proofs are inputs too.
- The account's rule reconciliation, what it authorizes while frozen and otherwise, and its upgrades (which also advance both counters), the membership pool and the ZK adapter: `Account` keeps credential and enrollment history, the adopted controller and the two counters; the compiler, the controllers, the pool and the authorization are inputs of a call, and `Lifecycle` replaces the controllers' part by the controllers themselves and adds the freeze.
- ControllerContract.Contract.Synchronize: whether a change is approved and a proof factor's change and wiring are in order are inputs.
- ControllerContract.Contract.Authorize: the freeze it sends to the account under `Protected` is in `Lifecycle`, not in the contract's own storage.
- ControllerContract.Contract.CancelAttempt: likewise for lifting the freeze.
- ControllerContract.Contract.AuthorizeCompletion: whether the call is this account's `apply_doc` of some bytes is an input, and the bytes are their document's identity.
- ControllerContract.Contract.CountGuardian: a statement that cannot be encoded is not modelled; account and controller are contracts, so it always can.
- Account.AccountStore.ApplyDoc: always records the applied fingerprints, where the code skips the write for an unchanged document hash; the two agree because a document fixes its fingerprints. The counters are unbounded naturals, where the code counts in 64 bits.
- Storage lifetimes, metering, events and XDR: an address is one of two 32-byte kinds or unsupported.
- Document size limits, the network check and hashing in `compile_doc`, and `verify_plan_matches_doc`.
- Error texts of validation reports.
- `activation`, registry, factory, deploy, verifier and spending-limit crates, and all tooling: thin wrappers around what is modelled, or outside the core.
