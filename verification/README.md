# A verified model of the DYL chain

This project models the `chain/` package, a stake-weighted blockchain that runs
a set of validators through one-step-vote BFT consensus, and proves what it is
for: every node ends up with the same blocks, the same transactions and the same
ledger; nobody honest is slashed; no token is created or lost other than by
block rewards; the proposer schedule is exactly proportional; and the live view
a server shows is the one a restart would rebuild.

## Layout

| files | what they hold |
|---|---|
| `Wrappers`, `Words`, `Sums` | option and result types; uint64/int64 wrap-around and the 128-bit `mulDiv`; sums over sequences and maps |
| `Types`, `AddressCodes`, `Merkle` | addresses, signatures, digests, blocks; the duplicate-last Merkle tree, its ambiguity and its proofs |
| `Ledger`, `Effects`, `Supply`, `Nonces`, `LedgerObjects` | the ledger as functions, who gains and who loses, conservation, nonce order, and the ledger object written in place |
| `Chains`, `Tamper` | candidate checks, growth from genesis, `Validate`, pruning, the chain object; what a valid chain's tip protects |
| `Accumulator`, `Fairness`, `AccumulatorBounds`, `Elections`, `ElectionObjects`, `SlashFree` | the priority accumulator, its exact fairness and bounds, the election around it, the arrays written in place, and the reference it refines |
| `Votes`, `Schedule`, `Detection`, `Sentences` | votes, evidence, the equivocation detector; exactly which votes convict; when a slash and a heal take effect, on one node's books and on every node of a run |
| `Proposals`, `Consensus`, `Invariants`, `Turns` | what a proposer builds; the cluster as a step system; what every reachable state keeps; what entering a height and voting do |
| `Convictions`, `Agreement`, `Honesty`, `HonestRuns`, `NoHalt` | grounds for every slash, safety, sound slashing, agreement under a faulty minority, no honest halt |
| `Delivery`, `Solvency`, `Completion`, `Progress` | nothing a node has read is lost; while supply fits no reward panics and every weight counts; every run without faults commits the heights asked for; an honest cluster can commit any number |
| `NodeLoop`, `NodeObjects` | the wait and tally loops on any inbox; the node object, proved to take steps of the step system |
| `LiveViews`, `LiveRuns` | the cluster's bounded windows; racing reports and restart from the log |
| `Coins` | `FormatAmount` and the web client's parser |

A run is any list of events: a node enters a height, answers a wait from its
stash or from a message ever broadcast (so any delay, reordering or repetition),
finishes a height, is made faulty, or anyone at all puts a message on the bus. Run
theorems quantify over every such list. Repetition only adds runs, so safety does
not depend on channels delivering once; `Completion` does, and there a node reads
no message twice. `Schedule` follows one node's books (its
detector, election and height) through any list of operations on them;
`Sentences.BooksRun` shows that every node of every run goes through such a list.

Source code that changes state in place is modelled by classes and array loops
(`LedgerState`, `Chain`, `Election`, `Node`, `Cluster`, `FilterInPlace`), each
proved equal to a function of the old state; the theorems are about those
functions.

## Assumptions

- SHA-256 over JSON is one injective constructor per use: leaf, inner node,
  header, zero. A digest is kept as that value instead of its hex text.
- ed25519 is symbolic: a signature records its signer, what was signed and a
  salt, and verifies for exactly that. Transaction, block and vote payloads are
  kept apart by type, where the code relies on their byte layouts. Whoever holds
  a key can sign anything; that an honest validator's key is not used by others
  is a hypothesis where it is needed (`NotForged`).
- Validator addresses are distinct and name their validators' keys (`Config.Valid`).
- uint64 sums are taken with wrap-around. A theorem that needs them not to wrap
  says so, as `3 * total < 2^64`. Heights and nonces are unbounded integers.
- The code does not make every node hold a piece of evidence by the height its
  slash takes effect, so nodes may slash one offender at different heights.
  Agreement does not need them to: it asks that validators who ever sign
  conflicting votes hold at most a third of each height's weight, counting the
  weight slashed members would have (`FaultsBudgeted`), and that three times that
  weight fits a uint64. Theorems named `Scheduled...` instead ask that any two
  nodes fired the same slashes and heals at each height both ran
  (`SchedulesAgree`, proved where nobody equivocates by
  `HonestRuns.HonestSchedulesAgree`), and then need a budget for each height by
  itself, or none.
- A proposal's `Proposer` is never compared with the elected address
  (chain/consensus.go:242-248), so agreement allows proposals from anyone, and
  `NoHalt`, which says who proposed, assumes none is injected.
- `Block.Hash` does not cover `Signature`, so two nodes may hold different
  signature bytes for one block; agreement is on header, transactions and ledger.
- Go pays delegators in sorted order; `Supply.PaymentOrderIrrelevant` shows that
  any order gives the same balances, and the loop takes them in any order.
- A channel's content is a node's `inbox` field: the messages it will deliver, in
  order. A read of the empty inbox is where the node blocks.
- The clock and what the mempool drained are parameters.

## Where the code and its comments part

- chain/consensus.go:188-190 says a slash and its heal never fire at the same
  height. They do when evidence is noticed as late as the height before the heal
  is due, and the offender then never loses weight:
  `Schedule.SlashAndHealTogether` gives the exact condition,
  `Schedule.LateDeliveryExample` an input.
- chain/consensus.go:363-368 says a second, conflicting vote is equivocation, which
  `observe` verifies. The first vote is remembered unverified, so one that was
  forged in a validator's name and read first hides whatever the validator then
  signs at that height (`Detection.ForgeryShadows`). `Detection.ConvictedExactly`
  and `Sentences.ConvictedByReads` say exactly which votes convict.
- `delegationsEqual` (chain/state.go:204-214) reads a missing inner map as an
  empty one, so it can call unequal maps equal. `Chains.DelegationsAgreeExact`
  shows it decides equality against every other map exactly when its first
  argument has no empty inner map; `Supply.ReplayBonds` shows that a replayed
  ledger never has one, so `Validate` is not misled
  (`Chains.PassesMeansReplayed`).
- The duplicate-last tree gives one root to lists of different lengths
  (`Merkle.RootCollides`). `Merkle.RootsEqualExactly` says when,
  and `Nonces.RootBindsBody` that the nonce rule excludes it for lists that apply.

## Model

| member | source | states |
|---|---|---|
| Agreement.NodesAgree | chain/consensus.go:229-282 | in every run, under any delivery order, any injected messages and whenever each node notices an equivocation: if those who ever sign conflicting votes hold at most a third of each height's full weight (and three times it fits a uint64), any two nodes have the same header, transactions and ledger at every height both committed |
| Agreement.ScheduledNodesAgree | chain/consensus.go:229-282 | the same with the budget taken height by height, so that equivocators may exceed a third over time; assumes that slash schedules agree (`SchedulesAgree`) |
| Agreement.QuorumsAgreeAcross | chain/consensus.go:252-275 | two quorums over one height's weights name the same block even where the two nodes have different members slashed, if everyone slashed equivocated |
| Convictions.EverySlashGrounded | chain/consensus.go:369-400 | in every run, whoever is in a node's evidence, pending slashes or heals, or was slashed at a height it ran, has two conflicting verified votes on the bus |
| Agreement.QuorumsAgree | chain/consensus.go:252-275 | two quorums of verified votes over one height's weights name the same block |
| Agreement.HeaderDecides | chain/chain.go:125-147 | from one tip and ledger, blocks that pass the candidate check with equal hashes have equal bodies and lead to the same ledger |
| Agreement.AlikeAt | chain/consensus.go:154-223 | where slash schedules agree, two nodes reach each height with the same tip, ledger and election state |
| Agreement.CommittedHeight | chain/chain.go:125-129 | a node's k-th commit has the k-th height after the starting tip |
| HonestRuns.MinorityCannotSplit | chain/consensus.go:229-282 | agreement stated by behaviour: validators that may sign anything hold at most a third of each height's full weight (three times which fits a uint64), everyone else's node signs one vote per height |
| HonestRuns.HonestSchedulesAgree | chain/consensus.go:178-203 | where nobody equivocates no slash or heal ever fires, so schedules agree without assumption |
| HonestRuns.HonestClusterAgrees | chain/consensus.go:229-282 | in a cluster of honest validators agreement asks only that three times each height's full weight fits a uint64 |
| Honesty.HonestNeverConvicted | chain/consensus.go:369-400 | a validator whose node signs one vote per height is in no node's evidence, pending slashes or slashed entries, whatever else is on the bus |
| Honesty.HonestNeverConflicts | chain/evidence.go:18-23 | nor can conflicting verified votes of it ever be exhibited |
| Honesty.HonestAlwaysOk | chain/consensus.go:250-255 | every verified vote in an honest node's name is for the one block it committed or is tallying at that height |
| NoHalt.NoNodeHalts | chain/consensus.go:245-281 | in runs where only elected honest code proposes and equivocators hold at most a third of each height's full weight, neither haltf call is reached, however votes are forged, delayed or repeated and whenever each node notices an equivocation |
| NoHalt.MinorityCannotHalt | chain/consensus.go:245-281 | the same by behaviour: everyone outside a faulty third signs one vote per height |
| NoHalt.ScheduledNoNodeHalts | chain/consensus.go:245-281 | where slash schedules agree no fault budget is needed, and all nodes commit the very same blocks, signatures included |
| NoHalt.Lockstep | chain/consensus.go:229-282 | where only nodes propose and slash schedules agree, nodes that reached a height stand alike there, with no fault budget assumed |
| NoHalt.ProposerElected | chain/consensus.go:230-234 | where slash schedules agree, the node that proposed at a height is the one every node standing alike there elects |
| Completion.ClusterCompletes | chain/cluster.go:273-278 | in a cluster without faults whose channels deliver each message once, in whatever order nodes take turns and read and whatever transactions the mempool gives: a run to these heights has at most TurnLimit turns, and has no turn left exactly when every node has committed exactly these heights; assumes that someone has stake and that three times all stakes and all supply up to then fit a uint64 |
| Completion.RunReturns | chain/cluster.go:298-308 | and from wherever it is, such a run can be taken to that end |
| Completion.NeverStuck | chain/consensus.go:229-282 | in every run without faults, until all have committed those heights, some node short of them can enter a height, finish one, answer a wait from its stash, or read a message it waits for and has not read before |
| Delivery.AlwaysKept | chain/consensus.go:326-361 | in every run, faults included, whatever a node has read for the height it is at or a later one is in its stash, or is the proposal it votes on, or a vote it counted or rejected |
| Completion.StepGoesOn | chain/consensus.go:229-282 | no step takes any node back, and entering, finishing or taking a wanted message takes its node forward |
| Completion.AlwaysSafe | chain/consensus.go:154-165 | no node panics before it has committed those heights |
| Solvency.RewardsNeverPanic | chain/state.go:171-200 | while supply and one more reward fit a word, no block's reward panics |
| Solvency.TotalWeight | chain/proposer.go:142-148 | a height's total weight lies between all stakes and all stakes plus the supply |
| Progress.ClusterProgresses | chain/cluster.go:273-278 | with no bound on supply: for any number of heights there is a run, delivering no message twice, after which every node has committed that many and is ready for the next |
| Progress.OneMoreHeight | chain/consensus.go:229-282 | from between any two heights of any run without faults, every node can commit one more, delivering that height's messages once each |
| Progress.BallotsSuffice | chain/consensus.go:252-260 | one vote from each validator is a quorum at every node |
| Progress.DriveKeeps | chain/consensus.go:326-349 | waiting and tallying change neither the chain nor what was committed |
| Proposals.ProposalAcceptable | chain/consensus.go:288-301 | the block a proposer builds passes every candidate check on any node with the same tip and ledger, unless the reward arithmetic panics, and it says exactly when |
| Proposals.ApplicableApplies | chain/consensus.go:308-320 | what the filter keeps applies as a whole, and a list that applies is kept whole |
| Proposals.FilterExact | chain/consensus.go:303-320 | what is kept of the drained transactions is exactly those that apply after the ones kept before them, in order: a bad one costs only itself |
| Proposals.ProposalCarries | chain/consensus.go:288-301 | a proposal carries exactly those, with its maker, height and time, and nothing else |
| Turns.ElectedProposes | chain/consensus.go:230-234 | on any node of any run, entering a height elected broadcasts one such proposal, and otherwise nothing |
| Proposals.FilterInPlace | chain/consensus.go:308-320 | compacting kept transactions into the array being read loses none and keeps their order |
| Invariants.AlwaysOk | chain/consensus.go:154-282 | in every reachable state each node's chain, election and height follow from its committed blocks, each committed block passed its checks, and each had more than two thirds of that height's weight in verified votes of members |
| Invariants.StepOk | chain/consensus.go:154-282 | every single event keeps that invariant |
| Invariants.CountOk | chain/consensus.go:256-275 | counting one vote keeps accepted equal to the weight of the distinct members counted |
| Invariants.FinishOk | chain/consensus.go:204-214 | committing, pruning the stash and pruning the chain keep it |
| Turns.VotesCast | chain/consensus.go:250-255 | voting on a block that passes, a node casts one vote for it, and a faulty node a second, conflicting one |
| Turns.QuietFromSlash | chain/consensus.go:173-186 | a node stops being faulty exactly when it enters a height at which its own slash has come due |
| NodeLoop.TallyIsExact | chain/consensus.go:256-275 | whatever arrives in whatever order, accepted is the weight of the voters counted, and reading stops early only on a quorum |
| NodeLoop.TakenAreCounted | chain/consensus.go:260-275 | the tally takes only votes for the candidate; those it does not reject come from as many distinct new voters and are exactly the growth of counted |
| NodeLoop.NothingLost | chain/consensus.go:326-349 | every message is still stashed, still unread or was returned by a wait, and none twice |
| NodeLoop.QuorumNeverStarves | chain/consensus.go:256-275 | once stash and inbox hold verified votes of a quorum, in any order and among anything else, the tally finishes without blocking |
| NodeLoop.DriveResumes | chain/consensus.go:337-348 | blocking and being woken by more messages gives what reading them all at once gives |
| NodeLoop.DriveIsRun | chain/consensus.go:326-349 | the wait loops on an inbox are a list of steps of the system |
| NodeLoop.HeightIsRun | chain/consensus.go:154-282 | a whole pass of the height loop is such a list, so every run theorem holds of it |
| NodeObjects.Node.constructor | chain/cluster.go:151-179 | a new node starts in the system's initial state |
| NodeObjects.Node.ObserveMessage | chain/consensus.go:369-400 | updating the vote maps in place is one detector step |
| NodeObjects.Node.PrunePending | chain/consensus.go:353-361 | pruning keeps exactly the later messages, in order |
| NodeObjects.CompactLater | chain/consensus.go:353-361 | compacting kept messages into the array being read loses none of them |
| NodeObjects.Node.ForgetVotes | chain/consensus.go:206-210 | deleting while ranging forgets exactly the heights two or more back |
| NodeObjects.Node.FireSlashes | chain/consensus.go:178-187 | ranging over the map in any order slashes exactly those due, and silences this node if it is one of them |
| NodeObjects.Node.FireHeals | chain/consensus.go:191-199 | ranging over the map in any order restores exactly those due, to one election state |
| NodeObjects.Node.EnterHeight | chain/consensus.go:173-203 | slashes, heals and re-read delegations together enter the height's election state |
| NodeObjects.Node.WaitFor | chain/consensus.go:326-349 | the oldest stashed message that fits is returned, failing that the first off the inbox, with all before it observed and stashed in order; blocking leaves the inbox empty and everything stashed |
| NodeObjects.Node.Tally | chain/consensus.go:256-275 | the loop ends exactly where the system's tally phase does, and reports a quorum exactly when there is one |
| NodeObjects.Node.BuildProposal | chain/consensus.go:288-301 | the block built imperatively is the proposal all nodes accept |
| NodeObjects.Node.StartHeight | chain/consensus.go:230-234 | advancing the election once and proposing if elected is the system's begin step |
| NodeObjects.Node.Decide | chain/consensus.go:236-281 | checking, voting, tallying and committing take the system's steps |
| NodeObjects.Node.CommitCandidate | chain/consensus.go:277-281 | committing and the clean-up after it are the system's finish step |
| NodeObjects.Node.RunHeight | chain/consensus.go:173-282 | one iteration of the node's loop, on its fields, leaves the state, inbox and broadcasts of the modelled height |
| Votes.NewVoteVerifies | chain/consensus.go:58-75 | a vote verifies for the height and hash it was signed over and no other |
| Votes.PruneKeepsLater | chain/consensus.go:353-361 | pruning drops exactly the messages of decided heights, and no copy of a later one |
| Sentences.BooksRun | chain/consensus.go:154-223 | every node's detector, election and height, at any point of any run, come from any earlier point by observing, entering and forgetting alone |
| Sentences.DeliveryCatches | chain/consensus.go:369-400 | reading a vote adds evidence exactly when the node remembers a verified vote of the same voter at that height for another hash, this one verifies too, and the voter stands convicted of nothing; a member's slash is then scheduled two heights after the offence and its heal after that |
| Sentences.ConvictedByReads | chain/consensus.go:374-399 | in terms of what the node read: exactly when the first vote read in that voter's name at that height, outside earlier convictions and not forgotten since, verifies and names another hash |
| Sentences.EvidenceAlwaysStands | chain/evidence.go:18-23 | in every run, all evidence on every node proves what it says: two conflicting votes of the offender's at that height, both broadcast and both signed by it |
| Detection.ConvictedExactly | chain/consensus.go:369-400 | the same for any list of operations on one node's books |
| Detection.RemembersFirst | chain/consensus.go:378-383 | the vote remembered for a voter at a height is exactly the first one heard and not forgotten since |
| Detection.MemoryLasts | chain/consensus.go:206-210 | first votes of a height are remembered until the height two above is finished |
| Detection.ForgeryShadows | chain/consensus.go:378-399 | a vote in a validator's name that does not verify, read first, hides two genuine conflicting votes read after it |
| Sentences.SentenceInViews | chain/consensus.go:173-203 | from then on, whenever that was and whatever happens next, the member is without weight at exactly the heights the node enters from e + 2 up to but excluding e + 2 + healDelay, for ever when healDelay is 0 |
| Sentences.SentenceEndsInViews | chain/consensus.go:188-199 | entering e + 2 + healDelay, or the first height after a conviction later still, the member has its full weight |
| Sentences.NodesCovered | chain/consensus.go:384-399 | on every node of every run, whoever awaits a heal is slashed already or will be earlier, and whoever is slashed or will be has been detected |
| Sentences.NodeEntersInAnyOrder | chain/consensus.go:178-203 | on every node of every run, the election entering a height does not depend on map iteration order, with any number of slashes and heals due at once |
| Schedule.ConvictionCatches | chain/consensus.go:385-399 | a member's first verified conflicting vote schedules slash and heal, and nothing else it had stands in the way |
| Schedule.CaughtSees | chain/consensus.go:369-400 | nothing observed afterwards reschedules or drops it |
| Schedule.SentenceEnds | chain/consensus.go:188-199 | entering the heal height leaves the offender with nothing held against it, whether the slash was served or not |
| Schedule.SlashAndHealTogether | chain/consensus.go:188-199 | slash and heal fire together exactly when the conviction comes as late as the height before the heal, and then no weight is lost |
| Schedule.LateDeliveryExample | chain/consensus.go:188-190 | late delivery alone makes that happen: two height-1 votes read during height 3, with a heal delay of 1 |
| Elections.SlashOrderIrrelevant | chain/proposer.go:73-80 | slashing in any order slashes the set |
| Elections.HealOrderIrrelevant | chain/proposer.go:87-112 | several restores in any order end in one state, each healed member at the least priority of those with weight |
| Elections.RestoreToBack | chain/proposer.go:82-112 | a restored member rejoins at the back: nobody else with weight is behind it, one of them is level with it (or it is at zero when there is none), and no other member changes |
| Elections.HealedEnterAtBack | chain/consensus.go:188-203 | the same for a member healed as a height is entered, among all slashed and healed with it |
| Elections.HealedWaits | chain/proposer.go:82-139 | it is elected there only if it outweighs or equals every other member that kept its weight |
| Turns.NodeHealsToBack | chain/consensus.go:188-203 | all of this at every heal on every node of every run |
| Elections.QuorumsMeet | chain/consensus.go:259-260 | two sets above two thirds of the weight share more than one third |
| Elections.WeightInsert | chain/consensus.go:272-274 | counting a new voter adds exactly its stake |
| ElectionObjects.Election.constructor | chain/proposer.go:30-45 | a new election has stakes as weights and a zero accumulator |
| ElectionObjects.Election.SlashAddress | chain/proposer.go:73-80 | only the named member's flag changes, and nothing when it is no member |
| ElectionObjects.Election.RestoreAddress | chain/proposer.go:87-112 | the loops restore the one member as the lemmas about it require, and nothing when it is no member |
| ElectionObjects.Election.Next | chain/proposer.go:117-139 | raising and charging the arrays in place is one accumulator step and returns its winner; none is the panic without stake |
| ElectionObjects.Election.SyncDelegations | chain/proposer.go:60-70 | one pass over the bonds leaves each member the uint64 sum bonded behind it, in any iteration order |
| ElectionObjects.Election.TotalStake | chain/proposer.go:142-148 | the sum of all current weights in uint64 |
| ElectionObjects.Election.StakeOfAddress | chain/proposer.go:151-158 | the first member's weight, or zero for a stranger |
| ElectionObjects.Election.Contains | chain/proposer.go:161-168 | membership, both ways |
| ElectionObjects.TallyBonds | chain/proposer.go:61-66 | the tally per validator does not depend on iteration order |
| ElectionObjects.ProposerForHeight | chain/validator.go:81-107 | recomputing from height 1 returns the reference winner; none where it panics |
| ElectionObjects.Reference | chain/validator.go:81-107 | there is a proposer exactly when the height is positive and someone has stake |
| ElectionObjects.ElectionMatchesReference | chain/proposer.go:117-139 | on weights that stay put the h-th call of next elects the member ProposerForHeight(h) returns, for every h, or both panic |
| ElectionObjects.ReferenceRoundRobin | chain/validator.go:71-107 | with equal stakes, whose sum fits an int64, height h goes to member (h-1) mod n |
| ElectionObjects.ElectionIsFair | chain/proposer.go:117-139 | the running 64-bit election returns to its starting state after total-weight heights, having elected every member exactly its weight times, while the total times 1 + 1/2 + ... + 1/n fits an int64 |
| ElectionObjects.ElectedIsSchedule | chain/proposer.go:117-139 | under that condition the running election never departs from the unbounded schedule |
| ElectionObjects.FixedNeverOverflows | chain/proposer.go:117-139 | under that condition, with fixed weights, some possibly zero, int64 never wraps |
| Fairness.PeriodExact | chain/proposer.go:117-139 | after total-weight heights every priority is zero and each member was elected exactly its weight times |
| Fairness.PeriodRepeats | chain/proposer.go:117-139 | the schedule repeats with that period |
| Fairness.PrefixShare | chain/proposer.go:117-139 | t heights elect a member of weight w out of T fewer than t*w/T + 1 times |
| Fairness.RoundRobin | chain/validator.go:71-80 | equal stakes give plain round-robin |
| AccumulatorBounds.AboveFloor | chain/proposer.go:117-139 | under arbitrary weight changes that leave nobody who had weight without, priorities sum to zero and stay above minus the largest total |
| AccumulatorBounds.PriorityBounds | chain/proposer.go:117-139 | and at or below the largest total times 1/2 + ... + 1/n |
| AccumulatorBounds.LongestWait | chain/proposer.go:117-139 | a member of weight at least w never waits more than the largest total times 1 + 1/2 + ... + 1/n, over w, heights |
| AccumulatorBounds.NeverOverflows | chain/proposer.go:117-139 | so int64 arithmetic is exact at every height |
| SlashFree.SlashFreeBounds | chain/proposer.go:60-70 | the election re-reading arbitrary delegations at every height stays within those bounds and never wraps |
| SlashFree.PositiveStakesLast | chain/proposer.go:60-70 | positive self-stakes are enough for nobody to be left without weight, however delegations change |
| SlashFree.ElectionWaits | chain/proposer.go:117-139 | and it never passes over a member of weight at least w for as long as the largest total times 1 + 1/2 + ... + 1/n, over w, heights in a row |
| SlashFree.NobodyStarves | chain/consensus.go:230-232 | the same for who every node of every run saw elected, as long as nothing was slashed on that node |
| SlashFree.RunsStayBounded | chain/consensus.go:200-204 | so does every node's election in every run, as long as nothing was slashed on that node |
| Effects.AcceptedExactly | chain/state.go:90-164 | exactly which transactions are accepted: positive amount, a recipient that names a key, fields signed by the sender's key, the expected nonce, a known kind, no self-send, and enough balance or bond |
| Effects.TransferMoves | chain/state.go:126-131 | a transfer takes its amount from the sender, gives it to the recipient, and touches no other account and no bond |
| Effects.DelegateMoves | chain/state.go:133-141 | a delegation moves its amount from the sender's balance to its bond behind that validator, and touches nothing else |
| Effects.UndelegateMoves | chain/state.go:143-157 | undelegating moves it back, never more than is bonded, and touches nothing else |
| Effects.NonceMoves | chain/state.go:162-163 | every kind uses up one nonce of the sender's and nobody else's |
| Effects.RefusedAtFirst | chain/state.go:77-83 | a block's transactions are refused exactly at the first that does not apply after those before it, with that one's error |
| Effects.RewardPays | chain/state.go:166-200 | after a reward each backer has its floor share more, the proposer its own share and all the shares leave over (the whole reward when nothing stands behind it), and nobody else anything |
| Effects.ChainAccounts | chain/state.go:225-251 | on any replayable chain, while supply fits: what each account owns, balance and bonds, is its allocation plus received less sent plus the rewards paid to it |
| Words.MulDivExact | chain/state.go:216-223 | mulDiv survives exactly when the product is below the divisor times 2^64, and then returns the true quotient, which fits |
| Words.MulDivCallersSafe | chain/state.go:216-223 | with a divisor at least as large as the second factor it never panics |
| Supply.RewardSplit | chain/state.go:171-200 | while stake and bonds fit a word the split never panics, each delegator gets the floor of its proportion, shares never exceed the reward, and the proposer keeps at least its own floor and at most one unit per delegator more |
| Supply.PaymentOrderIrrelevant | chain/state.go:181-199 | balances after paying do not depend on the order of payment |
| Ledger.ApplyTxSupply | chain/state.go:93-164 | no accepted transaction of any kind changes the supply except by whole wraps of a uint64 |
| Supply.ApplySupply | chain/state.go:77-88 | a block adds one reward if it names a proposer, up to whole wraps of a uint64, of which there are none while supply fits |
| Supply.ReplayMintsWord | chain/state.go:31-42 | Supply() of a replayed chain is the starting supply plus one reward per proposed block, in uint64 |
| Supply.GenesisMints | chain/state.go:231-251 | and exactly the genesis allocation plus the rewards while they fit |
| Supply.ReplayBonds | chain/state.go:139-158 | no empty inner map survives a block, and every kept bond is positive |
| Nonces.AppliedSequenced | chain/state.go:119-122 | a list that applies carries each sender's nonces consecutively and advances the recorded nonce by the sender's count |
| Nonces.RootBindsBody | chain/transaction.go:88-127 | of all lists that apply, from any states, at most one has a given root |
| Nonces.ChainNonces | chain/state.go:231-251 | in any replayable chain each sender's nonces are 0, 1, 2, ... in order, Nonces is the count, and no transaction appears twice |
| LedgerObjects.LedgerState.Clone | chain/state.go:58-71 | a clone starts as the ledger it copies |
| LedgerObjects.LedgerState.ApplyTransaction | chain/state.go:93-164 | writing the maps in place is one ledger step, and a rejected transaction leaves all of them as they were |
| LedgerObjects.LedgerState.Bond | chain/state.go:139-146 | only the one bond grows |
| LedgerObjects.LedgerState.Unbond | chain/state.go:147-158 | only the one bond shrinks, and an emptied inner map goes with it |
| LedgerObjects.LedgerState.PayReward | chain/state.go:171-200 | paying shares and dust in place is the reward split; false is the panic of bits.Div64 |
| LedgerObjects.LedgerState.PayBackers | chain/state.go:190-198 | the payment loop credits every share once and returns the sum paid |
| LedgerObjects.LedgerState.ReportSupply | chain/state.go:31-42 | the sum does not depend on map iteration order |
| LedgerObjects.CollectBackers | chain/state.go:172-181 | every positive bond behind the proposer is found once |
| LedgerObjects.ApplyBlock | chain/state.go:77-88 | the loop applies the block's transactions in order, then the reward, on a copy |
| LedgerObjects.Replay | chain/state.go:231-251 | the loop accepts exactly the chains the replay function accepts, with its errors |
| Merkle.RootsEqualExactly | chain/transaction.go:88-127 | two lists share a root exactly when their duplicate-last completions are equal |
| Merkle.EqualRootsPrefix | chain/transaction.go:114-127 | with one root the shorter list is a prefix and the rest of the longer repeats it |
| Merkle.EqualRootsSameLength | chain/transaction.go:88-98 | among lists of one length the root is injective |
| Merkle.RootBindsDistinct | chain/transaction.go:88-127 | among lists without repeats, of any lengths, the root is injective |
| Merkle.RootCollides | chain/transaction.go:114-127 | repeating the last transaction of any odd list of three or more leaves the root unchanged |
| Merkle.SmallRoots | chain/transaction.go:86-127 | nothing, a leaf, a pair, and a pair beside the last leaf paired with itself |
| Merkle.PathFolds | chain/transaction.go:135-182 | the generated proof folds to the root and has the tree's depth |
| Merkle.FoldSound | chain/transaction.go:166-182 | any path of any length, from any index, that folds a leaf to the root proves membership |
| Merkle.FoldPosition | chain/transaction.go:166-182 | a path of full depth proves the index too |
| Merkle.InclusionExact | chain/transaction.go:135-182 | a transaction is in the list exactly when some path folds it to the root |
| Merkle.MerkleProof | chain/transaction.go:135-159 | it fails exactly on an index outside the list and otherwise returns a proof that verifies |
| Merkle.VerifyMerkleProof | chain/transaction.go:166-182 | it accepts exactly the paths that fold to the root |
| Merkle.MerkleRoot | chain/transaction.go:88-98 | layer by layer it computes the root the lemmas are about |
| Merkle.NextLayer | chain/transaction.go:114-127 | one layer, the odd last node paired with itself |
| Merkle.WalkTree | chain/transaction.go:103-109 | the recursion reaches the single top node, or nothing from nothing |
| Chains.GrownPasses | chain/chain.go:69-105 | a chain grown from genesis only by AddBlock and CommitBlock always passes Validate and its state is its replay |
| Tamper.TipBindsChain | chain/chain.go:64-105 | tamper evidence: two chains that pass Validate with one tip hash have the same length, the same header and transactions at every height, and the same ledger |
| Tamper.ProposerSigned | chain/block.go:73-85 | on a chain that passes Validate every block naming a proposer carries that proposer's own signature over its header |
| Chains.CandidateExactly | chain/chain.go:121-147 | a candidate passes exactly when it is the next height on the tip's hash, rooted, signed by the proposer it names, and applies |
| Chains.AddMintsNothing | chain/chain.go:39-62 | a block added directly carries the transactions given, names no proposer and mints nothing |
| Chains.PassesMeansReplayed | chain/chain.go:90-102 | on a chain that passes Validate the state equals the replay in every map |
| Chains.DelegationsAgreeExact | chain/state.go:204-214 | the comparison decides equality exactly when its first argument has no empty inner map |
| Chains.PruningIsInvisible | chain/consensus.go:211-214 | a pruning node judges every candidate as one that never prunes, and after each height holds a true suffix of at least min(full, 256) and fewer than 512 blocks |
| Chains.DelegationsEqual | chain/state.go:204-214 | the loop computes that comparison in any iteration order |
| Chains.NewChainFromGenesis | chain/chain.go:31-37 | a chain of its genesis block and the replay of it, or the error of a genesis that does not replay |
| Chains.Chain.AddBlock | chain/chain.go:43-62 | the block derived from the tip is appended, or nothing changes and the error is returned |
| Chains.Chain.Check | chain/chain.go:125-147 | every check in the source's order, with the state committing would give |
| Chains.Chain.CommitBlock | chain/chain.go:111-119 | the block is appended exactly when the check passes; otherwise nothing changes |
| Chains.Chain.Validate | chain/chain.go:69-105 | no error exactly on the chains Tamper and PassesMeansReplayed are about, and an error names a block or map that is wrong as it says |
| LiveRuns.RacesAreInvisible | chain/cluster.go:312-361 | however the nodes' reports interleave, each height is recorded and logged once, in order and without gaps, as far as the furthest node reported, and the view equals the one seeded from the logged chain |
| LiveRuns.FeedAlwaysProvable | chain/cluster.go:336-361 | however the nodes' reports interleave, in every run over a starting chain whose blocks are linked: every transaction still in the 40-entry feed has its block among those kept whole, alone at its height, with a root that commits to it |
| LiveRuns.RestartRestoresView | chain/cluster.go:129-226 | where the starting chain itself rebuilds and equivocators keep to the fault budget of NodesAgree: rebuilding from the log succeeds, gives the ledger of the last logged height and seeds the very view kept incrementally |
| LiveRuns.RebuildSound | chain/cluster.go:151-160 | a log that rebuilds does so to its own blocks, linked, and to the ledger that replays them |
| LiveRuns.BuildChain | chain/cluster.go:151-160 | the loop rebuilds exactly the logs whose every block is accepted |
| LiveViews.RecordSeeds | chain/cluster.go:187-361 | recording the next block on the seeded view of a chain gives the seeded view of the longer chain, windows included |
| LiveViews.ViewShows | chain/cluster.go:187-226 | the view shows its tip's height and ledger, the newest 30 blocks and newest 40 transactions in order, each as it is, and how many blocks each proposer proposed |
| LiveViews.FeedCovered | chain/cluster.go:336-356 | every entry in the recent transactions belongs to a block still kept whole |
| LiveViews.FeedProvable | chain/cluster.go:336-344 | on rooted blocks at distinct heights that block is alone at its height with a root committing to its transactions |
| LiveViews.Cluster.constructor | chain/cluster.go:187-226 | seeding by one pass and a final trim gives the batch view |
| LiveViews.Cluster.RecordBlock | chain/cluster.go:312-361 | recording in place is one view step; a height already recorded changes nothing and is not logged again |
| LiveViews.Cluster.InclusionProof | chain/cluster.go:491-506 | for every transaction of a kept block that is alone at its height, a proof that verifies |
| LiveViews.BlockInclusionProof | chain/block.go:92-107 | a proof exactly when the block holds the transaction, and it verifies against the block's root |
| Coins.ParseUndoesFormat | web/src/api.ts:124-132 | every positive amount printed and stripped of its denomination parses back to itself; zero is refused |
| Coins.FormatInjective | chain/coin.go:37-48 | no two amounts print alike |
| Coins.FormatShortest | chain/coin.go:37-48 | what is printed is the shortest text the parser reads as that amount, so no zero is printed that could be left out |
| Coins.ParseExactly | web/src/api.ts:124-132 | the parser accepts exactly a spelling of a positive amount, digits with at most six more after a dot, with blanks around it, and reads it as coins and millionths |
| AddressCodes.AddressNames | chain/address.go:15-47 | an address names a key exactly when, the case of its hex digits apart, it is the address derived from that key |

## Left out

- NodeObjects.Node.RunHeight: one height; that `run` repeats it up to a maximum height or until cancelled is not modelled, nor is the pacing delay.
- Progress.ClusterProgresses: one run for each number of heights, with empty blocks but no bound on supply; that every run gets there is `Completion.ClusterCompletes`, while supply fits.
- Progress.OneMoreHeight: one continuation, as above.
- ElectionObjects.ElectionIsFair: the exact total at which int64 first wraps is not given; between total * (1 + 1/2 + ... + 1/n) and 2^63 the code may still be right.
- ElectionObjects.ElectedIsSchedule: the same gap.
- ElectionObjects.FixedNeverOverflows: the same gap.
- ElectionObjects.Election.constructor: assumes distinct addresses, like every theorem here; the source snapshots a set that repeats one and then acts on its first entry only.
- LedgerObjects.LedgerState.Clone: maps are values, so that a deep copy shares nothing with the original holds by construction.
- LiveRuns.RestartRestoresView: the clones of the ledger maps are values, so that the live view shares map objects with the chain's state is not captured.
- `Cluster.Snapshot`, `Account`, `Delegations`, `Evidence`, `Submit` and event subscription read or copy fields, or check the form of a transaction that `applyTx` checks again.
- `recordSlash`, `recordHeal`, `ValidatorSet.Slash` and `Restore` update what is displayed and nothing consensus reads.
- Goroutines, channels, mutexes, contexts and timers: replaced by atomic steps over inboxes. `Completion` says where runs end that give every node its turn; one that leaves a node out for ever, or whose proposer stays silent, stops short, as the code has neither timeouts nor round changes.
- Absolute bounds on the accumulator across slashes and heals: a restore shifts the sum, so none hold.
- Election continuity over `ResumeCluster`: the accumulator restarts at zero and slashes are forgotten by design; only ledger and view are recovered.
- `chain/generate.go`, `chain/mempool.go`, key generation, the byte layout of signed payloads, hex and JSON encoding, `cmd/` and the rest of `web/`.
