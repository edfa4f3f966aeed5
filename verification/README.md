# LINA, modelled and verified

A Dafny 4.11 model of the parts of LINA where state, concurrency or combinatorics make
correctness hard to see by reading: the shared-memory message chambers, the action ledger,
the chat tool loop and its history trimming, season advancement, four combinatorial
algorithms of the geometry code, and the GGUF header tool. `dafny verify dfyconfig.toml`
checks everything.

| file | what it models |
|---|---|
| `Wrappers.dfy`, `Sequences.dfy`, `Powers.dfy`, `Bytes.dfy`, `Framing.dfy` | optional values; sequences without repetition; powers; little-endian integers; length-prefixed frames and their decoder |
| `Chamber.dfy` | one chamber as a class over the bytes of its mapped file; the queue is decoded from those bytes and refines a bounded FIFO |
| `Spsc.dfy` | producer and consumer interleaved one memory access at a time |
| `History.dfy`, `ChatTurn.dfy` | trimming to the context budget; one turn of the tool loop |
| `Ledger.dfy` | the action table's statements, and the request handlers interleaved between them |
| `Seasons.dfy` | concurrent requests to advance a season |
| `Orbits.dfy`, `Combinations.dfy` | point sets modulo automorphisms; pruned point combinations |
| `Odometer.dfy` | enumeration of an affine space by restartable iterators |
| `Faces.dfy` | the face semigroup of a hyperplane arrangement |
| `Fields.dfy`, `Hyperplanes.dfy`, `Arrangements.dfy`, `CharPoly.dfy` | deletion, restriction and the characteristic polynomial over any field; its value at the size of a finite field counts points |
| `Spans.dfy`, `Pruning.dfy`, `Whitney.dfy` | spaces of affine forms; over any field and at every integer, the characteristic polynomial is Whitney's sum and depends on no choice made in computing it |
| `Gguf.dfy` | inserting a metadata pair into a GGUF header |

Protocols are transition systems: a total function `Do(state, step)` for one atomic action,
`Run` for a list of them, and theorems over every list, that is, over every schedule. Where
the source updates state in place there is a class or a loop with its invariants, proved
against the functions those theorems are about. The arrangement results hold over every
field; `GF2IsField` and `RealsAreAField` give a finite and an infinite one, and the face
semigroup is worked out over the latter.

## Where the code falls short of what it says

- `push` accepts an empty message, which `pop` takes for a corrupt frame and never passes
  (`EmptyMessageStalls`, `EmptyMessageBlocks`); one push on an idle chamber is enough
  (`EmptyPushIsNeverPopped`). Draining delivers everything exactly if no message is empty
  (`DrainingDeliversAllExactlyIf`). Otherwise `pop` refuses only when nothing was unread:
  `PopAnswersHonestly` gives the exact condition.
- The chat loop sorts pairs of tool and arguments, and the arguments are dictionaries, which
  Python does not order. A response that names one tool twice with different arguments is
  acted on, and then the turn is lost to an exception. `CrashesExactlyWhen` gives the
  exact condition, `TwoCommandsCrash` an input, `MemoryRecordsTurn` what is left in memory.
- The proposing handler logs "action remains pending" after any failure. It does so exactly
  if no claim and no rejection of the action took effect before; and the action is lost for
  good exactly if it is approved and no other handler owns it
  (`RemainsPendingExactlyWhen`, `FailureStrandsExactlyItsOwn`). `FailureAfterClaimExample`
  and `FailureAfterRejectExample` are inputs in which it does not remain pending.
- "Modify a pending proposal's payload, then execute the modified version": the handler
  executes the payload written last. That is its own exactly if no later modification took
  effect (`ModifyExecutesLastPayload`); `LaterModifyWins` is an input in which one did.
- Approval is "idempotent by claim": a second one carries nothing out. Its answer is the same
  unless the first ran the action with more output than the row keeps (`ApprovingAgain`).
- The characteristic polynomial of the empty arrangement is 1 in every dimension. Counting
  points, and Whitney's formula, are met exactly for non-empty arrangements and in dimension
  zero (`CharPolyCountsExactlyWhen`, `CharPolyIsWhitneyExactlyWhen`, `EmptyArrangementMiscounts`).
- The GGUF tool counts the key's length in characters but writes it in bytes: the key reads
  back exactly if it is ASCII (`KeyReadsBackExactlyIfAscii`, `NonAsciiKeyIsCut`).
- `points_of_bounded_height` with an iterator that yields nothing produces the origin and
  then fails (second clause of `PointsOfBoundedHeight`).

## Model

| member | source | states |
|---|---|---|
| Bytes.FourByteWord | backend/lina/ipc.py:17-18 | the length field is its four bytes, least significant first |
| Bytes.EightByteWord | backend/lina/ipc.py:100-106 | a counter is its two four-byte words, the low one first |
| Framing.DecodeStream | backend/lina/ipc.py:17-18 | framed messages decode back to themselves |
| Framing.StreamDecode | backend/lina/ipc.py:17-18 | whatever decodes is the framing of what it decodes to, and every message is of sendable size |
| Framing.DecodeAppend | backend/lina/ipc.py:133-134 | appending a frame to decodable bytes appends its message and nothing else |
| Chambers.Layout | backend/lina/ipc.py:39-53 | where magic, counters and ring bytes lie in the file, in numbers |
| Chambers.StagingKeepsQueue | backend/lina/ipc.py:133-135 | a frame that fits, written but not published, leaves the queue as it was, across the wrap |
| Chambers.PublishingAppends | backend/lina/ipc.py:135-136 | moving the head over it appends exactly that message |
| Chambers.PushRefines | backend/lina/ipc.py:123-136 | on any coherent file push behaves as a bounded FIFO: same outcome, same queue and counters; a push refused as too large or for a full ring changes no byte (one refused for the 64-bit counter leaves its frame staged, unpublished) |
| Chambers.PopRefines | backend/lina/ipc.py:138-154 | on any coherent file pop takes the first message, or refuses an empty queue or an empty first message and changes no byte |
| Chambers.PushTakesExactlyIf | backend/lina/ipc.py:123-136 | which messages push takes, and which refusal it gives, in numbers; the queue gains the message exactly then |
| Chambers.PopGivesExactlyIf | backend/lina/ipc.py:138-154 | pop gives the first message exactly if there is one and it is not empty; the queue loses exactly what is given |
| Chambers.RingRunRefines | backend/lina/ipc.py:123-154 | every run of pushes and pops on the bytes answers step for step as the FIFO does |
| Chambers.RunConserves | backend/lina/ipc.py:108-154 | over a run, queued plus accepted equals delivered plus still queued, in order; each counter moved by the framed bytes accepted or delivered |
| Chambers.EmptyMessageStalls | backend/lina/ipc.py:127-148 | once an empty message is first, no run moves the tail or delivers anything |
| Chambers.EmptyPushIsNeverPopped | backend/lina/ipc.py:123-148 | an idle chamber takes an empty message, unless its counter is at the end, and the next pop has nothing to give |
| Chambers.DrainingDeliversAllExactlyIf | backend/lina/ipc.py:138-154 | popping as often as there are messages delivers those before the first empty one: all of them exactly if none is empty |
| Chambers.Chamber.Create | backend/lina/ipc.py:71-78 | a new file holds the magic and an empty queue |
| Chambers.Chamber.Open | backend/lina/ipc.py:78-91 | a file of the wrong size or without the magic is refused, each its own way; otherwise the chamber shares the very bytes |
| Chambers.Chamber.WriteWrap | backend/lina/ipc.py:156-162 | the two slice writes store the data at its wrapped position and touch no other byte |
| Chambers.Chamber.ReadWrap | backend/lina/ipc.py:164-170 | the two slice reads return the wrapped window |
| Chambers.Chamber.Push | backend/lina/ipc.py:123-136 | the file and outcome are those PushRefines is about |
| Chambers.Chamber.Pop | backend/lina/ipc.py:138-154 | the file and result are those PopRefines is about, on every file, corrupt ones included |
| Chambers.Chamber.Reset | backend/lina/ipc.py:117-120 | both counters zero, queue empty, ring bytes untouched |
| Spsc.StepInv | backend/lina/ipc.py:22-27 | every single access of either side keeps the protocol invariant |
| Spsc.WriteSparesUnread | backend/lina/ipc.py:129-134 | a store into the frame being written, made on a stale tail, lands on no unread byte |
| Spsc.CheckDecides | backend/lina/ipc.py:146-150 | with the four length bytes in hand the length is the message's; an oversized or uncommitted frame is never seen |
| Spsc.FifoUnderInterleaving | backend/lina/ipc.py:22-27 | over every interleaving the popped messages are a prefix of the published ones, the counters are framed byte totals and never more than a ring apart |
| Spsc.AttachingSeesUndelivered | backend/lina/ipc.py:3-7 | at every moment of every interleaving the shared bytes decode to exactly the undelivered messages |
| Spsc.PopAnswersHonestly | backend/lina/ipc.py:141-150 | a pop gives up exactly if nothing was unread when it loaded the head, or the first unread message is empty |
| Spsc.EmptyMessageBlocks | backend/lina/ipc.py:147-148 | with an empty message first, no schedule moves the tail or delivers anything |
| Spsc.PopDelivers | backend/lina/ipc.py:138-154 | however the producer's accesses fall between those of a pop, it delivers the message that was first when it began, whole, unless that is empty |
| Spsc.PushPublishesExactlyIf | backend/lina/ipc.py:123-136 | however the consumer's accesses fall between those of a push, it publishes its message exactly if the frame fitted when it loaded the tail |
| History.Budget | backend/lina/lina_service.py:1338 | the effective budget is at least one character |
| History.TrimHistory | backend/lina/lina_service.py:1323-1348 | the backwards scan computes Trim, at the limit given, at the configured one if it is absent or zero, and at 1 if that is lower |
| History.TrimIsLongestSuffix | backend/lina/lina_service.py:1329-1348 | Trim keeps the longest suffix within the budget, or the last message alone |
| History.TrimIncremental | backend/lina/lina_service.py:1873-1880 | trimming as the exchange grows equals trimming it whole |
| History.TrimTwice | backend/lina/lina_service.py:1685-1769 | two budgets in turn are the smaller one |
| ChatTurn.RunTurn | backend/lina/lina_service.py:1762-1957 | the loop produces a turn: each pass is what voice, engine and tools answer to the trimmed exchange, all but the last go on; delivered are the last response, which is also the last in memory, and the verdict that weighed it; memory is listed entry by entry |
| ChatTurn.LoopAdvances | backend/lina/lina_service.py:1843-1886 | going on, which needs a signature, keeps chain, memory, proposals and repeat counter in step with the passes so far |
| ChatTurn.CrashesExactlyWhen | backend/lina/lina_service.py:1836-1853 | the turn is lost to the loop's own exception exactly if a pass below the ceiling acted on a response that names one tool twice with different arguments; that pass is the last |
| ChatTurn.TwoCommandsCrash | backend/lina/lina_service.py:1850-1853 | two different commands in one response are both carried out, and no words are stored or delivered |
| ChatTurn.GoesOnExactlyIf | backend/lina/lina_service.py:1836-1865 | the turn goes on after a pass exactly if something was carried out, the ceiling is not reached, no tool is named twice with different arguments, and the signature is not the fourth in a row |
| ChatTurn.ProposalsExactly | backend/lina/lina_service.py:1787-1815 | each pass's proposals: none, one withheld per intent, what the tools answer, or none without a ledger |
| ChatTurn.VoiceIsAsked | backend/lina/lina_service.py:1685-1705 | the first pass is given the trimmed history and then the user's message |
| ChatTurn.VoiceIsTold | backend/lina/lina_service.py:1870-1885 | a later pass is given the user's message and, at the end, her last words and one message per action carried out, in order, when they fit 9000 characters; the last of them always |
| ChatTurn.TurnIsBounded | backend/lina/lina_service.py:1843-1849 | a turn has at most max(1, MAX_TOOL_PASSES) passes |
| ChatTurn.SpinIsBroken | backend/lina/lina_service.py:1850-1865 | four passes in a row with one intent signature end the turn: no fifth |
| ChatTurn.ViolationEndsTurn | backend/lina/lina_service.py:1789-1841 | a violation-zone response acts on nothing and ends the turn |
| ChatTurn.TurnIsUnique | backend/lina/lina_service.py:1771-1886 | what the world answers determines the turn |
| ChatTurn.MemoryRecordsTurn | backend/lina/lina_service.py:1818-1947 | working memory gains one clipped tool result per executed or failed proposal, in order, and each pass's words once, in order, but for those of a pass that crashes |
| Ledger.ActionStore.Propose | backend/lina/actions.py:208-254 | a row is added exactly for an acceptable proposal, pending |
| Ledger.ActionStore.Claim | backend/lina/actions.py:283-295 | pending to approved, and only that |
| Ledger.ActionStore.Finalize | backend/lina/actions.py:297-307 | status and clipped output set by id alone |
| Ledger.ActionStore.Reject | backend/lina/actions.py:309-320 | pending to rejected, for the proposing user |
| Ledger.ActionStore.Modify | backend/lina/actions.py:322-334 | the payload of a pending row replaced |
| Ledger.ActionStore.Approve | backend/lina/lina_service.py:3276-3329 | claim, execution and finalization in order, or the report of what is settled, in one step |
| Ledger.ApprovingAgain | backend/lina/lina_service.py:3276-3329 | a second approval changes no row and answers the same, exactly unless the first ran an action with more output than is kept |
| Ledger.StepInv | backend/lina/lina_service.py:3205-3390 | every statement of every handler keeps the ownership, log and authorship invariant |
| Ledger.FinalizeStep | backend/lina/actions.py:297-307 | the unguarded finalize is safe because only the one owner that executed runs it |
| Ledger.ExecutedAtMostOnce | backend/lina/actions.py:3-6 | over every interleaving an action runs at most once, exactly once if executed or failed, never if pending or rejected, always with its row's payload |
| Ledger.SettledStays | backend/lina/actions.py:283-334 | a row that left pending never returns and keeps its payload; a terminal row never changes |
| Ledger.Lifecycle | backend/lina/actions.py:283-320 | the only status changes are pending to approved by a claim, pending to rejected by the proposing user, approved to executed or failed as its one owner reports |
| Ledger.ConsentDecides | backend/lina/lina_service.py:3228-3231 | the proposing handler may come to execute its pending action exactly if it is winter or the grant for its type is there and switched on |
| Ledger.ProposalBegins | backend/lina/actions.py:236-254 | a proposal is a pending row with no output, and nobody has set out to carry it out |
| Ledger.UnapprovedStep | backend/lina/lina_service.py:3224-3380 | a step sets somebody out to carry an action out exactly if it counsels it: an approval, an effective modification, or its proposer's consent in winter or under a grant switched on |
| Ledger.NothingRunsWithoutCounsel | backend/lina/lina_service.py:3224-3266 | whatever the schedule does for other users and actions, an action that no approval, no effective modification and no consent of its own proposer set going never runs and leaves pending only by rejection |
| Ledger.OrphanStays | backend/lina/lina_service.py:3231-3238 | an approved row without an owner stays so for ever and never runs again |
| Ledger.FailureStrandsExactlyItsOwn | backend/lina/lina_service.py:3230-3262 | a failing handler changes no row; any action can still be finished exactly if it is not approved or another handler owns it |
| Ledger.RemainsPendingExactlyWhen | backend/lina/lina_service.py:3259-3262 | whatever ran since the proposal, its handler's failure leaves it pending exactly if no claim and no rejection of it took effect |
| Ledger.FailureAfterClaimExample | backend/lina/lina_service.py:3230-3262 | a run in which a failed proposal ends approved, not pending, and never runs |
| Ledger.FailureAfterRejectExample | backend/lina/lina_service.py:3259-3262 | a run in which the failing handler never claimed and its action is rejected, not pending |
| Ledger.ClaimTakesLastPayload | backend/lina/lina_service.py:3373-3384 | what a claim hands over to execution is the payload written last |
| Ledger.ModifyExecutesLastPayload | backend/lina/lina_service.py:3365-3385 | over every schedule after a modification, the payload is that handler's own exactly if no later modification took effect, and what is executed, by it or by anybody, is the payload written last |
| Ledger.LaterModifyWins | backend/lina/lina_service.py:3368-3385 | an input that shows it: two handlers modify, the first executes the second's payload and the second finds nothing to claim |
| Seasons.SeasonStore.Advance | backend/lina/lina_service.py:1536-1609 | the transaction's statements in order have the effect of the one locked step |
| Seasons.StepInv | backend/lina/lina_service.py:1426-1612 | every step of every request keeps each user's tables in order |
| Seasons.AdvancesNeverRace | backend/lina/lina_service.py:1503-1612 | over every interleaving a user has one constraint row per season lived with only the last current, equal to the identity's season; log and audit run through the seasons in order, so at most three advances |
| Seasons.UnreadyNeverAdvances | backend/lina/lina_service.py:1477-1501 | while no request of a user is judged ready, no schedule changes the season |
| Seasons.AdvancesExactlyIf | backend/lina/lina_service.py:1477-1612 | a request, with anything between its steps, moves the season to the next one exactly if it is judged ready and the season is still the one it read; otherwise its commit leaves the season alone, and each answer says which |
| Seasons.FirstAdvance | backend/lina/lina_service.py:1426-1612 | a first request judged ready makes spring summer, in every table |
| Seasons.LatecomersChangeNothing | backend/lina/lina_service.py:1545-1550 | of requests that read one season, one advances; a later commit reports a season further on and changes no table |
| Orbits.OrbitsCoincide | docs/ppl_lattice_polytope.py:672-676 | sets in one orbit have the same orbit |
| Orbits.InOrbitExactly | docs/ppl_lattice_polytope.py:672-673 | the orbit is where the group's elements take the set, point by point |
| Orbits.SortedListAscends | docs/ppl_lattice_polytope.py:674 | the list compared is the set's numbers, each once, in increasing order |
| Orbits.LessExactly | docs/ppl_lattice_polytope.py:674-678 | comparing sorted lists is comparing the sets at the first number they do not share |
| Orbits.LeastIsFirst | docs/ppl_lattice_polytope.py:670-676 | in an orbit the least list belongs to the set that has the smallest number not shared with each other set |
| Orbits.Sweep | docs/ppl_lattice_polytope.py:670-676 | one pass over the group finds that set and strikes out exactly the orbit |
| Orbits.PointsetsModAutomorphism | docs/ppl_lattice_polytope.py:668-678 | the answer lists, in the order of the first number at which sets differ, exactly the sets that have, in the orbit of some input, the smallest number not shared with each other member |
| Orbits.AnswerIsDetermined | docs/ppl_lattice_polytope.py:669-678 | the answer does not depend on the order of pop |
| Orbits.OneRepresentativePerOrbit | docs/ppl_lattice_polytope.py:622-635 | two inputs share a representative exactly if they lie in one orbit |
| Combinations.IterateExact | docs/ppl_lattice_polytope.py:582-596 | exactly the increasing index lists of length n for which one inequality, of those still saturated, holds all the points |
| Combinations.YieldedFromTheStart | docs/ppl_lattice_polytope.py:581-598 | from the starting call: the increasing lists of n points that lie on one inequality, whichever it is |
| Combinations.YieldedInOrder | docs/ppl_lattice_polytope.py:582-596 | of two lists, the one yielded first has the smaller index where they first differ; so none comes twice |
| Combinations.PruningIsFiltering | docs/ppl_lattice_polytope.py:588-591 | pruning early equals generating all combinations and keeping those whose points lie on one inequality |
| Combinations.NothingBelowOne | docs/ppl_lattice_polytope.py:592-596 | nothing is yielded for n below one |
| Odometer.PointsOfBoundedHeight | docs/affine_space.py:1043-1069 | the loop ends after size^n points, the k-th being the digits of k; with an empty iterator it yields the origin and fails |
| Odometer.EveryTupleAppears | docs/affine_space.py:1043-1069 | every tuple over the iterator's values is among them |
| Odometer.NoTupleTwice | docs/affine_space.py:1043-1069 | no tuple comes twice if the values are distinct |
| Faces.ProductIsRealised | docs/arrangement.py:2490-2494 | every point of the segment from f, close enough to f, has the product sign vector |
| Faces.FacesAreClosed | docs/arrangement.py:2484-2490 | the product of two faces is a face |
| Faces.ProductAssociates | docs/arrangement.py:2501-2505 | the product is associative |
| Faces.ProductIsLeftRegular | docs/arrangement.py:2501-2505 | xx = x and xyx = xy |
| Faces.Sides | docs/arrangement.py:2550-2574 | the side loop on representative points computes the table's product |
| Faces.FaceProduct | docs/arrangement.py:2576-2581 | the search for the product among the faces always finds it |
| Faces.TableRow | docs/arrangement.py:2691-2698 | one matrix of the table, with no lookup missing |
| Faces.SemigroupTable | docs/arrangement.py:2677-2699 | the whole table names the product of every pair |
| Faces.TableIsRealised | docs/arrangement.py:2490-2494 | from a point of face i, the points towards a point of face j, close enough, lie in the face that entry [j][i] names |
| Faces.TableAssociates | docs/arrangement.py:2700 | the algebra built on the table is associative, as it is told to assume |
| Hyperplanes.OnExactlyIfLifted | docs/arrangement.py:1267-1275 | a point lies on the hyperplane exactly if it is the lift of what is left when the pivot is dropped |
| Hyperplanes.ReducedKeepsValue | docs/arrangement.py:1270-1278 | on the hyperplane, every reduced hyperplane keeps its value |
| Arrangements.Deletion | docs/arrangement.py:1199-1207 | exactly the given hyperplanes are removed, or an error if one is missing |
| Arrangements.Restriction | docs/arrangement.py:1263-1278 | the loop builds the list of reduced hyperplanes, or an error if the hyperplane is missing |
| Arrangements.ReducedMissed | docs/arrangement.py:1270-1276 | the reductions left out as constant are met by no point of the hyperplane |
| Arrangements.DeletionRestriction | docs/arrangement.py:951-956 | over any field, the points of the first hyperplane off all others are the lifts of the points off the restriction |
| CharPoly.Restrict | docs/arrangement.py:951-953 | restriction constructs an arrangement in one dimension less with strictly fewer hyperplanes |
| CharPoly.NeverRankZero | docs/arrangement.py:946-955 | from a non-empty arrangement neither recursive call meets an empty one |
| CharPoly.CountRestriction | docs/arrangement.py:951-956 | the points deletion adds are as many as the points off the restriction |
| CharPoly.CountParallels | docs/arrangement.py:946-947 | k parallel hyperplanes miss q^n - k q^(n-1) points |
| CharPoly.CharPolyCounts | docs/arrangement.py:944-956 | over a field with q elements the polynomial at q is the number of points off a non-empty arrangement, whatever order, pivots and scalars are used |
| CharPoly.CharPolyCountsExactlyWhen | docs/arrangement.py:944-956 | the count is right exactly if the arrangement is non-empty or the dimension is zero |
| CharPoly.EmptyArrangementMiscounts | docs/arrangement.py:948-949 | the empty arrangement on a line over two elements answers 1, not 2 |
| Spans.Exchange | docs/arrangement.py:549-586 | the exchange property behind rank: a form that joining another brings into a space generates the same space |
| Pruning.PrunedOfSame | docs/arrangement.py:944-956 | the value depends only on which hyperplanes there are: not on their order, scalars or repetitions |
| Pruning.CharPolyIsPruned | docs/arrangement.py:944-956 | over any field and at every q, deletion and restriction in coordinates compute the recurrence on forms |
| Whitney.CodimMeans | docs/arrangement.py:549-586 | forms meet exactly if none excludes every point, and then at most n of them are independent |
| Whitney.CharPolyIsWhitney | docs/arrangement.py:893-956 | over any field and at every q, the recursion is the signed sum over the sub-arrangements with a common point of q to their dimension |
| Whitney.CharPolyIsWhitneyExactlyWhen | docs/arrangement.py:938-956 | that holds at every q exactly if the arrangement is non-empty or the dimension is zero |
| Whitney.ChoicesDoNotMatter | docs/arrangement.py:926-936 | permuting the coordinates, reordering the hyperplanes and scaling them leave the polynomial as it is, over any field |
| Gguf.Utf8ReadsBack | scripts/gguf_add_key.py:34 | the key's bytes decode, as UTF-8, to its characters |
| Gguf.AsciiIsItself | scripts/gguf_add_key.py:34 | the bytes of an ASCII key are its characters |
| Gguf.AddKey | scripts/gguf_add_key.py:21-45 | which inputs are refused and how, and the file written otherwise |
| Gguf.CopyRest | scripts/gguf_add_key.py:41-45 | every byte from offset 24 is copied once and in order |
| Gguf.PairIsInserted | scripts/gguf_add_key.py:31-45 | for an ASCII key the output reads as the new pair, then the original pairs, then the same tensor section; it reads at all exactly if the input did |
| Gguf.KeyReadsBackExactlyIfAscii | scripts/gguf_add_key.py:33-36 | the new key reads back exactly if it is ASCII |
| Gguf.NonAsciiKeyIsCut | scripts/gguf_add_key.py:33-36 | a two-byte character reads back as its first byte |

## Left out

- Chambers.Chamber.Open: creating the path, mapping, closing and everything else about the file system.
- Spsc.StepInv: assumes that 64-bit counter accesses and single-byte accesses are atomic and seen in one global order; `reset` is not a step, since it writes the two counters separately and is only meaningful when both sides rest.
- `IPCBridge`: two chambers that share nothing.
- ChatTurn.RunTurn: exceptions raised by the voice, the engine or the tools, the foresight polling loop, archiving and metrics; `signature` stands for the JSON of the sorted intents, and arguments are maps to text, equal exactly when the source's dictionaries are.
- `_as_api_history` and the lookup of the last evaluation, which never finds one.
- Ledger.ActionStore.Propose: resolving a path inside the access roots is one Boolean input.
- Ledger.StepInv: what an execution does is abstract; the handlers pass `execute_action` an argument its signature lacks, which the `Fail` step covers. Notes to memory, events and the audit column change no status.
- `process_tool_intents` is the same sequence of ledger statements as the proposing handler and adds no step.
- Seasons.StepInv: the readiness thresholds are one Boolean input, the numeric bounds of a constraint row are not carried, and the transaction is one step under the row lock. That the lock lasts to the end of the block is an assumption: the statements go through `self.db`, not through the connection that holds the transaction. The engine cache across awaits is not modelled.
- Orbits.PointsetsModAutomorphism: the translation between points and their numbers, and the computation of the automorphism group, which is taken as given.
- Combinations.IterateExact: what is done with each combination (planes, fibers) is polyhedral computation.
- Odometer.PointsOfBoundedHeight: what the field's iterators yield, and floating-point tolerance.
- Faces.FaceProduct: the list of faces is taken as complete; computing faces, regions and vertices is polyhedral computation. Numbers are exact reals.
- Arrangements.IsArrangement: that the constructor leaves no two scalar multiples of one hyperplane, over any field, is an assumption about `primitive`, which is not part of this model; the source shows only the set of results and the check of h against -h.
- CharPoly.Construct: likewise that it keeps one multiple of each hyperplane it is given.
- CharPoly.CharPolyCounts: the polynomial is taken by its value at an integer, not as a coefficient list; rank one is stated as all normals being multiples of one; which scalar, order and pivot the hyperplane classes choose is left open, and the result holds for every choice.
- Gguf.PairIsInserted: how long a value of each type is, other than UINT32, is an arbitrary function; alignment of the tensor section is not claimed.
- Prompts, HTTP, SQL text, providers, speech, browser, embeddings, metrics and the remaining polyhedral code: no property of the kind proved here.
