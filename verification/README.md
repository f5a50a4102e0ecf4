# DarkHarrbor verification

A Dafny model of the stateful cores of DarkHarrbor, with proofs about every run of them. Each core is
modelled twice where the program changes state: as functions on values, about which the whole-run
lemmas are proved, and as classes and methods in the program's own form, proved equal to those
functions. `dafny verify dfyconfig.toml` checks the project.

- **Account leases** (`LeaseSpec`, `LeaseRuns`, `LeaseFairness`, `Governor`, `GovernorRuns`): the priority and
  fair-share semaphore as a machine whose steps are the critical sections of any number of callers, including
  a grant racing a cancellation. `ConnCeiling` is the learned connection ceiling beside it.
- **HTTP resolve** (`ResolveEntry`, `ResolveRuns`, `ResolveAnswers`): one entry of the coordinator with overlapping calls and
  a clock that does not go back.
- **Proof-covered bytes** (`Proofs`, `ProofWindow`, `CanonicalReader`): the greedy cover and splice of a
  window, and the reader that streams verified blocks. Recovery is an oracle that fails or returns the
  true bytes of a proof's span.
- **Delivery and ranges** (`PlaybackCopy`, `Text`, `ByteRanges`, `ChunkTable`): the account of observed
  bytes, the byte-range parser, bounds, printer and validators (sections 14.1.2, 14.2 and 14.4 of
  RFC 9110), and the chunk tables.
- **Smaller machines**: child minting of playlists (`HlsMint`, `HlsPaths`), the debounced notifier (`ReadyNotifier`), the
  audit rotation (`DecayAudit`), the identity window (`IdentityWindow`, `IdentityAnswers`) and the file tree
  (`FileTree`, `FileLeaves`).

Reader, writer, clock, observer, store, provider handler, recovery and the drawing of identifiers are
parameters of the methods and steps, so every statement holds whatever they do.

## Where the code does less than it says

The model follows the code. Each of these is a proved run or input, beside the exact condition under
which the promise does hold:

- `Invalidate` says that the next forced Resolve is a fresh generation. It joins a forced call from before the
  Invalidate if, and only if, that call still has not finished (`ForcedAfterInvalidate`,
  `ForcedAfterInvalidateCanBeStale`).
- The notifier is meant to fire after a short debounce window. While notifications keep
  coming, a loop that keeps up can be kept from starting any refresh if, and only if, no two successive ones
  are more than two seconds apart; at exactly two seconds the token and the tick are ready together
  (`RefreshCanBePutOff`).
- An ambiguous identity window can be bound, or a clear one not, after the observation map was full
  (`DroppedObservationIsForgotten`, `SpreadBurstMisleads`). Unlearned batches are answered rightly at any point of
  a run, and after any silence that might follow it, if, and only if, whenever the map drops an observation two
  of its own entries were seen at that very moment (`AnswersAreRight`); with no two events at one moment, if and
  only if no observation meets a full window (`AnswersNeedRoom`). Later observations can still hide a harmful
  drop from everyone who asks. The map itself shows the window exactly under the latter condition, ties or not
  (`WindowRefinesHistory`).
- The IMDb check of an identity lets white space between "tt" and the digits pass (`NormalizedMeansTitle`,
  `SpacedTitleIsValid`).

## Model

| member | source | states |
|---|---|---|
| `LeaseSpec.BetterIsStrictTotalOrder` | src/internal/accountgov/accountgov.go:284-292 | the comparison is a strict total order on the waiters of one queue, and is the rule spelled out: no more urgent; as urgent, no fewer grants to the session; as few, no earlier |
| `LeaseSpec.BestOfFirstBeats` | src/internal/accountgov/accountgov.go:267-272 | after each step of the scan the candidate beats every waiter looked at so far |
| `LeaseSpec.BestIsLeast` | src/internal/accountgov/accountgov.go:267-273 | the scan ends at the least waiter of the queue, and no other position is least |
| `LeaseSpec.BestIsForemost` | src/internal/accountgov/accountgov.go:250-292 | the scan ends at the one waiter that the rule, spelled out, puts behind no other |
| `LeaseRuns.FastPathKeepsInv` | src/internal/accountgov/accountgov.go:203-208 | taking a free unit keeps the invariant of all runs; it is possible only when nobody waits |
| `LeaseRuns.JoiningTheQueueKeepsInv` | src/internal/accountgov/accountgov.go:209-212 | joining the queue happens only at full capacity and keeps the invariant |
| `LeaseRuns.CancelWaiterKeepsInv` | src/internal/accountgov/accountgov.go:226-239 | cancellation, whether the waiter is still queued or was granted meanwhile, keeps the invariant |
| `LeaseRuns.GivingUpAUnitKeepsInv` | src/internal/accountgov/accountgov.go:243-247 | a unit granted to a cancelled call goes back without loss or double count |
| `LeaseRuns.HandOffKeepsInv` | src/internal/accountgov/accountgov.go:267-277 | the direct hand-off moves one unit to one queued call and leaves the number in use alone |
| `LeaseRuns.StepKeepsInv` | src/internal/accountgov/accountgov.go:196-278 | every step of every caller keeps the invariant: conservation, no idle capacity, exact grant and denial counts |
| `LeaseRuns.RunKeepsInv` | src/internal/accountgov/accountgov.go:196-278 | the invariant holds after every interleaving |
| `LeaseFairness.LeasesAreConserved` | src/internal/accountgov/accountgov.go:90-97 | in every run the units in use are exactly the held and the granted-but-uncollected ones, never above capacity, and equal to it while anyone waits |
| `LeaseFairness.QuiescentMeansEmpty` | src/internal/accountgov/accountgov.go:196-278 | once every caller has finished nothing is in use or queued, and each denial counter is the number of calls that failed for its reason with its priority, 0 to 5, or with any other priority under 6 |
| `LeaseFairness.ReturningFindsTheUnit` | src/internal/accountgov/accountgov.go:243-247 | the default arm of the last select in cancelWaiter is never taken |
| `LeaseFairness.OnlyTheBestIsAdmitted` | src/internal/accountgov/accountgov.go:250-278 | while anyone waits, the only call a step can admit is the least waiter: no barging |
| `LeaseFairness.AdmittedInOrder` | src/internal/accountgov/accountgov.go:250-292 | while a call waits, one that is granted had been waiting too, is no less urgent; between equally urgent ones its session has had no more grants; between equals there it came no later |
| `LeaseFairness.NoLessUrgentAdmission` | src/internal/accountgov/accountgov.go:280-287 | no call is admitted past a more urgent waiter |
| `LeaseFairness.RunIsFair` | src/internal/accountgov/accountgov.go:284-301 | over any run in which a waiter waits and nobody more urgent waits or arrives, its session ceiling does not rise and other sessions stay within one of it |
| `LeaseFairness.BoundedBypass` | src/internal/accountgov/accountgov.go:250-292 | while a waiter of session s stands behind k of its own session and nobody more urgent waits or arrives, another session t gets at most max(0, served[s]+k-served[t]+1) grants, and s itself at most k |
| `LeaseFairness.NoStarvation` | src/internal/accountgov/accountgov.go:250-292 | as long as nobody more urgent waits or arrives, the number of hand-offs a waiter can sit through is bounded by a number computed when it starts to wait |
| `AccountGovernor.SelectBest` | src/internal/accountgov/accountgov.go:267-272 | the loop returns the least waiter, the one the rule admits |
| `AccountGovernor.IndexOf` | src/internal/accountgov/accountgov.go:231-238 | the loop returns the first position of the caller's own waiter, or the length |
| `AccountGovernor.Governor.constructor` | src/internal/accountgov/accountgov.go:144-153 | every operation class starts empty and unbounded |
| `AccountGovernor.Governor.SetCapacity` | src/internal/accountgov/accountgov.go:160-168 | sets or removes one class's capacity and touches no other class |
| `AccountGovernor.Governor.MarkServedLocked` | src/internal/accountgov/accountgov.go:294-301 | counts one more grant for the session, creating the table when it is missing |
| `AccountGovernor.Governor.AcquireLocked` | src/internal/accountgov/accountgov.go:196-212 | refines Enter; an unbounded class grants and records nothing; no other class changes |
| `AccountGovernor.Governor.CancelLocked` | src/internal/accountgov/accountgov.go:226-239 | refines Cancel and says whether the waiter was still queued |
| `AccountGovernor.Governor.ReturnUnit` | src/internal/accountgov/accountgov.go:240-247 | refines ReturnIfReady: the unit is released exactly when it had been handed over; nothing happens to a class whose capacity was removed |
| `AccountGovernor.Governor.HandOffLocked` | src/internal/accountgov/accountgov.go:267-277 | refines the hand-off of ReleaseUnit on the maps changed in place; the unit goes to the waiter the rule, spelled out, admits, and to its session's count |
| `AccountGovernor.Governor.Release` | src/internal/accountgov/accountgov.go:254-278 | refines ReleaseUnit for a configured class, does nothing for an unbounded one; with a queue in arrival order the waiter the rule, spelled out, admits gets the unit, and with none the number in use goes down |
| `AccountGovernor.Lease.Release` | src/internal/accountgov/accountgov.go:90-97 | the first Release reaches the governor, later ones change nothing |
| `GovernorRuns.Admit` | src/internal/accountgov/accountgov.go:196-212 | one Acquire on the object is one Acquire step of the machine |
| `GovernorRuns.Carry` | src/internal/accountgov/accountgov.go:226-278 | cancelling, giving back and releasing on the object are the machine's steps |
| `GovernorRuns.ActElsewhere` | src/internal/accountgov/accountgov.go:158-278 | configuring, acquiring, cancelling, giving back and releasing on another class leave this class alone |
| `GovernorRuns.Drive` | src/internal/accountgov/accountgov.go:131-278 | after any sequence of calls on the object, on this class at fixed capacity and of every kind on others, its state for this class is that of a run of the machine whose steps are exactly those calls in order; so its queue is in arrival order, capacity is never exceeded and never idle while anyone waits |
| `ConnectionCeiling.ConnCeiling.constructor` | src/internal/accountgov/accountgov.go:368-379 | starts at the configured bound, floored at one |
| `ConnectionCeiling.ConnCeiling.SetGrowInterval` | src/internal/accountgov/accountgov.go:390-396 | a positive interval replaces the old one, anything else is ignored |
| `ConnectionCeiling.ConnCeiling.MaybeGrowLocked` | src/internal/accountgov/accountgov.go:414-427 | refines Grow: at most one unit, only after a whole interval |
| `ConnectionCeiling.ConnCeiling.Current` | src/internal/accountgov/accountgov.go:407-412 | reads the ceiling after the growth that has become due |
| `ConnectionCeiling.ConnCeiling.OnRejected` | src/internal/accountgov/accountgov.go:434-443 | refines Reject: half, floored at one, and the interval starts anew |
| `ConnectionCeiling.CeilingStaysInBounds` | src/internal/accountgov/accountgov.go:355-443 | in every run 1 <= current <= configured |
| `ConnectionCeiling.RejectionsHalve` | src/internal/accountgov/accountgov.go:434-443 | k rejections lead from the configured value to max(1, configured div 2^k) in every run without growth, however long it is and whatever reads lie in between |
| `ConnectionCeiling.ShortRunNeverGrows` | src/internal/accountgov/accountgov.go:414-427 | a run shorter than the grow interval does not grow |
| `ConnectionCeiling.BurstHalves` | src/internal/accountgov/accountgov.go:414-443 | so k rejections within one interval halve k times |
| `ConnectionCeiling.GrowthIsPaidFor` | src/internal/accountgov/accountgov.go:414-427 | every unit grown since a rejection has had a whole interval of its own |
| `ConnectionCeiling.GrowthBound` | src/internal/accountgov/accountgov.go:414-427 | since a rejection at t0 that left c0, the ceiling at t is at most c0 + (t - t0) div growEvery |
| `ConnectionCeiling.WideReadsRestore` | src/internal/accountgov/accountgov.go:414-427 | after a rejection each read a whole interval after the one before raises the ceiling by exactly one, until the configured value |
| `ConnectionCeiling.CeilingRecovers` | src/internal/accountgov/accountgov.go:407-427 | so a ceiling left alone for long enough is read at its configured value again |
| `ResolveEntry.EffectiveTTL` | src/internal/api/httpresolve.go:304-316 | a lifetime is the time to the expiry less 30 seconds, at most 600 seconds, and 60 seconds without an expiry; none exactly when that moment is past |
| `ResolveEntry.CacheableCopy` | src/internal/api/httpresolve.go:322-328 | the copy keeps URL, expiry and refresh context, and its headers if they fit the bound; what it has fits |
| `ResolveEntry.HttpResolveEntry.ResolveLocked` | src/internal/api/httpresolve.go:139-189 | refines Decide on the entry's fields |
| `ResolveEntry.HttpResolveEntry.CompleteLocked` | src/internal/api/httpresolve.go:264-295 | refines Complete on the entry's fields; a current success is cached for its lifetime, a current failure starts the cooldown and drops the cache |
| `ResolveEntry.HttpResolveEntry.Invalidate` | src/internal/api/httpresolve.go:346-354 | refines Invalidated on the entry's fields |
| `ResolveRuns.StartKeepsInv` | src/internal/api/httpresolve.go:172-188 | starting a call keeps the invariant of all runs: it is tracked, logged and alone in its generation |
| `ResolveRuns.PublishingKeepsInv` | src/internal/api/httpresolve.go:278-294 | what the current call publishes is backed by its own start and completion in the log |
| `ResolveRuns.SupersededFinishKeepsInv` | src/internal/api/httpresolve.go:264-278 | a superseded completion keeps the invariant |
| `ResolveRuns.RunKeepsInv` | src/internal/api/httpresolve.go:128-354 | the invariant holds after every interleaving of Resolve, run and Invalidate |
| `ResolveRuns.CacheHitIsFresh` | src/internal/api/httpresolve.go:139-159 | a file answered from the cache came from a call with nothing started or invalidated since that call's own start, and its age is bounded by the maximum and by its expiry |
| `ResolveRuns.CooldownErrorIsFresh` | src/internal/api/httpresolve.go:160-169 | an error answered from the cooldown came from such a call, less than five seconds ago |
| `ResolveRuns.LateCompletionIsSilent` | src/internal/api/httpresolve.go:264-295 | in every run, a call superseded by a later start or Invalidate changes no cached or failure state when it completes |
| `ResolveRuns.SingleFlightInEveryRun` | src/internal/api/httpresolve.go:172-188 | at most one running call has the current generation and it is the tracked one; untracked ones are strictly older; a live cache excludes a tracked call |
| `ResolveRuns.TrackedCallIsShared` | src/internal/api/httpresolve.go:172-187 | only a forced caller passing a normal call starts another; a forced caller that waits waits on a forced call |
| `ResolveRuns.ForcedCallIsShared` | src/internal/api/httpresolve.go:172-187 | any number of callers overlapping one forced call add no handler call |
| `ResolveRuns.ForcedAfterInvalidate` | src/internal/api/httpresolve.go:338-354 | whatever happens between an Invalidate and a later forced Resolve, the latter waits on a call from before the Invalidate if and only if that call was forced and has not finished since; otherwise the call it waits on, or the one that resolved the cached file it gets, started after the Invalidate |
| `ResolveRuns.ForcedAfterInvalidateCanBeStale` | src/internal/api/httpresolve.go:338-354 | a run in which it waits on a call from before the Invalidate |
| `ResolveAnswers.FileIsServed` | src/internal/api/httpresolve.go:139-189 | after a current call has come back with a file, whatever else goes on as long as nothing is started or invalidated: during the file's lifetime normal callers, and forced ones from an older generation, get that file, with its headers if they fit; every other caller starts the next call |
| `ResolveAnswers.FailureIsServed` | src/internal/api/httpresolve.go:160-188 | after a current call has failed, likewise: for five seconds normal callers get its error; every other caller starts the next call |
| `ResolveAnswers.NormalCallersAddNoCall` | src/internal/api/httpresolve.go:151-188 | until that answer lapses, any number of normal callers, with any older calls coming back meanwhile, add no handler call |
| `Proofs.ProofAt` | src/internal/api/http_crosslane.go:199-218 | the scan finds a proof exactly when some eligible one covers the byte, and then one that ends first |
| `ProofWindow.ChainEndsIncrease` | src/internal/api/http_crosslane.go:55-65 | the ends of the chosen proofs strictly increase and together they cover every byte up to the last end |
| `ProofWindow.ChainIsNoLonger` | src/internal/api/http_crosslane.go:56-58 | no proof is chosen twice; once all are used up nothing covers the next byte |
| `ProofWindow.SelectWindow` | src/internal/api/http_crosslane.go:54-65 | the loop terminates, and succeeds exactly when every byte of [start, end] lies in some eligible proof |
| `ProofWindow.CopyOverlap` | src/internal/api/http_crosslane.go:109-114 | copying a block writes the true bytes of its overlap and no other position |
| `ProofWindow.SpliceWindow` | src/internal/api/http_crosslane.go:89-116 | the spliced buffer is the true bytes of [start, end], every position written; the overlap error is unreachable |
| `ProofWindow.RecoverWindow` | src/internal/api/http_crosslane.go:21-117 | a result is exactly the true bytes of [start, end]; each error if and only if its reason holds (out of reach, no usable listing, some byte that no loaded proof of an admitted kind vouches for, no candidates), and past those only for a listed proof that does not recover or has no geometry |
| `ProofWindow.CoveredMeansVouched` | src/internal/api/http_crosslane.go:199-218 | a byte is covered exactly if some loaded proof vouches for it: authoritative, of one block, from torrent pieces, a Merkle tree or PAR2, at most 64 MiB inside the object, and of this representation or a converged one |
| `CanonicalReader.ListingIsComplete` | src/internal/store/content_proofs.go:95-98 | the window query leaves out no usable proof of a byte inside the window |
| `CanonicalReader.CachedLookupIsExact` | src/internal/api/mediaflow_owned.go:797-825 | looking a byte up in the cached listing gives the same answer as in the whole store |
| `CanonicalReader.CoveredMeansAuthorized` | src/internal/api/mediaflow_owned.go:814-825 | a byte is covered exactly if some proof authorizes it: authoritative, from a torrent, PAR2, an archive's or server's digest or a metalink, at most 8 MiB inside the object |
| `CanonicalReader.LookupAnswers` | src/internal/api/mediaflow_owned.go:797-828 | a lookup in the cached listing finds a proof exactly if one in the store authorizes the byte, and finds such a one |
| `CanonicalReader.Reader.constructor` | src/internal/api/mediaflow_owned.go:767-769 | a reader starts with nothing emitted and nothing buffered |
| `CanonicalReader.Reader.RefreshProofs` | src/internal/api/mediaflow_owned.go:797-812 | a listing that reaches the cursor is kept; otherwise the new one is taken for the window at the cursor, or the stated error returned, each exactly for its reason |
| `CanonicalReader.Reader.TakeBlock` | src/internal/api/mediaflow_owned.go:829-855 | the buffer becomes the true bytes from the cursor to the end of the block or of the range; each error exactly for its reason; the overlap error is unreachable |
| `CanonicalReader.Reader.SelectBlock` | src/internal/api/mediaflow_owned.go:814-855 | where the listing answers for a set of stored proofs, a gap is reported exactly if none of them authorizes the byte at the cursor |
| `CanonicalReader.Reader.LoadVerifiedBlock` | src/internal/api/mediaflow_owned.go:793-856 | whatever is listed, the buffer gets true bytes or the call fails; where the listings answer for a set of stored proofs, a gap is reported only when none of them covers the cursor, and coverage is enough given recovery |
| `CanonicalReader.Reader.Read` | src/internal/api/mediaflow_owned.go:772-791 | over any calls with any buffer sizes and any listings the bytes emitted are the next true bytes; a successful Read fills the caller's buffer or empties its own and makes progress; EOF exactly at the end; gaps are reported as by LoadVerifiedBlock |
| `PlaybackCopy.TileCoversOnce` | src/internal/api/mediaflow.go:545-620 | spans that tile a stretch are in order, adjacent and without overlap |
| `PlaybackCopy.AttemptKeepsAccount` | src/internal/api/mediaflow.go:567-585 | an observation, successful or not, keeps the account of delivered bytes and the retry discipline |
| `PlaybackCopy.Tracker.Flush` | src/internal/api/mediaflow.go:552-589 | keeps the account; a successful observation outside the delay clears the retained span |
| `PlaybackCopy.Tracker.ObserveSpan` | src/internal/api/mediaflow.go:567-588 | makes one attempt, on the retained span grown to the current end |
| `PlaybackCopy.Tracker.ObserveAtEnd` | src/internal/api/mediaflow.go:608-615 | at end of input the retained span is tried once more, whatever the delay |
| `PlaybackCopy.Tracker.TakeTurn` | src/internal/api/mediaflow.go:591-619 | one turn ends the copy exactly for the source's reasons and keeps the account |
| `PlaybackCopy.CopyEndsForItsReason` | src/internal/api/mediaflow.go:591-619 | a copy goes on while every turn writes all it read and has more to read; it ends with the first that does not, finished only at the end of the input with everything written, else with that turn's own error |
| `PlaybackCopy.Tracker.Copy` | src/internal/api/mediaflow.go:545-620 | the spans observed tile delivery from the initial offset up to the retained span or the last byte written; after a final successful flush they are exactly the bytes written |
| `ByteRanges.ParsedIsWellFormed` | src/internal/api/mediaflow.go:858-889 | what the parser accepts is a suffix, an open or a closed range that fits 64 bits |
| `ByteRanges.RangeReads` | src/internal/api/mediaflow.go:858-889 | the Range grammar, both ways: which headers are accepted, and as which range |
| `ByteRanges.BoundsAreTheSelection` | src/internal/api/mediaflow_owned.go:679-701 | the span is exactly the bytes the range selects in section 14.1.2 of RFC 9110, and 416 exactly when it selects none |
| `ByteRanges.PrintedIsAccepted` | src/internal/api/mediaflow_owned.go:900-904 | the headers printed for a served span pass the validator for that request and read back to the span |
| `ByteRanges.RangeRoundTrip` | src/internal/api/mediaflow.go:858-937 | parse, bound, print, validate and read back agree for every accepted header and every object |
| `ByteRanges.WholeObjectRoundTrip` | src/internal/api/mediaflow_owned.go:683-685 | without a range the whole object is served and its length reads back |
| `ByteRanges.ValidatedSpanWasRequested` | src/internal/api/mediaflow.go:891-937 | a Content-Range that passes holds only bytes the request selects, of every object it can describe, be its total given or open, and starts at the requested byte, or for a suffix ends at the object's last |
| `ByteRanges.AcceptedMeansAnswered` | src/internal/api/mediaflow.go:891-937 | a response is accepted for a request if and only if its headers describe a span of some object with its length, and of every object they can describe the span holds only selected bytes, from the first selected byte on, or for a suffix up to the last |
| `ByteRanges.PlausibleMeansDescribed` | src/internal/api/mediaflow.go:891-922 | without a request, if and only if they describe a span of some object with its length |
| `ByteRanges.ContentRangeReads` | src/internal/api/mediaflow.go:891-903 | which texts a Content-Range gives for first, last and total, both ways |
| `ByteRanges.ValidatorAgreesWithGeometry` | src/internal/api/mediaflow_owned.go:371-391 | the geometry reader accepts a 206 if and only if a length and a known total are given and the validator without a request accepts them with the length trimmed; the validator refuses an untrimmed length |
| `ByteRanges.GeometryReads` | src/internal/api/mediaflow_owned.go:360-394 | the geometry read is the one that all the texts agree on, if there is one, and nothing otherwise |
| `ByteRanges.RequestRoundTrip` | src/internal/api/mediaflow.go:858-889 | printing a well-formed range and parsing it gives the range back |
| `Text.ParseOfFormat` | src/internal/api/mediaflow_owned.go:900-904 | a printed 64-bit number parses back to itself |
| `ChunkTable.NewTable` | src/internal/api/httpstream.go:820-838 | the table partitions [0, size) into ceil(size / bound) chunks, all full but perhaps the last; both errors exactly when the source gives them |
| `ChunkTable.LadderOffsets` | src/internal/api/httpstream.go:881-888 | the ladder's offsets are the prefix sums of the chunk sizes |
| `ChunkTable.OffsetsAreStarts` | src/internal/api/httpstream.go:881-888 | on such a table the prefix sums are the table's starts |
| `ChunkTable.FirstChunk` | src/internal/api/httpstream.go:988-1001 | the loop finds the first chunk that ends past the target |
| `ChunkTable.ProbeFindsTheChunk` | src/internal/api/httpstream.go:988-1001 | it finds a chunk exactly for targets inside the object, and that is the only chunk containing the target |
| `ChunkTable.Search` | src/internal/bytesource/bytesource.go:159-160 | the bisection finds the least chunk that ends past the offset |
| `ChunkTable.FetchIsTheChunk` | src/internal/api/httpstream.go:841-847 | the span asked of recovery is the chunk's own, so a fetch yields the chunk's part of the object exactly if that can be recovered |
| `ChunkTable.ReadAt` | src/internal/bytesource/bytesource.go:144-195 | the bytes read are the object's own from the offset on, as many as there are; end-of-source exactly when short; a failed fetch only of a chunk that cannot be recovered, with all the bytes before it |
| `ChunkTable.LadderSource.constructor` | src/internal/api/httpstream.go:889-897 | nothing is primed |
| `ChunkTable.PrimedIsServedOnce` | src/internal/api/httpstream.go:909-981 | a primed chunk is served by exactly one fetch, with the bytes set aside; fetches of other chunks are not affected, and afterwards it is as if it had never been primed |
| `ChunkTable.RecoveredFetchIsTheChunk` | src/internal/api/httpstream.go:924-947 | a fetch of an unprimed chunk hands on what the origin delivers; when it fails, the answer is exactly that chunk's part of the object if that can be recovered, and the error otherwise |
| `ChunkTable.LadderSource.Fetch` | src/internal/api/httpstream.go:909-948 | refines FetchAnswer: a primed chunk once, else the origin, else recovery of the chunk's span, and that only with the right length |
| `HlsMint.LoadChildren` | src/internal/api/hls.go:858-879 | the table maps each key to the first child listed with it; the duplicates are exactly the later ones |
| `HlsMint.RegisterKeepsKnown` | src/internal/api/hls.go:928-932 | registering a child keeps the table exact |
| `HlsMint.Minter.constructor` | src/internal/api/hls.go:838-881 | starts from the listed children with nothing seen |
| `HlsMint.Minter.Note` | src/internal/api/hls.go:894-901 | notes the least sequence and the live segments of what it has seen |
| `HlsMint.Minter.Mint` | src/internal/api/hls.go:882-934 | a known key returns its child and registers nothing; an unknown one registers exactly one child with the entry's coordinates |
| `HlsMint.Minter.Cleanup` | src/internal/api/hls.go:935-954 | when the playlist has media sequences, a stored resource stays if and only if it is not the parent's child, or is the first of its key and has no sequence or one not below the least seen less the number of live segments; nothing referenced goes |
| `HlsMint.CleanupIsSafe` | src/internal/api/hls.go:935-954 | what survives: every referenced child, every other parent's child, nothing below the retained window, no key twice |
| `HlsMint.SurvivorsAreKept` | src/internal/api/hls.go:939-951 | the retained window with the arithmetic written out, both ways |
| `HlsMint.FirstSurvives` | src/internal/api/hls.go:935-954 | deleting others leaves the first child of a key the first |
| `HlsMint.LeastSequenceIsLeast` | src/internal/api/hls.go:894-897 | the sequence noted while minting is the least one the playlist mentions |
| `HlsMint.LiveSegmentsAreTheSegments` | src/internal/api/hls.go:898-900 | the live sequences noted are exactly those of its segments |
| `HlsMint.MintAll` | src/internal/api/hls.go:810-822 | over a whole playlist every entry gets the path of its key's child |
| `HlsMint.Rewrite` | src/internal/api/hls.go:801-830 | after the rewrite every returned path names a stored child; a playlist whose entries all have children yields the same paths and registers nothing; what it adds carries an entry's coordinates, byte range and pathway; what it deletes is exactly the parent's second children and those below the retained window |
| `HlsMint.RewriteAgain` | src/internal/api/hls.go:832-838 | rewriting an unchanged playlist again gives identical paths and registers nothing |
| `HlsPaths.RequestReachesTheChild` | src/internal/api/hls.go:121-125 | a request for an entry's path is cut down to the id of the first child of the entry's key |
| `HlsPaths.PathsNameTheEntries` | src/internal/api/hls.go:849-877 | two entries of a playlist share a path if and only if they agree in kind and coordinates and these are a live segment's or a rendition's |
| `HlsPaths.PathTellsTheKind` | src/internal/api/hls.go:956-974 | the end of a path says what kind of child it names |
| `ReadyNotifier.NoLostNotification` | src/cmd/darkharrbor/main.go:4082-4124 | in every interleaving an unserved Notify has a token in the channel or finds the loop draining, unless the loop has ended |
| `ReadyNotifier.RefreshesNeverOutnumber` | src/cmd/darkharrbor/main.go:4084-4122 | refreshes, the one being drained for and the pending token never outnumber the Notify calls; without targets there are none |
| `ReadyNotifier.QuietBeforeFire` | src/cmd/darkharrbor/main.go:4105-4120 | a refresh starts only after two seconds in which the loop took no token |
| `ReadyNotifier.ServedOnceUndisturbed` | src/cmd/darkharrbor/main.go:4096-4124 | after the last Notify the loop takes at most two steps before only the tick is left; some step is always possible |
| `ReadyNotifier.LoopEndsWithItsContext` | src/cmd/darkharrbor/main.go:4096-4111 | the loop can end exactly when its context has ended and no refresh is running, and starts none afterwards |
| `ReadyNotifier.QuietServes` | src/cmd/darkharrbor/main.go:4096-4124 | with a loop that keeps up and no refresh running, a Notify still unserved means another Notify or the end of a refresh within the last two seconds |
| `ReadyNotifier.PutOffGapsAreShort` | src/cmd/darkharrbor/main.go:4096-4124 | a loop that keeps up and starts no refresh has seen no gap above two seconds between Notify calls |
| `ReadyNotifier.SteadyNotifyStarves` | src/cmd/darkharrbor/main.go:4112-4117 | any gaps of at most two seconds, however many, allow a run with no refresh at all |
| `ReadyNotifier.RefreshCanBePutOff` | src/cmd/darkharrbor/main.go:4096-4124 | a loop that keeps up can take in notifications with these gaps and start no refresh if and only if no gap is above two seconds |
| `ReadyNotifier.Notifier.Notify` | src/cmd/darkharrbor/main.go:4084-4092 | refines the Notify step; nothing happens without targets or with a token pending |
| `ReadyNotifier.Notifier.Drain` | src/cmd/darkharrbor/main.go:4104-4121 | the inner loop follows the machine until the tick, the end of the context or the end of the script |
| `ReadyNotifier.Notifier.Run` | src/cmd/darkharrbor/main.go:4096-4124 | the nested loops end in the state of the machine, for every legal script |
| `DecayAudit.LessIsStrictTotalOrder` | src/internal/store/store.go:1757-1761 | the order of ids is a strict total order with the empty cursor below everything |
| `DecayAudit.PageIsTheNextRows` | src/internal/store/store.go:1753-1767 | a page is the least rows above the cursor; a row left out lies above a full page |
| `DecayAudit.RotationSkipsNothing` | src/internal/api/decayaudit.go:82-122 | under any inserts, removals and failed queries, an item eligible from one wrap of the cursor to the next is sampled in between |
| `DecayAudit.EveryLapSamplesEachItemOnce` | src/internal/api/decayaudit.go:82-122 | with a fixed library any ceil(n/5) consecutive cycles sample every item exactly once, in rotated order |
| `DecayAudit.OneCycle` | src/internal/api/decayaudit.go:86-122 | a cycle over a fixed library samples the items of its turn and leaves the cursor at the next |
| `DecayAudit.AuditState.RunDecayAuditCycle` | src/internal/api/decayaudit.go:76-139 | refines one cycle with its error and wrap branches, and keeps the log of queries a rotation |
| `IdentityWindow.NormalizedMeansTitle` | src/internal/mediaidentity/identity.go:97-123 | the normalisation leaves an id alone if and only if it is empty or "tt", perhaps spaces, and 1 to 20 digits other than "0" |
| `IdentityWindow.SpacedTitleIsValid` | src/internal/api/rx95_identity.go:51-63 | the movie id "tt 1" is valid |
| `IdentityWindow.ValidMeans` | src/internal/api/rx95_identity.go:51-63 | the identities that count: a title or no id, and the numbers of a movie or of an episode |
| `IdentityWindow.Store.PruneObservations` | src/internal/api/rx95_identity.go:160-165 | exactly the observations of the last 90 seconds stay |
| `IdentityWindow.Store.PruneBindings` | src/internal/api/rx95_identity.go:166-170 | exactly the bindings of the last 24 hours stay |
| `IdentityWindow.Store.Observe` | src/internal/api/rx95_identity.go:96-107 | refines AfterObserve on the two maps |
| `IdentityWindow.Store.Resolve` | src/internal/api/rx95_identity.go:117-143 | refines Answer and Learned on the two maps |
| `IdentityWindow.HistoryIsWhatWasSeen` | src/internal/api/rx95_identity.go:94-107 | the reference history holds each valid identity observed, with the time of its last observation |
| `IdentityWindow.WindowRefinesHistory` | src/internal/api/rx95_identity.go:96-107 | the bounded, pruned map shows the history of the last 90 seconds after every event if and only if no observation meets 512 other identities in its window |
| `IdentityAnswers.UnlearnedBindsTheSingleton` | src/internal/api/rx95_identity.go:109-142 | in a run whose drops are all harmless, an unlearned batch is bound if and only if exactly one identity was observed in the last 90 seconds, and to that one |
| `IdentityAnswers.UnlearnedMeansAlone` | src/internal/api/rx95_identity.go:109-142 | the same by the observations alone: bound to an identity exactly if it, and no other valid one, was observed at most 90 seconds before |
| `IdentityAnswers.AloneIsLearned` | src/internal/api/rx95_identity.go:137-142 | a batch with a new key then teaches the map that identity with the time, as long as fewer than 512 are learned; otherwise it teaches nothing |
| `IdentityAnswers.AnswersAreRight` | src/internal/api/rx95_identity.go:96-142 | over every run with a clock that does not go back, unlearned batches are answered rightly at any point of the run, and after any silence that might follow it, if and only if the full map drops an observation only when two of its own entries were seen at that very moment |
| `IdentityAnswers.AnswersNeedRoom` | src/internal/api/rx95_identity.go:96-142 | where no two events share a moment, that is so if and only if no observation meets 512 other identities in its window |
| `IdentityAnswers.SpreadBurstMisleads` | src/internal/api/rx95_identity.go:103-105 | such a run in which it is not so: 513 identities observed one nanosecond after the other |
| `IdentityAnswers.CrowdedDropIsHarmless` | src/internal/api/rx95_identity.go:103-105 | the tie: 513 identities observed at one moment overflow the map, and every answer is still right |
| `IdentityAnswers.BindingsWereSingletons` | src/internal/api/rx95_identity.go:137-141 | in a run whose drops are all harmless, every learned binding was the only identity in view when it was learned |
| `IdentityAnswers.ResolveIsJustified` | src/internal/api/rx95_identity.go:117-143 | in a run whose drops are all harmless, whatever is bound was the only identity in view now, or at a moment at most 24 hours ago |
| `IdentityWindow.LearnedKeySticks` | src/internal/api/rx95_identity.go:125-129 | a learned key answers the same for as long as its binding lives |
| `IdentityWindow.TablesStayBounded` | src/internal/api/rx95_identity.go:103-105 | neither map outgrows its bound, and every entry is a true last observation |
| `IdentityWindow.DroppedObservationIsForgotten` | src/internal/api/rx95_identity.go:103-105 | whichever 512 identities fill the map, a 513th can be dropped and forgotten while still in its window, so that Resolve binds with two identities in view |
| `IdentityWindow.FullTableBindsAnAmbiguousWindow` | src/internal/api/rx95_identity.go:103-105 | for instance with the episodes of any one title |
| `FileTree.SplitOfJoin` | src/internal/alldebrid/parse.go:198 | splitting a joined path gives its components back |
| `FileTree.PathJoinAppends` | src/internal/alldebrid/parse.go:198 | joining and cleaning a valid component onto a path of components only appends it |
| `FileTree.PathsAreInjective` | src/internal/alldebrid/parse.go:198 | different component sequences give different paths |
| `FileTree.SeparatorIsUnambiguous` | src/internal/alldebrid/parse.go:215 | path and size can be read back from the identity text, even if the path holds zero bytes |
| `FileTree.SameIdentity` | src/internal/alldebrid/parse.go:215-217 | two files have one identity exactly if they have one path and one size |
| `FileTree.FlattenNode` | src/internal/alldebrid/parse.go:194-217 | the body of the loop accepts a node exactly by the rules and the remaining room |
| `FileTree.FlattenFiles` | src/internal/alldebrid/parse.go:189-220 | succeeds if and only if every node obeys the rules and the files still fit; it then appends exactly the pre-order leaves with their full paths |
| `FileTree.LeavesAreSound` | src/internal/alldebrid/parse.go:189-220 | the leaves of an accepted tree have valid paths and sizes |
| `FileLeaves.AcceptedMeansEveryNode` | src/internal/alldebrid/parse.go:189-213 | a tree is accepted if and only if every node at every address obeys the rules, written out, and lies at most 32 levels down |
| `FileLeaves.LeavesAreThoseOfTheTree` | src/internal/alldebrid/parse.go:189-220 | the leaves taken are those of the tree: one for each node without children, in the order of the walk, with its size and link and the names on the way |
| `FileLeaves.FileShowsItsLeaf` | src/internal/alldebrid/parse.go:215-217 | a file's path splits into the names of its leaf, and its name is the last of them |
| `FileTree.CheckUnique` | src/internal/alldebrid/parse.go:179-185 | the loop with the seen map decides whether all identities differ |
| `FileTree.CheckFiles` | src/internal/alldebrid/parse.go:176-186 | no files and indistinguishable files are each reported exactly when there are such |
| `FileTree.ParseFiles` | src/internal/alldebrid/parse.go:172-187 | each error exactly for its reason: a broken rule or too many files, no files, two leaves with one path and size |

## Left out

- AccountGovernor.Governor.SetCapacity: the runs fix the capacity before the first Acquire, as the program does at start-up; raising it later wakes nobody, and leases from an unbounded time are not counted.
- AccountGovernor.Governor.AcquireLocked: arrival numbers are unbounded, the source's are 64-bit.
- LeaseRuns.StepKeepsInv: the Denials snapshot only prints the counters and is not modelled.
- ConnectionCeiling.RejectionsHalve: the grow interval does not change during a run; SetGrowInterval is for tests only.
- ResolveEntry.HttpResolveEntry.ResolveLocked: the coordinator's map of entries, its eviction and purge are not modelled; the statements are about one live entry. A caller's own wait and its cancellation change no entry.
- ResolveEntry.HttpResolveEntry.CompleteLocked: the handler call, ValidateResolvedFiles and MatchSelector are one outcome, a file or an error.
- ProofWindow.RecoverWindow: loading aliases and proofs, and finding candidate routes, are inputs; so is whether a Merkle proof's geometry can be rebuilt.
- CanonicalReader.Reader.Read: how the store comes to its listings, by expiry or otherwise, is not modelled; the gap clauses are about any set of proofs that the listings answer for. The checks that build a reader's routes are left out.
- PlaybackCopy.Tracker.Copy: the observer callback and the logging are left out; reader, writer and clock are a script of turns.
- ByteRanges.RangeRoundTrip: objects are smaller than 2^63 bytes, as 64-bit sizes are; strings are Unicode scalar values, so invalid UTF-8 in a header is not modelled, and only ASCII letters change case.
- ChunkTable.ReadAt: the context checks between chunks are left out; recovery stands for any fetch.
- HlsMint.Rewrite: parsing and printing of playlists (internal/hls) is not part of this model; the entries are given in order, and the store lists resources in a stable order. That drawn identifiers hold no dot is a premise of the statements about paths.
- ReadyNotifier.Notifier.Run: the refresh itself (posting to the media managers) is one step that ends at some time.
- DecayAudit.AuditState.RunDecayAuditCycle: the presence check of a sampled item and its counters are left out; cycles do not overlap.
- IdentityWindow.Store.Resolve: rx95Contradicted needs an episode-number parser that is not part of this model. The map's own iteration order does not matter, since it is read only when it has one entry.
- FileTree.ParseFiles: the JSON envelope and the magnet checks before the tree are left out; the digest is any injective function; path.Clean is modelled from its documentation.
- Handlers, header writing, logging, SQL, provider clients, cryptography, the command line and start-up: input and output plumbing.
- Cooldown maps, selector caches and clamp helpers: they would only add easy members.
