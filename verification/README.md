# srcDiffVisual: verified core

A Dafny model of the parts of srcDiffVisual whose correctness is hardest to see
from the code, with proofs of what they promise. It has five components.

**Durable run protocol** (`Run*.dfy`). The run table and its event log are a
value; every store transaction is a function on it, and `RunStores.RunStore` is
the mutable object whose methods commit exactly those functions. On top of it
stand the replay automaton of the log, the queue worker with its child and
orphaned executors as a state machine over program points, the event stream, and
the reuse loop of the run-creation endpoint. The worker is a state machine
because what it promises is about interleavings of several processes: each
action is what happens between two program points, and every sequence of actions
is one interleaving, crashes included.

**Two-revision rendering and path numbering** (`Xml*.dfy`, `Source*.dfy` up to
`SourceRenderer.dfy`, `LineColumns.dfy`, `CorrespondenceLocations.dfy`,
`Utf8.dfy`, `TreeSpans.dfy`, `TreeIndex.dfy`). One element tree is rendered into
two sources with provenance ranges; paths and spans are assigned by a stack
machine over parse events and by recursion. An element carries its tags as they
are written, so a document is its bytes, and spans are positions in them.

**Artifact index and projections** (`ArtifactRows.dfy`, `ArtifactLinks.dfy`,
`ArtifactStore.dfy`, `ArtifactFileIds.dfy`, `Forests.dfy`, `DiffTree.dfy`,
`FocusTree.dfy`, `SourceAlignment.dfy`, `SourceBlocks.dfy`). Trees are flattened
to preorder rows and rebuilt as linked cells; the collapsed diff tree, the
bounded focus tree and the hunk and gap blocks are read from the index.

**Artifact collection** (`ArtifactRetention.dfy`, `ArtifactPlans.dfy`,
`ArtifactCollection.dfy`). The deletion planner with its three limits, and the
loop that carries a reviewed plan out.

**Moves, path lists and highlighting** (`ReportedMoves.dfy`, `PathLists.dfy`,
`Highlighting.dfy`, `SourceView.dfy`, `ArtifactSegments.dfy`, `XmlDisplay.dfy`).

`Prelude.dfy` and `Sorting.dfy` are shared: optional values and results, source
spans, and the stable sort.

Five promises turned out to hold only under a condition; each is proved in the
form "holds if and only if", with inputs that break it:

- The parser and the traversal name the same paths exactly when every
  `unit`-spelled child of an archive root is a srcML unit, a file unit has no
  unit children, neither has a root of any other tag, and the document is not a
  file unit written as an empty-element tag with no bracket after it
  (`XmlPathSets.PathSetsAgreeIff`). `XmlPathSets.NestedUnitsDisagree`,
  `ForeignUnitDisagrees` and `EmptyUnitDisagrees` break it.
- The span recorded for an element is that of its own bytes exactly when it has
  an end tag (`XmlExtents.FoundIsOwnIff`): past an empty-element tag the end
  handler finds the next bracket. So a payload tree carries every element's own
  span exactly when it shows no empty-element tag
  (`TreeIndex.NodesHoldOwnSpansIff`). In `<r><a/><b>x</b></r>` the span of `a`
  ends inside `b` (`XmlExtents.EmptyTagOvershoots`).
- The viewer highlights exactly an element's markup if and only if the element
  has an end tag whose bracket ends its line, and only ASCII stands before the
  element on its first line (`XmlHighlights.ElementShownIff`). In
  `<r><a>x</a>y</r>` the highlight of `a` also covers `y`
  (`XmlHighlights.NextCharacterHighlighted`).
- Turning the span of a range back into its offsets is exact exactly when no
  line break other than a newline precedes a newline inside the text up to the
  end of the range (`LineColumns.RoundTripsIff`). A line separator breaks it
  (`LineColumns.LineSeparatorBreaksTheInverse`) and leaves a candidate
  unverified whose unique match has the recorded text
  (`CorrespondenceLocations.LineSeparatorHidesCandidate`).
- Remapping a boundary past hidden attributes is exact unless the boundary lies
  strictly inside a hidden range that follows another one
  (`XmlDisplay.RemapIsExactIff`). In a start tag with both position attributes
  every boundary inside the second one goes wrong
  (`XmlDisplay.InsideLaterGoesWrong`).

Check everything with `dafny verify dfyconfig.toml` (Dafny 4.11).

## Model

| member | source | states |
|---|---|---|
| RunInvariants.ApplyKeepsValid | srcdiffvisual/runs/store.py:147-636 | every transaction keeps the table constraints, the numbering and replay of each log and single flight, and only extends history |
| RunInvariants.ReachableIsValid | srcdiffvisual/runs/store.py:39-145 | these hold in every store reachable by any sequence of transactions, accepted or rejected |
| RunInvariants.HistoryMovesForward | srcdiffvisual/runs/store.py:519-580 | logs only grow and terminal rows never change, over any number of later transactions |
| RunInvariants.ReplayShape | srcdiffvisual/runs/store.py:374-428 | a log the lifecycle automaton accepts has no event after a terminal one, progress only while running, at most one cancellation request and none before a completion |
| RunInvariants.ReachableLogs | srcdiffvisual/runs/store.py:601-636 | in every reachable store each run's events are numbered 1..n and replay to the row's status and cancellation flag |
| RunQueue.ClaimNextOutcome | srcdiffvisual/runs/store.py:277-335 | the claim starts the oldest queued run without a cancellation request, cancels exactly the requested ones queued before it, touches no other row, and returns nothing only if nothing is claimable |
| RunQueue.AcquireOutcome | srcdiffvisual/runs/store.py:179-266 | the disposition is active, artifact or new exactly by what the store holds; the active run is the only one, and a reused run is a latest finished one that is not excluded |
| RunRecords.FirstExists | srcdiffvisual/runs/store.py:282-290 | a nonempty selection has a first row under its ordering |
| RunRecords.FailOneMore | srcdiffvisual/runs/store.py:337-372 | failing abandoned runs row by row is the same in any visiting order |
| RunStores.RunStore.CreateHistoryRun | srcdiffvisual/runs/store.py:147-177 | queues a run with its first event; fails on a bad pair number or a taken id and then changes nothing |
| RunStores.RunStore.SelectFirst | srcdiffvisual/runs/store.py:282-290 | finds the first row by key and then id, none exactly if there is none |
| RunStores.RunStore.AcquireHistoryRun | srcdiffvisual/runs/store.py:179-266 | commits the acquisition specified by RunRecords.Acquire, keeping the invariant |
| RunStores.RunStore.ClaimNextRun | srcdiffvisual/runs/store.py:277-335 | the loop over queued rows terminates and commits what RunRecords.ClaimNext specifies |
| RunStores.RunStore.FailAbandonedRuns | srcdiffvisual/runs/store.py:337-372 | fails every running row, with one event each, and counts them |
| RunStores.RunStore.AppendProgressEvent | srcdiffvisual/runs/store.py:374-396 | succeeds exactly on a running row and appends one event with the next sequence number |
| RunStores.RunStore.RequestRunCancellation | srcdiffvisual/runs/store.py:398-428 | is idempotent, fails exactly on unknown, completed and failed runs, and leaves the flag set or the run cancelled |
| RunStores.RunStore.TransitionRun | srcdiffvisual/runs/store.py:519-580 | applies one lifecycle transition, or fails on a wrong status or a refused cancellation flag and changes nothing |
| RunStores.RunStore.CompleteRun | srcdiffvisual/runs/store.py:430-440 | succeeds exactly on a running row without a cancellation request |
| RunStores.RunStore.FailRun | srcdiffvisual/runs/store.py:455-465 | succeeds exactly on an active row with a nonempty diagnostic |
| RunStores.RunStore.CancelRun | srcdiffvisual/runs/store.py:467-474 | succeeds exactly on an active row |
| RunStores.RunStore.ReferencedArtifactIds | srcdiffvisual/runs/store.py:442-453 | in a valid store these are the artifacts of the completed runs |
| RunWorkers.ReachableInvariant | srcdiffvisual/runs/worker.py:54-134 | the protocol invariant holds after every interleaving of API requests, worker, executors, orphans, crashes and restarts |
| RunWorkers.WorkerSafety | srcdiffvisual/runs/worker.py:72-134 | at most one run is running, a requested run is not completed, a completed run's artifact was published, no process works on a cancelled run, the monitor's cancel and fail calls never raise, and a claimed run is terminal when process_next returns |
| RunWorkers.WorkerStability | srcdiffvisual/runs/worker.py:149-211 | whatever happens next, terminal rows and their logs stay as they are and a requested run never becomes completed |
| RunWorkers.CompletionFollowsPublication | srcdiffvisual/runs/worker.py:185-211 | the step that completes a run comes after the one that published its artifact, and finds no cancellation request |
| RunWorkers.OnlyCompleteCompletes | srcdiffvisual/runs/store.py:430-440 | no other transaction makes a run completed |
| RunWorkers.CloseAccepted | srcdiffvisual/runs/worker.py:84-106 | between the monitor's read and its cancel or fail call nobody else can finish the row, so the call is accepted |
| RunWorkers.ClaimFits | srcdiffvisual/runs/worker.py:54-61 | claiming hands the worker the only running row |
| RunWorkers.StepCommits | srcdiffvisual/runs/worker.py:260-266 | no action changes the store except through one of its transactions, and published artifacts stay published |
| RunWorkers.LaterInvariant | srcdiffvisual/runs/worker.py:63-70 | the invariant and forward progress of the store hold along every continuation |
| RunEvents.InterleavingIsObserved | srcdiffvisual/runs/store.py:476-517 | reads interleaved with any writers see growing logs that stop growing once terminal |
| RunEvents.SendPage | srcdiffvisual/runs/events.py:27-31 | a page is forwarded in order and the cursor is the last id sent |
| RunEvents.StreamRunEvents | srcdiffvisual/runs/events.py:23-40 | the stream yields exactly the entries after the cursor, without gap or duplicate; it returns only when the log is complete and terminal, and over a finished run it returns unless each further poll delivers a full page |
| RunInvariants.AfterIsSuffix | srcdiffvisual/runs/store.py:493-517 | the rows after a cursor are a suffix of a numbered log |
| RunStores.RunStore.ReadEvents | srcdiffvisual/runs/store.py:493-517 | fails exactly on a bad cursor or limit and on an unknown run; otherwise reads the stretch of the log from the cursor on, up to the limit, and changes nothing |
| RunEvents.PollIsRead | srcdiffvisual/runs/events.py:27 | the page a poll forwards is the store's answer for the state it observes, the next hundred events after the cursor |
| RunEvents.ReconnectionContinues | srcdiffvisual/runs/events.py:23-40 | stopping anywhere and resuming from the last id gives the same total output |
| RunEvents.FinishedDelivery | srcdiffvisual/runs/events.py:33-35 | a complete delivery is numbered from the cursor on and ends with the single terminal event |
| RunRoute.CreateHistoryRun | srcdiffvisual/web/_routes.py:384-403 | without concurrent commits the loop terminates, offers the preferred completed run whose artifact validates, and queues a new run only when there is neither active work nor a valid artifact |
| RunRoute.FirstCompletedIsPreferred | srcdiffvisual/runs/store.py:224-240 | the completed run selected is finished last among those not excluded |
| XmlElements.ChildStepsDiffer | srcdiffvisual/annotated_srcdiff/tree_builder.py:77-84 | numbered siblings get different steps |
| XmlElements.BumpCounts | srcdiffvisual/annotated_srcdiff/tree_builder.py:78-84 | the running dictionary of tag counts yields each child's position among its namesakes |
| SourceText.TextIsActiveChunks | srcdiffvisual/workflow/_source_renderer.py:131-200 | a revision's text is the in-order concatenation of the text and tail chunks active in it, even where common text re-activates both revisions |
| SourceText.RangesLaminar | srcdiffvisual/workflow/_source_renderer.py:165-170 | recorded ranges form an ordered laminar family: descendants nest, others are disjoint and in order |
| SourceText.RangesInside | srcdiffvisual/workflow/_source_renderer.py:140-170 | every range lies below its own path and inside its element's text |
| SourceRanges.RangesFaithful | srcdiffvisual/workflow/_source_renderer.py:165-170 | every recorded range slices the source to exactly its element's text in that revision |
| SourceRanges.RangesComplete | srcdiffvisual/workflow/_source_renderer.py:165-170 | every active element with text has its range recorded |
| SourceRenderer.RecordLaminar | srcdiffvisual/workflow/_source_renderer.py:169-170 | no path is written twice: the dictionary holds each recorded range |
| SourceRenderer.UnitRendering.RenderElement | srcdiffvisual/workflow/_source_renderer.py:131-170 | the buffers and range dictionaries after the call are those of the two-revision specification |
| SourceRenderer.UnitRendering.RenderChild | srcdiffvisual/workflow/_source_renderer.py:147-163 | one turn of the child loop: skip, number, render, emit the tail |
| SourceRenderer.RenderUnitSources | srcdiffvisual/workflow/_source_renderer.py:90-128 | both sources are the active chunks, all ranges are faithful, complete and laminar |
| SourceRenderer.RenderedFromEmpty | srcdiffvisual/workflow/_source_renderer.py:105-116 | rendering from empty buffers has these properties in either revision |
| LineColumns.ComputeLineStarts | srcdiffvisual/workflow/_source_renderer.py:215-222 | zero and the offsets after each newline, in order |
| LineColumns.LineColExact | srcdiffvisual/workflow/_source_renderer.py:241-247 | the line number counts the newlines before the offset and the column counts from the last one |
| LineColumns.LineColMonotone | srcdiffvisual/workflow/_source_renderer.py:241-247 | positions increase strictly with offsets |
| LineColumns.RoundTripsIff | srcdiffvisual/workflow/_correspondence_locations.py:76-80 | span-to-offset arithmetic inverts offset-to-span for a range exactly when no foreign line break precedes a newline inside the text up to its end |
| LineColumns.RoundTripsIffNewlinesOnly | srcdiffvisual/workflow/_correspondence_locations.py:76-80 | it does so for all ranges of a source exactly when this holds of the whole source |
| LineColumns.LineSeparatorBreaksTheInverse | srcdiffvisual/workflow/_correspondence_locations.py:76-80 | a source with a line separator, which XML admits, and a range for which the inverse fails |
| CorrespondenceLocations.AddCorrespondenceLocations | srcdiffvisual/workflow/_correspondence_locations.py:13-88 | the table of locations is the one the per-candidate specification gives |
| CorrespondenceLocations.LocateOne | srcdiffvisual/workflow/_correspondence_locations.py:54-87 | one candidate, from the sources rendered beforehand |
| CorrespondenceLocations.LocatedIffVerifiable | srcdiffvisual/workflow/_correspondence_locations.py:66-86 | where only newlines break lines up to the end of its range, a candidate is located exactly when its unique match is visible in its revision, the source is unchanged and the element's own text is the candidate's |
| CorrespondenceLocations.LineSeparatorHidesCandidate | srcdiffvisual/workflow/_correspondence_locations.py:75-86 | a unit where a line separator leaves a candidate unverified although all of that holds of it |
| CorrespondenceLocations.SpanOfElement | srcdiffvisual/workflow/_correspondence_locations.py:70-81 | the slice that is compared is the rendered element's own text |
| XmlSpans.ElementFed | srcdiffvisual/srcdiff/xml_spans.py:41-105 | feeding an element's events leaves the stack as it was and adds exactly its recursive numbering, with the spans the search for a bracket finds |
| XmlSpans.ChildrenFed | srcdiffvisual/srcdiff/xml_spans.py:58-62 | the counters of the frame on top follow the children fed so far |
| XmlSpans.EnterChild | srcdiffvisual/srcdiff/xml_spans.py:48-64 | a start event gives a child its next step, or none if its parent has none or it is skipped |
| XmlSpanIndex.DocumentFed | srcdiffvisual/srcdiff/xml_spans.py:16-105 | over the bytes of a whole document the machine's result is the recursive numbering of the file unit or of the direct units, with the spans found |
| XmlSpanIndex.SpanIndexer.StartElement | srcdiffvisual/srcdiff/xml_spans.py:41-72 | the start handler's effect on stack, spans and unit counter |
| XmlSpanIndex.SpanIndexer.EndElement | srcdiffvisual/srcdiff/xml_spans.py:74-100 | the end handler pops its frame and records the span up to the next bracket, or nothing if there is none |
| XmlSpanIndex.BuildXmlSpanIndex | srcdiffvisual/srcdiff/xml_spans.py:16-105 | the parser loop returns the recursive numbering of the document |
| XmlSpanIndex.NumberedSize | srcdiffvisual/srcdiff/xml_spans.py:95-100 | there are as many paths as numbered elements: none is assigned twice |
| XmlExtents.FoundAtEndTag | srcdiffvisual/srcdiff/xml_spans.py:82-86 | for an element with an end tag the search stops at the bracket of that tag |
| XmlExtents.FoundIsOwnIff | srcdiffvisual/srcdiff/xml_spans.py:82-99 | the span recorded is that of the element's own bytes exactly if it has an end tag |
| XmlExtents.AllFound | srcdiffvisual/srcdiff/xml_spans.py:85-86 | a bracket past an element's end makes the handler record every element below it |
| XmlExtents.EmptyTagOvershoots | srcdiffvisual/srcdiff/xml_spans.py:82-99 | a document where the span of an empty-element tag ends inside the next element |
| XmlPathSets.PathSetsAgreeIff | srcdiffvisual/workflow/validate_tree.py:39-65 | parser and traversal produce equal path sets exactly for the roots described by PathsAgree that are not a lost file unit, with or without skipped tags |
| XmlPathSets.SameUnits | srcdiffvisual/workflow/validate_tree.py:39-65 | and then both number the same units with the same spans |
| XmlPathSets.EmptyUnitDisagrees | srcdiffvisual/workflow/validate_tree.py:60-65 | a file unit written as an empty-element tag: the parser has no path, the traversal has one |
| XmlPathSets.SpansInOrder | srcdiffvisual/srcdiff/validate_xml.py:26-30 | every recorded span starts no later than it ends |
| XmlPathSets.ValidatesIff | srcdiffvisual/srcdiff/validate_xml.py:8-30 | the validation of the index fails exactly for a lost file unit and for srcML units below a root of another name |
| XmlPathSets.NestedUnitsDisagree | srcdiffvisual/workflow/validate_tree.py:60-65 | a file unit around another unit: the parser has a path the traversal lacks |
| XmlPathSets.ForeignUnitDisagrees | srcdiffvisual/workflow/validate_tree.py:60-65 | an archive whose only unit is of another vocabulary: the parser numbers it, the traversal finds nothing |
| TreeSpans.HullIsLeast | srcdiffvisual/annotated_srcdiff/node_helpers.py:94-117 | the merged span is the least one that covers all the spans merged |
| TreeSpans.SpanIsLeastCover | srcdiffvisual/annotated_srcdiff/tree_builder.py:99-109 | a node without a span of its own has the least span covering its children's, and none exactly if they have none |
| TreeSpans.UnexpectedIff | srcdiffvisual/annotated_srcdiff/node_helpers.py:120-166 | the span check rejects a node exactly when it is deleted or inserted, has no positions, and its children have spans in the other revision only |
| TreeSpans.DeleteAroundInsertIsRejected | srcdiffvisual/annotated_srcdiff/node_helpers.py:138-145 | a deleted node around a positioned insertion trips it |
| TreeIndex.MergeChildSpans | srcdiffvisual/annotated_srcdiff/node_helpers.py:94-117 | the loop merges exactly the spans the children have in a revision |
| TreeIndex.BuildTreeNode | srcdiffvisual/annotated_srcdiff/tree_builder.py:56-132 | fails exactly if an element of the tree trips an assertion on positions or spans, and otherwise returns the node with its numbered path, kind, move id, looked-up extent, revision spans and children |
| TreeIndex.BuildChildren | srcdiffvisual/annotated_srcdiff/tree_builder.py:77-95 | the counting loop builds the numbered children in order |
| TreeIndex.HasPositionsIff | srcdiffvisual/annotated_srcdiff/tree_node.py:75-79 | a built tree shows spans exactly if one of its elements has positions |
| TreeIndex.BuildTreeIndex | srcdiffvisual/annotated_srcdiff/tree_builder.py:27-53 | one tree per file unit, numbered from 1, with an exact position flag; fails exactly if a unit cannot be built |
| TreeIndex.NodesHoldRecorded | srcdiffvisual/annotated_srcdiff/tree_builder.py:127 | where the path sets agree, the span looked up for every node is the one recorded for its own element, and none if none was |
| TreeIndex.NodesHoldOwnSpansIff | srcdiffvisual/annotated_srcdiff/tree_builder.py:127 | a tree carries every element's own span exactly if no element it shows is an empty-element tag |
| Utf8.BytePosition | srcdiffvisual/srcdiff/xml_spans.py:118-122 | a byte offset has the line of its character, and its column exactly if only ASCII stands before it on the line |
| XmlHighlights.ShowsExactlyIff | frontend/src/srcdiff/srcView.ts:165-214 | the viewer covers exactly the recorded characters if and only if they start after ASCII only and end their line |
| XmlHighlights.ElementShownIff | frontend/src/srcdiff/srcView.ts:165-214 | an element's highlight covers exactly its markup if and only if moreover it has an end tag |
| XmlHighlights.NextCharacterHighlighted | frontend/src/srcdiff/srcView.ts:203-207 | an element inside a line whose highlight covers the next character too |
| TreeIndex.NodePaths | srcdiffvisual/workflow/validate_tree.py:68-78 | the paths collected from a payload are those the traversal numbers |
| TreeIndex.CollectTreePaths | srcdiffvisual/workflow/validate_tree.py:68-78 | adds exactly the paths of the tree |
| TreeIndex.XmlTreePathsMatch | srcdiffvisual/workflow/validate_tree.py:39-65 | over a payload that could be built, the check passes exactly for the roots described by PathsAgree that are not a lost file unit |
| ArtifactRows.RowsPreorder | srcdiffvisual/artifacts/store.py:333-375 | ordinals are contiguous, parents precede children, and what is numbered between a row and its parent hangs below that parent |
| ArtifactFileIds.BuildFileId | srcdiffvisual/artifacts/store.py:660-676 | terminates with a fresh id: the base if free, else the first free suffix, all earlier ones being taken |
| ArtifactFileIds.DecimalInjective | srcdiffvisual/artifacts/store.py:674 | different suffixes are spelled differently |
| ArtifactLinks.LinksPermuted | srcdiffvisual/artifacts/store.py:525-550 | the child links of a key do not depend on row order |
| Sorting.SortedIsUnique | srcdiffvisual/artifacts/store.py:547-549 | without ties, as among sibling indexes, there is one sorted arrangement |
| ArtifactLinks.CoveredIsHeld | srcdiffvisual/artifacts/store.py:525-550 | an index that agrees with a flattened tree determines that tree |
| ArtifactStore.IndexBuilder.AppendNodeRecords | srcdiffvisual/artifacts/store.py:333-375 | appends the preorder rows of the subtree, advances the counter by its size and names its paths |
| ArtifactStore.BuildIndexRecords | srcdiffvisual/artifacts/store.py:293-330 | file ids are distinct, a free hash is used as it is, and the rows are those of all trees |
| ArtifactStore.PathsNameTheirRows | srcdiffvisual/artifacts/store.py:348 | distinct paths are mapped to their own rows |
| ArtifactStore.RebuildTrees | srcdiffvisual/artifacts/store.py:525-550 | returns one cell per row, linked to its children in sibling order; fails exactly when a parent row is missing |
| ArtifactStore.PatchChildren | srcdiffvisual/artifacts/store.py:546-550 | patching in any order of parents links every cell |
| ArtifactStore.HeldIsDenoted | srcdiffvisual/artifacts/store.py:525-550 | the linked cells below a key stand for the tree its rows determine |
| ArtifactStore.RebuildInvertsWriting | srcdiffvisual/artifacts/store.py:460-522 | for any number of files and any row order, no parent is missing and every root key determines its file's tree |
| ArtifactStore.ReadTrees | srcdiffvisual/artifacts/store.py:475-510 | rows written and read back in any order give cells that stand for the original trees |
| Forests.ForestInOrder | srcdiffvisual/artifacts/projections.py:269-289 | walking child lists of a preorder forest visits every member once, in ordinal order |
| DiffTree.SubtreeIsInterval | srcdiffvisual/artifacts/store.py:333-375 | what is numbered between an ancestor and its descendant is below the ancestor |
| DiffTree.DescendantsPreserved | srcdiffvisual/artifacts/projections.py:262-267 | collapsing keeps the descendant relation among diff elements |
| DiffTree.DiffsFormAForest | srcdiffvisual/artifacts/projections.py:260-267 | nearest-diff links again form a preorder forest |
| DiffTree.FindNearestDiff | srcdiffvisual/artifacts/projections.py:263-265 | the climbing loop finds the nearest diff ancestor |
| DiffTree.CollapseDiffs | srcdiffvisual/artifacts/projections.py:253-267 | the parent and child tables hold each diff element's nearest diff ancestor and ordered diff children |
| DiffTree.TruncationKeepsForest | srcdiffvisual/artifacts/projections.py:259 | the first ordinals contain the parents of all their members |
| DiffTree.ProjectWalks | srcdiffvisual/artifacts/projections.py:269-283 | the projection lists what a walk of the included forest lists |
| DiffTree.ProjectLinks | srcdiffvisual/artifacts/projections.py:269-283 | each projected node names its nearest diff ancestor, counts all its diff children, keeps the included ones in order, and is complete exactly when all are included |
| DiffTree.ReadDiffTree | srcdiffvisual/artifacts/projections.py:226-297 | the preorder of the result is exactly the first min(limit, total) diff ordinals, so no counted node is unreachable; limits outside 1..1000 fail |
| DiffTree.WrittenRowsAreAnIndex | srcdiffvisual/artifacts/store.py:333-375 | the rows of a stored tree are such an index |
| FocusTree.GreedyIsSound | srcdiffvisual/artifacts/projections.py:612-641 | the set has the root, is ancestor-closed, never exceeds the limit and holds nothing but ancestors of included focus nodes |
| FocusTree.GreedyIsMaximal | srcdiffvisual/artifacts/projections.py:629-640 | a focus node left out does not fit even beside the final set |
| FocusTree.CompleteFileIsPrefix | srcdiffvisual/artifacts/projections.py:617-618 | with everything in focus the tree is the first nodes up to the limit |
| FocusTree.FullStaysFull | srcdiffvisual/artifacts/projections.py:639-640 | stopping at a full set changes nothing |
| FocusTree.MissingChain | srcdiffvisual/artifacts/projections.py:630-634 | the climb collects exactly the missing ancestors, each once |
| FocusTree.FocusedTreeOrdinals | srcdiffvisual/artifacts/projections.py:612-641 | the loop computes the greedy set |
| FocusTree.FocusIsExact | srcdiffvisual/artifacts/projections.py:617-628 | the focus list is ascending and exact for its profile |
| FocusTree.GroupChildren | srcdiffvisual/artifacts/projections.py:207-211 | the child dictionary lists each member's included children in order |
| FocusTree.RootListsAll | srcdiffvisual/artifacts/projections.py:212-213 | the projected tree holds each included node exactly once, in ordinal order |
| FocusTree.NodeComplete | srcdiffvisual/artifacts/projections.py:644-657 | children_complete is exact at every node |
| FocusTree.ReadTree | srcdiffvisual/artifacts/projections.py:169-223 | the whole projection: exact node set, order, counts, truncation flag and limit errors |
| FocusTree.WrittenRowsAreCounted | srcdiffvisual/artifacts/store.py:349-361 | the child counts of stored rows are the numbers of their child rows |
| SourceAlignment.AlignLines | srcdiffvisual/artifacts/projections.py:404-430 | the nested loops produce the rows the opcodes describe |
| SourceAlignment.AlignmentKeepsLines | srcdiffvisual/artifacts/projections.py:404-430 | every line of each revision has its row, once and in order, and row kinds say which sides are present |
| SourceBlocks.FindWindows | srcdiffvisual/artifacts/projections.py:561-566 | windows are nonempty, in order, separated, and cover exactly the selected indexes |
| SourceBlocks.BuildSourceBlocks | srcdiffvisual/artifacts/projections.py:558-584 | blocks partition the rows with alternating types; hunks hold exactly the selected rows |
| SourceBlocks.RangeOfRows | srcdiffvisual/artifacts/projections.py:604-609 | the range of a stretch of rows is its first and last line with nothing missing in between |
| SourceBlocks.GapCountsAgree | srcdiffvisual/artifacts/projections.py:587-601 | a gap's line counts agree with its ranges |
| SourceBlocks.BlocksListLines | srcdiffvisual/artifacts/projections.py:568-584 | read in order, the blocks enumerate every line of a side exactly once |
| SourceBlocks.RangeRowIndexes | srcdiffvisual/artifacts/projections.py:536-555 | selects exactly the rows with a line in range, in order |
| SourceBlocks.GapSelectsItsRows | srcdiffvisual/artifacts/projections.py:536-555 | a gap's own ranges select its rows and no others |
| SourceBlocks.ExpandGap | srcdiffvisual/artifacts/projections.py:536-609 | feeding a gap's ranges back yields the gap's row indexes |
| SourceBlocks.ProjectSource | srcdiffvisual/artifacts/projections.py:135-142 | even when cut to 2000 rows the blocks account for every line of both revisions |
| ArtifactRetention.ExpiredPrefix | srcdiffvisual/artifacts/lifecycle.py:205-210 | the expired come first among the eligible |
| ArtifactRetention.LimitsDecide | srcdiffvisual/artifacts/lifecycle.py:218-231 | past the expired, an item is selected exactly while a limit is exceeded, so the selection is a prefix |
| ArtifactRetention.SelectExpired | srcdiffvisual/artifacts/lifecycle.py:205-210 | selects exactly the expired, with their reason |
| ArtifactRetention.SelectByLimits | srcdiffvisual/artifacts/lifecycle.py:212-231 | ends with the shortest sufficient prefix, its reasons and the remaining totals |
| ArtifactRetention.ListCandidates | srcdiffvisual/artifacts/lifecycle.py:233-241 | lists the selected in inventory order with their reasons |
| ArtifactRetention.PlanArtifactCollection | srcdiffvisual/artifacts/lifecycle.py:185-261 | the candidates are exactly the shortest oldest-first prefix of the eligible that contains every expired one and meets both limits, or all of them |
| Sorting.SortSorts | srcdiffvisual/artifacts/lifecycle.py:399-403 | the inventory order is a sorted permutation |
| ArtifactPlans.PlanConserves | srcdiffvisual/artifacts/lifecycle.py:109-119 | remaining plus planned is the whole inventory, in number and in bytes |
| ArtifactPlans.VerdictIsExact | srcdiffvisual/artifacts/lifecycle.py:242-254 | satisfies_policy holds exactly when deleting some set of eligible items satisfies the policy |
| ArtifactPlans.ReplanningIsEmpty | srcdiffvisual/artifacts/lifecycle.py:185-261 | planning again after the deletion finds nothing and gives the same verdict |
| ArtifactPlans.OrderDoesNotMatter | srcdiffvisual/artifacts/lifecycle.py:197 | the plan does not depend on the order of the inventory |
| ArtifactCollection.ArtifactRoot.InventoryArtifacts | srcdiffvisual/artifacts/lifecycle.py:163-182 | the inventory lists the store in planning order |
| ArtifactCollection.ArtifactRoot.ApplyCollection | srcdiffvisual/artifacts/lifecycle.py:264-314 | an unchanged plan is carried out in order; each deleted artifact was absent from the references read just before, an interruption leaves the rest untouched, and a changed plan deletes nothing |
| ArtifactCollection.PlannedAreEligible | srcdiffvisual/artifacts/lifecycle.py:198-202 | every planned deletion is of a valid artifact without references |
| ArtifactCollection.CollectedIsSettled | srcdiffvisual/artifacts/lifecycle.py:264-314 | after an undisturbed collection the same policy plans nothing |
| Highlighting.PreferredIsBest | frontend/src/srcdiff/srcView.ts:138-144 | the preferred slice has the highest priority, then the smallest size, then the earliest place |
| Highlighting.StretchIsUniform | frontend/src/srcdiff/srcView.ts:112-118 | between neighbouring boundaries every character is covered by the same slices |
| SourceView.BuildHighlightedSegments | frontend/src/srcdiff/srcView.ts:79-136 | painting by boundaries equals painting by character, the texts join to the line, and neighbouring segments differ |
| SourceView.SliceCovers | frontend/src/srcdiff/srcView.ts:165-214 | a slice covers a character exactly when the span contains its position |
| SourceView.CharacterShowsBestMark | frontend/src/srcdiff/srcView.ts:29-58 | every character shows the best highlight among those whose span contains it |
| SourceView.BuildViewerLine | frontend/src/srcdiff/srcView.ts:39-57 | a line with or without highlights, empty or not, is painted as specified and flagged exactly |
| ArtifactSegments.BuildArtifactLineSegments | frontend/src/components/artifact/artifactSourceSegments.ts:4-60 | painting by boundaries equals painting by character, diff regions included, and the texts join to the line |
| ArtifactSegments.CharacterShowsBestAnchor | frontend/src/components/artifact/artifactSourceSegments.ts:62-68 | every character carries the preferred anchor among those covering it |
| ArtifactSegments.RegionsAreDistinct | frontend/src/components/artifact/artifactSourceSegments.ts:85-105 | each node contributes at most one diff region |
| ArtifactSegments.OuterFirstShape | frontend/src/components/artifact/artifactSourceSegments.ts:92-94 | regions are collected from the outermost anchor inwards |
| Sorting.SortedLast | frontend/src/components/artifact/artifactSourceSegments.ts:92-94 | sorting is stable: the last element of a kind is a greatest one, the latest among equals |
| ArtifactSegments.RegionsAreInnermost | frontend/src/components/artifact/artifactSourceSegments.ts:85-105 | a node's region has the kind stated by its smallest anchor that states one, the latest among equals |
| XmlDisplay.StripPositionAttributes | frontend/src/srcdiff/xmlDisplay.ts:57-91 | the stripped line is the line without its hidden ranges, which are disjoint and in order |
| XmlDisplay.RemapBoundaryIndex | frontend/src/srcdiff/xmlDisplay.ts:117-137 | the loop computes the specified index |
| XmlDisplay.RemapIsExactIff | frontend/src/srcdiff/xmlDisplay.ts:117-137 | the index counts the visible characters before the boundary exactly when the boundary is not strictly inside a later hidden range |
| XmlDisplay.TwoAttributes | frontend/src/srcdiff/xmlDisplay.ts:4-5 | the attribute pattern finds both position attributes of a start tag as adjacent ranges |
| XmlDisplay.InsideLaterGoesWrong | frontend/src/srcdiff/xmlDisplay.ts:129-131 | every boundary strictly inside the second of them is remapped past the end of the stripped line |
| XmlDisplay.SliceIsRemapped | frontend/src/srcdiff/xmlDisplay.ts:117-137 | between two remapped boundaries, clamped to the stripped line, stands the visible part of the original slice |
| XmlDisplay.RemapOrdered | frontend/src/srcdiff/xmlDisplay.ts:104-106 | remapped boundaries meet or cross exactly where nothing is visible between them |
| XmlDisplay.HighlightsFollowText | frontend/src/srcdiff/xmlDisplay.ts:93-115 | on every line, whatever its columns, a remapped highlight covers exactly what is visible of the original, and it disappears exactly when nothing on its line is |
| ReportedMoves.ReportedMoveRecords | srcdiffvisual/srcmove/reported_moves.py:6-92 | results are accepted exactly under the stated conditions, and then give one record per report followed by the inherited moves |
| ReportedMoves.ProjectReport | srcdiffvisual/srcmove/reported_moves.py:40-76 | a report is accepted exactly when its identity, members and evidence are right; an ordered one keeps its members' endpoints in order |
| ReportedMoves.AcceptedReportsPartition | srcdiffvisual/srcmove/reported_moves.py:51-78 | every producer move belongs to exactly one report, at one place |
| ReportedMoves.XmlOnlyMembers | srcdiffvisual/srcmove/reported_moves.py:22-30 | the inherited moves appear once each |
| ReportedMoves.ExpandReportEndpoints | frontend/src/components/artifact/reportedMoves.ts:13-25 | one connector per member of an ordered report, and an error exactly on unequal lengths |
| ReportedMoves.ReadConnectors | frontend/src/components/artifact/reportedMoves.ts:13-25 | for accepted results expansion never fails |
| PathLists.SplitSrcmovePathList | srcdiffvisual/srcmove/_path_lists.py:4-37 | the character loop computes the specified split |
| PathLists.SplitInvertsJoin | srcdiffvisual/srcmove/retained_annotations.py:47 | splitting gives back every list of nonempty trimmed parts with closed quotes and no bar outside quotes |
| PathLists.PartsSplitToThemselves | srcdiffvisual/srcmove/_path_lists.py:22-27 | every returned part is a list of one |

## Left out

- RunStore.mark_running: it ignores the cancellation flag and no worker calls it.
- RunWorkers.Step: models worker and executor as program points and actions rather than objects with loops, because the claims quantify over interleavings; sleeping, staging directories and temporary files are not modelled.
- SQLite, files, compression, JSON, hashing, subprocesses and signals: only atomic transactions, publication as one step and the death of a terminated child remain. Identifiers and times are ordered values, one time per transaction, and a plan id is the plan it is computed from.
- Syntax of identifiers, fingerprints and messages: only nonempty messages and positive pair numbers are checked; messages are taken as already stripped.
- Extension runs (`process_extension`), the repository registry and the filtering of progress messages: the executor's progress is any message.
- XML parsing and XPath evaluation: elements with their written tags and parsed positions, and the matches of a candidate, are inputs. The parser is taken to report where each start tag and each end tag begins, and the end of an empty-element tag just after it; elements inside entities do not occur.
- Characters outside the basic plane: the views count code units, the model one per character.
- TreeIndex.BuildTreeNode: does not model the label and the parsed attributes a payload node carries along for display, nor the assertions on attribute syntax.
- SequenceMatcher: its opcodes are assumed to tile both inputs, with equal blocks equal.
- The payloads and kinds that projected nodes carry along.
- The choice of focus rows with context lines, and attaching anchors to lines: the selected rows and the anchors of a line are inputs.
- ArtifactFileIds.BuildFileId: does not compute the hash; the base id is an input.
- DiffTree.ReadDiffTree: does not model the lookup errors for an unknown artifact or file; the rows are those of one file, in ordinal order, as the store writes them.
- ArtifactCollection.ArtifactRoot.ApplyCollection: does not claim that collection and run completion are jointly atomic, because completion does not take the collection lock. Only the reference set read just before each deletion counts.
- ArtifactRetention.Older: does not model an artifact dated at the largest representable time, which the source would order together with undated ones.
- ReportedMoves.ReportedMoveRecords: does not model JSON type errors, because results are typed; a member without evidence, which the source answers with an index error, counts as a rejection.
- reportIdsByMember: a report may carry the identifier of another report's member, so its last writer wins; nothing is claimed about it.
- Splitting a document into lines and joining displayed lines: the views are modelled line by line.
- Segment maximality of artifact lines: neighbours without diff regions compare as different and stay apart.
- RunEvents.StreamRunEvents: does not model clocks; whether a heartbeat is due is an input, and so is what each store read observes.
- The lossy in-process progress broker, React components, geometry, web plumbing, configuration and schema versions.
