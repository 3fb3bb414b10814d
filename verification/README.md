# Codex Folio: configuration packs, checkpoints and diagnostics

Codex Folio installs reviewed configuration packs into the home directories of its profiles, keeps
checkpoints of work that is handed from one session to another, and records bounded diagnostics.
This project models the four components that carry state and proves what they promise.

- **Projector** (`FileSystem.dfy`, `Projection.dfy`, `Transaction.dfy`, `Projector.dfy`). A file set is
  staged, old files are moved aside, new files are renamed in, files the user edited are preserved, an
  ownership manifest is written, and any failure is undone in reverse. Every file system call may fail
  without effect and cancellation may strike between any two calls: each theorem holds for every
  schedule of failures. `prior` is an array whose items are updated in place.
- **Pack service** (`Ordering.dfy`, `PackFiles.dfy`, `PackService.dfy`). Validation in any map iteration
  order, canonical encoding and digest, exact change lists, overlays, and applies and promotions that act
  only on what was reviewed.
- **Checkpoint service** (`Redaction.dfy`, `Checkpoints.dfy`, `CheckpointStore.dfy`,
  `CheckpointService.dfy`, `CheckpointRuns.dfy`). Text redaction, the encoding that states its own length,
  content-derived revisions, and the draft, approved, launching, completed and expired states over a
  compare-and-set store. The launch side is an environment that may move rows before every store call; a
  ghost history, which every call only extends, records every state the rows have been in, and the
  properties are proved of every sequence of service calls.
- **Diagnostic recorder** (`Recorder.dfy`). A window of a shared backing array, compacted in place, bounded
  by count, bytes and age, refined to a model on sequences.

SHA-256, the JSON codecs, UTF-8 repair, the secret and TOML rules and the clock are function-valued
parameters with stated laws. Nothing assumes that SHA-256 is injective: a statement that compares two
digests excludes a collision of the two texts it compares and no other. The laws are `LawfulCodec`,
`LawfulHash` and `LawfulManifest` of `Foreign`, and `Lawful` of `ReviewCodec` and of `Wire`. They say no more
than Go's encoders keep: a string that is not UTF-8 comes back repaired, and nothing is said of how its bytes
were written.

Each service method says both what success means and that refusal needs a reason: when the request is
well formed for the stored state, no call fails and the launch side leaves the row alone, it succeeds.

Code and contracts share predicates such as what counts as valid, due, merged or redacted. Each of these is
written out once more without its name, in numbers or position by position, in a lemma called after it
(`ExpiryExactly`, `AcceptedFilesExactly`, `AdmittedExactly` and the like). The main methods state
expiry, revisions, merging, change lists and redaction in the written-out form.

## Findings

Four promises hold only under a condition. In each case the model keeps the code as it is, gives a failing
input, and proves when the promise holds.

- A pack whose contents fit the size limit can have an encoding that does not. Its digest is then the empty
  string, and so is that of every other such pack, so the review digest of one cannot be told from that of
  another (`PackFiles.LargePacksShareDigest`, `PackServices.LargeReviewsCoincide`). Within the limit the
  digest identifies the files (`PackFiles.DigestEqualExactly`). A promotion is refused without an encoding;
  a reviewed apply is not.
- Contents are checked to be UTF-8 and paths are not. A file set reads back from its encoding exactly when
  every path is UTF-8 (`PackFiles.RoundTrip`, `PackFiles.BrokenPathIsNotReadBack`).
- `Events` is documented as chronological. It returns the order of insertion. The accepted events are read in
  order of time by every recorder, under every clock and whatever is read in between, exactly when they are
  recorded in order of time (`Diagnostics.EventsChronologicalExactly`); otherwise a recorder with default bounds
  returns two of them in the wrong order (`Diagnostics.InversionIsRead`, `Diagnostics.LateEventComesLast`). One
  run is read in order throughout exactly when no call records an event older than one that stays
  (`Diagnostics.RunChronologicalExactly`).
- A redaction is gone from the result under every list of redactions exactly when no way of laying it over
  the marker agrees with the marker (`Redaction.RedactionExact`). Without square brackets this means that it
  is not a substring of `REDACTED` (`Redaction.BracketFreeResists`).

## Model

| member | source | states |
|---|---|---|
| Projectors.Projector.UndoOne | internal/configpack/projector.go:399-407 | Undoing one item touches that item only; if it reports success the home entry is as before applying, the old file is renamed back even if removing the new one failed, and in any case the old content is at its path or at its backup |
| Projectors.Projector.Rollback | internal/configpack/projector.go:397-409 | Walking the applied items backwards: success means every affected path is restored, failure loses no old content, and failure needs a failing call |
| Transactions.MoveAside | internal/configpack/projector.go:289-299 | Moving an old file aside advances one item and disturbs no other location |
| Transactions.Install | internal/configpack/projector.go:300-311 | Renaming the staged file in advances one item and disturbs no other location |
| Transactions.Advance | internal/configpack/projector.go:279-312 | While one item advances, all others keep exactly the progress their flags claim |
| Transactions.RollbackNext | internal/configpack/projector.go:399-407 | One undo step keeps every item either still in flight as its flags say or undone without loss |
| Projectors.Projector.ApplyOne | internal/configpack/projector.go:283-311 | One turn of the apply loop leaves flags and disk in agreement wherever it stops |
| Projectors.Projector.Apply | internal/configpack/projector.go:278-312 | All or nothing: every affected path is finished, or the loop rolled back, and if that reported success every one is as it was |
| Projectors.Projector.CheckManifest | internal/configpack/projector.go:349-365 | A manifest is accepted, in whatever order its entries come, exactly when it is small enough, its paths are valid and distinct up to case, and each digest is empty or 64 hex digits |
| Projectors.Projector.PreviousProjection | internal/configpack/projector.go:331-367 | The recorded projection is read from the manifest, also in its list form; an error needs a bad manifest or a failing read |
| Projectors.Projector.InspectOne | internal/configpack/projector.go:204-236 | One turn of the inspection loop sets exactly one item and drops the manifest entry and lists the conflict exactly when the file was edited |
| Projectors.Projector.Inspect | internal/configpack/projector.go:198-236 | All items, conflicts in path order, and the manifest of the paths that are not preserved |
| Projectors.Projector.FindConflicts | internal/configpack/projector.go:97-142 | Preview's loop finds the same conflicts as the projecting loop, although only that one visits the manifest path |
| Projectors.Projector.Preview | internal/configpack/projector.go:72-144 | The plan is the digest, the paths and the conflicts of the home as it is; refusal needs invalid files, a bad manifest or a failing call |
| Projectors.Projector.StageFiles | internal/configpack/projector.go:254-276 | Every new file and the new manifest is staged and nothing outside the stage changes, even on failure |
| Projectors.Projector.CleanUp | internal/configpack/projector.go:245-250 | Removing the new stage leaves the home and all older stages alone and nothing of itself |
| Projectors.Projector.Commit | internal/configpack/projector.go:241-312 | The home becomes the projection, or nothing is lost; the staging directory stays only when rollback could not restore an item, and otherwise nothing is left of it unless removing it failed |
| Projectors.Projector.Examine | internal/configpack/projector.go:154-239 | Nothing is written before files, manifest and conflicts have been checked; with a review the conflicts found are the reviewed ones |
| Projectors.Projector.Project | internal/configpack/projector.go:154-315 | Success: installed, removed and preserved paths and the manifest are exactly what home and manifest on entry determine. Failure: every old file is at its path or in the kept stage, unaffected paths and older stages are untouched, and the home is unchanged unless rollback failed |
| Projectors.Projector.ProjectTwice | internal/configpack/projector.go:154-315 | A second projection of the same files can fail only by a failing call, and changes no file of the home |
| Projection.ProjectedExactly | internal/configpack/projector.go:198-312 | What a projected home holds, path by path: a pack file is installed where there was none, its own content, or what the last projection wrote; a dropped file goes if it is what the last projection wrote; every other file stays; the manifest holds the digests of exactly the installed files |
| Projection.ConflictsExactly | internal/configpack/projector.go:109-142 | In path order, a file to modify for each pack path that holds something else, and one to remove for each dropped file the user changed |
| Projection.PreviousExactly | internal/configpack/projector.go:331-348 | No manifest is an empty one, the map form is read as it is, the list form gives its paths with empty digests, and anything else is an error |
| Projection.ManifestReadsBack | internal/configpack/projector.go:266-276 | The manifest a projection writes is accepted by the next one and reads back equal |
| Projection.ProjectionIsIdempotent | internal/configpack/projector.go:198-236 | Projecting the same files again leaves home contents and manifest the same |
| Projection.ConflictsOfSecondRun | internal/configpack/projector.go:224-234 | The conflicts of the second run are exactly the "modified" part of those of the first |
| Projection.ManifestNeverConflicts | internal/configpack/projector.go:191-226 | The manifest is never an affected file of a pack, so previewing and projecting agree on conflicts |
| Projection.SortedChangesCanonical | internal/configpack/configpack.go:614-622 | Sorted change lists are equal exactly when the lists hold the same changes as often |
| Projection.SameChanges | internal/configpack/projector.go:317-329 | Two conflict lists are the same exactly as multisets |
| Ordering.SortedPaths | internal/configpack/configpack.go:817-824 | The strictly increasing sequence of the keys, whatever order the map yields them in |
| Ordering.OrderedUnique | internal/configpack/configpack.go:817-824 | Sorted order is a canonical form: it depends on the elements alone |
| PackFiles.ValidateFiles | internal/configpack/configpack.go:676-709 | Acceptance does not depend on iteration order, including the running total that is compared with the limit early |
| PackFiles.SubmapValid | internal/configpack/configpack.go:676-709 | Acceptance is closed under non-empty sub-maps |
| PackFiles.CanonicalFiles | internal/configpack/configpack.go:657-674 | The encoding of the sorted file list, for valid files whose encoding fits the limit |
| PackFiles.CanonicalDocExactly | internal/configpack/configpack.go:657-669 | The encoded list holds each file once, in increasing order of paths |
| PackFiles.FilesOfExactly | internal/configpack/configpack.go:268-281 | A decoded list stands for a map exactly when no path repeats, and then for the map of its entries |
| PackFiles.UnmarshalFiles | internal/configpack/configpack.go:261-283 | The map that holds every entry of the decoded list and nothing else, refused for a repeated path or invalid files |
| PackFiles.RoundTrip | internal/configpack/configpack.go:257-283 | Unmarshalling what was marshalled gives the files back exactly when all paths are UTF-8 |
| PackFiles.BrokenPathIsNotReadBack | internal/configpack/configpack.go:257-283 | An accepted empty file at a rule path holding the byte 0xff does not read back |
| PackFiles.DigestFiles | internal/configpack/configpack.go:248-255 | The digest of the canonical encoding, or the empty string without one |
| PackFiles.DigestEqualExactly | internal/configpack/configpack.go:248-255 | Accepted files share a digest exactly when neither can be encoded or both have the same encoding, and then the same repaired list |
| PackFiles.DigestIdentifies | internal/configpack/configpack.go:248-255 | Equal maps give equal digests and different maps different ones, for UTF-8 paths and an encodable file set |
| PackFiles.FullPackHasNoDigest | internal/configpack/configpack.go:670-672 | Contents that fill the limit leave no room for the encoding: the digest is empty |
| PackFiles.LargePacksShareDigest | internal/configpack/configpack.go:248-255 | Two different accepted file sets with the same, empty, digest |
| PackFiles.ValidatePack | internal/configpack/configpack.go:174-190 | A pack is accepted exactly when identifiers, files and digest are valid |
| PackFiles.MergeFiles | internal/configpack/configpack.go:192-209 | Exactly the paths of pack and overrides, with the override where there is one and the file of the pack elsewhere; a valid pack without overrides is its own files; refused exactly if pack, overrides or the overlay are invalid |
| PackFiles.MergedIsOverlaid | internal/configpack/configpack.go:192-209 | A merge holds exactly the paths of pack and overrides, overridden ones with the override, the others as in the pack |
| PackFiles.OverrideStaysMergeable | internal/configpack/configpack.go:358-375 | An override accepted on top of a merge merges again, to that merge updated at one path |
| PackFiles.Changes | internal/configpack/configpack.go:788-815 | Increasing in paths; a path is listed as added exactly if only the new map has it, as removed if only the old one has it, as modified if both have it with different contents |
| PackFiles.ExactIsListed | internal/configpack/configpack.go:788-815 | The list the code builds is the one that says of every path what was added, removed and modified |
| PackFiles.ExactChangesUnique | internal/configpack/configpack.go:788-815 | Such a list is determined by the two maps |
| PackFiles.NoChangesExactly | internal/configpack/configpack.go:788-815 | It is empty exactly when the maps are equal |
| PackFiles.ReplayGivesAfter | internal/configpack/configpack.go:788-815 | Replaying it on the old map gives the new one |
| PackFiles.PromotionNeverRemoves | internal/configpack/configpack.go:211-232 | The changes of a merge never remove a file of the pack |
| PackServices.Repository.SetOverride | internal/store/configuration_packs.go:345-373 | Upserts one override of a ready managed profile and nothing else |
| PackServices.Repository.PromotePack | internal/store/configuration_packs.go:183-237 | Publishes an encodable approved pack under a version that did not exist, next to an approved one; each refusal has one of the stated reasons |
| PackServices.ReviewDigestExactly | internal/configpack/configpack.go:588-596 | Two situations with one review digest agree in all that is reviewed up to the repair of broken strings; without broken strings they share one exactly when assignment, target, files digest and conflicts agree |
| PackServices.ReviewIdentifiesFiles | internal/configpack/configpack.go:588-596 | A review digest of encodable files with UTF-8 paths stands for those files alone |
| PackServices.UnencodableReviewsCoincide | internal/configpack/configpack.go:588-596 | Reviews of files without an encoding do not depend on the files |
| PackServices.LargeReviewsCoincide | internal/configpack/configpack.go:588-596 | Two situations that write different files under one review digest |
| PackServices.Service.EffectiveFor | internal/configpack/configpack.go:625-646 | The assignment of the alias, its approved pack, and its files: the override where the alias has one, the file of the pack elsewhere; refused for a stated reason or a failing call |
| PackServices.Service.SetOverride | internal/configpack/configpack.go:358-375 | After an accepted override the profile is still in effect, with its old merge updated at that path; other profiles are unchanged; refusal needs one of the stated reasons |
| PackServices.Service.Preview | internal/configpack/configpack.go:383-410 | For a ready, managed profile with a home: plan and digest of the situation now, refused only for want of one or by a failing call; nothing changes |
| PackServices.Service.ApplyStopped | internal/configpack/configpack.go:470-480 | Projects only if the digest is that of the home as it is, and otherwise loses nothing |
| PackServices.Service.ApplyReviewed | internal/configpack/configpack.go:451-495 | Sound: success means a ready, managed profile, a digest that is that of a preview on entry, a home that is the projection of the files in effect, and no other home changed. Complete: with that digest it is refused only for a running profile or a failing call |
| PackServices.Service.PreviewThenApply | internal/configpack/configpack.go:383-495 | With repository and home left alone, what was previewed is applied, the conflicts are the shown ones and no other home has changed |
| PackServices.Service.PreviewThenOverrideThenApply | internal/configpack/configpack.go:358-495 | After an override between review and apply, the digest of the review applies only files that are the reviewed ones, unless the digest cannot tell them apart |
| PackServices.Service.PreviewPromotion | internal/configpack/configpack.go:503-516 | What the promotion would add, remove and modify, written out path by path, and the digest that covers it |
| PackServices.Service.PromoteReviewed | internal/configpack/configpack.go:546-570 | Publishes exactly the merge the digest stands for under a new version, leaves every profile's configuration as it is, and refuses only for the stated reasons |
| PackServices.Service.PreviewThenPromote | internal/configpack/configpack.go:503-570 | What was previewed is promoted unless it has no encoding, the version is taken or a call fails; the shown changes replayed on the old version give the new one and remove nothing |
| PackServices.Service.PromotionIdentifies | internal/configpack/configpack.go:598-606 | A promotion digest stands for one merge under one version, and for one assignment, pack digest and list of changes up to the repair of broken strings |
| Redaction.SanitizeText | internal/continuation/checkpoint.go:800-814 | The result is the text after replacing the three spellings of the home and then each redaction in turn, everything else kept; a text in which none of them is found comes back unchanged; no redaction that resists the marker is left |
| Redaction.ReplacedExactly | internal/continuation/checkpoint.go:810-812 | A replacement result is the text with the marker for each occurrence found from the left and every other character kept, and nothing else is |
| Redaction.SanitizedInTurn | internal/continuation/checkpoint.go:800-814 | On a case-sensitive home the sanitized text is the text after the three home replacements and the redactions, one after another |
| Redaction.SanitizedOnWindows | internal/continuation/checkpoint.go:800-814 | On a Windows home the three spellings go in one case-insensitive pass each, then the redactions |
| Redaction.NothingToReplace | internal/continuation/checkpoint.go:800-814 | A text in which nothing is found is left alone |
| Redaction.ReplaceKeepsAbsent | internal/continuation/checkpoint.go:810-812 | No replacement by a marker creates an occurrence of a text that resists the marker |
| Redaction.ReplaceRemoves | internal/continuation/checkpoint.go:810-812 | Replacing a text that resists the marker leaves no occurrence of it |
| Redaction.RedactionComplete | internal/continuation/checkpoint.go:800-814 | A redaction that resists the marker is gone from the result, whatever the other redactions and their order |
| Redaction.RedactionExact | internal/continuation/checkpoint.go:810-812 | It is gone from every text under every list naming it if and only if it resists the marker |
| Redaction.BracketFreeResists | internal/continuation/checkpoint.go:810-812 | Without square brackets, resisting a marker means not being part of its word |
| Redaction.HomeNeverLeaks | internal/continuation/checkpoint.go:801-808 | A bracket-free home holding a slash occurs in no slash form in the result, whatever redactions ran afterwards |
| Checkpoints.SizesConverge | internal/continuation/checkpoint.go:896-907 | The sizes tried move in one direction below a bound |
| Checkpoints.FinalizeCheckpoint | internal/continuation/checkpoint.go:896-907 | The loop ends from every starting size and returns an encoding whose length is the size encoded in it, all else unchanged; it fails exactly when the checkpoint cannot be encoded |
| Checkpoints.PrepareCheckpoint | internal/continuation/checkpoint.go:909-925 | Stamps the digest of the content and the size, changing nothing else |
| Checkpoints.RevisionIdentifiesContent | internal/continuation/checkpoint.go:909-925 | Two checkpoints have one revision exactly when project, repository, fields, source, retention, creation and expiry are equal, or their encodings collide |
| Checkpoints.SanitizeValidations | internal/continuation/checkpoint.go:718-735 | Each validation sanitized in place, refused if one is invalid; complete only if all are whole |
| Checkpoints.SanitizePaths | internal/continuation/checkpoint.go:820-833 | Paths normalized, redacted ones replaced, refused if one leaves the repository |
| Checkpoints.SanitizeFields | internal/continuation/checkpoint.go:710-736 | All fields sanitized with provenance set anew, refused exactly when a text is invalid |
| Checkpoints.FieldsExactly | internal/continuation/checkpoint.go:710-798 | Each field is the sanitized text of its own field, user-confirmed when it is not empty; validations keep their order, times and exit status |
| Checkpoints.RedactedListExactly | internal/continuation/checkpoint.go:820-841 | Each path cleaned, and replaced exactly if it cleans to what a redacted path cleans to |
| Checkpoints.ApplyEdit | internal/continuation/checkpoint.go:609-632 | The one outcome of an edit; identity, times and observed facts stay; refused exactly for invalid fields or paths |
| Checkpoints.EditedExactly | internal/continuation/checkpoint.go:609-632 | An edit part by part: each text sanitized in its own place, each inventory redacted, each field the requested one, everything else as it was |
| Checkpoints.EditUnique | internal/continuation/checkpoint.go:609-632 | An edit determines its outcome |
| Checkpoints.EditRedacts | internal/continuation/checkpoint.go:609-632 | After an edit no sanitized text of the checkpoint holds a redaction that resists the marker, or the home |
| Checkpoints.RedactedPathsVanish | internal/continuation/checkpoint.go:820-833 | No redacted path is left in an inventory |
| Checkpoints.ExpiryExactly | internal/continuation/retention.go:18-56 | Never for "unlimited", that many days after creation for a number of days in range, refused otherwise |
| CheckpointStores.RunSound | internal/continuation/checkpoint.go:909-925 | In every state of every run an unexpired row carries the digest of its content as revision, and an expired one is scrubbed |
| CheckpointStores.ExpiredForever | internal/continuation/checkpoint.go:449-480 | In a run of the rows, a row once expired is scrubbed and stays the same through every later step short of its purge |
| CheckpointRuns.Perform | internal/continuation/checkpoint.go:264-698 | Whatever one service call is and however it ends, it changes no expired row but by purging it, adds only the row it captures, and extends the history of the rows |
| CheckpointRuns.Serve | internal/continuation/checkpoint.go:264-698 | After any sequence of service calls, with the launch side at work in between, an expired row that is still there is the row it was and holds nothing; in the history a row once expired stays scrubbed until its purge, and a launching row is next changed by the launch side alone |
| CheckpointRuns.ReviewThenApprove | internal/continuation/checkpoint.go:428-663 | Whatever calls and launch-side moves come between showing and approving, an approval under the shown revision stores the shown checkpoint, all but status and size as shown, or two encodings collide |
| CheckpointRuns.PreviewThenApproveAssisted | internal/continuation/checkpoint.go:537-607 | Whatever became of the draft, the policy and the request since the preview, an assisted approval under its revision stores the previewed checkpoint, all but status and size as previewed, or two encodings collide |
| CheckpointStores.PermittedSteps | internal/store/secure.go:297-330 | A save whose comparison passes is a step of a run |
| CheckpointStores.Store.SaveCheckpoint | internal/store/secure.go:270-383 | Writes the row exactly when the expected status and revision are the stored ones, or none are expected |
| CheckpointStores.Store.LoadCheckpoint | internal/store/continuation.go:46-64 | The row as the launch side left it |
| CheckpointStores.Store.PurgeCheckpoint | internal/store/continuation.go:108-166 | Deletes exactly one revision that is not launching and that no live launch refers to |
| CheckpointServices.Service.Show | internal/continuation/checkpoint.go:428-482 | At or after its expiry a checkpoint is returned only as launching or expired, and an expired one holds nothing, in its columns or its text; before it a row is returned as it is and not written; a scrubbed row keeps identity, origin, times and revision; refusal needs a reason |
| CheckpointServices.Service.ExpiredHoldsNothing | internal/continuation/checkpoint.go:462-480 | An expired row has no text column, and its checkpoint no text, path, command or observation |
| CheckpointServices.Service.Edit | internal/continuation/checkpoint.go:506-535 | The stored draft is the edit of what was stored as a draft or approved, under the revision of its new content; a launching or expired row is not written; every editable row is edited unless a call fails or the launch side moves it |
| CheckpointServices.Service.Approve | internal/continuation/checkpoint.go:634-663 | Approves exactly the content, stored as a draft or approved, whose digest is the reviewed revision; a launching or expired row is not written; every approvable row is approved unless a call fails or the launch side moves it |
| CheckpointServices.Service.EditThenApprove | internal/continuation/checkpoint.go:506-663 | Approving the revision an edit returned stores the edited checkpoint, all but status and size as returned |
| CheckpointServices.Service.PreviewAssisted | internal/continuation/checkpoint.go:570-607 | The assisted draft of a reviewed repository-first row stored as a draft, under the policy in force; nothing is written |
| CheckpointServices.Service.AssistUnique | internal/continuation/checkpoint.go:570-607 | Draft, request and policy determine the assisted draft |
| CheckpointServices.Service.AssistedExactly | internal/continuation/checkpoint.go:570-607 | An assisted draft has the policy retention for assisted checkpoints, counted from the creation of the draft it was made of, and the edited texts |
| CheckpointServices.Service.ApproveAssisted | internal/continuation/checkpoint.go:543-568 | Saves only over a repository-first draft, and only an assisted draft with the previewed revision; a changed draft, request or policy that gives another revision is refused |
| CheckpointServices.Service.ReviewAssisted | internal/continuation/checkpoint.go:537-607 | With row and policy left alone, what was previewed is approved, and nothing else |
| CheckpointServices.Service.Purge | internal/continuation/checkpoint.go:409-426 | Deletes one exact revision of a row that was not launching; other rows are untouched; only a launch in progress, a failing call or the launch side stops it |
| CheckpointServices.Service.PrepareHandoff | internal/continuation/checkpoint.go:665-698 | Succeeds exactly for an approved checkpoint under the revision, before its expiry, and an exited source of another profile; hands over the stored text, whose revision is the digest of its content |
| CheckpointServices.Service.Capture | internal/continuation/checkpoint.go:264-335 | A new draft of exactly what the request and the inspection say, sanitized, under the policy in force; refusal needs a reason |
| CheckpointServices.Service.CapturedExactly | internal/continuation/checkpoint.go:264-335 | A capture field by field, in terms of the request, the inspection and the policy |
| CheckpointServices.Service.CaptureRedacts | internal/continuation/checkpoint.go:269-325 | Redactions and the home are gone from the sanitized texts of a capture; commands found by inspection are not among them |
| CheckpointServices.Service.SaveOver | internal/continuation/checkpoint.go:700-708 | Saving over a shown row cannot meet a changed revision, and touches no other row |
| Diagnostics.Recorder.NewRecorder | internal/diagnostics/diagnostics.go:311-342 | A recorder exactly for valid options, empty, each bound the one asked for or, for zero, the default |
| Diagnostics.BoundsOf | internal/diagnostics/diagnostics.go:315-330 | Every bound is at least 1 and within its maximum |
| Diagnostics.Recorder.Compact | internal/diagnostics/diagnostics.go:433-443 | Compaction in place over the shared array gives the order-preserving filter and its exact size, and writes nothing outside the window |
| Diagnostics.UnexpiredConcat | internal/diagnostics/diagnostics.go:431-446 | The age filter goes event by event and keeps the order |
| Diagnostics.Recorder.RemoveExpired | internal/diagnostics/diagnostics.go:431-446 | Afterwards the window holds exactly the unexpired events and encodedBytes their total size |
| Diagnostics.Recorder.RemoveOldest | internal/diagnostics/diagnostics.go:448-459 | Drops the oldest-inserted event and its size |
| Diagnostics.Recorder.MakeRoom | internal/diagnostics/diagnostics.go:372-374 | The eviction loop ends, never meets an empty window, and leaves room |
| Diagnostics.EvictionIsMinimal | internal/diagnostics/diagnostics.go:372-374 | What remains is the longest suffix that leaves room for the event |
| Diagnostics.Recorder.Record | internal/diagnostics/diagnostics.go:347-378 | Equal to the model: filter by age, evict minimally, append; a rejected event changes nothing and an accepted unexpired one is last |
| Diagnostics.RecordedExactly | internal/diagnostics/diagnostics.go:347-378 | What recording comes to in terms of the clock: age is measured from the later of clock and event, and an event within the retention is kept, last |
| Diagnostics.Recorder.RecordError | internal/diagnostics/diagnostics.go:382-392 | Records an event that holds the registered code of the error, or the general one, and nothing else of it |
| Diagnostics.Recorder.Events | internal/diagnostics/diagnostics.go:395-407 | A fresh copy of the unexpired events |
| Diagnostics.Recorder.Len | internal/diagnostics/diagnostics.go:410-418 | The number of unexpired events, within the bound |
| Diagnostics.Recorder.EncodedBytes | internal/diagnostics/diagnostics.go:421-429 | The exact total size of the unexpired events, within the bound |
| Diagnostics.RunInvariant | internal/diagnostics/diagnostics.go:347-429 | After every run of calls under any clock both bounds hold and the retained events are a subsequence of the accepted ones |
| Diagnostics.ReadThenRun | internal/diagnostics/diagnostics.go:395-407 | The recorder refines the model over every run of calls, and a slice returned before the run is changed by none of them |
| Diagnostics.ChronologicalExactly | internal/diagnostics/diagnostics.go:364-376 | One call leaves a chronological buffer chronological exactly when it records nothing older than an event that is neither expired nor evicted by then |
| Diagnostics.RunChronologicalExactly | internal/diagnostics/diagnostics.go:394-407 | A run is read in order of time throughout exactly when every call of it keeps order, judged by what is retained before the call |
| Diagnostics.EventsChronologicalExactly | internal/diagnostics/diagnostics.go:394-407 | Events are read in order of time by every recorder under every clock exactly when they are recorded in order of time |
| Diagnostics.InversionIsRead | internal/diagnostics/diagnostics.go:394-407 | Two neighbours recorded out of order are returned out of order by any recorder that keeps two events of the largest size |
| Diagnostics.LateEventComesLast | internal/diagnostics/diagnostics.go:394-407 | An older event recorded after a newer one is returned after it |

## Left out

- CheckpointServices.Service.Capture: takes its random identifier as new to the store, because the chance of a repeated 128-bit identifier is not modelled.
- CheckpointStores.Store.SaveCheckpoint: the row comparison is modelled; encryption of the columns and SQL errors are one possible failure of the call.
- Redaction.HomeNeverLeaks: does not cover Windows home paths, whose case-insensitive replacement is an uninterpreted function.
- SHA-256, JSON syntax, TOML parsing, the secret-detecting expressions and the per-segment path rules are functions and per-file predicates with stated laws.
- Symbolic links, permissions, directories in the place of files, nesting of paths and case-insensitive file systems are possible early failures of a file system call.
- A file system call fails without effect, except that removing a staging directory may remove part of it.
- Nil receivers, mutexes and database transactions: each method is one critical section, as it is in the program.
- Event contexts are values, so a caller's later write through a shared context pointer is not modelled; the program clones them.
- A checkpoint's text is valid Unicode, a character being one code point, and a pack's text is bytes. Blankness in the pack service means ASCII white space; lower-casing, path cleaning and number parsing are functions.
- Times are integers; monotonic clock readings and overflow of time arithmetic are not modelled.
- Checkpoint rows written before retention settings existed, with an empty retention, are handled as in the program but are outside the run invariant.
- Listing, history preparation, capture by project identity, retention settings, assignment, drafting and approval of packs, and the unreviewed project and promote operations add no property beyond those above.
- HTTP handlers, the command line, the SQL store, the vault, process inspection, checkpoint export, alerts, telemetry and update checks.
