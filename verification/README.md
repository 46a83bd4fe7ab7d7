# Verified model of the teaching platform's core engines

This project models, in Dafny, the parts of the platform whose correctness depends on more than one line of code, and
proves what they promise. `dafny verify dfyconfig.toml` checks all of it.

| part of the platform | modules |
|---|---|
| face views of questions: dotted paths deleted in place from a cloned body | `FacePaths`, `FaceStripping` |
| sandbox compositions: validation, canonical form, digests, image closure | `Composition`, `SnapshotDigest`, `SnapshotMeaning`, `CanonicalJson`, `ImageClosure` |
| system configuration and its change log | `ConfigHistory`, `ConfigSessions` |
| audit exports: replicas, leases, crashes | `AuditExport`, `ExportLifecycle` |
| bridge relayer: duplicate JSON keys, chain quantities | `JsonScanner`, `ChainQuantity`, `Radix` |
| snowflake ids | `Snowflake` |
| error trees | `AppErrors` |
| theory questions, tags, runtime environments | `Question`, `AnswerLaws`, `Tags`, `EnvMerge` |
| shared: strings, JSON values, sets, unstable sorting | `Text`, `Json`, `Sets`, `Sorting` |

## How the models are built

Code that changes state is imperative here too. Question bodies are a heap of `MapNode` objects, as Go maps are, with a
ghost tree beside them; the composition methods sort copies of arrays; the JSON reader, the closure, the configuration
service and the export system are classes. Each method is proved against a function or a relation on values, and the
theorems are about those.

* **Face views.** `deletePathParts` visits a matched child twice, once with the rest of the path and once with the whole
  path. `FacePaths.PruneMeaning` says what comes of it: a node disappears exactly when the parts of the path are a
  subsequence of the object keys leading to it. The rest (order, repetition, idempotence) follows.
* **Sorting.** `sort.Slice` is unstable, so a sort is a relation (`SortedPerm`), not a function, and callers may rely on
  nothing more. `SortUniqueIff` gives the exact condition under which the relation has one result. Digests take encoding
  and hashing together as a parameter, so what is proved is that one value is encoded, whatever the encoding is.
* **Configuration.** In `ConfigHistory` a transaction is one atomic step on the two tables, and runs are arbitrary
  sequences of transactions. In `ConfigSessions` it is what the source does under read committed isolation: it reads, reads
  the log entry if it rolls back, and later writes, with others in between. `ConfigSessions.RefinesAtomic` carries the
  theorems over.
* **Audit exports.** Every statement that touches shared state is one action of a state machine; runs are arbitrary
  interleavings of any number of workers. Workers may crash anywhere, and a database or storage call may take effect and
  still return an error. The methods of `System` run one worker against that machine, with any actions of others in
  between. What the worker meets (clock readings, what its calls come to) is a parameter `Env`; `Works` says that each of
  its actions is its own step under these circumstances, so the machine leaves it one way to go.
* **Specification functions.** A method is proved to compute a function, and the functions are pinned down apart from
  their bodies: what they yield is said in terms of their inputs, mostly as an equivalence (`AnswerLaws`,
  `ExportLifecycle`, `SnapshotMeaning`, `Snowflake.StepExact`, `ConfigHistory.TargetIff`, `UpdateExact`, `RollbackExact`).
* **Snowflake.** The clock is an arbitrary list of readings. `None` means that a call is still waiting for readings.
  Shifting and or-ing follow 64-bit arithmetic.
* **Relayer JSON.** The input is a list of lexemes, and `ReadToken` is the state machine of `json.Decoder.Token`, so
  misplaced commas and colons are part of the model.

## What turned out not to hold

* **The digest of a composition is not always a function of it.** Two different components with one code, or two
  different links with one sort key, are left in either order by the unstable sort. `Composition.NormalUniqueIff` and
  `SnapshotDigest.PreimageUniqueIff` give the exact conditions; runtimes and the image closure need none.
  `SnapshotDigest.AcceptedUnstable` is a snapshot that both digests accept and that violates them: two bindings of one
  endpoint. The compiler refuses repeated component codes before it digests a snapshot
  (`backend/internal/modules/sandbox/service_composition_catalog.go:70-77`), so those have to reach the digest functions
  past the compiler. It does not refuse such links: it compares binding names too
  (`backend/internal/modules/sandbox/service_composition.go:529-571`, `:858-906`).
* **The two digests look the workspace up differently** (`engine_composition.go:242-249` trims, `:294` does not).
  `SnapshotDigest.PaddedWorkspaceDiffers` is an example; `SnapshotAcceptedIff` says exactly when they differ: when the
  workspace is not spelt, with its spaces, like the one declaration that it denotes.
* **Ids of one node do not increase for ever.** Time is cut into eras of 2^42 milliseconds, the first of which ends 2^41
  milliseconds after the epoch. Within an era ids increase; at its end they fall back by 2^64. At any two times ids
  compare as the times and sequences counted within their eras do (`Snowflake.OrderIff`), and all ids of a run increase
  iff those grow from call to call (`Snowflake.RunIncreasesIff`). For a run of less than 2^42 milliseconds this means
  that it ends in the era in which it began (`Snowflake.EraIncreasesIff`). `Snowflake.IdsDrop` is a run of two calls whose ids
  drop. Ids are negative exactly in the second half of every 2^42 milliseconds (`Snowflake.SignBitOverflow`).
* **The change log need not be a chain.** A transaction logs the old value that it read, but checks the version that the
  request names. A commit keeps the chain iff the value read is the value overwritten
  (`ConfigSessions.CommitKeepsChainIff`). This is so as long as no request names a version ahead of the one that its
  transaction reads; then interleaved transactions are serialisable (`ConfigSessions.RefinesAtomic`). A request that
  guesses a version ahead can break the chain (`ConfigSessions.StaleReadBreaksChain`); comparing the version read with
  the version named would rule it out.
* **An exhausted export task never fails.** `ClaimTransferTask` contains an update that is meant to fail a task whose
  last lease has expired (`backend/db/queries/transfer.sql:51-66`). The claim itself matches no row then, which is an
  error, and `runTx` rolls the whole transaction back (`backend/internal/platform/db/db.go:218-243`). So once the lease
  has ended the task keeps running and its request row is checked for ever (`AuditExport.ExhaustedForever`, reachable by
  one crash). `AuditExport.ExpiredLeaseTakenOverIff` is the exact condition: after its lease has ended, a running task
  can still move in some continuation iff it has attempts left.
* **The artifact of a succeeded task can be deleted.** If the database commits a completion and the answer is lost, the
  worker cleans up the artifact of a task that has succeeded (`AuditExport.LostAcknowledgementBreaks`). This is the only
  way: in every run the artifact is missing iff the worker that stored it has cleaned it up
  (`AuditExport.ArtifactMissingIff`), and that worker's completion was lost before (`AuditExport.MissingComesFromLost`).
  A single cleanup does harm iff the task already names the token that the worker holds (`AuditExport.StepLosesIff`),
  which the worker could look up before it deletes. A lost answer followed by a crash, or by a failed deletion, does none.

## Model

| member | source | states |
|---|---|---|
| `FacePaths.SubseqIffEmbeds` | backend/internal/modules/content/convert_sensitive.go:63-79 | matching the parts of a path greedily finds them along the keys exactly when some increasing positions spell them out |
| `FacePaths.PruneMeaning` | backend/internal/modules/content/convert_sensitive.go:63-79 | the node at any path is gone iff the parts are a subsequence of its object keys; otherwise its shape (scalar, array length) is unchanged |
| `FacePaths.PruneAbsorbs` | backend/internal/modules/content/convert_sensitive.go:63-79 | a path that contains an already deleted path as a subsequence deletes nothing more |
| `FacePaths.SecondPassIsNoOp` | backend/internal/modules/content/convert_sensitive.go:66-73 | visiting the matched child a second time with the whole path changes nothing |
| `FacePaths.StripMeaning` | backend/internal/modules/content/convert_sensitive.go:44-49 | stripping a list of paths keeps exactly the nodes that every path keeps |
| `FacePaths.StripAbsorbs` | backend/internal/modules/content/convert_sensitive.go:44-49 | stripping again with any paths from the same set changes nothing |
| `FacePaths.StripIgnoresOrder` | backend/internal/modules/content/convert_sensitive.go:44-49 | only the set of non-empty paths matters, not order or repetition |
| `FacePaths.PathPartsOfJoin` | backend/internal/modules/content/convert_sensitive.go:82-92 | splitting inverts joining with dots for every list of trimmed, dot-free, non-empty names |
| `FacePaths.FaceMeaning` | backend/internal/modules/content/convert_sensitive.go:27-51 | a face keeps exactly the nodes that no default and no declared path names |
| `FacePaths.FaceTwice` | backend/internal/modules/content/convert_sensitive.go:27-36 | the face of a face is the same face, and taking it cannot fail |
| `FacePaths.FaceIgnoresOrder` | backend/internal/modules/content/convert_sensitive.go:27-36 | declared paths may come in any order and repeat |
| `FacePaths.DefaultFaceIff` | backend/internal/modules/content/convert_sensitive.go:9-36 | without declared paths, a face lacks exactly what has one of ten names (answer, flag, judge_config and so on) on its way at any depth; the dotted defaults add nothing |
| `FacePaths.NoAnswerInFace` | backend/internal/modules/content/convert_sensitive.go:9-51 | whatever else is declared, nothing under such a name is in any face |
| `FacePaths.CleanAppend` | backend/internal/modules/content/convert_sensitive.go:82-92 | pieces of a dotted path are trimmed one by one, blank ones dropped, and kept in order |
| `Text.TrimSpaceMeaning` | backend/internal/modules/content/convert_sensitive.go:82-92 | trimming removes white space from the two ends and nothing else |
| `Text.IsSpaceIff` | backend/internal/modules/content/convert_sensitive.go:82-92 | the characters that count as white space, one by one |
| `Json.Extensional` | backend/internal/modules/content/convert_sensitive.go:63-79 | a body is determined by what is found along its paths, so the path-wise theorems fix the whole result |
| `FaceStripping.DeletePathParts` | backend/internal/modules/content/convert_sensitive.go:63-79 | on an unshared heap tree the in-place recursion yields the pruned tree, still unshared, and writes nothing outside the tree |
| `FaceStripping.EraseMeaning` | backend/internal/modules/content/convert_sensitive.go:63-79 | the JSON value of a heap tree has its literals, elements and keys |
| `FaceStripping.DeleteInChild` | backend/internal/modules/content/convert_sensitive.go:68-69 | the first pass prunes the matched child by the rest of the path and leaves its siblings |
| `FaceStripping.DeleteInFields` | backend/internal/modules/content/convert_sensitive.go:71-73 | the second pass prunes every child of a map by the whole path, in whatever order the map is ranged over |
| `FaceStripping.DeleteInItems` | backend/internal/modules/content/convert_sensitive.go:74-77 | every element of an array is pruned by the whole path |
| `FaceStripping.PassesArePrune` | backend/internal/modules/content/convert_sensitive.go:66-73 | deletion of a key and the two passes together amount to one pruning |
| `FaceStripping.SplitPath` | backend/internal/modules/content/convert_sensitive.go:82-92 | the loop yields the trimmed, non-blank pieces in order |
| `FaceStripping.DeletePaths` | backend/internal/modules/content/convert_sensitive.go:44-60 | deleting path after path in place is stripping by all of them |
| `FaceStripping.Clone` | backend/internal/platform/jsonx/jsonx.go:100-109 | succeeds iff the value can be encoded; the copy is fresh, unshared and, number literals kept, equal, even where the input shares nodes |
| `Json.EncodableIff` | backend/internal/platform/jsonx/jsonx.go:100-109 | a body can be encoded iff no path in it leads to anything foreign to JSON |
| `FaceStripping.StripSensitiveFields` | backend/internal/modules/content/convert_sensitive.go:39-51 | the result is the stripped body in fresh nodes; the input body is not written |
| `FaceStripping.FaceSnapshot` | backend/internal/modules/content/convert_sensitive.go:27-36 | the face uses the default paths and the declared ones; the input body is not written |
| `JsonScanner.ScanTree` | images/infra/bridge-relayer/config.go:373-420 | on the lexemes of any document followed by anything, the scanner consumes exactly that document, and succeeds iff no object at any depth repeats a key |
| `JsonScanner.ScanSound` | images/infra/bridge-relayer/config.go:373-420 | whatever the scanner accepts and consumes is the text of one duplicate-free document |
| `JsonScanner.AcceptsIff` | images/infra/bridge-relayer/config.go:361-370 | accepted inputs are exactly the single duplicate-free documents |
| `Json.DuplicateFreeIff` | images/infra/bridge-relayer/config.go:361-420 | what duplicate-free means: no object anywhere in the document has two members of one name, and every literal is one |
| `JsonScanner.ScanJSONValue` | images/infra/bridge-relayer/config.go:373-420 | the recursive method on the decoder's state computes the scanner function |
| `JsonScanner.ScanObject` | images/infra/bridge-relayer/config.go:383-405 | the member loop with its key set computes the member scan and leaves the decoder behind the closing brace |
| `JsonScanner.ScanArray` | images/infra/bridge-relayer/config.go:406-415 | the element loop computes the element scan and leaves the decoder behind the closing bracket |
| `JsonScanner.RejectDuplicateJSONKeys` | images/infra/bridge-relayer/config.go:361-370 | true exactly on single duplicate-free documents |
| `Radix.ValueOfFormat` | images/infra/bridge-relayer/config.go:260 | reading inverts minimal writing, in every base up to 16 |
| `Radix.MinimalIsFormat` | images/infra/bridge-relayer/config.go:257-259 | a text without needless zeros is the minimal writing of its value, up to letter case |
| `ChainQuantity.ParseUint` | images/infra/bridge-relayer/config.go:260 | with wrapping 64-bit arithmetic: a number comes out iff the digits denote it below 2^64; a range error means that a prefix already exceeds 64 bits |
| `ChainQuantity.NoRange` | images/infra/bridge-relayer/config.go:257-263 | on at most sixteen digits no prefix exceeds 64 bits, so the range error cannot occur |
| `ChainQuantity.RpcQuantity` | images/infra/bridge-relayer/config.go:255-265 | yields n exactly on the minimal hexadecimal encoding of n < 2^64, up to letter case |
| `ChainQuantity.QuantityMeaning` | images/infra/bridge-relayer/config.go:257-260 | a minimal text denotes n iff it is the encoding of n up to letter case |
| `ChainQuantity.AllZero` | images/infra/bridge-relayer/config.go:351-358 | true iff the bytes denote zero |
| `ChainQuantity.SplitWord` | images/infra/bridge-relayer/config.go:272-280 | a 32-byte word is its first 28 bytes times 2^32 plus its last four |
| `ChainQuantity.RpcMailboxDomain` | images/infra/bridge-relayer/config.go:268-281 | yields n exactly on 32-byte words whose big-endian value is n < 2^32 |
| `ChainQuantity.HasDeployedCode` | images/infra/bridge-relayer/config.go:342-348 | true iff the text is whole bytes of hexadecimal and not all zero |
| `Snowflake.PatternIsSum` | backend/pkg/snowflake/snowflake.go:64 | the or of the shifted fields is their sum, with the time reduced to 42 bits |
| `Snowflake.IdsEqualIff` | backend/pkg/snowflake/snowflake.go:64 | two ids are equal iff node, sequence and the time modulo 2^42 are |
| `Snowflake.FieldRoundTrip` | backend/pkg/snowflake/snowflake.go:64 | shifting and masking an id gives back time, node and sequence while the time fits in 41 bits |
| `Snowflake.SignBitOverflow` | backend/pkg/snowflake/snowflake.go:64 | an id is negative iff its time modulo 2^42 is 2^41 or more |
| `Snowflake.IdInEra` | backend/pkg/snowflake/snowflake.go:64 | the signed value of an id: the time counted from the start of the numbering of its era, then node and sequence |
| `Snowflake.OrderIff` | backend/pkg/snowflake/snowflake.go:64 | of two ids of a node at any two times, one is below the other iff its time and sequence, counted within its era, are |
| `Snowflake.IncreaseIff` | backend/pkg/snowflake/snowflake.go:64 | the later of two ids is greater iff its rank in its era is; in one era it always is, and for times less than 2^42 milliseconds apart only then |
| `Snowflake.RunIncreasesIff` | backend/pkg/snowflake/snowflake.go:43-65 | all ids of any run on any clock increase iff from call to call the rank in its era grows |
| `Snowflake.EraIncreasesIff` | backend/pkg/snowflake/snowflake.go:43-65 | all ids of a run of less than 2^42 milliseconds increase iff its first and last time lie in one era |
| `Snowflake.IdsDrop` | backend/pkg/snowflake/snowflake.go:43-65 | two readings one millisecond apart after which a node's second id is below its first |
| `Snowflake.WaitEndsIff` | backend/pkg/snowflake/snowflake.go:68-79 | nextMillis returns iff some reading leaves the window [last - 5, last] |
| `Snowflake.WaitMeaning` | backend/pkg/snowflake/snowflake.go:68-79 | the wait stops at the first reading outside the window and returns it, or last + 1 if the clock fell back by more than 5 ms |
| `Snowflake.StepForward` | backend/pkg/snowflake/snowflake.go:43-65 | every call moves (lastTime, sequence) forward lexicographically, by one step if it outruns every reading |
| `Snowflake.StepExact` | backend/pkg/snowflake/snowflake.go:43-65 | exactly what a finished call does: with sequence numbers left, one reading, and the time is the largest of epoch, last time and reading; otherwise the first reading outside [last - 5, last], or last + 1 after a rollback |
| `Snowflake.StepWaitsIff` | backend/pkg/snowflake/snowflake.go:43-79 | a call is still waiting iff it has read nothing, or the sequence has run out and no reading has left the window |
| `Snowflake.StepCatchesUp` | backend/pkg/snowflake/snowflake.go:43-65 | a finished call is not behind the epoch, the last time or any reading that it consumed |
| `Snowflake.RunForward` | backend/pkg/snowflake/snowflake.go:43-65 | so do any number of calls, whatever the clock does |
| `Snowflake.IdsIncrease` | backend/pkg/snowflake/snowflake.go:43-65 | ids of one node strictly increase while the time fits in 41 bits |
| `Snowflake.NodesNeverCollide` | backend/pkg/snowflake/snowflake.go:35-65 | different nodes never produce the same id, on any clocks |
| `Snowflake.DriftBound` | backend/pkg/snowflake/snowflake.go:43-79 | after k calls lastTime is at most (k - 1) / 4096 ahead of the highest reading (or of the epoch) |
| `Snowflake.RunCatchesUp` | backend/pkg/snowflake/snowflake.go:43-79 | after any number of calls the time is not behind any reading that they consumed |
| `Snowflake.NextMillis` | backend/pkg/snowflake/snowflake.go:68-79 | the waiting loop computes the wait function, which exceeds its argument |
| `Snowflake.NewNode` | backend/pkg/snowflake/snowflake.go:35-40 | accepts exactly the node ids 0 to 1023 |
| `Snowflake.Node.Generate` | backend/pkg/snowflake/snowflake.go:43-65 | the method on the node's fields computes one step and returns the id of the new state |
| `AppErrors.FirstIndex` | backend/pkg/apperr/apperr.go:65-72 | finds an occurrence iff there is one, and the first |
| `AppErrors.LogKeepsAll` | backend/pkg/apperr/apperr.go:31-75 | the log of an error contains the log of every error in its tree |
| `AppErrors.WrapperContext` | backend/pkg/apperr/apperr.go:65-72 | a wrapper's own words stay around the cause's log, in place of the first occurrence of the cause's message, or all in front if there is none |
| `AppErrors.AppContext` | backend/pkg/apperr/apperr.go:31-39 | an application error is logged as its code and message in front of its cause's log |
| `AppErrors.JoinedContext` | backend/pkg/apperr/apperr.go:50-64 | joined causes are logged one to a line and in order, behind the error's own text unless that is just their messages |
| `AppErrors.NilIgnored` | backend/pkg/apperr/apperr.go:53-58 | nil causes are not logged |
| `AppErrors.LogLosesNothing` | backend/pkg/apperr/apperr.go:31-75 | the log contains the text of every leaf and of every application error in the tree |
| `AppErrors.LogCauseString` | backend/pkg/apperr/apperr.go:43-75 | the recursive method computes the rendering |
| `AppErrors.RenderCauses` | backend/pkg/apperr/apperr.go:50-64 | the loop collects the logs and messages of the non-nil causes in order |
| `AppErrors.VisitedIff` | backend/pkg/apperr/apperr.go:93-99 | the pre-order list of a tree holds exactly the errors at or beneath its root |
| `AppErrors.FirstAppMeaning` | backend/pkg/apperr/apperr.go:116-125 | errors.As finds an application error iff the tree has one, and then the first in pre-order |
| `AppErrors.FirstAppExact` | backend/pkg/apperr/apperr.go:116-125 | which error is found: an application error itself, behind a wrapper its cause's, of joined causes that of the first that has one |
| `AppErrors.UserTextIsSafe` | backend/pkg/apperr/apperr.go:22-28 | the text shown to a user is the same for all trees whose first application errors in pre-order agree in code and message, whatever else is in the trees |
| `AppErrors.AsAppErrorKeeps` | backend/pkg/apperr/apperr.go:116-125 | AsAppError returns the application error that it finds with its cause, or the internal error around the whole tree, whose log has the text of every leaf |
| `AppErrors.WithCauseKeeps` | backend/pkg/apperr/apperr.go:108-113 | WithCause keeps code and message and logs the cause |
| `AppErrors.FirstAppOfRedacted` | backend/pkg/apperr/apperr.go:116-125 | that removal keeps the application error that is found, and its text |
| `AppErrors.ErrorsIsMeaning` | backend/pkg/apperr/apperr.go:102-105 | errors.Is finds a template iff some error in the tree has its code |
| `AppErrors.WrappingKeepsTemplate` | backend/pkg/apperr/apperr.go:107-113 | an error made by WithCause is still recognised by its template under any wrapping |
| `Question.CheckOptions` | backend/pkg/question/definition.go:47-56 | accepts exactly two or more trimmed, non-blank, distinct options |
| `Question.Decode` | backend/pkg/question/definition.go:33-77 | accepts exactly the well-shaped definitions of the five kinds, with a valid answer if one is asked for |
| `AnswerLaws.DecodedIff` | backend/pkg/question/definition.go:33-77 | exactly what is accepted, condition by condition, and what each field of the definition is |
| `AnswerLaws.FaceShows` | backend/pkg/question/definition.go:89-100 | a face shows kind, score, options and number of blanks and has no other key |
| `Question.DecodeOfFace` | backend/pkg/question/definition.go:33-100 | decoding the face of any decoded definition gives it back without its answer |
| `Question.ParseFormatInt` | backend/pkg/question/definition.go:89-100 | a number written into a face is read back |
| `Question.HasOption` | backend/pkg/question/definition.go:174-181 | the loop decides membership |
| `Question.Normalize` | backend/pkg/question/definition.go:102-171 | computes the normal form, or the error, for every kind and every JSON value |
| `Question.NormalizeList` | backend/pkg/question/definition.go:139-167 | multiple choice: succeeds iff the trimmed answers are distinct declared options (none at all only where empty answers are allowed), and yields them sorted; blanks: succeeds iff the count fits, and keeps the order |
| `AnswerLaws.BooleanLaw` | backend/pkg/question/definition.go:130-138 | true/false: accepted iff a boolean (or missing, where allowed); "true" comes out iff the answer is true |
| `AnswerLaws.TextLaw` | backend/pkg/question/definition.go:114-129 | single choice and short answer: accepted iff a text that is not blank, and for a choice a declared option; the trimmed text comes out |
| `AnswerLaws.BlanksLaw` | backend/pkg/question/definition.go:139-167 | blanks: accepted iff one text for each; the trimmed texts come out in order |
| `AnswerLaws.ChoicesLaw` | backend/pkg/question/definition.go:139-167 | multiple choice: accepted iff distinct declared options; their sorted list comes out |
| `AnswerLaws.OtherKindsLaw` | backend/pkg/question/definition.go:168-170 | other kinds accept no answer |
| `AnswerLaws.SameTruthIff` | backend/pkg/question/definition.go:130-138 | two true/false answers normalise equally iff they are equal |
| `AnswerLaws.SameTextIff` | backend/pkg/question/definition.go:114-129 | two texts normalise equally iff they are equal once trimmed |
| `AnswerLaws.SameBlanksIff` | backend/pkg/question/definition.go:139-167 | two lists of blanks normalise equally iff they are equal blank by blank once trimmed |
| `AnswerLaws.SameChoicesIff` | backend/pkg/question/definition.go:139-167 | two choices normalise equally iff they choose the same set |
| `Question.ChoiceCanonical` | backend/pkg/question/definition.go:139-167 | two accepted multiple-choice answers normalise equally iff their trimmed option sets are equal |
| `Question.NormalizeTwice` | backend/pkg/question/definition.go:102-171 | normalising a normal form, written back as an answer of its kind, changes nothing, for every kind |
| `Question.ListFixedIff` | backend/pkg/question/definition.go:102-171 | handed over as the list that it is, a normal form normalises to itself iff it is empty or the kind is multiple choice or blanks; the other kinds refuse lists |
| `EnvMerge.MergeRuntimeWorkloadEnv` | backend/cmd/migrate/platform_catalog_runtime.go:164-185 | the loops with the name index compute the merge by lookup in the list |
| `EnvMerge.IndexFinds` | backend/cmd/migrate/platform_catalog_runtime.go:164-172 | an index that agrees with the list finds what a search of the list finds, even with repeated base names |
| `EnvMerge.MergeSucceedsIff` | backend/cmd/migrate/platform_catalog_runtime.go:173-181 | fails iff a name is blank or one name gets two values |
| `EnvMerge.MergeResult` | backend/cmd/migrate/platform_catalog_runtime.go:164-185 | the base is a prefix, added names are new and distinct, every added item comes from the extras, every extra is present |
| `EnvMerge.MergeOne` | backend/cmd/migrate/platform_catalog_runtime.go:171-181 | one extra: a blank name or another value is an error, a known pair changes nothing, a new one is appended under its trimmed name |
| `EnvMerge.MergeInOrder` | backend/cmd/migrate/platform_catalog_runtime.go:171-182 | extras are merged one after the other, in their order |
| `EnvMerge.MergeTwice` | backend/cmd/migrate/platform_catalog_runtime.go:164-185 | merging the same extras again changes nothing |
| `Tags.NormalizedStrings` | backend/internal/modules/content/convert.go:137-150 | yields the sorted set of non-empty strings, whatever the map order |
| `Tags.NormalizedIff` | backend/internal/modules/content/convert.go:137-150 | two lists normalise equally iff their non-empty strings form the same set |
| `Tags.NormalizedMeaning` | backend/internal/modules/content/convert.go:137-150 | the normal form has the non-empty strings, each once, in increasing order |
| `Tags.VersionPayload` | backend/internal/modules/content/convert.go:105-124 | the payload carries the three lists in normal form and every other field as it is |
| `Tags.PayloadIff` | backend/internal/modules/content/convert.go:105-124 | hashed payloads are equal iff the items are, up to order, repetition and blanks in the three lists |
| `Tags.PayloadFields` | backend/internal/modules/content/convert.go:105-124 | each field of the payload is the item's field of that name |
| `CanonicalJson.TreeOfEncode` | backend/internal/contracts/engine_composition.go:341-359 | decoding what was encoded gives the value back, number texts included |
| `CanonicalJson.CanonIff` | backend/internal/contracts/engine_composition.go:341-359 | canonical forms are equal iff the decoded values are |
| `CanonicalJson.CanonTwice` | backend/internal/contracts/engine_composition.go:341-359 | canonicalising twice equals once |
| `CanonicalJson.CanonIgnoresOrder` | backend/internal/contracts/engine_composition.go:341-359 | reordering members at any depth, where no name repeats, leaves the canonical form alone |
| `CanonicalJson.CanonicalRawMeaning` | backend/internal/contracts/engine_composition.go:341-359 | exactly blank bytes and single documents are accepted; the result means the same and is a fixed point |
| `CanonicalJson.LastMemberWins` | backend/internal/contracts/engine_composition.go:345-349 | of members that repeat a name the last one counts |
| `CanonicalJson.EncodedInOrder` | backend/internal/contracts/engine_composition.go:358 | objects are encoded with names in increasing order |
| `CanonicalJson.CanonicalRawTwice` | backend/internal/contracts/engine_composition.go:341-359 | canonical bytes are accepted and unchanged, blank input included |
| `ImageClosure.ImageVersionFromURL` | backend/internal/contracts/engine_composition.go:176-181 | the part after the last '@', empty iff there is none |
| `ImageClosure.Snapshot.MergeImageClosureItem` | backend/internal/contracts/engine_composition.go:184-205 | updates the first item with the same image, command and hold, and only that one; reports whether there was one |
| `ImageClosure.Snapshot.AddMounts` | backend/internal/contracts/engine_composition.go:190-201 | adds the mounts the item lacks, at the end and in order |
| `ImageClosure.Snapshot.AppendPrivateSidecarImageClosure` | backend/internal/contracts/engine_composition.go:143-173 | the closure becomes the merge of the sidecars up to the first rejected one |
| `ImageClosure.AppendedMeaning` | backend/internal/contracts/engine_composition.go:143-173 | old items keep position and order and only gain mounts, no use gets a second item, success iff every sidecar is acceptable, merged sidecars are covered |
| `ImageClosure.EverySidecarCovered` | backend/internal/contracts/engine_composition.go:143-173 | on success every sidecar has an item with its image, command and hold that holds all its mounts |
| `ImageClosure.NothingInvented` | backend/internal/contracts/engine_composition.go:184-205 | every mount of the result was there before or belongs to a sidecar with the same use |
| `ImageClosure.ItemOfMeaning` | backend/internal/contracts/engine_composition.go:147-166 | a sidecar is acceptable iff it has a name, an image and a command; its item has category judger, the trimmed name and image, the image's version, command and hold |
| `ImageClosure.AddedMadeFor` | backend/internal/contracts/engine_composition.go:143-173 | every item that is added is made for one of the sidecars |
| `ImageClosure.MergeExact` | backend/internal/contracts/engine_composition.go:184-205 | an item goes to the first with its image, command and hold whatever the category, and is appended only if there is none |
| `ImageClosure.AppendedInOrder` | backend/internal/contracts/engine_composition.go:147-171 | sidecars are merged one after the other, in their order, up to the first rejected one |
| `ImageClosure.MountsInOrder` | backend/internal/contracts/engine_composition.go:190-201 | mounts are added one after the other, in their order, each unless it is there |
| `ImageClosure.AppendTwice` | backend/internal/contracts/engine_composition.go:143-205 | running the projection twice equals running it once, also when it fails |
| `Sorting.SortUniqueIff` | backend/internal/contracts/engine_composition.go:318-326 | an unstable sort has one possible result iff elements with one key are equal |
| `Sorting.SortUnique` | backend/internal/contracts/engine_composition.go:377-385 | two sorts of permutations agree if keys identify elements |
| `Sorting.StrictlySortedUnique` | backend/internal/modules/content/convert.go:137-150 | strictly sorted lists are equal iff their sets are |
| `Text.StrLeMeaning` | backend/internal/contracts/engine_composition.go:318-326 | the order of strings: a prefix comes first, otherwise the first difference decides |
| `Composition.ValidateRuntimeRefs` | backend/internal/contracts/engine_composition.go:390-406 | accepts exactly non-empty lists of complete references with distinct trimmed instance names |
| `Composition.ValidateSelection` | backend/internal/contracts/engine_composition.go:238-254 | additionally, the trimmed workspace is the trimmed name of a runtime |
| `Composition.SortedCopy` | backend/internal/contracts/engine_composition.go:374-379 | sorts a fresh copy; the caller's slice keeps its order |
| `Composition.NormalizeComposition` | backend/internal/contracts/engine_composition.go:371-387 | the four lists are sorted permutations in fresh arrays, everything else but the trimmed workspace is unchanged |
| `Composition.NormalUniqueIff` | backend/internal/contracts/engine_composition.go:371-387 | a spec has one canonical form iff in each unordered list elements with one sort key are equal |
| `Composition.NormalAgree` | backend/internal/contracts/engine_composition.go:371-387 | under that condition, specs equal up to order have the same canonical form |
| `Composition.NormalInOrder` | backend/internal/contracts/engine_composition.go:371-387 | a canonical form is the same spec, runtimes by instance, components by code, links by endpoints, workspace trimmed |
| `Composition.SpecKeysIff` | backend/internal/contracts/engine_composition.go:378-385 | the condition for one canonical form in terms of instances, codes and endpoints |
| `Composition.EndpointTextIff` | backend/internal/contracts/engine_composition.go:380-384 | without NUL characters the joined endpoints determine the four endpoints |
| `Composition.CanonicalDigest` | backend/internal/contracts/engine_composition.go:221-235 | succeeds iff the spec is accepted, and hashes a canonical form of it |
| `Composition.DigestIgnoresOrder` | backend/internal/contracts/engine_composition.go:221-235 | permuted specs are accepted alike and have the same canonical form when keys identify elements |
| `Composition.DistinctIgnoresOrder` | backend/internal/contracts/engine_composition.go:221-235 | distinct codes and distinct NUL-free endpoints are enough for order not to reach the canonical form of an accepted spec |
| `Composition.RawInstancesDistinct` | backend/internal/contracts/engine_composition.go:270-276 | validated runtimes have distinct untrimmed names |
| `SnapshotDigest.AcceptedIsBijection` | backend/internal/contracts/engine_composition.go:266-293 | in an accepted snapshot compiled and declared runtimes match one-to-one and onto, on instance, code and version |
| `SnapshotDigest.AcceptedSpecIsAccepted` | backend/internal/contracts/engine_composition.go:221-338 | the spec of an accepted snapshot is accepted by CanonicalDigest |
| `SnapshotDigest.SnapshotAcceptedIff` | backend/internal/contracts/engine_composition.go:242-296 | given an accepted spec and matching runtimes, exactly one declaration has the workspace's trimmed name, and the snapshot is accepted iff its untrimmed name is the untrimmed workspace |
| `SnapshotDigest.PaddedWorkspaceDiffers` | backend/internal/contracts/engine_composition.go:242-296 | a snapshot that is refused although its spec is accepted and its runtimes match |
| `SnapshotDigest.AcceptedUnstable` | backend/internal/contracts/engine_composition.go:297-338 | a snapshot that is accepted, with a spec that is accepted, whose links share a sort key and so leave two canonical forms |
| `SnapshotDigest.PreimagesAgree` | backend/internal/contracts/engine_composition.go:297-338 | order and the Digest field do not reach what is hashed |
| `SnapshotDigest.ClosuresAgree` | backend/internal/contracts/engine_composition.go:327-331 | for the image closure this holds with no condition at all |
| `SnapshotDigest.AcceptedPerm` | backend/internal/contracts/engine_composition.go:257-296 | permuting an accepted snapshot keeps it accepted |
| `SnapshotDigest.PreimageUniqueIff` | backend/internal/contracts/engine_composition.go:297-338 | an accepted snapshot has one preimage iff keys identify the elements of its components, sidecars and spec lists |
| `SnapshotMeaning.PreimagesEqualIff` | backend/internal/contracts/engine_composition.go:297-338 | two accepted snapshots have the same preimage iff they mean the same: equal up to order, Digest, spaces around the workspace, and the text of embedded JSON, which counts by the value it decodes to |
| `SnapshotMeaning.RelaidSame` | backend/internal/contracts/engine_composition.go:304-317 | reordering the members of embedded JSON at any depth keeps acceptance and every preimage |
| `SnapshotMeaning.PreimageRuntimes` | backend/internal/contracts/engine_composition.go:299-318 | a preimage has no digest and each runtime once, by instance, with embedded JSON that is a fixed point and means what it meant, all else unchanged |
| `SnapshotMeaning.PreimageComponents` | backend/internal/contracts/engine_composition.go:311-323 | the same for components, by category and code |
| `SnapshotMeaning.PreimageOrder` | backend/internal/contracts/engine_composition.go:297-331 | sidecars stand by name, closure items by encoding, the spec's lists in order, and none is lost |
| `SnapshotMeaning.StableIff` | backend/internal/contracts/engine_composition.go:318-331 | when the digest is a function of an accepted snapshot, in terms of codes, endpoints, categories and names |
| `SnapshotMeaning.AcceptedIff` | backend/internal/contracts/engine_composition.go:257-317 | exactly which snapshots get a digest, condition by condition |
| `SnapshotMeaning.SpecAcceptedIff` | backend/internal/contracts/engine_composition.go:221-254 | exactly which specs get a digest, condition by condition |
| `SnapshotDigest.DeclaredRuntimes` | backend/internal/contracts/engine_composition.go:270-276 | the map of declarations has them all; its duplicate error is unreachable |
| `SnapshotDigest.CheckCompiled` | backend/internal/contracts/engine_composition.go:277-296 | the loop and the checks after it succeed iff the runtimes are compiled as declared and the workspace is named |
| `SnapshotDigest.CanonicalRuntimes` | backend/internal/contracts/engine_composition.go:304-310 | rewrites every adapter spec in place, or fails iff one cannot be read |
| `SnapshotDigest.CanonicalComponents` | backend/internal/contracts/engine_composition.go:311-317 | the same for component resources |
| `SnapshotDigest.CanonicalSnapshotDigest` | backend/internal/contracts/engine_composition.go:257-338 | succeeds iff the snapshot is accepted, hashes a canonical form of it, and writes nothing that the caller holds |
| `SnapshotDigest.DigestCopies` | backend/internal/contracts/engine_composition.go:297-338 | the canonicalising half succeeds iff embedded JSON can be read and the spec encoded |
| `ConfigHistory.StepKeepsChain` | backend/internal/modules/admin/service.go:566-585 | every transaction keeps the chain of old and new values |
| `ConfigHistory.RunKeepsChain` | backend/internal/modules/admin/service.go:566-661 | in every reachable state each history starts empty, continues where the last change ended, and ends in the current value |
| `ConfigHistory.StepHistory` | backend/internal/modules/admin/service.go:566-585 | a transaction leaves a key's history and value alone, or appends the step from the value held to the new one |
| `ConfigHistory.WhenChanged` | backend/internal/modules/admin/service.go:566-661 | every log entry tells the values before and after a moment of the run |
| `ConfigHistory.RollbackRestores` | backend/internal/modules/admin/service.go:646-661 | an admitted rollback to an entry restores the value held just before that change |
| `ConfigHistory.RollbackUndone` | backend/internal/modules/admin/service.go:646-661 | rolling back the rollback restores the value before it |
| `ConfigHistory.StaleVersionLoses` | backend/internal/modules/admin/service.go:579-582 | of two writers that read the same version, the second changes nothing |
| `ConfigHistory.TargetIsolated` | backend/internal/modules/admin/service.go:546-561 | a tenant administrator reaches its own tenant only, a platform administrator the global scope only |
| `ConfigHistory.TargetIff` | backend/internal/modules/admin/service.go:546-561 | exactly which row a request addresses: its trimmed key, in the scope of its identity |
| `ConfigHistory.TargetsEqualIff` | backend/internal/modules/admin/service.go:546-561 | two requests address one row iff trimmed keys, scopes and tenants agree |
| `ConfigHistory.OtherKeysUntouched` | backend/internal/modules/admin/service.go:566-585 | a transaction leaves value, version and history of every other row alone |
| `ConfigHistory.UpdateExact` | backend/db/queries/admin.sql:15-28 | exactly when an update creates or changes a row, and to what value and version |
| `ConfigHistory.RollbackExact` | backend/internal/modules/admin/service.go:646-661 | exactly when a rollback writes the old value of the entry that it names |
| `ConfigHistory.Service.UpdateConfig` | backend/internal/modules/admin/service.go:541-594 | refused requests change nothing; otherwise the state is that after the transaction; success is reported iff something changed; other rows and the chain are kept |
| `ConfigHistory.Service.CommitChange` | backend/internal/modules/admin/service.go:579-584 | value and log entry are written together or not at all |
| `ConfigHistory.Service.RollbackConfig` | backend/internal/modules/admin/service.go:626-670 | as for updates, with the old value of the entry; not found iff row or entry is missing |
| `ConfigSessions.CommitKeepsChainIff` | backend/internal/modules/admin/service.go:566-585 | a commit that changes something keeps the chain iff the value its transaction read is the value that it overwrites |
| `ConfigSessions.RunRemembers` | backend/db/queries/admin.sql:8-33 | in every interleaving, the row an open transaction read is still there, its version has not gone down, and it is unchanged if its version is; a log entry found is still found |
| `ConfigSessions.CommitIsAtomic` | backend/internal/modules/admin/service.go:566-585 | if the request names no version ahead of the one read, the commit does nothing or what the whole transaction would do atomically |
| `ConfigSessions.UndisturbedIsAtomic` | backend/internal/modules/admin/service.go:566-661 | with nobody in between, the statements of a transaction come to what it does atomically |
| `ConfigSessions.RefinesAtomic` | backend/internal/modules/admin/service.go:566-661 | every interleaving of such requests, with aborts, leaves the state that some sequence of atomic transactions leaves |
| `ConfigSessions.InterleavedKeepsChain` | backend/internal/modules/admin/service.go:566-661 | so every interleaving of such requests keeps the chain |
| `ConfigSessions.StaleReadBreaksChain` | backend/internal/modules/admin/service.go:566-585 | three updates of a key, one with a version ahead of what it reads, after which the log is no chain |
| `AuditExport.StepRowsSafe` | backend/internal/modules/admin/service.go:319-422 | every action of any worker keeps the row invariant |
| `AuditExport.RunRowsSafe` | backend/internal/modules/admin/service.go:319-422 | it holds after every interleaving with lost answers and crashes |
| `AuditExport.RowRemovedOnlyWhenSettled` | backend/internal/modules/admin/service.go:374-422 | a request row disappears only when its task is terminal or gone |
| `AuditExport.RowsComeFromCreation` | backend/internal/modules/admin/service.go:407-415 | putting off a check never creates a row again |
| `AuditExport.UnfinishedWorkHasRow` | backend/internal/modules/admin/service.go:319-422 | a row once created is there as long as its task is unfinished |
| `AuditExport.DeferralIsAhead` | backend/internal/modules/admin/service.go:407-415 | every stored next check lies strictly ahead of the clock reading |
| `ExportLifecycle.NewTaskExact` | backend/internal/modules/admin/service.go:270-280 | a new task has a new id, waits, and may be attempted as often as asked for |
| `ExportLifecycle.NewRowExact` | backend/internal/modules/admin/service.go:281-289 | when the row is inserted, for what time, and when the creator goes on to delete the task |
| `ExportLifecycle.ClaimExact` | backend/db/queries/transfer.sql:68-82 | exactly when a claim takes a task, and what the task is then |
| `ExportLifecycle.CompleteExact` | backend/db/queries/transfer.sql:88-105 | a completion takes effect iff its lease is still held and has not ended |
| `ExportLifecycle.FailExact` | backend/internal/modules/admin/service.go:395-404 | an effective failure with attempts left leads to a retry and puts the request off to it; without, the task fails and the request is deleted; a refused one changes nothing |
| `ExportLifecycle.ReconcileExact` | backend/internal/modules/admin/service.go:374-392 | a request is deleted iff its task is read to be done or gone; otherwise it waits for the retry, the lease end or one interval |
| `ExportLifecycle.DeferExact` | backend/internal/modules/admin/service.go:407-415 | the next check is the time asked for if still ahead, else one interval away; other rows are untouched |
| `ExportLifecycle.RunWellFormed` | backend/db/queries/transfer.sql:51-125 | in every run a failed task has used all its attempts and a retrying one has attempts and a next one |
| `ExportLifecycle.RowRemovedOnlyWhenDone` | backend/internal/modules/admin/service.go:374-422 | a request row goes only when its task has succeeded, has used all its attempts, or is gone |
| `ExportLifecycle.UnfinishedHasRow` | backend/internal/modules/admin/service.go:319-422 | a pending, running or retrying task whose row was created has it |
| `ExportLifecycle.TaskDeletedOnlyUnclaimed` | backend/db/queries/transfer.sql:26-28 | a task is deleted only by its creator and only unclaimed |
| `ExportLifecycle.AttemptsAreClaims` | backend/db/queries/transfer.sql:68-82 | in every run the attempts of a task are the claims that took effect, never more than allowed |
| `ExportLifecycle.UndisturbedSucceeds` | backend/internal/modules/admin/service.go:319-348 | a worker that nobody disturbs within its lease ends with a succeeded task, its artifact stored and the request gone |
| `ExportLifecycle.UndisturbedRetries` | backend/internal/modules/admin/service.go:319-415 | a failed attempt that is not the last leaves the request waiting for the next one, and no claim before it |
| `AuditExport.StepArtifactsSafe` | backend/internal/modules/admin/service.go:319-348 | every action keeps the artifact invariant, if no completion is committed and reported as an error |
| `AuditExport.RunArtifactsSafe` | backend/internal/modules/admin/service.go:319-348 | so the artifact of a succeeded task is in storage in every reachable state |
| `AuditExport.ArtifactForever` | backend/internal/modules/admin/service.go:319-348 | once succeeded, task and artifact stay for good, whatever stale workers do |
| `AuditExport.StepLosesIff` | backend/internal/modules/admin/service.go:334-341 | an action removes the artifact of a succeeded task iff it is the effective cleanup by the worker that holds the artifact's token |
| `AuditExport.RunLeases` | backend/internal/modules/admin/service.go:319-348 | in every run, lost answers included: tokens are held by one worker, stored artifacts are in storage, and whoever holds the token of a task's artifact is giving up on that task |
| `AuditExport.ArtifactMissingIff` | backend/internal/modules/admin/service.go:319-348 | in every run, lost answers included, the artifact of a succeeded task is missing iff the worker that stored it has cleaned it up |
| `AuditExport.CleanupComesFromLost` | backend/internal/modules/admin/service.go:334-341 | a worker is about to clean up the artifact of a succeeded task only after its own completion was committed and the answer lost |
| `AuditExport.MissingComesFromLost` | backend/internal/modules/admin/service.go:334-341 | a missing artifact of a succeeded task implies a lost completion and a later cleanup by one and the same worker |
| `AuditExport.LostAcknowledgementBreaks` | backend/internal/modules/admin/service.go:335-341 | without that assumption a run deletes the artifact of a succeeded task |
| `AuditExport.ExhaustedForever` | backend/db/queries/transfer.sql:51-82 | a running task without attempts left stays running, and its row stays, in every continuation whose claims, completions and failures all read a clock at or after the end of its lease |
| `AuditExport.ExhaustedIsReachable` | backend/internal/modules/admin/service.go:319-348 | one crash during the last attempt leads there |
| `AuditExport.ExpiredLeaseTakenOverIff` | backend/db/queries/transfer.sql:68-82 | after any run, a running task moves in some continuation that reads clocks at or after the end of its lease only iff attempts are left |
| `AuditExport.RestMeansHandled` | backend/internal/modules/admin/service.go:319-422 | a worker that does not crash ends its work on a request only by attempting to delete the row of a settled task or to put its check off |
| `AuditExport.WorksAlive` | backend/internal/modules/admin/service.go:319-422 | what a worker does under given circumstances includes no crash, so the previous result applies to it |
| `AuditExport.System.Act` | backend/internal/modules/admin/service.go:70-77 | the shared state is changed by actions only, each recorded in the run |
| `AuditExport.System.RunAuditExportRequest` | backend/internal/modules/admin/service.go:319-348 | under any circumstances the worker takes its own steps only, among any actions of others, and comes to rest |
| `AuditExport.System.CompleteOrClean` | backend/internal/modules/admin/service.go:334-341 | a stored artifact ends in a completed task, or in cleanup and failure |
| `AuditExport.System.ReconcileAuditExportRequest` | backend/internal/modules/admin/service.go:374-392 | the row of a task that cannot be claimed is deleted or put off |
| `AuditExport.System.FailAuditExportRequest` | backend/internal/modules/admin/service.go:395-404 | a failure is reported and the row deleted or put off |
| `AuditExport.System.DeferAuditExportRequest` | backend/internal/modules/admin/service.go:407-415 | the check is put off and the worker is at rest |
| `AuditExport.System.DeleteAuditExportRequest` | backend/internal/modules/admin/service.go:418-422 | the row is deleted, or stays if the statement fails, and the worker is at rest |

## Left out

- Composition.CanonicalDigest: encoding and SHA-256 are one parameter; what is proved is which value is encoded, not that different values give different digests.
- SnapshotDigest.CanonicalSnapshotDigest: json.Marshal of closure items is a parameter, whose error fallback strings and booleans cannot reach; the other parts of sidecars count as encodable.
- CanonicalJson.CanonIgnoresOrder: raw bytes are modelled by what the decoder makes of them (nothing, spaces, broken, several documents, one document); the decoder's nesting limit is not modelled.
- JsonScanner.AcceptsIff: starts from lexemes; splitting bytes into lexemes, and the nesting limit, are the library's.
- FaceStripping.Clone: encoding and decoding again are one recursive copy that keeps number literals; the source decodes them as float64, so a literal that no float64 prints as would change. Equality is for bodies that were decoded that way before, as stored ones are.
- ImageClosure.Snapshot.AddMounts: closure and mount lists are values; that an append may write into a backing array shared with another slice is not modelled.
- ChainQuantity.RpcQuantity: the text returned by the endpoint is the input; HTTP, the JSON-RPC envelope and the process exit are not modelled.
- Snowflake.Node.Generate: the mutex makes calls atomic, so a call is one step; clock readings are unbounded integers, only the shift wraps.
- AppErrors.ErrorsIsMeaning: targets are application errors, compared by code; pointer identity and foreign Is and As methods are not modelled.
- Question.Decode: member names are matched exactly, while encoding/json also accepts other letter case.
- Tags.PayloadIff: the hash over the payload is not modelled.
- ConfigHistory.Service.UpdateConfig: encryption of credential fields is a parameter, and masking of the returned value, role checks and the audit row are left out; the method runs its transaction atomically (interleaving is the subject of `ConfigSessions`), and an error from it means that nothing was stored.
- AuditExport.RunRowsSafe: a row is considered from its insertion on; the span between creating a task and its row, with an insert that fails, or takes effect and is reported as failed, and the deletion of the task after it, is part of runs but promises nothing.
- AuditExport.RunArtifactsSafe: lease tokens and task ids are never used twice, and artifact names differ per token.
- AuditExport.DeferralIsAhead: the second clock reading of a deferral is assumed not to be earlier than the first.
- Content of the exported CSV, its pagination and scoping, and listing of due requests: a worker may pick any row that ever existed.
- HTTP routes, SQL outside the cited statements, seed data, container entrypoints and contract code.
- Strings are sequences of code points, whose order is Go's byte order for valid UTF-8.
