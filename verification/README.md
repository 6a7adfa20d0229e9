# Verification model of the Kubernetes plugin's resource record

The plugin manages Kubernetes resources for a Cloudify node instance. In the instance's
runtime properties it keeps a record of what it created: an ordered map from file path to
API object (`kubernetes`) and a list of resource definitions (`__resource_definitions`).
Create, read, update, status check and delete work on that record and on the cluster, and
signal through exceptions; a delete asks to be retried until it finds nothing left to do.
This project models those operations and proves what they guarantee together.

`dafny verify dfyconfig.toml` checks everything.

| file | models |
|---|---|
| JsonValues | nested values, the meaning of cleaning and merging |
| JsonObjects, MergeObjects | `JsonCleanuper` and `merge_definitions` on objects that may be shared |
| Names, Definitions | `underscore_to_camelcase`, `KubernetesResourceDefinition`, `update_with_additions` |
| Paths | numbered paths, the stem of a path |
| Record | the definition list: store, remove while iterating, retrieve |
| FileMaps | the file map and `retrieve_last_create_path` |
| Cluster | API calls, perform-or-skip decisions, storing results |
| FileDeletion | `_file_resource_delete` and its helpers |
| Addressing | the namespace that calls go to |
| Tasks | the other operations and `_multidefinition_resource_task` |
| Effects, Courses | what each operation does to cluster and record, and whole operations |
| Refusals | refused and failed calls, for every sequence of answers |
| Convergence, Retries | retried deletions end, and what a normal end means |
| Fallback | deletion with no file object recorded, and so the inner deletions |
| Agreement, Conservation, Twins, RecordKeeping | what operations keep of the record, and what they lose |
| Safety, External | what operations keep of the cluster |
| Creation, Lifecycle, Endings, Removal | a file from its creation to its end |
| FullRemoval, Leftovers | when nothing of the file is left with redefinition, and when something is |
| Examples, SameName | concrete records and clusters |
| Alternates | `_execute`, `execute_with_alternates`, `_prepare_arguments` |
| Session | the operations updating runtime properties in place, each against its specification |

## How the model is set up

- State and outcome. A `State` holds the record, the `__perform_task` flag, the live
  objects of the cluster and a log of the calls that can change it. Exceptions are outcomes:
  `Done`, `Retry` (`OperationRetry`, marked when it comes out of an inner deletion) and `Fail`.
  Every operation is a function on states; class `Session` runs the same operations on mutable
  fields with the loops and early exits of the code, and each of its methods is proved
  equal to its function (the table names those with a loop or a recursion of their own).
  The theorems are about the functions.
- The API. `Env.script` answers the n-th call: accurately, with an error, or with a stale
  object and no effect. Termination, agreement, the soundness of the definition list, the
  account of calls and what failed calls lead to are proved for every script; the effect of
  each operation, convergence, conservation, safety and the meaning of a normal end for
  accurate ones (reads report what is live, deletions take effect at once). What the
  server makes of a definition it creates or updates with, API mappings, status verdicts and
  generated names are unspecified functions.
- Objects. A resource dict is a record of its kind, both version keys, metadata and the
  other keys. A cluster key is (mapping, namespace sent, name). The stored definition and
  the stored result share their metadata dict in the code, so storing cleans both; the model
  does the same.
- Retries. A retry starts the whole pass again from the first definition.
- Files. `Lifecycle.File` says what the life cycle relies on: definitions with string names
  and different identities, and a server whose objects show the kind and name they were defined
  with and a namespace that depends on the definition alone (none, for a cluster-wide kind).
  `FullRemoval.PlainFile` adds that an object is found again under the mapping and namespace
  it shows. `Examples.SamplesAreFile` gives instances.

## What turned out

- Deleting the resources of a file ends, and without redefinition with nothing left
  (`LifeEnds`), although a retry raised by an inner deletion loses all adjacent entries on
  the way: exactly when the primary object is not live any more and a target of the inner
  deletions is (`RetryKeepsAdjacentExactly`, `SecondRetryLosesLiveObject`).
- With redefinition, while two or more definitions are stored, the one before the last may be
  looked for in place of the given one, which a normal end then says nothing about. The exact
  condition for one deletion is `Shadowed` (`NormalEndFindsGiven`, `ShadowedObjectStays`). Over
  the whole deletion of a file nothing is left all the same if its recorded objects are live
  when it begins (`LifeEndsWithNothing`); one that has vanished before can leave another one
  live (`CreatedThenVanished`, `SecondIsLeft`).
- A deletion puts entries back only on a retry. When it fails instead, the whole file is
  forgotten; one error on a read does it (`FailureEmptiesRecord`, `FailedReadEmptiesRecord`), or
  a delete call that is refused, which ends in a TypeError because the test for the code 404
  is put to the exception itself (`RefusedDeletion`).
- A blueprint resource is deleted in two passes, and stays recorded for good: the second pass
  does not find it any more, and then cleans nothing up (`SingleDeleteRun`).
- With `use_external_resource` a file deletion that has adjacent objects takes the primary
  object out of the record although it still exists (`RetryConserves`), and a normal end that
  found its definition before forgets all recorded files, those of other files included
  (`CleanUpForgetsAllFiles`, `OtherFileForgotten`).
- The change log (CHANGELOG.txt:58) says that external resources are only read on delete; they
  are, except that a protected volume claim is updated without its finalizers
  (`PassOnlyClaims`, `DeletionUntouchedExactly`, `ExternalClaimLosesProtection`).
- The agreement of map and list can be lost when recorded objects share an identity: the
  deletion that takes one of them pops their only definition. With nothing adjacent, the other
  one is left without unless the target is deleted now and so put back
  (`LoneTwinLosesDefinition`, `TwinLosesDefinition`); within one file, inner deletions may also
  take the others, and the exact condition counts them (`SharedIdentityLosesDefinition`).
- It can be lost, too, when the deletion fails because a path has no `.yaml`, or more than one:
  exactly when the entry was not chosen by its path and the popped definition is that of a
  recorded object (`BadPathLosesDefinition`, `NoYamlLosesDefinition`).
- Constructor and `to_dict` are inverse only for unexposed keys in printed form and optional
  attributes that are not falsy; a key such as `reclaimPolicy` comes back in lower case
  (`DefinitionRoundTrip`, `CamelCaseKeyIsLost`).
- A namespace taken from a definition overwrites the configured one for what follows: a
  definition that names none, right after one that names another namespace, is sent to that one
  (`InTurnExactly`). The model addresses each definition for itself.
- `use_if_exists` never changes what is performed (`PerformsExactly`).
- Merging definitions is not associative in general; the exact condition is
  `AssociativeAt`.

## Model

| member | source | states |
|---|---|---|
| FileDeletion.DeleteFile | cloudify_kubernetes/tasks/operations.py:291-350 | The recursive file deletion, for every record and every sequence of API answers: it terminates because adjacent entries are taken out of the map before the inner calls, and a call that returns normally never leaves the map larger |
| FileDeletion.DeleteInner | cloudify_kubernetes/tasks/operations.py:301-317 | The inner deletions of adjacent objects, with the mapping of the outer definition; any exception ends them, a retry comes out as nested; a normal end never leaves the map larger |
| FileDeletion.ResolveTargetFrame | cloudify_kubernetes/tasks/operations.py:201-225 | Choosing the target only touches the record, and a target with adjacent objects has taken exactly itself and them out of the map |
| Refusals.RefusedDeletion | cloudify_kubernetes/tasks/operations.py:247-350 | On the record of one file, a deletion by path of a live object of its own whose delete call, and no other, is answered with an error of whatever code fails: by a TypeError, or unrecoverably when namespaces clash; every object stays live, exactly one delete call was made, no file object is recorded any more and the definitions are as before |
| Refusals.RefusedPass | cloudify_kubernetes/tasks/operations.py:692-700 | The same of the whole operation, whose fourth call is refused |
| Refusals.PassOwes | cloudify_kubernetes/decorators.py:90-162 | For every sequence of API answers and every operation: a pass that ends normally or asks to be retried has had no create, update or delete call answered with an error, but for update calls that prepare a claim; and however it ends, each object that appeared, vanished or changed did so by a call that was answered |
| Refusals.RunsAreAccounted | cloudify_kubernetes/decorators.py:90-162 | The latter over whole runs |
| Refusals.UnreadFile | cloudify_kubernetes/tasks/operations.py:232-245 | Only the code 404 makes the object of a file missing, and so ends the deletion of the last one; after any other error the deletion may be tried again; either way nothing is recorded any more |
| Refusals.PendingClaimPrepared | cloudify_kubernetes/tasks/operations.py:255-279 | A claim whose deletion is accepted but still pending, and which is protected, is updated by a definition with null finalizers, and put back |
| Refusals.RefusedPreparation | cloudify_kubernetes/tasks/operations.py:866-882 | When that update is refused, this is ignored, unless namespaces clash |
| Refusals.ClashIsFinal | cloudify_kubernetes/k8s/client.py:236-241 | A clash of namespaces on the first call of any operation ends it unrecoverably, with record and cluster as before |
| Effects.IncompleteIsSkipped | cloudify_kubernetes/tasks/operations.py:302-317 | Adjacent objects without metadata, kind or `api_version` are skipped by the inner deletions |
| Effects.UnusableEntryIgnored | cloudify_kubernetes/tasks/operations.py:201-210 | A recorded object without kind or metadata is as good as none: it is taken out, and what is defined is deleted |
| Effects.VersionKeysPrecedence | cloudify_kubernetes/tasks/operations.py:211-224 | An object that says its version under both keys is deleted by its `apiVersion` and recorded by the definition of its `api_version` |
| Removal.LifeEnds | cloudify_kubernetes/tasks/operations.py:65-350 | The whole life of a file: from an empty record, however it was created, updated, read and checked, or not at all, deleting it asks for a bounded number of retries and then ends normally with nothing recorded; what is still live of the file was shadowed in the last pass, so without redefinition nothing is |
| Removal.DeletedToTheEnd | cloudify_kubernetes/tasks/operations.py:291-350 | The same for any record of the first definitions of a file, or none, and any number of retries followed by a normal end; the object of the first definition is never left |
| FullRemoval.LifeEndsWithNothing | cloudify_kubernetes/tasks/operations.py:65-350 | With redefinition too nothing of the file is left live, after a bounded number of retries, if every recorded object is live when its deletion begins: stored definitions looked for in place of the given ones, and entries lost to inner deletions, lead only to other orders |
| FullRemoval.OnTheWayPass | cloudify_kubernetes/decorators.py:111-162 | From each of the records such a deletion comes through, a pass leads to another one or ends with no object of the file live |
| Leftovers.CreatedThenVanished | cloudify_kubernetes/utils.py:444-481 | The proviso is needed: of any five objects of different names, created as one file, let the last vanish before the deletion: with redefinition three passes ask to be retried, the fourth ends normally, and the second object is left live |
| Leftovers.VanishedLeavesAnother | cloudify_kubernetes/tasks/operations.py:291-350 | The same from any record of such a file |
| Examples.SecondIsLeft | cloudify_kubernetes/utils.py:444-481 | A concrete file of five, created from an empty record, where that happens |
| Removal.FirstPass | cloudify_kubernetes/tasks/operations.py:247-288 | The first delete pass leaves the object of the first definition not live |
| Removal.LastPass | cloudify_kubernetes/decorators.py:111-162 | A delete pass that ends normally has found gone every later definition that was not shadowed, and leaves nothing recorded |
| Removal.AdjacentMeansRetry | cloudify_kubernetes/tasks/operations.py:301-350 | A deletion by path asks to be retried as long as anything else of the file is recorded |
| Lifecycle.SetUpKeepsFile | cloudify_kubernetes/tasks/operations.py:97-198 | Creations, updates, reads and status checks of a file, in any order and with any outcomes, keep one entry for each of its first definitions, in order, and map and list in agreement; what `RunsAgree` asks of such runs holds |
| Lifecycle.PassKeepsFile | cloudify_kubernetes/decorators.py:94-142 | One pass of them, whatever it ends with; a normal end completes the record |
| Lifecycle.CreationSucceeds | cloudify_kubernetes/decorators.py:94-142 | Creating a file that is not external ends normally, whatever of it is live or recorded, and puts nothing into the cluster but what the server makes of its definitions |
| Effects.FileCreateTakesEffect | cloudify_kubernetes/tasks/operations.py:97-111 | With an accurate API, creating a definition of a file leaves a live object as it is and records it; a missing one is created by one call and recorded, unless it is external and not to be created, which fails with nothing changed |
| Effects.UpdateTakesEffect | cloudify_kubernetes/tasks/operations.py:114-123 | Updating, a file or a blueprint resource: the live object under the key, and no other, becomes what the server makes of it and the definition, by one call, and the result is recorded at the path with its definition; when it is not live the update fails and record and cluster stay |
| Courses.UpdatePassTakesEffect | cloudify_kubernetes/decorators.py:111-162 | An update pass updates and records the objects of its definitions one by one up to the first that is not live, and changes nothing else; it ends normally exactly when all are live |
| Effects.ReadTakesEffect | cloudify_kubernetes/tasks/operations.py:150-198 | Reading changes nothing in the cluster and records the live object; the operation asks to be retried while its status is pending, and fails with the record unchanged when it is not live |
| Effects.CheckTakesEffect | cloudify_kubernetes/tasks/operations.py:126-147 | A status check changes no record; a live object is judged by its status; a missing one fails the check, or, in the first try of a heal workflow, is created by one call, and the check is retried |
| Effects.SingleCreateTakesEffect | cloudify_kubernetes/tasks/operations.py:353-361 | Creating a blueprint resource whose state was checked: a live object is recorded and not touched, a missing one created by one call and recorded, unless it is external and not to be created |
| Effects.ConflictIsFinal | cloudify_kubernetes/tasks/operations.py:65-83 | A conflict on creation is not recoverable and records nothing |
| Courses.NamelessIsCreated | cloudify_kubernetes/decorators.py:129-142 | A resource without a name that is recorded nowhere is created under the name the server makes up |
| Effects.SingleDeleteTakesEffect | cloudify_kubernetes/tasks/operations.py:599-628 | Deleting a blueprint resource of its own: a missing object ends it; a live one is looked up among the definitions, deleted by one call, recorded again, and the deletion retried; when what is looked for is not live or cannot be made out, it fails and every object stays |
| Effects.SingleDeletesGivenExactly | cloudify_kubernetes/tasks/operations.py:610-621 | The live object given is deleted exactly when something is looked for and no other definition shadows it |
| Effects.GivenIsLookedFor | cloudify_kubernetes/utils.py:444-481 | It is the one looked for without redefinition, or when it was stored last |
| Refusals.UnreadSingle | cloudify_kubernetes/tasks/operations.py:599-608 | The code 404 on the read ends the deletion, other errors fail it recoverably |
| Courses.SingleDeleteRun | cloudify_kubernetes/tasks/operations.py:599-628 | From a live object that is looked for, two passes: one that deletes it and asks to be retried, one that ends normally; nothing else in the cluster changes, one delete call is made, and the object stays recorded |
| Courses.LifeRestoresCluster | cloudify_kubernetes/tasks/operations.py:353-628 | A blueprint resource that is created, then created again, updated, read, checked and healed in any order and with any outcomes, and deleted, leaves the cluster exactly as it was |
| Effects.CleansUpExactly | cloudify_kubernetes/decorators.py:144-158 | The clean-up drops the entry at the path alone when there is one, and forgets all objects otherwise; without a found definition, or after another task, nothing |
| Effects.RecordedIsCleaned | cloudify_kubernetes/utils.py:505-530 | Whatever is recorded has clean metadata and is otherwise the object itself |
| Courses.NumberedExactly | cloudify_kubernetes/decorators.py:94-124 | Paths are numbered exactly where there is an origin path |
| Addressing.NamedNamespacesApart | cloudify_kubernetes/k8s/client.py:248-256 | With a namespace configured, a definition that names one is addressed there whatever is configured; two such definitions have one key exactly when mapping, name and namespace are the same |
| Addressing.ConfiguredNamespace | cloudify_kubernetes/k8s/client.py:248-256 | One that names none is addressed in the configured namespace, and is a different object with another one configured |
| Addressing.NoNamespaceSent | cloudify_kubernetes/k8s/client.py:248-256 | With none configured none is sent, whatever the metadata says |
| Addressing.InTurnExactly | cloudify_kubernetes/k8s/client.py:248-256 | Where one call after the other overwrites the option, each definition is still addressed as it is alone exactly when none that names no namespace follows immediately on one that names another than the configured one |
| SameName.SameNameApart | cloudify_kubernetes/k8s/client.py:248-256 | A file of two objects of one name in two namespaces: one pass creates both, the first delete pass removes the first alone, and in the end both are gone |
| SameName.FirstGoesAlone | cloudify_kubernetes/tasks/operations.py:291-350 | When everything recorded is live, the first delete pass of a file with redefinition removes the object of the first definition and no other |
| Endings.DeleteFileEnds | cloudify_kubernetes/tasks/operations.py:291-350 | On a record of named and versioned objects, whose kinds and those of the definitions have mappings, a deletion never fails with an accurate API: it ends normally or asks to be retried, and leaves such a record |
| Endings.PassEnds | cloudify_kubernetes/decorators.py:111-162 | The same for whole delete passes |
| Convergence.DeleteFileProgress | cloudify_kubernetes/tasks/operations.py:291-350 | With an accurate API a deletion only removes live keys; a normal end does not enlarge the map; a retry leaves strictly less of (recorded paths + 2 x live objects) |
| Retries.PassProgress | cloudify_kubernetes/decorators.py:111-162 | For a whole pass of a delete operation: a retry leaves fewer live objects, or the same ones and fewer recorded paths; a normal end has added neither |
| Retries.RetriesBounded | cloudify_kubernetes/tasks/operations.py:692-700 | A delete operation asks for at most |recorded paths| + 2 x |live objects| retries in a row |
| Retries.NoEndlessRetries | cloudify_kubernetes/tasks/operations.py:692-700 | No infinite sequence of passes each of which asks to be retried |
| Retries.SingleDeleteProgress | cloudify_kubernetes/tasks/operations.py:599-628 | Each retry of a blueprint resource deletion leaves fewer live objects |
| Retries.NormalEndMeansGone | cloudify_kubernetes/tasks/operations.py:324-350 | For objects that are not external, a normal end means the chosen target was not live, had no adjacent objects, and nothing was changed in the cluster |
| Retries.NormalEndClearsFile | cloudify_kubernetes/tasks/operations.py:291-350 | For the record of one file, a normal end leaves no file object recorded, and every object that was recorded is gone from the cluster |
| Retries.PassClearsFile | cloudify_kubernetes/decorators.py:111-162 | The same for the whole delete pass over the definitions of the file |
| Fallback.DeletionWithoutFiles | cloudify_kubernetes/tasks/operations.py:201-350 | With no file object recorded, by what a deletion then looks for: it ends normally when that is not live or not its own (a protected claim is updated), asks to be retried with that one entry when it has deleted it, and fails when nothing can be made out |
| Fallback.ShadowedExactly | cloudify_kubernetes/utils.py:444-481 | Something else than the given definition is looked for exactly when redefinition is allowed, two or more definitions are stored, and the one before the last differs and has a key of its own; otherwise it is the given one |
| Fallback.NormalEndFindsGiven | cloudify_kubernetes/tasks/operations.py:201-350 | A normal end tells that the given definition is gone, whatever is live, exactly when it is not shadowed |
| Retries.PassWithoutFiles | cloudify_kubernetes/decorators.py:111-162 | With no file object recorded, a pass that ends normally has changed nothing and found gone every definition not shadowed when its turn came |
| Retries.PassFindsAllGone | cloudify_kubernetes/decorators.py:111-162 | Without redefinition, or with at most one definition stored, it has found all of them gone |
| Examples.ShadowedObjectStays | cloudify_kubernetes/utils.py:444-481 | A concrete state in which deleting a live object ends normally and leaves it live |
| Retries.CleanUpForgetsAllFiles | cloudify_kubernetes/decorators.py:144-158 | After a normal end the path is gone from the record already; the clean-up leaves what the deletion has left when the definition was not found before, and otherwise forgets every recorded file object |
| Examples.OtherFileForgotten | cloudify_kubernetes/decorators.py:144-158 | A concrete record of two files: deleting the first, whose object is external, forgets the live object of the second |
| Conservation.RetryConserves | cloudify_kubernetes/tasks/operations.py:270-323 | Across a retry on the record of one file: when an inner deletion cuts it short, its target alone is recorded and all adjacent entries are lost; otherwise, if the object at the path was live and not external, the map is that object (same identity) followed by all others unchanged; else exactly the path is gone. Exactly the object deleted leaves the cluster |
| Conservation.RetryKeepsAdjacentExactly | cloudify_kubernetes/tasks/operations.py:313-323 | A retry keeps the adjacent entries exactly when no inner deletion cuts it short: when the objects are external, the primary object is live, or no target of the inner deletions is live |
| Conservation.CutShortWithoutRedefinition | cloudify_kubernetes/tasks/operations.py:301-320 | Without redefinition: exactly when the primary object is not live and one of its adjacent objects is, under the mapping of the primary |
| Conservation.FailureEmptiesRecord | cloudify_kubernetes/tasks/operations.py:291-350 | Whatever the API answers, a deletion by path that fails, on the record of one file, leaves no file object recorded |
| Conservation.FailedReadEmptiesRecord | cloudify_kubernetes/tasks/operations.py:226-245 | One error on reading the chosen object is enough: the deletion fails with every entry of the file gone, and definitions and cluster as before |
| Fallback.InnerDeletions | cloudify_kubernetes/tasks/operations.py:301-317 | The first live target of the inner deletions is deleted and alone put back, under the path of the outer deletion |
| Examples.SecondRetryLosesLiveObject | cloudify_kubernetes/tasks/operations.py:301-320 | Three definitions are created and deleted: the second pass loses the entry of the third object, which is live |
| Examples.ThreeAreRemoved | cloudify_kubernetes/tasks/operations.py:291-350 | The same file is nevertheless removed after at most nine retries, with redefinition or without |
| Agreement.DeleteFileAgrees | cloudify_kubernetes/tasks/operations.py:201-350 | Definition identities stay pairwise distinct and every recorded object keeps a matching definition, for every API answer and every way the deletion ends; a normal end has only taken entries out |
| Agreement.FallbackOnlyWhenEmpty | cloudify_kubernetes/tasks/operations.py:202-210 | With agreement, the branch that resorts to the stored or given definition is reached only when no file object is recorded |
| Agreement.BadPathLosesDefinition | cloudify_kubernetes/utils.py:162-181 | Without exactly one `.yaml` in the path of the entry chosen the operation fails and no object leaves the map; map and list still agree exactly when the entry was chosen by its path or the definition stored last, which is popped, matches no recorded object |
| Examples.NoYamlLosesDefinition | cloudify_kubernetes/utils.py:162-181 | A concrete record where that happens |
| Twins.SharedIdentityLosesDefinition | cloudify_kubernetes/tasks/operations.py:201-323 | Objects of one file, some of one identity, one of which a deletion takes with their only definition: map and list agree afterwards exactly when no other one has it, the target is deleted now and so put back, or the inner deletions run through all the others that have it, popping a definition each |
| Twins.LoneTwinLosesDefinition | cloudify_kubernetes/tasks/operations.py:201-288 | Any record of two such objects, nothing being adjacent to the chosen one: the other is left without a definition exactly when the target is not live or external |
| Examples.TwinLosesDefinition | cloudify_kubernetes/tasks/operations.py:201-288 | A concrete record where that happens |
| Agreement.StoreResultAgrees | cloudify_kubernetes/utils.py:505-530 | Storing a good object keeps the agreement when no other path holds its identity |
| Creation.StoringTaskAgrees | cloudify_kubernetes/tasks/operations.py:97-123 | Create, update and read keep the agreement as long as objects stay distinct from path to path |
| Creation.PassAgrees | cloudify_kubernetes/decorators.py:111-162 | A whole pass of any file operation keeps it, under the same proviso |
| Creation.RunsAgree | cloudify_kubernetes/decorators.py:90-162 | Whole runs of file operations keep the agreement, as long as what create, update and read store is sound |
| Creation.FileCreateRecords | cloudify_kubernetes/tasks/operations.py:97-111 | A successful file creation records under its path the cleaned image of the object now living under the definition's key, found or created, and keeps every live object |
| Creation.CreatePassRecords | cloudify_kubernetes/decorators.py:94-142 | A successful create pass with an origin changes the map exactly at the numbered paths, which are all different, and entry i is the object of definition i |
| Retries.CreatedRecordIsOneFile | cloudify_kubernetes/decorators.py:119-125 | A file created into an empty record makes a record in which every path belongs to that file |
| Paths.DecimalReadsBack | cloudify_kubernetes/decorators.py:121-124 | Printed definition numbers read back |
| Paths.NumberedPathInjective | cloudify_kubernetes/decorators.py:120-124 | Different numbers give different paths under one origin |
| Paths.NumberedPathStem | cloudify_kubernetes/utils.py:181-184 | Numbering keeps the stem of a path, so all definitions of a file are adjacent to each other |
| Paths.StemExactlyOnce | cloudify_kubernetes/utils.py:181 | The path splits into two pieces exactly when `.yaml` occurs exactly once |
| Safety.RunsAreHarmless | cloudify_kubernetes/tasks/operations.py:65-628 | Over whole runs of create, read, update, status check with heal, and delete operations, blueprint or file, with an accurate API: no create call reaches a live key; with use_external_resource no delete call reaches a live object and every live object stays |
| Safety.DoDeleteKeeps | cloudify_kubernetes/tasks/api_calls.py:107-118 | A deletion is skipped when the object exists and is external |
| Safety.DoCreateKeeps | cloudify_kubernetes/tasks/api_calls.py:31-42 | Creating is harmless when the key is known not to be live |
| Safety.FileCreateKeeps | cloudify_kubernetes/tasks/operations.py:97-109 | The second existence check protects file creation |
| Safety.CheckStatusKeeps | cloudify_kubernetes/tasks/operations.py:126-147 | Healing creates only what could not be read |
| Safety.DeleteFileKeeps | cloudify_kubernetes/tasks/operations.py:291-350 | File deletion creates nothing and leaves external live objects alone |
| External.PassOnlyClaims | cloudify_kubernetes/decorators.py:111-162 | Deleting external file resources changes the cluster by update calls to protected volume claims and nothing else; where no live object is one it changes nothing |
| External.ExternalTargetUpdatedExactly | cloudify_kubernetes/tasks/operations.py:247-288 | Skipping the deletion of an external object updates it, without its finalizers, exactly when it is a protected claim |
| External.DeletionUntouchedExactly | cloudify_kubernetes/tasks/operations.py:291-350 | On the record of one file no call that changes the cluster is made exactly when none of the targets the deletion comes to is a protected claim |
| External.SingleDeleteLeavesCluster | cloudify_kubernetes/tasks/operations.py:599-628 | Deleting an external blueprint resource leaves the cluster as it is |
| Examples.ExternalClaimLosesProtection | cloudify_kubernetes/tasks/operations.py:866-882 | A concrete claim that is updated |
| Cluster.PerformsExactly | cloudify_kubernetes/utils.py:627-647 | The flag table performs exactly when nothing was found and, for external resources, create_if_missing is set |
| FileMaps.RetrievalSplits | cloudify_kubernetes/utils.py:150-197 | A successful retrieval splits the map exactly into the returned entry, the adjacent entries and the rest, with pairwise different paths; definitions are unchanged on a path hit and lose their last entry on the fallback, which prefers a matching object |
| FileMaps.PeekFindsWhatIsTaken | cloudify_kubernetes/utils.py:150-197 | When the path is not recorded, looking without deleting finds exactly what deleting would take |
| FileMaps.MatchingEntry | cloudify_kubernetes/utils.py:171-173 | The first matching entry, or the last entry of the map when none matches |
| FileMaps.LookupAfterPut | cloudify_kubernetes/utils.py:522-524 | Writing one path leaves all other paths as they were |
| Record.DefinitionsRefineMap | cloudify_kubernetes/utils.py:408-422 | Under any sequence of stores the list is a map keyed by (name, kind, namespace): one entry per identity, in first-insertion order, holding the last definition stored |
| RecordKeeping.ResultsRefineMap | cloudify_kubernetes/utils.py:505-530 | The same for results stored one after the other, whose definitions cleaning leaves alone |
| RecordKeeping.RunsKeepDefinitionsDistinct | cloudify_kubernetes/utils.py:408-481 | Over whole runs of any operations, for every API answer and every outcome, definition identities stay pairwise distinct, and every stored definition is clean and says nothing but what it is |
| RecordKeeping.SoundDefinitionReadsBack | cloudify_kubernetes/utils.py:444-481 | Such a definition comes back as the constructor makes it |
| Record.StoredAgainMatches | cloudify_kubernetes/utils.py:408-422 | Storing a definition again, as the first store has left it, adds no entry |
| Record.StoreKeepsDistinct | cloudify_kubernetes/utils.py:412-422 | One store keeps identities pairwise distinct |
| Record.RemovalIsFilter | cloudify_kubernetes/utils.py:425-438 | Deleting while iterating equals filtering exactly when no two neighbours both match |
| Record.RemovalDropsOnlyMatches | cloudify_kubernetes/utils.py:425-438 | In every case what is left is the list in order with only matching entries missing |
| Record.RemoveFromSkips | cloudify_kubernetes/utils.py:428-437 | The loop by index leaves what comes before the position and skips the entry after each deleted one |
| Record.LastInFirstOut | cloudify_kubernetes/utils.py:444-481 | Definitions stored with distinct (kind, name) come back in reverse order and leave nothing, with delete or without; with redefinition allowed, and names that read back as printed, any question returns what was stored |
| Record.RetrieveLast | cloudify_kubernetes/utils.py:444-481 | One lookup returns the definition stored last, in place of another one as the constructor makes it, and leaves the list as before that store |
| Record.GivenComesBack | cloudify_kubernetes/utils.py:444-481 | Where the given definition comes back, it is cleaned in place: metadata and nested values, but not leaves beside them |
| Record.LookupForgets | cloudify_kubernetes/utils.py:425-481 | A lookup that deletes drops the last definition and of the others only those of the kind and name it returns, all of them unless two are neighbours |
| Record.MatchExactly | cloudify_kubernetes/utils.py:108-129 | Resources match exactly when name, kind and namespace agree, where no namespace counts as `default` |
| Record.RebuiltIsConstructed | cloudify_kubernetes/k8s/client.py:38-120 | Where names read back as printed, rebuilding a stored definition is building an instance from the dict and printing it |
| JsonValues.CleanIsClean | cloudify_kubernetes/utils.py:380-402 | After cleaning every truthy leaf at any depth is an int, a bool or a string |
| JsonValues.CleanKeepsShape | cloudify_kubernetes/utils.py:380-402 | Cleaning keeps keys, list lengths and nesting, does not touch falsy values, numbers, booleans and strings, and puts its text in the place of any other leaf |
| JsonValues.CleanFixedPoints | cloudify_kubernetes/utils.py:380-402 | Cleaning changes nothing exactly on clean values; cleaning twice is cleaning once |
| JsonObjects.JsonCleanuper.CleanedUpList | cloudify_kubernetes/utils.py:380-390 | The loop over a list cleans it where it is: it comes to stand for the cleaned list, no object changes but for leaves replaced by their text, and none out of reach of the list changes at all |
| JsonObjects.JsonCleanuper.CleanedUpDict | cloudify_kubernetes/utils.py:392-402 | The loop over a dict, in any order of keys, does the same |
| JsonObjects.CleanerView | cloudify_kubernetes/utils.py:365-402 | Objects may be shared and cleaned more than once: any other reference cleans to the same value as before, and stands for the same if it was clean |
| JsonObjects.SharedIsCleaned | cloudify_kubernetes/utils.py:365-402 | A dict or list nested in a cleaned dict is cleaned for everyone who refers to it, so a definition's metadata is cleaned with its dict |
| MergeObjects.Dicts.MergeDefinitions | cloudify_kubernetes/utils.py:82-99 | The loop over the new dict, in any order of keys, updates the old dict where it is: it comes to stand for the deep merge, every object that the old dict does not reach stays as it is, and nested objects of the new dict are taken over, not copied; an old value that is no dict is replaced |
| JsonValues.MergePathwise | cloudify_kubernetes/utils.py:82-99 | At every path: below a point where not both are dicts the patch alone decides; elsewhere the patch wins where it has a non-dict or base has no dict, and base is kept where the patch is silent |
| JsonValues.MergeIdempotent | cloudify_kubernetes/utils.py:82-99 | Merging the same patch again changes nothing |
| JsonValues.MergeIdentities | cloudify_kubernetes/utils.py:82-99 | The empty dict is a left and right identity |
| JsonValues.MergeAssociative | cloudify_kubernetes/utils.py:82-99 | Merging is associative exactly when, wherever dicts of the first and third meet around a non-dict of the second, the third covers the first |
| JsonValues.CoveredExactly | cloudify_kubernetes/utils.py:82-99 | Covering means exactly that nothing of the first shows through the merge |
| JsonValues.MergeNotAssociative | cloudify_kubernetes/utils.py:82-99 | A concrete clash that breaks associativity |
| Names.CamelcaseLeftInverse | cloudify_kubernetes/k8s/client.py:107-115 | The name printer has a left inverse on exactly the names with a non-empty part, no upper-case letter and later parts starting with a letter |
| Names.CamelcaseInjective | cloudify_kubernetes/k8s/client.py:107-115 | On those names the printer is injective |
| Names.SplitJoin | cloudify_kubernetes/k8s/client.py:115 | The parts of a name contain no underscore and joined by underscores give it back |
| Names.PrintingUsesUpWeight | cloudify_kubernetes/k8s/client.py:107-115 | Printing a name that is not in printed form uses up underscores or capitals |
| Definitions.DefinitionRoundTrip | cloudify_kubernetes/k8s/client.py:38-120 | Building an instance from its own dict gives it back exactly when every unexposed key is in printed form and no optional attribute has a falsy value |
| Definitions.ConstructedIsBuilt | cloudify_kubernetes/k8s/client.py:38-68 | What the constructor makes has no dot in its kind and no unexposed key that names a parameter; all that the round trip asks of an instance |
| Definitions.LastSegmentEnds | cloudify_kubernetes/k8s/client.py:65 | The kind of an instance is what follows the last dot |
| Definitions.CamelCaseKeyIsLost | cloudify_kubernetes/k8s/client.py:104-120 | An unexposed key with a capital and no underscore does not survive the round trip |
| Definitions.OneWordIsFixed | cloudify_kubernetes/k8s/client.py:107-115 | One lower-case word is in printed form |
| Definitions.NamingInjective | cloudify_kubernetes/k8s/client.py:70-103 | The parameter names of the optional attributes are all different |
| Definitions.AdditionsReachOnlyTheirResource | cloudify_kubernetes/utils.py:775-798 | Additions for another name or kind leave the rebuilt definition unchanged; matching ones replace exactly what their keys are about |
| Alternates.Client.ExecuteWithAlternates | cloudify_kubernetes/k8s/client.py:258-284 | The outcome is the one the answers of the foreign client tell (`Told`): that of the first endpoint, main or alternate, that is no version mismatch, and the original error when all are; exactly the operations up to it run, each handed the same arguments |
| Alternates.OutcomeTold | cloudify_kubernetes/k8s/client.py:233-284 | The outcome in terms of the foreign client alone: a value exactly when an endpoint come to, all before it having answered that the version does not match, has all its parameters among the truthy arguments and answers that value to exactly those it takes or accepts; likewise the unrecoverable error, a missing argument, and a failure with its text; these cases exclude each other |
| Alternates.AttemptTold | cloudify_kubernetes/k8s/client.py:226-246 | The same of one attempt |
| Alternates.SettledOutcome | cloudify_kubernetes/k8s/client.py:258-284 | A mismatch is reported only when every attempt was one, and then it is the first |
| Alternates.AttemptIgnoresFalsy | cloudify_kubernetes/k8s/client.py:226-229 | Arguments from which falsy values are already gone give the same attempt |
| Alternates.Client.Execute | cloudify_kubernetes/k8s/client.py:226-246 | Falsy arguments are deleted from the shared dict, then the operation runs with what is left, and its value comes back, or the error it leads to |
| Alternates.Client.TryEndpoint | cloudify_kubernetes/k8s/client.py:262-263 | An endpoint the client does not have is refused before the arguments are touched |
| Alternates.Client.PrepareArguments | cloudify_kubernetes/k8s/operations.py:27-47 | All mandatory arguments, in two loops with an early error, and the accepted ones that are there |
| Sessions.Session.StoreResourceDefinition | cloudify_kubernetes/utils.py:408-422 | The search loop replaces the first match or appends |
| Sessions.Session.RemoveResourceDefinition | cloudify_kubernetes/utils.py:425-438 | The deleting loop leaves what skipping removal leaves, and reports a missing name |
| Sessions.Session.RetrieveLastPath | cloudify_kubernetes/utils.py:132-197 | With delete the record becomes the split; without it the record does not change and the same search answers |
| Sessions.Session.FindMatchingEntry | cloudify_kubernetes/utils.py:171-173 | The loop that leaves the last item selected when nothing matches |
| Sessions.Session.CollectAdjacent | cloudify_kubernetes/utils.py:183-187 | The loop splits the map into adjacent entries and the rest, in order |
| Sessions.Session.RestoreAdjacent | cloudify_kubernetes/tasks/operations.py:319-320 | The loop stores entries back until one fails |
| Sessions.Session.FileResourceDelete | cloudify_kubernetes/tasks/operations.py:291-350 | The recursive operation on the mutable record equals its specification |
| Sessions.Session.DeleteAdjacentResources | cloudify_kubernetes/tasks/operations.py:302-317 | The loop over adjacent objects equals its specification |
| Sessions.Session.MultidefinitionResourceTask | cloudify_kubernetes/decorators.py:90-162 | The numbered pass over all definitions, ended by the first exception |

## Left out

- The Kubernetes client library, HTTP, reflection over API classes and the mapping tables: a mapping is an unspecified value.
- Connection set-up: `with_kubernetes_client`, `get_client_config`, authentication, certificate files, shared clusters.
- File download, templating and YAML parsing, drift checks, workflows: the definitions of an operation are given.
- Token operations on payloads, which tolerate conflicts on purpose and check a state they do not use.
- `custom_*` operations: another mapping function; besides, `custom_resource_delete` looks for the object once more after deleting it, and `custom_resource_update` has no state function.
- Values that only misuse the code: kinds, versions or metadata that are not strings and dicts, a `kubernetes` property that is not a dict; an absent property and an empty one are the same here. File objects and the one object of a blueprint resource share a property in the code and are two fields here.
- Addressing.ConfiguredNamespace: in the code a namespace taken from the metadata overwrites the option and stays there for later definitions of the same operation; the model addresses each definition for itself. Addressing.InTurnExactly gives the condition under which that is the same.
- Sharing between values, except in JsonObjects and MergeObjects and where results are stored and definitions are looked up: the operations work on values.
- ReplicationController, whose delete call is not addressed by name.
- The wrapping of exceptions by the decorators into recoverable and non-recoverable ones, logging, and saving of runtime properties.
- MergeObjects.Dicts.MergeDefinitions: no dict of the old value is reached through two keys, and the two share no object (MergeObjects.RankForMerging: that is all it asks of them); YAML anchors could give others.
- Names.CamelcaseLeftInverse: letters are ASCII letters.
- Retries.RetriesBounded: counts retries by `OperationRetry` only; other recoverable errors, which the engine also retries, are not bounded (a recorded path without a stem fails every time).
- Removal.LifeEnds: accurate API, objects that are not external, a single file in the record.
- Safety.RunsAreHarmless: definitions have names, and the API never answers with an empty dict, which the code would take for absence.
- FullRemoval.LifeEndsWithNothing: with redefinition it assumes that each recorded object is live and in the client's own form (with its `api_version`) when the deletion begins; Leftovers.CreatedThenVanished shows that the first is needed.
- Creation.PassAgrees: assumes of what the pass stores what Creation.RunsAgree assumes of runs.
- Creation.RunsAgree: that create, update and read store well-formed objects of distinct identity is a hypothesis here; Lifecycle.SetUpKeepsFile proves it for operations on one file up to its deletion, not for storing again into a record that a deletion has begun to take apart.
