# nix-secrets, modelled and proved

nix-secrets stores encrypted secrets in a repository, lets operators approve and edit them, and
deploys them atomically to hosts. This project models the parts of it whose guarantees span several
functions, several threads or several crashes, and proves those guarantees for all inputs, all
interleavings and all crash points.

- **Approval broker** (`Approval`, `ApprovalRuns`, `ApprovalEffects`, `ApprovalBroker`): a table of requests, one queue per
  frontend, claims as expiring leases. The queues are a fast form of "which requests are pending";
  they are proved exact in every reachable state. Two things the code does that its types do not
  show: `cancel` overwrites a resolution, and lease ids repeat after 2^64 - 1 claims.
- **Publisher** (`Filesystem`, `TreeWalk`, `FsUtil`, `Publisher`, `Deploy`, `DeployExample`): one deployment as a
  sequence of system calls. `Volume` records every state in between, so a statement about its trace
  is a statement about a crash at any moment: consumers see the whole old tree or the whole new one.
  Every state of the trace is again a root a deployment can start from, so this holds over any
  sequence of deployments and crashes.
- **Two roots** (`JointDeploy`): the secret root commits a joint deployment, recovery finishes or
  discards the public half. `Deployer::deploy` could also deploy into the secret root alone; that
  breaks this exactly when the public root lags behind. No production caller does so: the receiver
  calls `deploy_together` (crates/deploy/src/main.rs:221).
- **Save queue** (`SaveQueue`, `AsyncWriter`): the UI thread, the worker thread and the worker's death.
- **Formats** (`Wire`, `SshAuth`, `ClosureSigning`, `ArtifactSigning`, `Envelope`, `BatchDecrypt`,
  `Quoting`, `AuthorizedKeys`): each parser accepts exactly what the writer writes.
- **Sampling** (`Sampling`): rejection sampling gives every password the same number of draws.
- **Values over time** (`Generation`, `GenerationValues`, `Store`, `Provenance`, `PublicDefault`): retries converge,
  registry references never rebind, and a default replaces only an earlier default of its own.
- **Schema walks** (`SchemaTree`, `TargetState`, `TreeRows`, `RowDetails`, `TreeView`): three walks of one tree that
  agree with path lookup.

Each component has a specification on values (functions and lemmas). Where the program updates
fields, files or buffers, a class or a method with loops is proved against that specification. What a
specification computes is pinned in turn by a statement that does not call it: when a call succeeds, what
each place holds afterwards, which bytes stand where (the members ending in `Exactly`, `Reads`, `Layout`).
A text is the sequence of its UTF-8 bytes, one `char` per byte, so lengths and orders are the program's.
A `BTreeMap` is iterated in increasing key order (`Ordered.Sorted`), or given as the list of its
entries (`SchemaTree.Forest`). `dafny verify dfyconfig.toml` checks everything.

## Findings

Properties one would expect that do not hold of the code, each with a concrete witness and the
condition under which it does hold:

- A resolved request becomes cancelled when somebody cancels it; it stays resolved exactly while
  nobody does (`ApprovalRuns.TerminalForever`; the run is `ApprovalRuns.ApprovedThenCancelled`).
- Two claims share a lease id exactly when a positive multiple of 2^64 - 1 claims lies between
  them (`ApprovalRuns.LeaseIdsCollideExactly`; the run is `ApprovalRuns.LeaseIdReused`).
- A value with `.versions.json` as part of its path passes validation and is gone after the next
  deployment; every other value is carried over (`Deploy.CarriedOver`; two deployments that lose
  one are `DeployExample.VersionsSecretIsLost`).
- A deployment into the secret root alone, while the public root lags, makes recovery discard a
  committed public half (`JointDeploy.SecretsAloneExactly`; the run is `JointDeploy.LaggingIsReachable`
  with `JointDeploy.SecretsAloneLoses`).
- A batch of records is decrypted in phases, so its error can be that of a later record than
  decrypting one by one would report (`BatchDecrypt.SameRecordExactly`; the batch is
  `BatchDecrypt.LaterRecordBlamed`).
- A namespace may contain a dot, and then two leaves can share an identifier; an identifier reads
  back as its own path exactly when its namespace is a plain component and the leaf lies below its
  service (`SchemaTree.ParseExactly`; the schema is `SchemaTree.DottedNamespaceCollides`). This
  concerns operator and generated leaves without an identity: validation looks up every stored leaf
  and every leaf with an identity by its path, and so refuses those under a dotted namespace
  (`SchemaTree.IndexedReadsBack`).
- An operator's deployment of bytes equal to an earlier default, under the same version, counts as
  that default and is replaced (`Provenance.SurvivesExactly`; the run is `Provenance.OperatorCopyRun`).
- A file one merge produced can be too large for the next one; merging again is byte-for-byte
  unchanged exactly within 1 MiB (`AuthorizedKeys.MergeAgain`; the file is
  `AuthorizedKeys.MergeOutgrowsLimit`).

## Model

| member | source | states |
|---|---|---|
| `Approval.NeverEvicts` | crates/core/src/approval.rs:288-297 | pigeonhole on 4096 = 4096: a duplicate-free queue over the table's ids has room for any new id, so the eviction branch is dead |
| `Approval.QueueAllKeeps` | crates/core/src/approval.rs:281-297 | queueing ids keeps `known` equal to the set of `queued`, drops nothing and repeats nothing |
| `Approval.BroadcastKeeps` | crates/core/src/approval.rs:281-286 | broadcasting what became pending leaves every frontend's queue holding every pending request |
| `Approval.ApplyInv` | crates/core/src/approval.rs:60-297 | every call keeps the whole invariant: bounds, queues duplicate-free and complete, leases owned by registered sessions |
| `Approval.RunInv` | crates/core/src/approval.rs:60-297 | the invariant holds after every run of calls |
| `ApprovalRuns.PendingIsExact` | crates/core/src/approval.rs:111-131 | in every reachable state a registered frontend gets exactly the pending requests, each once; another session is refused |
| `ApprovalRuns.ListingsInOrder` | crates/core/src/approval.rs:111-131 | requests are listed in the order in which they became pending: a later listing starts with what is still pending of an earlier one, in the same order |
| `ApprovalRuns.EntryStep` | crates/core/src/approval.rs:77-279 | entries are never removed or changed in their request, and move only along the allowed transitions |
| `ApprovalRuns.ResolvedByHolder` | crates/core/src/approval.rs:158-181 | a request becomes resolved only by the session holding its current unexpired lease, with that session's decision |
| `ApprovalRuns.TerminalForever` | crates/core/src/approval.rs:207-212 | a terminal request never becomes pending or claimed again; it ends cancelled exactly if somebody cancels it |
| `ApprovalRuns.ApprovedThenCancelled` | crates/core/src/approval.rs:207-212 | register, submit, claim, approve, cancel: the approved request ends cancelled |
| `ApprovalRuns.LeaseIdOfClaim` | crates/core/src/approval.rs:133-156 | the counter after k claims, wrap-around to 1 included |
| `ApprovalRuns.LeaseIdsCollideExactly` | crates/core/src/approval.rs:133-156 | two claims share an id iff a positive multiple of 2^64 - 1 claims lies between them |
| `ApprovalRuns.LeaseIdReused` | crates/core/src/approval.rs:146-146 | a run in which lease id 1 is given out twice |
| `ApprovalRuns.LeaseRun` | crates/core/src/approval.rs:133-205 | below that bound, live leases have distinct ids below the counter and a spent id stays spent |
| `ApprovalRuns.SpentLeaseIsUseless` | crates/core/src/approval.rs:158-205 | a reclaimed, dropped or used lease never resolves or renews again in any continuation |
| `ApprovalEffects.RequestOkExactly` | crates/core/src/approval_types.rs:18-47 | a request is refused exactly for a bad id, target or list of secrets |
| `ApprovalEffects.SucceedsExactly` | crates/core/src/approval.rs:60-261 | each call replies Ok iff its caller may make it: claim iff the lease is positive and within 15 minutes, the session registered and the request pending; resolve and renew iff the session holds the unexpired lease and message or duration are within the limit |
| `ApprovalEffects.StateExactly` | crates/core/src/approval.rs:60-279 | the state of every request after every call: a successful resolution leaves exactly its decision and message, a claim or renewal exactly its lease and expiry, a failed call what reclaiming leaves |
| `ApprovalEffects.TablesExactly` | crates/core/src/approval.rs:60-279 | only a successful submission adds a request, as submitted; only registering adds a session and only disconnecting removes one; only a claim uses a lease id |
| `ApprovalEffects.AnswersExactly` | crates/core/src/approval.rs:60-261 | what every call answers: the lease of a claim, the status of a request, and which error a refused call gets |
| `ApprovalEffects.StatusExactly` | crates/core/src/approval.rs:299-317 | the status tells the state, with the lease id and the milliseconds left, none after the expiry |
| `ApprovalBroker.QueueInOrder` | crates/core/src/approval.rs:288-297 | the queueing loop equals the specification |
| `ApprovalBroker.ApprovalBroker.Register` | crates/core/src/approval.rs:60-75 | does in state and reply what `Approval.Apply` does, whose success, effect and answer are those of `ApprovalEffects` |
| `ApprovalBroker.ApprovalBroker.Submit` | crates/core/src/approval.rs:77-109 | does in state and reply what `Approval.Apply` does, whose success, effect and answer are those of `ApprovalEffects` |
| `ApprovalBroker.ApprovalBroker.ListPending` | crates/core/src/approval.rs:111-131 | does in state and reply what `Approval.Apply` does, which is the exact listing of `ApprovalRuns.PendingIsExact` |
| `ApprovalBroker.ApprovalBroker.Claim` | crates/core/src/approval.rs:133-156 | does in state and reply what `Approval.Apply` does, whose success, effect and answer are those of `ApprovalEffects` |
| `ApprovalBroker.ApprovalBroker.Resolve` | crates/core/src/approval.rs:158-181 | does in state and reply what `Approval.Apply` does, whose success, effect and answer are those of `ApprovalEffects` |
| `ApprovalBroker.ApprovalBroker.Renew` | crates/core/src/approval.rs:183-205 | does in state and reply what `Approval.Apply` does, whose success, effect and answer are those of `ApprovalEffects` |
| `ApprovalBroker.ApprovalBroker.Cancel` | crates/core/src/approval.rs:207-212 | does in state and reply what `Approval.Apply` does, whose success, effect and answer are those of `ApprovalEffects` |
| `ApprovalBroker.ApprovalBroker.Disconnect` | crates/core/src/approval.rs:245-261 | refines `Approval.Apply`: the session's claims become pending and are broadcast |
| `ApprovalBroker.ApprovalBroker.Reclaim` | crates/core/src/approval.rs:263-279 | expired claims become pending and are broadcast in the order of the table |
| `ApprovalBroker.ApprovalBroker.BroadcastOne` | crates/core/src/approval.rs:281-286 | the loop over frontends queues the id at each of them |
| `Publisher.Validate` | crates/deploy/src/validate.rs:11-51 | accepts exactly the non-empty batches of valid entries with distinct destinations |
| `Publisher.RelativeExactly` | crates/deploy/src/schema.rs:82-99 | where each kind of value lies below its service; two values share a place iff service, kind and name agree |
| `Publisher.StagedAllIsOverlay` | crates/deploy/src/deploy.rs:197-201 | staging entry by entry gives the declarative overlay of the batch on the old tree |
| `Publisher.OverlayUnique` | crates/deploy/src/validate.rs:11-51 | the overlay of distinct destinations does not depend on the order of the batch |
| `Publisher.CreateParents` | crates/deploy/src/deploy/staging.rs:159-172 | every parent directory is there and nothing else changed; fails iff something else is in the way; nothing outside the staging directory is touched |
| `Publisher.StageOne` | crates/deploy/src/deploy/staging.rs:63-112 | one entry is installed into the staged tree, at every crash point inside staging only; fails iff its place or the way to it is taken by something else |
| `Publisher.GrantsMode` | crates/deploy/src/fsutil.rs:142-182 | comparing the bits outside the group and the owning group's permission compares the whole mode of a file without ACL, and under an ACL the bits of owner and others and the group's entry |
| `Publisher.StageEntries` | crates/deploy/src/deploy.rs:197-201 | the loop over the batch stages all entries, iff each can be staged over those before it |
| `Publisher.FitsExactly` | crates/deploy/src/deploy.rs:197-201 | that is so iff every entry can be staged over the old tree and no destination lies above another, in whatever order |
| `TreeWalk.WalkDone` | crates/deploy/src/fsutil.rs:22-55 | a finished worklist has seen every node no skipped name hides |
| `TreeWalk.WalkBound` | crates/deploy/src/fsutil.rs:22-55 | the growing list stays within the directories of the tree, so the walk ends |
| `FsUtil.Volume.CreateDirectory` | crates/deploy/src/fsutil.rs:10-20 | creates exactly one directory, synced together with its parent, or changes nothing |
| `FsUtil.Volume.CloneTree` | crates/deploy/src/fsutil.rs:22-55 | the copy equals the source outside skipped names; fails exactly on other file kinds; nothing outside the destination is touched at any crash point |
| `FsUtil.Volume.SyncTree` | crates/deploy/src/fsutil.rs:204-228 | on success no directory of the tree is unsynced; fails exactly on other file kinds; contents unchanged |
| `FsUtil.Volume.RemoveTree` | crates/deploy/src/deploy/staging.rs:114-146 | removes exactly the nodes below the path, deepest first, with a file system at every step |
| `Deploy.PrepareStore` | crates/deploy/src/deploy.rs:280-294 | the store directory is there iff nothing else has its name, and consumers see no difference at any crash point |
| `Deploy.Stage` | crates/deploy/src/deploy.rs:183-205 | the staging directory holds exactly the new tree, fully synced, while consumers see the old one; it succeeds iff the id is unused, the current generation is plain and the batch fits |
| `Deploy.PrepareServiceLinks` | crates/deploy/src/deploy.rs:310-333 | every service of the batch is linked, iff nothing else is in the place of a link; a dangling link of a new service shows nothing |
| `Deploy.Activate` | crates/deploy/src/deploy.rs:207-223 | before the pointer is prepared and the generation opened, the view stays; afterwards the generation is traversable and synced |
| `Deploy.SwitchPublishes` | crates/deploy/src/deploy.rs:226-231 | the one rename turns the old view into the whole new one |
| `Deploy.Prepare` | crates/deploy/src/deploy.rs:183-223 | succeeds iff the root accepts the batch under this id, and then the generation stands ready: staged tree, synced store entry, links, pending pointer; consumers see the old root throughout |
| `Deploy.Keep` | crates/deploy/src/deploy/staging.rs:132-139 | the kept generations are the active one and the newest, three at most, fewer only if there are no more |
| `Deploy.GenerationExactly` | crates/deploy/src/fsutil.rs:245-254 | generation names are 39 digits, a dash and 10 digits |
| `Deploy.PruneGenerations` | crates/deploy/src/deploy/staging.rs:114-146 | afterwards no staging directory and at most three generations remain, the newest ones; nothing else changed, and consumers see no difference at any step |
| `Deploy.SwitchAndPrune` | crates/deploy/src/deploy.rs:225-236 | every state from the rename on is published; the store is synced when the pointer switches |
| `Deploy.DeployInner` | crates/deploy/src/deploy.rs:153-236 | at every state of the trace the tree behind the service links is the old one, or from the rename on the old one overlaid with exactly the batch; `.current` always names a synced generation of mode 0711; it succeeds iff the batch is valid, `proceed` agrees and the root accepts it; then the version map holds for every identifier of the batch the version of its last entry and for every other one its old version, the history is bounded and no other path has changed |
| `Deploy.BatchVersionsUpdate` | crates/deploy/src/deploy/staging.rs:30-51 | identifiers of the batch get the version of their last entry, all others keep theirs |
| `Deploy.UpdatedOnce` | crates/deploy/src/deploy/staging.rs:30-51 | there is no other such version map |
| `Deploy.NextVersions` | crates/deploy/src/deploy/staging.rs:30-51 | the loop over the batch computes it |
| `Deploy.CarriedOver` | crates/deploy/src/fsutil.rs:22-55 | a value the batch does not name survives iff no part of its path is `.versions.json` |
| `Deploy.BatchInstalled` | crates/deploy/src/deploy/staging.rs:63-112 | every value of the batch is visible with its contents, owner, group and permissions, and with its mode unless it kept readers of its own |
| `Deploy.ReadersKept` | crates/deploy/src/deploy/staging.rs:63-112 | a value that was there with these contents, owner, group and permissions keeps its file with its readers; any other one is a new file without readers of its own |
| `Deploy.WayIsOpen` | crates/deploy/src/deploy/staging.rs:159-172 | directories on the way to a value are those that were there, or new ones of root with mode 0711 |
| `DeployExample.VersionsSecretIsLost` | crates/deploy/src/fsutil.rs:27-31 | from an empty root, the second of two accepted deployments takes away the secret named `.versions.json` that the first one installed |
| `JointDeploy.PublishPairOk` | crates/deploy/src/deploy/recovery.rs:45-108 | every intermediate state of a joint publication is consistent with the deployment before or, from the commit on, after it |
| `JointDeploy.TraceOk` | crates/deploy/src/deploy/recovery.rs:32-193 | the same for every operation, recoveries included |
| `JointDeploy.TraceIsAtomic` | crates/deploy/src/deploy/recovery.rs:32-193 | a trace leaves no crash point out: two states next to each other are one step on the generations or the pointers of one root apart |
| `JointDeploy.RunConsistent` | crates/deploy/src/deploy/recovery.rs:32-193 | consistency over every run with a crash anywhere in each operation |
| `JointDeploy.RecoveredTogether` | crates/deploy/src/deploy/recovery.rs:147-193 | after one complete recovery every joint deployment is in both roots or in neither |
| `JointDeploy.TogetherCompletes` | crates/deploy/src/deploy/recovery.rs:45-108 | an uninterrupted joint deployment, also of one half alone, ends committed: each batch is added to what its root showed, and nothing is pending |
| `JointDeploy.RecoveryDiscards` | crates/deploy/src/deploy/recovery.rs:147-193 | recovery removes every generation that was prepared and not committed |
| `JointDeploy.RunAhead` | crates/deploy/src/deploy/recovery.rs:32-193 | over every run a pending public generation is one batch ahead of what the root shows |
| `JointDeploy.SecretsAloneExactly` | crates/deploy/src/deploy.rs:129-132 | after any run, a deployment into the secret root alone followed by recovery shows everything committed iff the secret root's current generation was not pending in the public root |
| `JointDeploy.LaggingIsReachable` | crates/deploy/src/deploy/recovery.rs:45-108 | a crash between the two switches leaves such a lag |
| `JointDeploy.SecretsAloneLoses` | crates/deploy/src/deploy/recovery.rs:147-193 | the run in which a committed public half is discarded |
| `SaveQueue.RunKeeps` | crates/manager/src/async_ui.rs:119-180 | the invariant over UI, worker, both channels and worker death holds in every interleaving |
| `SaveQueue.NoWriteIsLost` | crates/manager/src/async_ui.rs:345-402 | each accepted write is held as a draft with its own path and bytes, or was reported exactly once: with the worker's answer to that very write, and if that was a failure or the worker died, as a failed save with its path, bytes and message; reports are in order of submission |
| `SaveQueue.EveryWriteIsReported` | crates/manager/src/async_ui.rs:247-387 | once the worker has handled every command, or is gone, and the UI has received what is waiting, every accepted write has been reported as above |
| `SaveQueue.AcceptsExactly` | crates/manager/src/async_ui.rs:389-507 | in every reachable state a write is accepted iff it is within 16 MiB, fewer than eight commands are open and the worker takes commands; another command iff nothing is open; one that is refused changes nothing |
| `SaveQueue.QueueBounded` | crates/manager/src/async_ui.rs:470-507 | busy iff something is pending; at most eight pending, each under its own label with its draft slot |
| `SaveQueue.AnswerIsForOldest` | crates/manager/src/async_ui.rs:345-368 | a completion always answers the oldest open command |
| `SaveQueue.DraftReportsCover` | crates/manager/src/async_ui.rs:370-387 | when the worker stops, each held write is reported once, in order |
| `SaveQueue.ReportsAreHandedOut` | crates/manager/src/async_ui.rs:345-387 | in every interleaving the reports are a subsequence of the completions the UI hands out |
| `SaveQueue.CompletionsExactly` | crates/manager/src/async_ui.rs:247-387 | what the UI hands out for each event: the report of the answer, a report of every open write when the worker stops, the message of a problem |
| `AsyncWriter.AsyncWriter.Write` | crates/manager/src/async_ui.rs:470-507 | accepts and retains the value, or hands it back and changes nothing |
| `AsyncWriter.AsyncWriter.Queue` | crates/manager/src/async_ui.rs:389-402 | refuses while busy or without a worker, otherwise one pending command without draft |
| `AsyncWriter.AsyncWriter.WorkerStopped` | crates/manager/src/async_ui.rs:370-387 | the loop over pending and drafts equals the specification |
| `AsyncWriter.AsyncWriter.Complete` | crates/manager/src/async_ui.rs:345-368 | does what the specification of a completion does, whose report `SaveQueue.NoWriteIsLost` ties to the worker's answer |
| `AsyncWriter.AsyncWriter.Pump` | crates/manager/src/async_ui.rs:247-368 | handles all waiting events in order, then the end of the channel |
| `Wire.TakeExactly` | crates/core/src/ssh_auth.rs:19-30 | reading a string succeeds exactly on inputs that start with a written one |
| `Wire.PutCancel` | crates/core/src/ssh_auth.rs:27-30 | a string and what follows can be told apart |
| `Wire.BeBytes` | crates/core/src/ssh_auth.rs:27-30 | lengths are written big-endian, byte by byte |
| `SshAuth.KeyBlobExactly` | crates/core/src/ssh_auth.rs:32-46 | accepted keys are the key type and a 32-byte point |
| `SshAuth.DestinationExactly` | crates/core/src/ssh_auth.rs:48-67 | the user of a destination is what stands before the first `@`, iff both sides are well formed |
| `SshAuth.ValidateMethod` | crates/core/src/ssh_auth.rs:125-173 | accepts exactly the public-key method, plain or host-bound |
| `SshAuth.ValidateData` | crates/core/src/ssh_auth.rs:125-173 | accepts exactly the data of section 7 of RFC 4252 for this user and key |
| `SshAuth.Validate` | crates/core/src/ssh_auth.rs:125-173 | accepts exactly the sign requests built from that layout for the request's own key and user |
| `SshAuth.LoginReads` | crates/core/src/ssh_auth.rs:125-173 | a message is such a sign request iff it reads field by field as the layout says: the byte 13, the key, the data with session, byte 50, user, service, method, flag, algorithm and key, and no flags |
| `SshAuth.LoginsArePrefixFree` | crates/core/src/ssh_auth.rs:125-173 | no accepted message is a proper prefix of another, under any key, user and host keys |
| `SshAuth.LoginNamesItsUser` | crates/core/src/ssh_auth.rs:125-173 | one message logs in one user with one key only |
| `SshAuth.AgentConfirmation` | crates/core/src/ssh_auth.rs:107-121 | the buffer built is the sign request over the SSHSIG data |
| `SshAuth.ConfirmationReads` | crates/core/src/ssh_auth.rs:107-121 | its data reads as the SSHSIG preamble, the namespace, nothing reserved, the hash name and the digest |
| `SshAuth.ConfirmationIsNoLogin` | crates/core/src/ssh_auth.rs:107-173 | no confirmation message is accepted as a login |
| `ClosureSigning.FingerprintInjective` | crates/core/src/closure_signing.rs:23-74 | on validated paths equal fingerprints mean equal path, hash, size and references, the empty list included |
| `ClosureSigning.FingerprintFields` | crates/core/src/closure_signing.rs:66-74 | split at semicolons a fingerprint is the format 1, path, hash, size in decimal, and the references between commas |
| `ClosureSigning.SampleValid` | crates/core/src/closure_signing.rs:23-64 | one valid path, and what makes it invalid: hidden or broken names, sizes, references out of order or twice, a hash beyond 256 bits |
| `ClosureSigning.ValidateManifest` | crates/core/src/closure_signing.rs:84-102 | the loop accepts exactly the manifests of 1 to 4096 valid, distinct paths within the size limit |
| `ClosureSigning.ValidateSignatures` | crates/core/src/closure_signing.rs:184-199 | the loop accepts exactly lists of the manifest's length with distinct member paths and valid signatures |
| `ClosureSigning.SignaturesAreBijective` | crates/core/src/closure_signing.rs:184-199 | an accepted list signs every path exactly once |
| `ClosureSigning.AcceptedExactly` | crates/core/src/closure_signing.rs:184-199 | a list is accepted iff it names every path of a valid manifest, is as long as it, and holds only well-formed signatures |
| `ArtifactSigning.ValidateManifest` | crates/core/src/artifact_signing.rs:36-72 | the loop accepts exactly the valid manifests with distinct roles |
| `ArtifactSigning.SampleValid` | crates/core/src/artifact_signing.rs:36-89 | one valid artifact, and what makes it invalid: unknown role, short or upper-case digest, size, path |
| `ArtifactSigning.ValidateSignatures` | crates/core/src/artifact_signing.rs:130-159 | the loop accepts exactly the matching lists |
| `ArtifactSigning.EveryArtifactSigned` | crates/core/src/artifact_signing.rs:130-159 | each artifact has exactly one signature, with its own digest and size |
| `ArtifactSigning.AcceptedExactly` | crates/core/src/artifact_signing.rs:130-159 | a list is accepted iff it signs every artifact with its digest and size, is as long as the manifest, and holds only bounded, well-formed signatures |
| `Envelope.EncodeInner` | crates/crypto/src/secret.rs:123-138 | the buffer built is the envelope layout |
| `Envelope.InnerLayout` | crates/crypto/src/secret.rs:123-138 | the layout byte by byte: tag, format, length, identifier, version, secret |
| `Envelope.DecodeExactly` | crates/crypto/src/secret.rs:140-177 | decoding yields s iff the input is the envelope of that identifier, version and s within the limits |
| `Envelope.InnerNames` | crates/crypto/src/secret.rs:123-177 | equal envelopes have equal identifiers, versions and secrets |
| `Envelope.RecordBinds` | crates/crypto/src/secret.rs:76-121 | a record decrypts to its plaintext under its own identifier and version and under no other |
| `Envelope.EncryptExactly` | crates/crypto/src/secret.rs:76-108 | a record is made iff identifier, recipients, secret and ciphertext are within the limits; it encrypts the envelope for exactly the keys of the recipients and names them and the version |
| `Envelope.DecryptExactly` | crates/crypto/src/secret.rs:110-225 | a record decrypts to s iff it is well formed and the provider decrypts it to the envelope of the identifier, its version and s |
| `BatchDecrypt.SequentialOk` | crates/crypto/src/secret.rs:27-32 | one by one succeeds with rs iff each input gives its r |
| `BatchDecrypt.OrderedParallel` | crates/crypto/src/age_command.rs:341-363 | for every worker count the sequential result or first error in input order, and no wave after the failing one |
| `BatchDecrypt.UnframeExactly` | crates/crypto/src/age_command.rs:318-328 | the frame loop inverts frame concatenation, both ways |
| `BatchDecrypt.DecryptFramed` | crates/crypto/src/age_command.rs:249-334 | refuses ciphertexts that are too large; otherwise succeeds exactly when the output is as many whole frames as ciphertexts, and returns their contents |
| `BatchDecrypt.FrameByFrameIsHonest` | crates/crypto/src/age_command.rs:296-317 | the launcher that unframes, decrypts and frames is an honest one |
| `BatchDecrypt.DecryptBatch` | crates/crypto/src/age_command.rs:249-335 | for any number of workers and for any honest launcher the batch succeeds exactly when decrypting one by one does, with the same values |
| `BatchDecrypt.DecryptSecrets` | crates/crypto/src/secret.rs:38-61 | directly or through a launcher, succeeds iff every record decrypts on its own, with the same values; an error of the direct path is that of the record the phases blame |
| `BatchDecrypt.SameRecordExactly` | crates/crypto/src/secret.rs:38-61 | batch and one-by-one report the same record iff no later record fails in an earlier phase |
| `BatchDecrypt.LaterRecordBlamed` | crates/crypto/src/secret.rs:38-61 | a batch that reports its second record although the first one fails |
| `Generation.RunValueGeneration` | crates/deploy/src/generate.rs:85-217 | the two loops equal the specification of a run, whose values, versions and draws are those of `GenerationValues.RunExactly` |
| `GenerationValues.ProduceExactly` | crates/deploy/src/generate.rs:100-154 | an entry is adopted iff it is an own one with a recorded version and its file there; otherwise its value is the next draw of its declared generator and its version the next fresh one |
| `GenerationValues.EntriesExactly` | crates/deploy/src/generate.rs:99-187 | the loop succeeds iff every entry may be produced and encrypted; what was mixed in is exactly the contributions of the entries not adopted, in order, and what was drawn is counted |
| `GenerationValues.RecipientsExactly` | crates/deploy/src/generate.rs:155-163 | a value is encrypted for the recipients declared for it, each with its own key |
| `GenerationValues.ScheduledExactly` | crates/deploy/src/generate.rs:168-187 | the deployments of the loop are exactly the own entries with their versions and values, in order, and every entry has a record |
| `GenerationValues.RunExactly` | crates/deploy/src/generate.rs:85-217 | a run succeeds iff that loop does and every derived value can be framed from what was produced; then every identifier has the value, version and mark above, and its record encrypts exactly that value for its recipients |
| `Generation.RecordsMatchDeployments` | crates/deploy/src/generate.rs:85-217 | every own record decrypts to exactly the scheduled bytes under the scheduled version; every derived value is framed from a value produced in the same run |
| `Generation.InstallAgain` | crates/deploy/src/deploy/staging.rs:30-112 | installing the same deployments twice is installing them once |
| `Generation.AdoptsInstalled` | crates/deploy/src/generate.rs:133-166 | an installed value is adopted with its version and draws nothing |
| `Generation.EncryptAgain` | crates/crypto/src/secret.rs:76-108 | a second, differently randomised encryption differs in the ciphertext alone |
| `Generation.RetryConverges` | crates/deploy/src/generate.rs:133-212 | a run after installation, unless encryption fails, returns the same values, versions and derived values, marks records adopted and draws nothing; its new records decrypt to the same values |
| `Generation.RetryForever` | crates/deploy/src/generate.rs:133-212 | the same for any number of further runs |
| `Generation.LawfulExists` | crates/crypto/src/secret.rs:20-33 | a randomised provider and an encoding that obey the assumed laws |
| `Store.TakenBound` | crates/core/src/store.rs:160-228 | used revisions of one name number at most the registry, so the search for a free one ends |
| `Store.Free` | crates/core/src/store.rs:160-228 | the search ends with an unused reference of that name within the size of the registry |
| `Store.FreeRevision` | crates/core/src/store.rs:160-228 | the loop finds that reference, with a counter that never exceeds the size of the registry |
| `Store.FindReference` | crates/core/src/store.rs:160-228 | the loop reuses the first reference that stands for the id, otherwise a free one |
| `Store.RegisterResolves` | crates/core/src/store.rs:160-228 | registering only adds, and the returned references stand for the submitted ids |
| `Store.GetExactly` | crates/core/src/store/validation.rs:3-25 | a path reads as a record iff that is its stored form with each reference replaced by the id it stands for; both ids and references, or an unknown reference, are an error |
| `Store.ReferenceReused` | crates/core/src/store.rs:160-228 | a recipient with a reference of this name gets one of those; only another one adds a reference |
| `Store.WriteReadsBack` | crates/core/src/store.rs:121-228 | a successful write reads back the submitted record and ids, changes no other path, and a conditional one met the named version |
| `Store.WriteExactly` | crates/core/src/store.rs:160-228 | a write succeeds iff the leaf takes the record and the store is at the expected version or absence; otherwise a conflict or a refusal, and no change |
| `Store.RemoveExactly` | crates/core/src/store.rs:230-260 | a remove succeeds iff the leaf exists, is no public information and the record is at the named version; then exactly that path is gone |
| `Store.RunKeepsReferences` | crates/core/src/store.rs:160-260 | over any run the registry never rebinds, so every record resolves to its original ids |
| `Store.ReadsLastWrite` | crates/core/src/store.rs:121-260 | over any run every path reads exactly the record last written there and not removed since |
| `Store.SecretStore.SetChecked` | crates/core/src/store.rs:160-228 | refines the specification; every error leaves the document unchanged |
| `Store.SecretStore.RemoveChecked` | crates/core/src/store.rs:230-260 | removes what the specification removes, so only against the named version (`Store.RemoveExactly`); every error leaves the document unchanged |
| `Sampling.UniformIndex` | crates/core/src/generator.rs:189-203 | each index below any bound is hit by exactly floor(2^64 / bound) accepted draws |
| `Sampling.DrawIndex` | crates/core/src/generator.rs:189-203 | returns the residue of the first accepted draw and leaves exactly the draws after it; fails iff none is accepted |
| `Sampling.Utf8Cancel` | crates/core/src/generator.rs:124-128 | encoded characters (section 3 of RFC 3629) can be told apart from what follows |
| `Sampling.Utf8Width` | crates/core/src/generator.rs:124-128 | every character has its shortest encoding, whose first byte tells its length |
| `Sampling.SpelledInjective` | crates/core/src/generator.rs:101-131 | over a duplicate-free alphabet different index sequences of one length spell different passwords |
| `Sampling.PreimageMember` | crates/core/src/generator.rs:101-131 | the counted set holds exactly the accepted draw sequences that give the indices |
| `Sampling.PreimageCount` | crates/core/src/generator.rs:101-131 | it has floor(2^64 / n)^length elements |
| `Sampling.PasswordsAreUniform` | crates/core/src/generator.rs:101-131 | every password of one length is produced by that same number of accepted draw sequences |
| `Sampling.Password` | crates/core/src/generator.rs:101-131 | succeeds exactly within the limits with enough accepted draws, which in order spell the output; otherwise the error of the first limit that is broken |
| `Sampling.Spell` | crates/core/src/generator.rs:123-131 | the loop takes one accepted draw for every character and fails iff they run out |
| `Provenance.InstallationSound` | crates/deploy/src/public_default.rs:212-250 | an installation keeps every readable record naming a published default of its identifier, if no two values used have one digest |
| `Provenance.RunSound` | crates/deploy/src/public_default.rs:111-155 | so it is after every run of installs, crashes, operator deployments, edits and lost records |
| `Provenance.OnlyOwnDefaultsReplaced` | crates/deploy/src/public_default.rs:178-250 | over every run, a boot that changes a present value finds the bytes and version of a default this unit published there earlier, and touches no other file |
| `Provenance.KeptForGood` | crates/deploy/src/public_default.rs:178-194 | a value the unit does not own survives every later run of boots with any crashes |
| `Provenance.SurvivesExactly` | crates/deploy/src/public_default.rs:178-194 | a value survives all later boots iff the unit does not own it |
| `Provenance.OwnedUnlessCrashed` | crates/deploy/src/public_default.rs:226-249 | after publishing, the unit owns the value iff it lived to write the record |
| `Provenance.OwnedExactly` | crates/deploy/src/public_default.rs:111-210 | the unit owns a value iff its record is a small plain file of the installed version and the destination a small plain file of that digest |
| `Provenance.HexVersionExactly` | crates/deploy/src/public_default.rs:17-24 | a declared version is 1 to 256 hexadecimal digits |
| `Provenance.BootExactly` | crates/deploy/src/public_default.rs:10-250 | a boot installs the source if it is valid and otherwise the fallback, iff nothing is there or the unit owns an older default; then exactly the file, the version and, without a crash, the record change |
| `Provenance.ReinstallUnchanged` | crates/deploy/src/public_default.rs:45-53 | booting again with the installed default changes nothing, whatever became of file and record |
| `Provenance.OperatorCopyIsReplaced` | crates/deploy/src/public_default.rs:187-191 | an operator's copy of an earlier default is replaced by the next one |
| `Provenance.SampleMeetsAssumptions` | crates/deploy/src/public_default.rs:166-172 | one environment and run that meet the assumptions on digests and defaults |
| `Provenance.OperatorCopyRun` | crates/deploy/src/public_default.rs:178-194 | in that run the next default keeps the operator's own value and replaces the operator's copy of the earlier default |
| `PublicDefault.PublicRoot.Deploy` | crates/deploy/src/deploy.rs:139-179 | the loop publishes every entry and its version |
| `PublicDefault.PublicRoot.Install` | crates/deploy/src/public_default.rs:212-250 | decides, publishes and records in that order, cut short by a crash |
| `PublicDefault.PublicRoot.InstallPublicDefault` | crates/deploy/src/public_default.rs:10-84 | checks, fast path and fallback before the installation |
| `Quoting.ReadEscaped` | crates/manager/src/command.rs:114-125 | the shell reads an escaped text up to its closing quote as exactly that text |
| `Quoting.CommandReadsBack` | crates/manager/src/command.rs:114-125 | tokenizing by sections 2.2.1, 2.2.2 and 2.3 of the POSIX.1-2017 Shell Command Language gives back every argument list; only non-UTF-8 text is refused |
| `AuthorizedKeys.MergeAuthorizedKeys` | crates/storagebox-bootstrap/src/authorized_keys.rs:9-56 | the loop equals the specification, errors included |
| `AuthorizedKeys.ErrorsExactly` | crates/storagebox-bootstrap/src/authorized_keys.rs:25-45 | the second marker check never fires, and the loop succeeds iff every marked line is well formed |
| `AuthorizedKeys.LineExactly` | crates/storagebox-bootstrap/src/authorized_keys.rs:58-79 | a marked line is well formed iff it is a key type, a key and the prefix with a date |
| `AuthorizedKeys.MergeExactly` | crates/storagebox-bootstrap/src/authorized_keys.rs:9-79 | a merge succeeds iff the file is small, plain text, with at most one marked line and all of them well formed; it returns the file itself if that line holds the key, otherwise the unmarked lines and one new marked line |
| `AuthorizedKeys.MergeKeepsOthers` | crates/storagebox-bootstrap/src/authorized_keys.rs:9-64 | a successful merge keeps all unmarked lines in order and leaves exactly one marked line, holding the key |
| `AuthorizedKeys.MergeAgain` | crates/storagebox-bootstrap/src/authorized_keys.rs:9-56 | merging again on any date is byte-for-byte unchanged iff the file is within 1 MiB |
| `AuthorizedKeys.MergeOutgrowsLimit` | crates/storagebox-bootstrap/src/authorized_keys.rs:15-17 | a readable file of 1 MiB whose merge no further merge accepts |
| `AuthorizedKeys.LastMergeWins` | crates/storagebox-bootstrap/src/authorized_keys.rs:9-56 | merging A then B equals merging B alone iff the file did not already hold B |
| `SchemaTree.LeavesExactly` | crates/core/src/schema.rs:292-366 | a walk lists a leaf under a path iff the path leads to it |
| `SchemaTree.LeavesOnce` | crates/deploy/src/manifest.rs:109-185 | a walk lists every leaf once |
| `SchemaTree.SchemaLeavesExactly` | crates/core/src/schema.rs:292-366 | the same over hosts, namespaces and services of a validated schema |
| `SchemaTree.Leaf` | crates/core/src/schema.rs:292-366 | the lookup loop resolves exactly that path, with the error for missing and for branches |
| `SchemaTree.ResolvedPath` | crates/core/src/schema.rs:185-236 | every path that resolves is a host, a namespace and components |
| `SchemaTree.ParseExactly` | crates/core/src/schema/path.rs:3-29 | an identifier reads back as its own path iff the namespace is a plain component and the leaf lies below its service |
| `SchemaTree.ParseRoundTrip` | crates/core/src/schema/path.rs:16-29 | printing what was parsed gives the input |
| `Naming.NamespaceExactly` | crates/core/src/schema/validation.rs:564-570 | a namespace is `services`, or a name between `user-` and `-services`, or `user-services`, where the two share their dash |
| `SchemaTree.IndexedReadsBack` | crates/core/src/schema/derived.rs:175-222 | in a validated schema the identifier of every stored leaf, and of every leaf with an identity, reads back as its path |
| `SchemaTree.DottedNamespaceCollides` | crates/core/src/schema/validation.rs:564-570 | a validated schema with two leaves of one identifier |
| `TargetState.TargetLeaves.FlattenTarget` | crates/deploy/src/manifest.rs:109-185 | appends every stored and generated leaf below the node and restores `parents` |
| `TargetState.TargetLeaves.LoadTargetState` | crates/deploy/src/manifest.rs:66-104 | the loops over namespaces and services report the leaves of the whole host, sorted by identifier |
| `TargetState.ReportedExactly` | crates/deploy/src/manifest.rs:66-194 | exactly the identifiers of paths that resolve to stored or generated leaves of the host, one entry for each leaf, and each identifier once if namespaces are plain |
| `TargetState.ReportsDescribeLeaves` | crates/deploy/src/manifest.rs:109-185 | the target reports exactly its stored leaves as secrets, each with its own configuration and installed version, and exactly its generated leaves as tasks |
| `TreeRows.VisitPaths` | crates/manager/src/tree.rs:137-299 | the rows of a service name exactly its shown leaves, in walk order |
| `TreeRows.AtEnter` | crates/manager/src/tree.rs:72-76 | entering a service changes the display tree at its own path alone |
| `TreeRows.ArrangedOnce` | crates/manager/src/tree.rs:63-77 | with distinct non-empty display paths the display tree holds every service exactly once |
| `TreeRows.RowsPaths` | crates/manager/src/tree.rs:52-135 | every identifier occurs in the rows as often as shown leaves have it |
| `TreeRows.RowsListEveryLeafOnce` | crates/manager/src/tree.rs:52-299 | rows list every leaf except local SSH keys exactly once, and nothing else; each identifier once if namespaces are plain |
| `RowDetails.RowsDescribeLeaves` | crates/manager/src/tree.rs:52-299 | every row with a path describes the leaf this path resolves to (set or not, what can be done with it, its kind) and stands below the declared display path of its service, under its own name |
| `RowDetails.RowsRooted` | crates/manager/src/tree.rs:52-299 | every row stands after the branch row of its parent |
| `TreeRows.ValidateDisplay` | crates/core/src/schema.rs:237-269 | the loops accept exactly known, non-empty, well-formed and distinct display paths |
| `TreeRows.KnownExactly` | crates/core/src/schema.rs:237-254 | a display path is declared for a known service iff a group of that namespace has one of that name |
| `TreeRows.ValidatedDisplay` | crates/core/src/schema.rs:255-269 | what validation accepts satisfies the condition the rows rely on |
| `TreeView.Listing.Visit` | crates/manager/src/tree.rs:137-262 | appends exactly the specified rows |
| `TreeView.Listing.VisitChildren` | crates/manager/src/tree.rs:264-299 | appends exactly the specified rows |
| `TreeView.Listing.EmitDisplay` | crates/manager/src/tree.rs:99-135 | appends exactly the specified rows |
| `TreeView.Listing.RowsWithPublic` | crates/manager/src/tree.rs:52-91 | appends exactly the specified rows |

## Left out

- Deploy.DeployInner: starts from a recovered root; recovery, also the one after a failure, is in `JointDeploy`. System calls fail only for what is on the disk, not for lack of space or broken hardware; a crash at any step is covered. Service names are assumed not to start with a dot; names such as `.current` pass `validate_name`.
- Deploy.PrepareStore: the owner and device checks, and the refusal of a root whose `.current` is damaged, are not modelled; the root is required to be sound.
- Publisher.StageOne: an ACL is well formed; the refusal of a malformed one is not modelled.
- JointDeploy.RecoveredTogether: works on pointers and generations; that each single root step is atomic is what `Deploy` proves. Pruning may drop any generation that is not current.
- Store.Free: revisions are unbounded where the program counts in 32 bits; they never exceed the size of the registry.
- Store.FreeRevision: the same.
- SchemaTree.DottedNamespaceCollides: the condition for unique identifiers goes one way; a dotted namespace need not collide.
- TreeRows.AtEnter: the display tree is built on values instead of through a moving cursor.
- BatchDecrypt.DecryptSecrets: the error of a launcher is its own and not tied to a record.
- Generation.RetryConverges: that encryption succeeds again is an assumption on the provider.
- Provenance.OnlyOwnDefaultsReplaced: publication is one atomic step, which is what `Deploy.DeployInner` proves; edits reach destinations and may lose records, but never forge a record. Digests are assumed distinct only among the values of the run.
- Sampling.Password: passphrases and encoded random bytes are not modelled; they use the same index or none.
- SHA-256, base64, JSON, age, ed25519 and UTF-8 decoding are parameters with the inverse or injectivity laws they promise.
- The clock is a parameter of each broker call; clocks, sockets, locks, subprocesses and file system errors are not modelled.
- Error texts, progress callbacks, activity labels, prompts and zeroization.
- `procedures`, `has_pending` and `has_frontends` of the broker, and the status of a procedure: they only read.
- Recipient ids may hold control characters beyond ASCII in the model; the program refuses those too.
- Deployment orchestration, the TUI, profiles, the operator channel, the login signer's timing and the ready-waiter.
