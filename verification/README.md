# SecureVault: the model and its proofs

SecureVault stores users' files once per content, encrypted, under the SHA-256 of the plaintext,
with a reference count in PostgreSQL and an object file on disk. This project models that store
and the state machines around it in Dafny 4.11, and proves what they promise. `dafny verify
dfyconfig.toml` checks all of it.

| file | models |
|---|---|
| `Crypto.dfy`, `Storage.dfy` | key wrapping, object format, the two-phase object store (classes `Store`, `Staged`) |
| `Filename.dfy`, `Authz.dfy` | file name sanitizing, the permission matrix |
| `Vault.dfy` | the specification: a plain map from file id to a file with its own bytes and grants |
| `Roles.dfy` | what that map promises, field by field and role by role |
| `Repository.dfy` | the file repository (class `Repo`), proved to be that plain map |
| `Custody.dfy` | a file from its upload to its downloads |
| `Visibility.dfy` | what one user can learn; who shares what; what names are stored |
| `Protocol.dfy` | uploads and deletes as concurrent transactions, one statement a step, with errors and crashes |
| `SoloRuns.dfy`, `Agreement.dfy` | what one of them does undisturbed: what the class `Repo` does |
| `ReferenceCounts.dfy`, `ObjectsInPlace.dfy`, `RetryLoop.dfy`, `Progress.dfy` | what holds over all their interleavings |
| `Downloads.dfy` | what uploads read back as, and downloads beside uploads and deletes |
| `AuthLog.dfy`, `Throttle.dfy`, `StalePasswords.dfy`, `Auth.dfy` | sessions, throttling and passwords against the full history of statements (class `Service`) |
| `PasswordHash.dfy`, `SignUp.dfy` | the stored hash string, and the service using it |
| `Registration.dfy`, `InviteCode.dfy` | registration and invites as concurrent transactions |
| `Migrations.dfy`, `Migrator.dfy` | loading and applying schema migrations (class `Database`) |
| `AuditPager.dfy` | keyset paging over the audit log |
| `Decimal.dfy`, `Prelude.dfy` | numerals; shared types |

## Hypotheses

- SHA-256 (section 6.2 of FIPS 180-4) and AES-GCM (sections 7.1 and 7.2 of NIST SP 800-38D) are
  function values. `Primitives.Sound` asks only for 32-byte digests and for decryption to undo
  encryption; `Primitives.Authentic`, used where relocated or corrupted ciphertext is spoken of, that
  what was sealed opens under its own key, nonce and associated data only. The refinement in
  `Repository.Run` asks that no two contents in play have one digest; `Repository.Repo.Upload` says
  what an upload does with and without a collision.
- Where an overlapping download is decided exactly, what one upload staged does not open under the
  key of another (`Downloads.KeysApart`); that is so when keys are random and never repeat
  (`Downloads.OwnKeysAreApart`).
- Argon2id is a function value that returns the length it is asked for.
- Random keys, nonces, salts, tokens, fresh ids and times are inputs. Times do not decrease. Tokens
  and salts never repeat, so no token is handed out and no password hash stored twice.
- Transactions are READ COMMITTED. A `SELECT ... FOR UPDATE` that finds no row locks nothing; an
  `INSERT` takes the key's lock and reports a duplicate only once the other holder has committed.
  A transaction ends by its owner or by a crash, and a finished rename survives a crash.
- Deleting a blob row checks the foreign key of 0001_init.sql:55: the nodes that still name the blob
  are locked FOR KEY SHARE, so the check waits for a transaction that has deleted one of them. With
  several such nodes the model waits as long as any is locked; PostgreSQL may come to an unlocked one
  first and fail at once, which is a failing statement of the model. A deadlock is resolved by an
  error of one of its transactions, which is a failing statement too.

## Where the code does less than its comments say

Each point but the last has a member with the exact condition, or with a run that shows it.

- A visible node can be without content, contrary to internal/files/files.go:7-10. A delete unlinks after
  its commit and outside any lock (:392-402), so it can remove an object that an upload of the same
  content has just published. `ObjectsInPlace.LateUnlinkLosesObject` is such a run,
  `ObjectsInPlace.LateUnlinkExactly` says precisely which unlinks are harmful, and
  `ObjectsInPlace.DisciplineSuffices` gives the discipline that excludes them.
- A download reads its key and opens the object later, outside any lock (:316-321). If the content is
  deleted and uploaded again in between, the download reports an integrity failure for a content that
  is stored and readable: `Downloads.DownloadOvertaken`. `Downloads.DownloadExactly` says what every
  overlapping download gives.
- A delete authorizes outside its transaction (:367) and never asks how many rows :378 removed, so
  two overlapping deletes of one node count it twice: `ReferenceCounts.MiscountingRun`, exactly when
  a commit has removed no node (`ReferenceCounts.CommitDeleteCounts`). Counts then err on the low side
  but stay positive and never lose a blob row that is still named: `ReferenceCounts.CountsBounded`.
- From such a miscount two deletes of different nodes can deadlock: one is about to delete the blob
  row and its foreign-key check waits for the other's node, the other waits for the blob.
  `Progress.DeadlockingRun` is such a run, and `Progress.DeadlockExactly` says that uploads and deletes
  have no other deadlock.
- Two attempts at an upload (internal/files/files.go:105-107) are enough exactly as long as no delete
  takes the row away between them: `RetryLoop.SecondAttemptExactly`, with the run
  `RetryLoop.ConflictTakesADelete`.
- The page loop of the audit handler (internal/api/handlers_files.go:264-271) does not ask why the
  rows ended. A connection lost half-way yields a short page that claims to be the last:
  `AuditPager.FetchPage` is right exactly when every row was delivered, `AuditPager.PageCutShort` is
  such a page.
- A database error between the two writes of ChangePassword (internal/auth/service.go:320-329)
  leaves old sessions open under the new password: `Auth.Service.ChangePassword`. So does a login
  that straddles a password change: `StalePasswords.LateLoginIsStale`. Which histories leave a
  session of an old password is `StalePasswords.CurrentExactly`.
- The invite list calls an invite active in the very instant it expires, when a redemption is
  refused: `Registration.ActiveMeansRedeemable`, with the run `Registration.ActiveButRefused`.
- A migration added later with a number below the highest applied one is skipped for good:
  `Migrator.CompleteExactly`, with the two releases of `Migrator.LateMigrationIsSkipped`.
- The byte cut of SanitizeFilename (internal/files/validate.go:43-45) can leave only dots, a trailing
  space or half a character: `Filename.AllDotsExactly`, `Filename.IdempotentExactly` and
  `Filename.TextExactly` say exactly when.
- The schema's comment (internal/database/migrations/0001_init.sql:4-5) places the content nonce in
  the database; the code keeps it in the object file, and so does the model.

## Model

| member | source | states |
|---|---|---|
| Crypto.UnwrapUndoesWrap | internal/storage/crypto.go:29-51 | a wrapped key unwraps to itself under the same master key and content hash |
| Crypto.WrappedKeyIsBound | internal/storage/crypto.go:26-51 | a wrapped key cannot be replayed for another content hash or under another master key |
| Storage.FileLayout | internal/storage/store.go:142-147 | an object file is SVL1, the nonce, the ciphertext |
| Storage.ObjectIsBound | internal/storage/store.go:7-9 | ciphertext moved to another address does not open there, whatever wrapped key goes with it |
| Storage.OtherKeyFails | internal/storage/store.go:230-241 | nor does it open under a wrapped key that holds another key |
| Storage.PathIs | internal/storage/store.go:267-273 | the path of an object, digit by digit, is made from its hash alone |
| Storage.OpenObject | internal/storage/store.go:220-244 | whatever the file and the wrapped key, bytes come out only if their digest is the requested address |
| Storage.EnvelopeOpens | internal/storage/store.go:118-163 | what Stage makes of a content opens, at its address and under its wrapped key, to that content |
| Storage.PathInjective | internal/storage/store.go:270-273 | distinct addresses have distinct paths |
| Storage.OneObjectChanged | internal/storage/store.go:170-191 | writing or removing one object leaves what every other address yields |
| Storage.Store.constructor | internal/storage/store.go:78-78 | a store on whatever objects and temporary files the directory holds |
| Storage.NewStore | internal/storage/store.go:67-79 | refuses a key that has not 32 bytes, fails when a directory cannot be made, and otherwise opens the store on what is there |
| Storage.Store.WriteTemp | internal/storage/store.go:133-155 | the temporary file is magic, nonce, ciphertext, or after any error there is none |
| Storage.Store.Stage | internal/storage/store.go:103-164 | exactly when staging succeeds, and when the limit or the stream stops it; the temporary file exists exactly on success and encloses the content |
| Storage.Store.Open | internal/storage/store.go:207-245 | returns only bytes that hash to the address; a bad address, a missing, an unreadable and a corrupt object are told apart exactly |
| Storage.Store.Remove | internal/storage/store.go:259-265 | removes one object, a missing one included, unless the disk fails, and changes what no other address yields |
| Storage.Staged.Commit | internal/storage/store.go:170-191 | publishes at most once; afterwards the content opens at its address, every other address is as before and the temporary file is gone, also on failure |
| Storage.Staged.Abort | internal/storage/store.go:195-201 | drops the temporary file once; nothing after finalizing |
| Storage.StoreThenOpen | internal/storage/store.go:103-245 | Stage, Commit, Open returns the original bytes for every content within the limit, and leaves no temporary file |
| Filename.CleanIsClean | internal/files/validate.go:24-42 | before the cut: nonempty, not all dots, printable, no separator, no outer space |
| Filename.SanitizedIsAName | internal/files/validate.go:23-47 | every input gives a nonempty name of at most 255 bytes without slash or backslash |
| Filename.AllDotsExactly | internal/files/validate.go:36-45 | the stored name is all dots exactly when the cleaned name is too long and starts with 255 dots |
| Filename.CutShape | internal/files/validate.go:43-45 | the kept bytes are the whole characters that fit and the start of the next |
| Filename.TextExactly | internal/files/validate.go:43-45 | the stored name is text exactly when nothing was cut or a character ends at byte 255 |
| Filename.IdempotentExactly | internal/files/validate.go:23-47 | for every name, a second pass over the stored bytes changes nothing exactly when the name fitted, or the cut fell between characters and left neither a trailing space nor only dots, or fell inside a character that starts like U+FFFD |
| Filename.SanitizeFixes | internal/files/validate.go:23-47 | a short printable name without separators and leading space is kept exactly when it has no trailing space and is not all dots |
| Filename.CleanExactly | internal/files/validate.go:24-42 | a printable last element loses its outer spaces; if nothing or only dots is left, it is called unnamed |
| Filename.OnlyLastElementCounts | internal/files/validate.go:24-27 | whatever path precedes the last separator makes no difference |
| Filename.UnprintableMakesNoDifference | internal/files/validate.go:28-34 | an unprintable character anywhere makes no difference |
| Filename.CutCanLeaveOnlyDots | internal/files/validate.go:43-45 | a name cut to only dots |
| Filename.CutCanLeaveASpace | internal/files/validate.go:43-45 | a name cut to a trailing space, which a second pass removes |
| Filename.CutCanSplitACharacter | internal/files/validate.go:43-45 | a name cut inside a character: the stored bytes are no text |
| Filename.SplitCanBeKept | internal/files/validate.go:29-45 | a name cut inside a character that a second pass leaves as it is |
| Authz.MatrixExactly | internal/authz/authz.go:45-77 | who may do what, for every user, access list and action text: deny by default |
| Authz.OnlyOwnersShareOrDelete | internal/authz/authz.go:61-77 | only the owner may share or delete, whatever grants and account roles say |
| Roles.Appears | internal/files/files.go:75-176 | a file appears exactly by an upload within the limit whose first 512 bytes are accepted: the uploader's, shared with nobody, with the bytes given |
| Roles.Disappears | internal/files/files.go:366-391 | a file disappears exactly by its owner's delete |
| Roles.Stays | internal/files/files.go:342-361 | owner, type, creation time and bytes never change; name and update time do exactly by a rename of the owner or an editor |
| Roles.GrantStays | internal/files/files.go:412-471 | a grant changes exactly by the owner's share or revocation that names its user |
| Roles.UploadAnswer | internal/files/files.go:75-125 | the two refusals in order, otherwise the row of the new file |
| Roles.ListAnswer | internal/files/files.go:179-205 | one row for each file owned or granted, and no other, each with the file's fields, the owner's name and the reader's role |
| Roles.StatAnswer | internal/files/files.go:282-310 | owner and grantees see the file; the owner alone every grant by username |
| Roles.DownloadAnswer | internal/files/files.go:315-339 | the file's own bytes, to owner, editors and viewers alone |
| Roles.RenameAnswer | internal/files/files.go:342-361 | the renamed file, to owner and editors alone |
| Roles.DeleteAnswer | internal/files/files.go:366-409 | the owner's alone; to others the file is not there |
| Roles.ShareAnswer | internal/files/files.go:412-447 | role, right, user and owner are checked in this order; then one grant changes |
| Roles.RevokeAnswer | internal/files/files.go:450-471 | the owner's alone; nobody of that name and nobody with a grant are refused alike |
| Roles.StaysUntilDeleted | internal/files/files.go:75-471 | over every run a file keeps owner and bytes until its owner deletes it |
| Custody.UploadStays | internal/files/files.go:75-471 | what an accepted upload stores is there, unchanged, after any calls but its owner's delete |
| Custody.UploadThenDownload | internal/files/files.go:75-339 | and a download then gives exactly the bytes uploaded, to its owner and grantees and to nobody else |
| Repository.CountsWith | internal/files/files.go:142-159 | a new node keeps every reference count equal to the number of nodes naming the blob |
| Repository.CountsWithout | internal/files/files.go:378-391 | removing a node keeps every remaining count exact |
| Repository.FirstReference | internal/files/files.go:139-149 | a first upload of a content adds exactly one file, with its own bytes |
| Repository.AnotherReference | internal/files/files.go:152-159 | a further upload adds exactly one file and touches no other |
| Repository.StoredBytes | internal/files/files.go:136-159 | the stored blob holds the uploaded bytes exactly when no stored content collides with them |
| Repository.NoCollision | internal/files/files.go:139-144 | a hash without a row is the hash of no stored content |
| Repository.UploadMeans | internal/files/files.go:136-175 | what the upload transaction means for the plain files, on both branches |
| Repository.Dereference | internal/files/files.go:378-402 | rows and object removed by a delete make exactly one file disappear |
| Repository.RenameMeans | internal/files/files.go:349-351 | a rename changes one file's name and update time only |
| Repository.GrantsMean | internal/files/files.go:434-440 | writing grants changes one file's grants only |
| Repository.Repo.constructor | internal/files/files.go:70-72 | a repository on any consistent tables and store stands for their plain files |
| Repository.OrphanIsInvisible | internal/files/files.go:139-149 | an object published by an upload that then fails is no file's |
| Repository.Repo.InsertUpload | internal/files/files.go:127-176 | publish before commit, or count up and discard: exactly one file added, and which objects there are then; an error anywhere leaves rows and files as they were |
| Repository.Repo.PlaceBlob | internal/files/files.go:136-160 | the blob row to write, with its object published first, or one more reference and the staged file dropped |
| Repository.Repo.Record | internal/files/files.go:103-118 | the deferred Abort leaves no temporary file, whatever failed |
| Repository.Repo.InsertRows | internal/files/files.go:162-175 | the rows of an upload, and what they add to the plain files |
| Repository.Repo.Upload | internal/files/files.go:75-125 | the refusals and the stored file by field; answers like the plain map; the new state is the plain map's exactly when refused or collision-free; an error while reading, staging, publishing or recording changes nothing and leaves no temporary file |
| Repository.Repo.ReadGrants | internal/files/files.go:234-248 | reads every grant of the node and no other |
| Repository.Repo.LoadNode | internal/files/files.go:216-249 | found exactly when the file exists, with its metadata and access list |
| Repository.Repo.Authorize | internal/files/files.go:253-278 | lets through exactly what the permission matrix allows; missing and forbidden look alike |
| Repository.Repo.SelectVisible | internal/files/files.go:180-189 | exactly the owned or granted nodes, once each, newest first |
| Repository.Repo.List | internal/files/files.go:179-205 | exactly the files owned or granted, each described by field, newest first without repetition |
| Repository.Repo.SelectGrants | internal/files/files.go:290-308 | every grant of the node by username |
| Repository.Repo.Stat | internal/files/files.go:282-310 | to owner and grantees the file by field, to the owner alone its grants |
| Repository.Repo.Download | internal/files/files.go:315-339 | to owner and grantees the file's own bytes, whose digest is the node's address; to others the file is not there |
| Repository.Repo.Rename | internal/files/files.go:342-361 | by owner or editor the sanitized name and the time of change, and nothing else; by others nothing |
| Repository.Repo.DeleteRows | internal/files/files.go:378-391 | the tables without the node, the count down by one, the blob row gone at zero |
| Repository.Repo.DeleteNode | internal/files/files.go:372-402 | exactly one file gone, also when the unlink fails; the object goes exactly with the last reference |
| Repository.Repo.Delete | internal/files/files.go:366-409 | by the owner exactly one file gone, by others none; the plain map's answer; an error in the transaction undoes it, one at the unlink does not |
| Repository.Repo.FindUser | internal/files/files.go:421-429 | the user of that name, if there is one |
| Repository.Repo.Share | internal/files/files.go:412-447 | the plain map's answer and next state, with the three refusals in order |
| Repository.Repo.Revoke | internal/files/files.go:450-471 | the plain map's answer and next state; no such user and no such grant are refused alike |
| Repository.SelectedIsViewable | internal/files/files.go:188-188 | the WHERE clause of the listing selects what the permission matrix lets the user view |
| Repository.Perform | internal/files/files.go:75-471 | one request of any kind, with any error injected into it, refines the plain map or reports the error and changes nothing, save a deletion whose unlink fails |
| Vault.FreshIsLegal | internal/files/files.go:162-170 | with ids that never come up twice every choice of failing requests leaves a legal run |
| Repository.RunWithFaults | internal/files/files.go:75-471 | every sequential run with an arbitrary error in each upload and delete answers like the plain map or reports the error, and ends in the plain map of the requests that took place |
| Repository.Run | internal/files/files.go:75-471 | every sequential run without errors answers like the plain map and ends in it, without collisions among the contents in play |
| Visibility.SameFromView | internal/authz/authz.go:61-77 | holding a role is being allowed to view; authorization and metadata depend only on what the user sees of the file |
| Visibility.FileFromSeen | internal/files/files.go:282-471 | an authorized request comes out the same on a file and on what the user sees of it |
| Visibility.ReplyFromView | internal/files/files.go:253-471 | every answer is determined by what is visible to the user |
| Visibility.NextFromView | internal/files/files.go:253-471 | what becomes visible is determined by what was |
| Visibility.HiddenFilesDoNotMatter | internal/files/files.go:253-471 | states that look alike to a user answer alike and stay alike |
| Visibility.AskBoth | internal/files/files.go:253-471 | the same for two repositories, whatever blobs hidden nodes share |
| Visibility.UnconcernedStep | internal/files/files.go:75-471 | requests of others that rename or delete nothing a user sees and do not name them leave what they see |
| Visibility.PurgedRun | internal/files/files.go:75-471 | a run by several users looks to each like their own calls alone on what they saw, as long as no call of others concerns them |
| Visibility.HiddenCallsDoNotMatter | internal/files/files.go:75-471 | two such runs with the same calls of one user, from states that look alike to them, answer them alike and end looking alike |
| Visibility.RunSeenBy | internal/files/files.go:75-471 | the same of the repository |
| Visibility.GrantsAreTheOwnersDoing | internal/files/files.go:412-471 | in every run, a file's grants are the fold of its owner's Share and Revoke requests since its upload, and the owner is who uploaded it; nobody else's requests count |
| Visibility.ListIsTheMatrix | internal/files/files.go:179-278 | after every run, Repo.List shows exactly the files Repo.Authorize lets the user view, each as authorize sees it, role included; owners hold no grant |
| Visibility.StoredNamesAreNames | internal/files/files.go:75-76 | with SanitizeFilename, every file of every run has a nonempty name of at most 255 bytes without slash or backslash |
| Protocol.OthersStayOk | internal/files/files.go:127-176 | a statement confined to its locks disturbs no other request |
| Protocol.CommitUploadSane | internal/files/files.go:172-174 | an upload's commit keeps every invariant |
| Protocol.CommitDeleteSane | internal/files/files.go:378-394 | a delete's commit keeps every invariant |
| Protocol.StepSane | internal/files/files.go:93-176 | every statement, error and crash keeps locks exclusive and pending rows one away from the committed ones |
| Protocol.RunSane | internal/files/files.go:366-402 | the same over every interleaving |
| Protocol.ErrorsRollBack | internal/files/files.go:127-402 | an error ends its transaction and changes no row, node or object; a crash leaves what was committed |
| SoloRuns.UploadAlone | internal/files/files.go:93-176 | an undisturbed upload succeeds: one more reference to a known content with object and key kept, or the first one with the new object; one node; no temporary file |
| SoloRuns.DeleteCommits | internal/files/files.go:372-394 | an undisturbed delete commits: node gone, count down, the blob row with the last reference |
| SoloRuns.DeleteAlone | internal/files/files.go:366-409 | and the object goes exactly with the last reference, after the commit |
| Agreement.UploadsAgree | internal/files/files.go:127-176 | an undisturbed upload, statement by statement, leaves the tables and objects of Repo.InsertUpload |
| Agreement.DeletesAgree | internal/files/files.go:372-402 | an undisturbed delete, statement by statement, leaves the tables and objects of Repo.DeleteNode |
| Agreement.UploadBoth | internal/files/files.go:127-176 | Repo.InsertUpload and the statements of an undisturbed upload go from agreeing tables and objects to agreeing ones |
| Agreement.DeleteBoth | internal/files/files.go:372-402 | Repo.DeleteNode and the statements of an undisturbed delete likewise |
| ReferenceCounts.CommitUploadCounts | internal/files/files.go:142-174 | an upload's commit keeps bounded counts bounded and exact counts exact |
| ReferenceCounts.CommitDeleteCounts | internal/files/files.go:378-394 | a delete's commit keeps bounded counts bounded, and exact counts exact just when it removed a node |
| ReferenceCounts.CountsBounded | internal/database/migrations/0001_init.sql:43-60 | in every run, overlapping deletes included: each node has its blob row, and 1 <= ref_count <= number of nodes naming it |
| ReferenceCounts.CountsExact | internal/files/files.go:127-394 | without overlapping deletes of a node: ref_count is the number of nodes naming the blob, and the row exists exactly when that is positive |
| ReferenceCounts.NothingRejected | internal/database/migrations/0001_init.sql:43-60 | in such runs neither the ref_count check nor the foreign key nor a missing row ever stops a delete |
| ReferenceCounts.OverlapMiscounts | internal/files/files.go:366-394 | from any exact idle state with three references, two overlapping deletes of one node leave a count one too low |
| ReferenceCounts.MiscountingRun | internal/files/files.go:366-394 | a run from the empty store to two nodes and a count of one |
| ObjectsInPlace.ObjectsInPlace | internal/files/files.go:127-176 | over every interleaving with errors and crashes, each committed row has an object that opens under its key, if no unlink is late |
| ObjectsInPlace.EveryRowReadable | internal/storage/store.go:170-245 | the same for the real object format: every row's object opens to bytes with its digest |
| ObjectsInPlace.LateUnlinkExactly | internal/files/files.go:396-402 | an unlink is harmless in all that may follow exactly when the blob has not come back |
| ObjectsInPlace.CommitAfterUnlink | internal/files/files.go:392-402 | an upload whose object was unlinked goes on to commit a row without one |
| ObjectsInPlace.DisciplineSuffices | internal/files/files.go:392-402 | if no upload inserts a blob row between a delete's commit and its unlink, no unlink is late |
| ObjectsInPlace.LateUnlinkLosesObject | internal/files/files.go:392-402 | a concrete run that loses an object |
| RetryLoop.FinalizedOnce | internal/files/files.go:93-118 | in every run the staged object is finalized at most once, is live for the second attempt, and no returned upload leaves a temporary file |
| RetryLoop.SecondAttemptFindsTheRow | internal/files/files.go:105-118 | in every run in which no delete takes the row away between the two attempts, the second finds it, no conflict is reported, and an upload without an error of its own succeeds |
| RetryLoop.UploadsLoseNothing | internal/files/files.go:105-118 | among uploads only that is always so |
| RetryLoop.SecondAttemptExactly | internal/files/files.go:105-118 | before a second attempt, no conflict can follow, as long as no delete takes the row away from then on, exactly when the row is there |
| RetryLoop.OkMeansStored | internal/files/files.go:172-175 | an upload that reports success has its node, until somebody asks for its deletion |
| RetryLoop.ConflictWithoutRow | internal/files/files.go:105-118 | whoever holds the blob, an upload whose row is gone at its second attempt can be made to fail by another upload of the content |
| RetryLoop.ConflictTakesADelete | internal/files/files.go:105-118 | a run from the empty store in which both attempts lose the insert and the upload reports the conflict |
| Downloads.NodeReadsBack | internal/files/files.go:315-329 | over every interleaving without a late unlink, each committed node opens to exactly the content its own upload staged |
| Downloads.UploadReadsBack | internal/files/files.go:75-176 | an upload that has reported success, and whose deletion nobody has asked for, reads back as exactly its own content |
| Downloads.ObjectAfter | internal/storage/store.go:170-265 | what is at an address after any run, by the last write to it |
| Downloads.OwnKeysAreApart | internal/storage/crypto.go:17-24 | uploads with keys of their own never open under each other's key |
| Downloads.DownloadExactly | internal/files/files.go:315-333 | a download overlapping anything gives its node's content, unless the object was unlinked (missing) or replaced (not opening) between its query and its read |
| Downloads.DownloadWhileThere | internal/files/files.go:315-333 | as long as the node stays and no unlink is late, the download gives its own content |
| Downloads.DownloadOvertaken | internal/files/files.go:315-333 | a run in which a download reports an integrity failure for a content that is stored and readable |
| Progress.TickAdvances | internal/files/files.go:127-402 | a statement that gets through brings its request nearer to the end and moves no other |
| Progress.TenStatements | internal/files/files.go:105-118 | no request gets more than ten statements through in any run |
| Progress.CheckWaitsExactly | internal/files/files.go:387-391 | the foreign-key check of a delete waits exactly when another delete has crossed it |
| Progress.SomeoneMoves | internal/files/files.go:127-402 | unless two deletes have crossed, some request can run its next statement while one is unfinished |
| Progress.DeadlockExactly | internal/files/files.go:366-394 | there is a deadlock exactly when two deletes have crossed |
| Progress.ExactCountsNeverCross | internal/files/files.go:378-391 | where counts are exact and no two deletes of a node overlap, none cross |
| Progress.NoDeadlock | internal/files/files.go:127-402 | in runs without overlapping deletes of a node there is no deadlock |
| Progress.DeadlockingRun | internal/files/files.go:366-394 | a run from the empty store into a deadlock |
| AuthLog.KeyTextInjective | internal/auth/service.go:150-150 | throttle keys of different users and addresses never coincide |
| AuthLog.TableTellsAlways | internal/auth/service.go:237-288 | a token has a session row exactly while its issue is in force, with that issue's times and the last activity |
| AuthLog.TableAcceptsExactly | internal/auth/service.go:254-275 | the row is accepted exactly when the history holds an issue younger than four hours, activity within thirty minutes and no later logout or revocation |
| AuthLog.AcceptedExactly | internal/auth/service.go:254-275 | the same with the four hours, the thirty minutes, the logout and the revocation written out |
| AuthLog.TimedOutForever | internal/auth/service.go:262-265 | a timed-out token is never accepted again |
| AuthLog.CurrentStep | internal/auth/service.go:237-249 | which statements keep every open session opened against its user's current password |
| StalePasswords.SessionIsCurrentExactly | internal/auth/service.go:164-200 | a session rests on its user's current password exactly when no change of it came between the request's read and its insert, nor after |
| StalePasswords.CurrentExactly | internal/auth/service.go:149-340 | over every interleaving of logins and password changes, all open sessions are of current passwords exactly when no open one was so straddled or outlived a change |
| StalePasswords.LateLoginIsStale | internal/auth/service.go:164-340 | from any history, the statements of a login around those of a password change are lawful and leave a session of the old password |
| Throttle.PrunedAgrees | internal/auth/service.go:203-235 | within the window the pruned table counts what the whole history counts |
| Throttle.VerdictOfHistory | internal/auth/service.go:215-235 | the pruned table gives the throttle verdict of the whole history |
| Throttle.ThrottledExactly | internal/auth/service.go:215-235 | throttled exactly when the history shows ten failures under the name since its last success, or thirty from the address, within fifteen minutes |
| Throttle.WindowHoldsLimit | internal/auth/service.go:47-50 | any closed 15-minute window holds at most 10 failures of a user since the last success and 30 of an address |
| Throttle.LockoutEnds | internal/auth/service.go:215-235 | in every run that goes on from a lockout: until its oldest counted failure leaves the window nothing is recorded or cleared under the key and every check refuses it; the first check after that does not |
| Auth.ChangeThenRevoke | internal/auth/service.go:320-329 | a new password followed by the revocation leaves every open session current |
| Auth.ChangeAlone | internal/auth/service.go:320-324 | a new password alone does so exactly when the user has no session |
| Auth.UsernamesExactly | internal/auth/service.go:44-44 | the accepted usernames by length and characters |
| Auth.Service.constructor | internal/auth/service.go:75-79 | a service on whatever tables there are, with their history |
| Auth.Service.AddAccount | internal/auth/service.go:84-120 | the refusals of username, password and duplicate exactly, in order; otherwise one account, one recorded password |
| Auth.Service.IsThrottled | internal/auth/service.go:215-235 | prunes, and answers as the whole history does |
| Auth.Service.LoginFailed | internal/auth/service.go:203-213 | records one failure under both keys |
| Auth.Service.CreateSession | internal/auth/service.go:237-249 | one session against the stored hash, expiring four hours later |
| Auth.Service.Login | internal/auth/service.go:149-201 | refused as throttled exactly when the history says so; else let in exactly with a password that verifies for the account of that name, with one fresh session; wrong passwords and unknown names are refused alike, with one failure recorded and no session |
| Auth.Service.ValidateSession | internal/auth/service.go:254-275 | accepts exactly what the history promises, returns the user it was issued to with name and role, and records activity only then |
| Auth.Service.Logout | internal/auth/service.go:278-288 | ends the presented token |
| Auth.Service.ChangePassword | internal/auth/service.go:293-340 | goes through exactly with the right current password and a new one of 8 to 128 bytes; then what each fault leaves done: the hash, the end of the user's sessions, the fresh one; otherwise nothing changes |
| Auth.Serve | internal/auth/service.go:84-340 | in every sequential run the tables stand for the history and every session was opened against its user's current password |
| SignUp.LogIn | internal/auth/service.go:149-201 | the right password logs its user in unless throttled |
| SignUp.WrongPassword | internal/auth/service.go:177-213 | a password that derives another key is refused, one failure is counted under name and address, and no session is opened |
| SignUp.SignUpThenLogIn | internal/auth/service.go:84-201 | a new account can log in with its password at once |
| Registration.CommitTables | internal/auth/service.go:110-130 | what a registration commits keeps the tables consistent, because the decision cannot have aged |
| Registration.StepSane | internal/auth/registration.go:222-300 | every statement, error and crash keeps the invariants |
| Registration.RunSane | internal/auth/registration.go:222-300 | the same over every interleaving |
| Registration.InvitesAdmitOneAccount | internal/auth/registration.go:252-300 | each invite admits at most one account, is not both used and revoked, and was used before it expired; the count stays within a positive cap; one bootstrap account at most |
| Registration.FailedRegistrationConsumesNothing | internal/auth/service.go:97-130 | a refused or failed registration leaves no account and spends no invite; a reported one has its account |
| Registration.RedeemedByItsCode | internal/auth/registration.go:281-297 | in every run an account admitted by an invite presented that invite's code, and has the name it asked for |
| Registration.ModeLimitsAccounts | internal/auth/registration.go:260-299 | closed: one account; by invite: one plus the used invites |
| Registration.RevocationHolds | internal/auth/registration.go:222-240 | a reported revocation holds: revoked and never used |
| Registration.UsedForever | internal/auth/service.go:121-127 | a used invite never changes again |
| Registration.RegistrationAlone | internal/auth/service.go:84-143 | an undisturbed registration to the last detail: who gets in by count, cap, mode and code, by which admission and which invite, each refusal, and what is committed |
| Registration.RevocationAlone | internal/auth/registration.go:222-240 | an undisturbed revocation succeeds exactly for an unused, unrevoked invite, changes that invite alone, and its code works for nobody; otherwise it is not found and nothing changes |
| Registration.RevokedForever | internal/auth/registration.go:226-228 | a revoked invite never changes again |
| Registration.IssuedExactly | internal/auth/registration.go:154-187 | an invite lives exactly as long as asked, from one minute to thirty days, or seven days; other lifetimes are refused |
| Registration.ErrorsCommitNothing | internal/auth/service.go:97-130 | an error ends its request and commits nothing; a crash leaves what was committed |
| Registration.StatusTellsDecision | internal/auth/registration.go:105-123 | the sign-up status says exactly what a registration would meet |
| Registration.StatusExactly | internal/auth/registration.go:105-123 | what the form shows for every policy and number of accounts |
| Registration.ActiveMeansRedeemable | internal/auth/registration.go:139-150 | listed as active exactly when redeemable, save the instant of expiry |
| Registration.ActiveButRefused | internal/auth/registration.go:139-150 | a run to that instant |
| InviteCode.RetypedCodeIsRecovered | internal/auth/registration.go:244-247 | a code re-typed in any case with spaces and dashes normalizes to itself |
| InviteCode.NothingElseIsAccepted | internal/auth/registration.go:244-247 | among printable ASCII texts nothing else normalizes to it |
| Migrations.NamedByNumber | internal/database/database.go:106-113 | a file named by a number with any zero padding announces that number |
| Migrations.VersionExactly | internal/database/database.go:106-113 | a name announces a version exactly when a positive number stands before its first underscore |
| Migrations.Scan | internal/database/database.go:102-124 | every file read once in order, or an error that names its cause |
| Migrations.LoadMigrations | internal/database/database.go:96-128 | loads exactly when all names are well formed and versions distinct; then every file once, ascending |
| Migrator.PrefixIsSkipped | internal/database/database.go:63-78 | on a prefix of the list exactly that prefix is skipped |
| Migrator.Database.ApplyOne | internal/database/database.go:130-145 | script and version both or neither, at whatever statement it fails |
| Migrator.Database.Migrate | internal/database/database.go:43-85 | applies exactly the pending migrations up to the first fault, and counts them |
| Migrator.MigrateUntilDone | internal/database/database.go:43-85 | any failures and crashes, then success, give the schema of one uninterrupted run |
| Migrator.CompleteExactly | internal/database/database.go:63-83 | on any database a successful run is complete exactly when nothing was missing below the highest version |
| Migrator.LateMigrationIsSkipped | internal/database/database.go:63-83 | a migration added between two applied ones is skipped, and the run reports success |
| Migrator.StepAtPrefix | internal/database/database.go:50-84 | any statement of any instance keeps the database at a prefix that never shrinks |
| Migrator.AlwaysAPrefix | internal/database/database.go:50-84 | several instances under the lock: always a prefix, each version once, complete once anyone reports success |
| Migrator.InstanceAlone | internal/database/database.go:43-85 | an undisturbed instance applies everything that is left and reports success |
| Migrator.ErrorsApplyNothing | internal/database/database.go:43-85 | an error applies nothing and ends the instance; one that dies is gone with its lock |
| PasswordHash.Alphabet | internal/auth/password.go:35-35 | the standard base64 alphabet |
| PasswordHash.GroupIsNumber | internal/auth/password.go:35-35 | four base64 digits are the number their three bytes are |
| PasswordHash.BreaksAreSkipped | internal/auth/password.go:85-91 | line breaks in the base64 of a stored hash are skipped, any other foreign character is refused |
| PasswordHash.LastGroup | internal/auth/password.go:85-91 | a last group of one base64 digit is refused; of two or three, the spare bits are ignored |
| PasswordHash.Base64ReadsBack | internal/auth/password.go:35-37 | unpadded base64 decodes to what was encoded and contains no dollar sign |
| PasswordHash.ParametersScan | internal/auth/password.go:80-83 | the parameter list scans back to the printed numbers |
| PasswordHash.FormatSplits | internal/auth/password.go:71-74 | the printed hash splits into its six parts |
| PasswordHash.FormatIs | internal/auth/password.go:35-37 | the stored text from end to end |
| PasswordHash.OthersAreErrors | internal/auth/password.go:70-94 | any text that is no Argon2id hash is an error, never an answer |
| PasswordHash.VersionMustMatch | internal/auth/password.go:76-79 | a hash of another version is an error |
| PasswordHash.ParseUndoesFormat | internal/auth/password.go:70-94 | the parser recovers what was printed exactly for a nonempty key and in-range parameters |
| PasswordHash.ParsedIsInRange | internal/auth/password.go:70-94 | whatever is parsed is in range |
| PasswordHash.ReprintingIsHarmless | internal/auth/password.go:70-94 | reading and printing again changes nothing a reader sees |
| PasswordHash.VerifiesExactly | internal/auth/password.go:43-50 | a hash made with any parameters verifies exactly the passwords that derive its key |
| PasswordHash.OwnPasswordVerifies | internal/auth/password.go:28-50 | a password verifies against its own hash |
| PasswordHash.StandardVerifiesExactly | internal/auth/password.go:28-50 | a stored hash lets in exactly the passwords that derive its key with 64 MiB, 3 iterations, 4 lanes and 32 bytes |
| Decimal.AtoiExactly | internal/database/database.go:110-113 | exactly which texts are numbers, and which |
| Decimal.AtoiOfPrint | internal/api/handlers_files.go:231-239 | a printed cursor is read back |
| AuditPager.LimitExactly | internal/api/handlers_files.go:222-230 | the limit is fifty, or the number from 1 to 1000 that is given; anything else is refused |
| AuditPager.BeforeExactly | internal/api/handlers_files.go:231-239 | no cursor, or a positive 64-bit number; anything else is refused |
| AuditPager.Select | internal/api/handlers_files.go:241-246 | the largest matching ids, largest first |
| AuditPager.FetchPage | internal/api/handlers_files.go:241-278 | the page shows the newest events below the cursor in order, and is right exactly when every row was delivered; how long it is and when it claims to be the last, for any number delivered |
| AuditPager.PageCutShort | internal/api/handlers_files.go:264-278 | a page of one event out of two that claims to be the last |
| AuditPager.HandleAdminAudit | internal/api/handlers_files.go:221-279 | the two refusals exactly; otherwise the page for the parsed limit and cursor |
| AuditPager.PageStaysExactly | internal/api/handlers_files.go:217-220 | a page stays as it is exactly when no newly visible event lands in it |
| AuditPager.Walk | internal/api/handlers_files.go:217-279 | following nextBefore to the end gives every event of the first fetch once, newest first, for every limit and any appends; and nothing else if ids become visible in order |

## Left out

- HTTP, cookies, CSRF, JSON, middleware, configuration and the React interface.
- The audit writer: recording an event changes no state the model speaks about.
- Secrecy, timing equalization (`EqualizeTiming`) and constant-time comparison.
- Media-type sniffing: an arbitrary function that accepts or refuses.
- `Store.Exists`, `ListInvites`, `ParseRegistrationMode`, `SetRegistrationPolicy`, the administrator check of the invite operations, and the trimming and length check of invite notes: single expressions or queries.
- Operators' manual SQL: promotion, account removal with its cascades.
- A commit whose outcome its client cannot learn: an error at a commit rolls back.
- Failed directory syncs and a size limit equal to the largest 64-bit integer.
- Identifiers, tokens and invite codes are integers that stand for UUIDs and for the hashes of random strings.
- Repository.Run: requests do not overlap; Protocol has overlapping ones, with the retry loop. Repository.RunWithFaults injects errors into Upload and Delete; a failing SELECT or single-statement write elsewhere changes nothing. The users do not change during a run.
- Repository.Repo.List: the order of nodes created at the same time is the database's.
- Repository.Repo.SelectGrants: the order by username is not modelled, the result being a map.
- Repository.Repo.Stat: the grant list comes as a map from username to role, so its order is not modelled.
- Downloads: the query that reads the node and the read of the object are one step each; authorization is the sequential one of Repository.Repo.Authorize.
- The grants table is grouped by node; `granted_by` and `created_at` of a grant are not modelled.
- Auth.Service.Login: database errors inside a login are not injected; each of its statements is an event of the history, for which the session and throttle theorems hold in any order.
- Auth.Service.AddAccount: the admission between the checks and the insert is decided in Registration.
- Auth.Serve: requests run one after the other; `StalePasswords.CurrentExactly` is about overlapping ones.
- Registration: the transaction's now() is its start, so an invite may be redeemed by a registration that waited for the lock past its expiry; the model says the same. The policy does not change during a run.
- Registration, Protocol and the competing migration instances are state machines over values, because their subject is the interleaving; the classes model the same code run alone.
- Migrator: a schema is the list of scripts that made it; a version beyond 32 bits, which the column would refuse, is not modelled.
- Filename: `unicode.IsPrint` is any table that prints ASCII and U+FFFD; a byte that is not UTF-8 counts as U+FFFD.
- PasswordHash: scanning follows fmt.Sscanf for these formats, on texts whose characters are code points.
