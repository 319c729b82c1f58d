# Peerstore in Dafny

Peerstore is a distributed encrypted file store. Nodes form a Chord-like ring with 160 positions, files
live on nodes with an owner list in front of the payload, clients encrypt files under a session key that is
wrapped for every owner, and a transaction log stamped by Lamport clocks drives a sync loop. This project
models these parts and proves what they keep, and where the code falls short of its aim, exactly when it
meets it.

| file | content |
|---|---|
| `Outcomes.dfy`, `Bytes.dfy` | error values, bytes, 20-byte identifiers |
| `Models.dfy`, `Ring.dfy` | ring positions, the finger table, clockwise distance |
| `ChordPeer.dfy`, `ChordRing.dfy` | lookups on arbitrary tables and on correct rings, SetPredecessor histories |
| `ChordProtocol.dfy`, `ChordReturns.dfy` | Join and Stabilize as atomic steps, invariants of every run, why Stabilize always comes back |
| `ChordStability.dfy`, `ChordScenarios.dfy` | fixed points, progress, two nodes; runs that show the failures are reached |
| `ChordNode.dfy` | the node objects and the network, each method equal to its value model |
| `Aes.dfy` | PKCS #7 padding and CBC in place |
| `FileFormat.dfy`, `FileServer.dfy`, `FileHistory.dfy` | the owner header, the handlers, the store as histories of accepted posts |
| `Client.dfy`, `Vault.dfy` | backup, share and getfile, and what they mean end to end |
| `Lamport.dfy`, `Sync.dfy`, `SyncRuns.dfy` | clocks and stamps of arbitrary runs, the log and the sync round, what rounds see of a run of updates |

Objects whose methods update fields are classes (`FingerTable`, `LocalNode`, `Network`, `Reader`, `Store`,
`Server`, `Clock`, `SharedLog`); their methods are proved equal to functions on values, and the results about
runs are lemmas about those functions.

## What is assumed

- A remote call is a call on the target node; dialling an address that no node answers fails. Each Join,
  Stabilize, handler call and client flow is one atomic step.
- Every node's identifier is the hash of its address, so a reference that resolves carries the identifier of
  the node it reaches. Members of one network have distinct positions, which is stronger than distinct hashes.
- RSA, SHA-1 and the AES block function are parameters. The laws used: a block function is a permutation, a
  wrapped 32-byte key has 256 bytes and opens with the matching private key, and the identifiers of the finitely
  many users do not collide. `Client.LawfulExists` gives parameters that meet these laws.
  Session keys, paddings and initialization vectors are arguments of the flows that draw them.
- A client reads and writes at one storage node. Resource keys and public-key keys do not meet.

## Where the code does less than it sets out to do

- A settled ring is not generally left alone by Stabilize: `SettledIsFixedIff` gives the exact condition per
  node, and `SettledIsFixedForAllIff` shows that exactly the rings of at most three nodes stay put. The design
  document expects rings to settle at any size; the code is followed. `SettledFourIsReachedAndLost` is a run that
  reaches a settled ring of four, which the next step breaks.
- The half of Stabilize for a predecessor beyond position 0 is inverted: `ReconcileProgressIff`. In runs this shows
  as a step that does nothing although a nearer node is known: `StabilizeTakesNearer`, `WrapStopsProgress`.
- The design document and the comments call the result of Successor the node responsible for a key. It is the
  node before it, and `LookupIsResponsibleIff` shows that the aim is met exactly on a ring of one.
- A lookup that meets a dead address after its first hop does not fail but answers with the empty node, which a joining
  node then takes as its successor: `LookupHasRoute`, `JoinWrites`. In runs without departures this does not happen.
- The 256th owner turns the count byte to zero: `FullHouseLosesOwners`, `ShareKeepsAccessIff`.
- A recorded change that is not stamped later than the earlier entries of its resource is never picked up:
  `ChangeIsSeenIff`. Accepted updates always are (`AcceptedUpdateIsFetched`), deletions are not
  (`DeletionIsMissed`). The client records an update even when its post was refused: `UpdateStampIs`.
- Data posted without a secret, as the client posts its transaction log, loses its first 256 bytes when it is read
  back, or cannot be read at all: `CreatorReadsBackIff`, `SecretlessIsCutShort`. Reading a short log then
  gives an empty log without an error (cmd/peerstore/client/main.go:996-999).
- DeleteFileHandler brings the node down for a missing key: `FileServer.Delete`.

## Model

| member | source | states |
|---|---|---|
| Models.CompareIsZeroForSameID | models/models.go:110-120 | Comparing two nodes as big-endian numbers gives zero exactly for equal identifiers, and is antisymmetric |
| Models.PositionFromBytes | models/models.go:154-161 | A position is the last byte plus 96 times the sum of the others, modulo 160: all 20 bytes count |
| Models.FingerTable.constructor | models/models.go:185-190 | A new table has 160 empty slots |
| Models.FingerTable.GetIth | models/models.go:192-203 | Slots 1 to 160 can be read, each gives its own record, and any other index is an error |
| Models.FingerTable.SetIth | models/models.go:205-217 | Slots 1 to 160 can be written, any other index is an error and changes nothing, and no other slot changes |
| Ring.Between | chord/local.go:341-352 | The hand-written wrap-around test holds exactly when the finger is strictly nearer clockwise than the key, a whole turn counting as 160 |
| Ring.Nearer | chord/local.go:414-431 | The hand-written update test holds exactly when the candidate is strictly nearer clockwise to the node than its predecessor |
| ChordPeer.Scan | chord/local.go:329-353 | The descending scan finds the highest slot whose node lies strictly before the key, and the node itself exactly when there is none |
| ChordPeer.ClosestPreceding | chord/local.go:324-356 | The answer has the node's own identifier only if it is the node itself; otherwise it is a finger strictly between node and key |
| ChordPeer.RouteGivesAnswer | chord/local.go:360-389 | In any network, a lookup answers with the last node of its route, after one hop for each step of the route |
| ChordPeer.LookupHasRoute | chord/local.go:372-388 | In any network a lookup has a route or is cut off at an address nobody answers; that is an error if the first node names it, and the empty node without an error if a later one does |
| ChordPeer.LookupTerminates | chord/local.go:360-389 | For arbitrary finger contents, even if tables change between hops, remote hops are bounded by the distance gained, so by 159 |
| ChordPeer.RefusedIffUnchanged | chord/local.go:408-431 | SetPredecessor reports an error exactly when it leaves the node unchanged |
| ChordPeer.NotifyKeepsFirstNearest | chord/local.go:400-434 | Any non-empty history of SetPredecessor calls leaves the first candidate of least clockwise distance, after at most 160 assignments |
| ChordPeer.NotifyIgnoresOrder | chord/local.go:400-434 | Any reordering of the calls leaves a predecessor at the same position |
| ChordRing.OwnerIsUnique | models/models.go:144-147 | On a correct ring at most one member n has a given position in (n, successor of n] |
| ChordRing.LookupFindsOwner | chord/local.go:360-389 | With any member fingers on a correct ring, every lookup from every member succeeds at the n with the key in (n, successor of n], also for its own position and on one node |
| ChordRing.LookupIgnoresStart | chord/local.go:360-389 | All members give the same answer |
| ChordRing.ResponsibleIsNext | chord/local.go:358-389 | The first member at or after a key is slot 1 of the node that a lookup returns |
| ChordRing.LookupIsResponsibleIff | chord/local.go:358-389 | The lookup itself returns that member exactly on a ring of one |
| ChordRing.PlainWalkVisitsAllAhead | chord/local.go:360-389 | The walk along slot 1 takes one hop per member strictly before the key and stops at the owner |
| ChordRing.FingersSkipAhead | chord/local.go:329-382 | A lookup with fingers takes at most one hop per member strictly before the key |
| ChordRing.FingersRefinePlainWalk | chord/local.go:329-388 | Fingers never change the answer of the plain walk and never cost a hop |
| ChordRing.IntervalsTileTheRing | models/models.go:144-169 | On a correct ring every position lies in the slot-1 interval of exactly one member |
| ChordRing.LengthsSumToRing | models/models.go:144-169 | The lengths of all slot-1 intervals sum to 160, the lone node's equal-ended interval being the whole ring |
| ChordProtocol.FollowIsStable | chord/local.go:99-125 | However long the predecessor walk is allowed to run, it ends at the same node once it ends |
| ChordProtocol.WalkEndsIff | chord/local.go:99-125 | The unbounded predecessor walk ends exactly if it ends within as many steps as there are members |
| ChordProtocol.CloseRingClosesLoop | chord/local.go:91-126 | The node walks past every node that has a predecessor, takes the first one that has none and becomes its predecessor; nothing else changes, and the references now lead back to the node: the loop is closed |
| ChordProtocol.LookupNamesMember | chord/local.go:360-389 | In a sound network every lookup names a member that has a predecessor unless it is the node asked |
| ChordProtocol.JoinPreserves | chord/local.go:30-57 | A join keeps the network sound and every old predecessor at least as near; it reports success exactly when the peer answers |
| ChordProtocol.JoinWrites | chord/local.go:30-57 | In any network, with dead addresses in it, a join adds the lone node and writes at most its slot 1 and one predecessor; its successor is the empty node exactly if the lookup was cut off |
| ChordProtocol.StabilizeWrites | chord/local.go:77-268 | In any network, Stabilize writes at most slot 1 of the node and one predecessor, and exactly when it reports an error |
| ChordProtocol.StabilizePreserves | chord/local.go:77-268 | In every sound network, Stabilize of any member keeps it sound, reports success, never takes the empty node as successor and never clears or worsens a predecessor |
| ChordProtocol.RunKeepsInvariant | chord/local.go:77-320 | In every state of every run from an empty network, fingers and predecessors name members or nothing, only slot 1 is filled, nobody precedes itself, and nodes named by another's slot 1 have predecessors at least as near |
| ChordProtocol.RunGrows | chord/local.go:400-434 | Between any two states of a run, members stay and a set predecessor is only replaced by a nearer one |
| ChordProtocol.RunNeverFails | chord/local.go:77-145 | In every state of every run, Stabilize of every member reports success and every lookup from every member finds a member |
| ChordReturns.OwnLookup | chord/local.go:77-91 | A node's lookup of its own identifier ends at itself exactly if its slot 1 names itself |
| ChordReturns.LookupApproaches | chord/local.go:360-389 | A lookup that leaves a node stops strictly before the key, at a node that knows a predecessor at least as near as the one asked |
| ChordReturns.LookupDescends | chord/local.go:360-389 | It stays among the nodes whose slot 1 references lead to the same root, and covers exactly the difference of their ways to it |
| ChordReturns.RootWalkEnds | chord/local.go:91-126 | The predecessor walk that a node may start ends, in every network with levels |
| ChordReturns.ContactKnowsNearer | chord/local.go:127-158 | The contacted node's predecessor is the caller or lies strictly between caller and contacted node |
| ChordReturns.ReconcileTakesNearer | chord/local.go:147-260 | Of all branches only two take effect: nothing changes, or the caller takes that nearer node |
| ChordReturns.JoinKeepsLevels | chord/local.go:277-320 | A join keeps a measure that grows along predecessor references below every root |
| ChordReturns.StabilizeKeepsLevels | chord/local.go:77-268 | So does every Stabilize, whichever branch it takes |
| ChordReturns.RunAlwaysReturns | chord/local.go:91-126 | In every state of every run, Stabilize of every member returns: its walk along predecessors ends |
| ChordStability.ContactIsPredecessor | chord/local.go:77-83 | On a settled ring the node that Stabilize calls its successor is the ring predecessor |
| ChordStability.SettledIsFixedIff | chord/local.go:77-268 | A settled ring is unchanged by a node's Stabilize exactly if it has at most three nodes or the wrap falls just before that node's predecessor |
| ChordStability.SettledIsFixedForAllIff | chord/local.go:77-268 | A settled ring is unchanged by every node's Stabilize exactly if it has at most three nodes, at any positions |
| ChordStability.StabilizeTakesNearer | chord/local.go:77-268 | In every sound network a step either finds itself known, or slot 1 becomes a node strictly nearer than the contacted one (non-wrapping half), or nothing changes (wrapping half) |
| ChordStability.ProgressIff | chord/local.go:147-260 | Slot 1 names the nearer node after the step exactly in the non-wrapping half or if it did before |
| ChordStability.TakesPredecessorIff | chord/local.go:158-260 | The branch conditions on any positions: the nearer of the two is taken in the non-wrapping half, the farther one in the other |
| ChordStability.ReconcileProgressIff | chord/local.go:147-260 | The branches on any positions, reachable or not: progress is made exactly in the non-wrapping half or when already done |
| ChordStability.JoinGivesJoined | chord/local.go:277-320 | A join through a lone node gives it the new node as predecessor and the new node it as successor |
| ChordStability.StabilizeOnJoined | chord/local.go:91-126 | After that the second node's Stabilize changes nothing and the first node's closes the ring through the predecessor walk |
| ChordStability.TwoNodesSettle | chord/local.go:77-268 | For every schedule of two nodes, the ring is closed from the first node's first turn on and never changes again |
| ChordScenarios.StepIsReached | chord/local.go:77-320 | What one more join or Stabilize leads to from a state of a run is a state of a run |
| ChordScenarios.WrapStopsProgress | chord/local.go:206-260 | After three joins at any ascending positions, a node hears of a nearer one and its Stabilize changes nothing |
| ChordScenarios.SettledFourIsReachedAndLost | chord/local.go:77-320 | At any four ascending positions, seven steps reach a settled ring of four, and the next Stabilize of a member leaves no correct ring |
| ChordScenarios.SomeProgressIsStopped | chord/local.go:206-260 | A concrete network of that first kind, with nodes at chosen positions |
| ChordScenarios.SomeSettledRingIsLost | chord/local.go:77-268 | A concrete network of the second kind |
| ChordNode.LocalNode.constructor | chord/local.go:30-48 | A new node is alone: slot 1 names itself over the whole ring, no predecessor |
| ChordNode.LocalNode.SetSuccessor | chord/local.go:272-274 | Only slot 1 changes, to the node with the interval from self to it |
| ChordNode.LocalNode.ClosestPrecedingNode | chord/local.go:324-356 | The loop stays in the table and computes ClosestPreceding |
| ChordNode.LocalNode.SetPredecessor | chord/local.go:400-434 | The cell changes as WithPredecessor says and the error is reported exactly when the candidate is not accepted |
| ChordNode.Network.FindSuccessor | chord/local.go:360-389 | The recursion across node objects terminates and computes Successor |
| ChordNode.Network.RemoteSuccessor | chord/handlers.go:15-56 | The handler answers with the empty node when the lookup fails |
| ChordNode.Network.RemoteSetPredecessor | chord/remote.go:136-173 | A refusal by the target is not reported, only a failed dial is |
| ChordNode.Network.NewLocalNode | chord/local.go:30-57 | Creating a node at a free position does exactly Join and keeps the network steady; an error is returned exactly when the peer is not there, and the node stays alone |
| ChordNode.Network.Greet | chord/local.go:303-317 | The node takes its successor and presents itself to it, and nothing else changes |
| ChordNode.Network.StabilizeNode | chord/local.go:77-268 | In every network built by these methods, one call on any member comes back, reports success, does exactly Stabilize and keeps the network steady |
| ChordNode.Network.CloseRingAt | chord/local.go:91-126 | For a node whose slot 1 names itself the predecessor walk ends and closes the ring exactly as CloseRing says |
| ChordNode.Network.ReconcileWith | chord/local.go:135-260 | The nested branches do exactly Reconcile |
| Aes.XorBlockTwice | crypto/aes.go:55-58 | Exclusive or with the same block twice is the identity |
| Aes.XorBlockBits | crypto/aes.go:55-58 | Each bit of the exclusive or is set exactly if the two blocks differ in it |
| Aes.CbcRoundTrip | crypto/aes.go:55-111 | Chained decryption undoes chained encryption over any invertible block function |
| Aes.CbcOnto | crypto/aes.go:55-111 | Any whole blocks are the encryption of what they decrypt to |
| Aes.CbcBlock | crypto/aes.go:55-58 | Each ciphertext block is the encryption of its text block mixed with the ciphertext block before it, the first with the vector |
| Aes.EncryptBlocks | crypto/aes.go:55-58 | Overwriting the buffer block by block from the front gives the CBC ciphertext of its old contents |
| Aes.DecryptBlocks | crypto/aes.go:109-111 | Overwriting the buffer from the back gives the CBC plaintext of its old contents |
| Aes.UnpadPad | crypto/aes.go:13-40 | Unpadding undoes padding for every text |
| Aes.PadBytes | crypto/aes.go:13-19 | The text followed by k bytes that each say k, with k from 1 to 16 |
| Aes.PadUnpadIff | crypto/aes.go:13-40 | Padding undoes a successful unpadding exactly on whole blocks |
| Aes.PadPKCS7 | crypto/aes.go:13-19 | The loop appends the PKCS #7 padding |
| Aes.UnpadPKCS7 | crypto/aes.go:22-40 | The descending loop accepts exactly well-formed padding and strips it |
| Aes.EncryptWithIV | crypto/aes.go:44-61 | Fails exactly for a bad key size, otherwise returns the sealed text and the vector |
| Aes.Encrypt | crypto/aes.go:65-89 | The same with a vector of its own |
| Aes.Decrypt | crypto/aes.go:93-114 | The error cases and the result, and what is left in the caller's buffer |
| Aes.OpenSealed | crypto/aes.go:44-114 | Decrypt after encrypt returns the plaintext for every length, key and vector |
| Aes.OpenedIff | crypto/aes.go:44-114 | Decrypt returns a plaintext for exactly the ciphertext that Encrypt makes of it under the same key and vector |
| Aes.OpenedNilIff | crypto/aes.go:22-114 | It returns the nil slice without an error for exactly the whole blocks that seal no text |
| FileFormat.ParseEncoded | file/handlers.go:95-151 | Owner records with full secrets, followed by any payload, are read back one by one |
| FileFormat.ParseBuildIff | file/handlers.go:249-262 | Parsing a built file gives its owners and payload exactly if there are at most 255 owners and all secrets have 256 bytes; then the length is 1 + 276 per owner + payload |
| FileFormat.BuildLayout | file/handlers.go:249-262 | Byte 0 counts the owners, owner i has its identifier and secret at byte 1 + 276 i, and the payload comes last |
| FileFormat.ReadableIff | file/handlers.go:95-151 | A file can be read exactly if it has as many whole records as its first byte says |
| FileFormat.BuildParsed | file/handlers.go:296-373 | Rebuilding any file that parses reproduces its bytes |
| FileFormat.FullHouseLosesOwners | file/handlers.go:364 | With 256 owners the file reads back as owned by nobody |
| FileFormat.LastSecretIsNewest | file/handlers.go:342-352 | A secret is found exactly for owners, and it is the one of the last record under the identifier |
| FileServer.ReadOwners | file/handlers.go:95-151 | The cursor loop with its byte counter never wraps and reads exactly what Parse says, failing exactly when it fails |
| FileServer.FindSecret | file/handlers.go:153-163 | The search loop returns the last match |
| FileServer.ReadAll | file/handlers.go:175-190 | The 256-byte chunk loop terminates and returns exactly the rest of the file |
| FileServer.AppendOwners | file/handlers.go:365-373 | The header loop appends the encoded owners |
| FileServer.Store.Open | file/storage.go:15-32 | A reader on exactly the stored bytes, or nothing for a missing key |
| FileServer.Store.Write | file/storage.go:36-62 | Exactly one key changes, to exactly the data |
| FileServer.Store.Remove | file/storage.go:66-73 | Exactly one key goes, or the key was missing |
| FileServer.CreatorReadsBackIff | file/handlers.go:249-268 | The creator of a file reads back what was posted exactly if the secret has 256 bytes |
| FileServer.SecretlessIsCutShort | cmd/peerstore/client/main.go:1075-1087 | Posted without a secret, data of less than 256 bytes cannot be read, and longer data comes back without its first 256 bytes |
| FileServer.AnswersCarryTheClock | file/handlers.go:238-243 | Accepted posts and deletions are answered with the node's new clock, later than its old one and the request's; refusals with zero; the clock never goes back |
| FileServer.Server.GetFileHandler | file/handlers.go:72-193 | The handler answers as Get and changes nothing |
| FileServer.Server.PostFileHandler | file/handlers.go:225-391 | The handler changes store and clock and answers as Post |
| FileServer.Server.DeleteFileHandler | file/handlers.go:394-506 | The handler changes store and clock and answers as Delete, panicking for a missing key |
| FileHistory.ServeRefines | file/handlers.go:72-506 | One request on the bytes does what it means on the histories of accepted posts; the reply is right in every field, with the newest secret and the last data for owners and no secret, data or clock in a refusal, and the clock moves exactly as it should; a refusal changes no file |
| FileHistory.UnreadableIsRefused | file/handlers.go:95-151 | A file that is cut short in its owner list refuses every request without content and is never changed |
| FileHistory.RunRefines | file/handlers.go:72-506 | Throughout every run of requests each file is the built form of the creator's pair, all shared pairs in order, and the last data |
| FileHistory.RunAnswers | file/handlers.go:72-506 | In every run each reply, field by field, is the one its history demands: owners get the last data with their newest secret, others an error without content and change no file, and a deletion of a missing key brings the node down |
| Client.Backup | cmd/peerstore/client/main.go:369-466 | The flow posts exactly BackupRequest, or nothing |
| Client.Share | cmd/peerstore/client/main.go:200-285 | The flow posts exactly ShareRequest, or nothing |
| Client.GetFile | cmd/peerstore/client/main.go:472-529 | The flow changes nothing on the node and writes exactly Fetched |
| Vault.BackupSends | cmd/peerstore/client/main.go:405-460 | A first backup sends the drawn key wrapped and the text sealed under it and the drawn vector; a holder sends the stored wrapped key and the new text sealed under the stored key and vector |
| Vault.ShareSends | cmd/peerstore/client/main.go:245-282 | Exactly holders send a share: the payload as it is, with the stored key wrapped for the other user |
| Vault.OutsiderChangesNothing | file/handlers.go:342-359 | A request by somebody who holds no key changes no file, except a backup under a key that is not there yet |
| Vault.RunPreserves | cmd/peerstore/client/main.go:200-529 | Every operation by any user keeps every file, byte for byte, made of its creation-time key wrapped for each holder in order, the creation-time vector, and the last accepted plaintext sealed under both |
| Vault.RunClock | cmd/peerstore/client/main.go:200-529 | The node's clock moves once for every backup, accepted or not, and for every share by a holder, and for nothing else |
| Vault.FetchedIff | cmd/peerstore/client/main.go:490-529 | On any files, getfile returns a non-empty text exactly if the node hands over a secret that opens to a key under which the payload seals that text |
| Vault.FetchedWritesIff | cmd/peerstore/client/main.go:490-529 | It writes its destination at all exactly if it gets a key of an accepted size and whole blocks |
| Vault.FetchedIsMeaning | cmd/peerstore/client/main.go:472-529 | Getfile returns that plaintext to every holder and nothing to anybody else |
| Vault.ShareKeepsAccessIff | cmd/peerstore/client/main.go:245-282 | After a share the file is still readable exactly if it had fewer than 255 owners |
| Vault.BackupThenGet | cmd/peerstore/client/main.go:369-529 | On any files, a backup that creates the file or is by an owner with a usable record is read back at once, and one that sends nothing is of a file its user cannot read |
| Vault.ShareThenGet | cmd/peerstore/client/main.go:200-529 | On any files, a share that finds room lets the other user get exactly what the sharer gets |
| Vault.KeyIsDrawnOnce | cmd/peerstore/client/main.go:418-447 | Exactly one operation of a run creates a given file; its drawn key and vector are the file's ever after |
| Vault.EveryRunIsSecure | cmd/peerstore/client/main.go:200-529 | In every state of every run of backup, share and getfile by any users, each file is exactly the bytes made of the drawn key and vector, its holders and the last accepted plaintext |
| Vault.EveryReaderGetsLastBackup | cmd/peerstore/client/main.go:200-529 | In every state of every run, holders get the last accepted plaintext and others nothing |
| Lamport.Incremented | models/models.go:26-35 | The result exceeds both inputs and follows one of them directly, and is zero exactly if one input is the largest 64-bit value |
| Lamport.Clock.IncrementClock | models/models.go:26-35 | The clock becomes and returns Incremented |
| Lamport.ClockBound | models/models.go:15-35 | After k increments anywhere no clock exceeds k + 1 while that fits in 64 bits |
| Lamport.StampBound | file/handlers.go:238-243 | Nor does any clock value in a message |
| Lamport.BoundIsMet | models/models.go:26-35 | A process on its own reaches the bound, and increment 2^64 - 1 wraps to zero |
| Lamport.CausesOrdersStamps | models/models.go:26-35 | Program order and message receipt never lower a stamp, and an increment raises it |
| Lamport.ChainOrdersStamps | models/models.go:26-35 | Stamps grow along every causal chain through any processes |
| Lamport.UpdateStamp | cmd/peerstore/client/main.go:824-861 | In every run the stamp of an accepted update is the node's response clock plus one |
| Lamport.UpdatesFollowNodeOrder | cmd/peerstore/client/main.go:824-861 | Updates accepted by one node have distinct stamps in processing order |
| Sync.SharedLog.Record | cmd/peerstore/client/main.go:853-877 | Exactly one resource gets one more entry at its end |
| Sync.LogHoldsWrites | cmd/peerstore/client/main.go:853-877 | The log holds for each resource exactly the entries recorded for it, each once and in order |
| Sync.PostFile | cmd/peerstore/client/main.go:775-886 | The post carries the client's clock, and the recorded stamp is the client's clock after merging the answer |
| Sync.DeleteFile | cmd/peerstore/client/main.go:888-930 | The deletion is stamped with the client's clock as it stands |
| Sync.UpdateStampIs | cmd/peerstore/client/main.go:842-851 | The stamp is one more than the node's clock after acceptance, and one more than the client's own after a refusal |
| Sync.LatestIsLatest | cmd/peerstore/client/main.go:642-647 | The chosen entry is the last one among those with the largest timestamp |
| Sync.LastEntry | cmd/peerstore/client/main.go:642-647 | The scan loop finds that entry |
| Sync.Unlogged | cmd/peerstore/client/main.go:619-633 | Exactly the local files that are missing from the log |
| Sync.UnloggedSplits | cmd/peerstore/client/main.go:619-633 | The uploads of a walk are those of its parts, one after the other |
| Sync.SynchronizeOne | cmd/peerstore/client/main.go:642-685 | The branches for one resource act as Decide, and exactly as the entries of the two logs call for |
| Sync.DecideIsCalledFor | cmd/peerstore/client/main.go:649-685 | On any two logs: a resource missing from the old log is fetched whatever happened to it, and otherwise the side with an entry later than all of the other's decides by its newest entry |
| Sync.Synchronize | cmd/peerstore/client/main.go:607-688 | One round uploads exactly the unlogged files, acts once on exactly the resources that the two logs call for, fetches every resource missing from the old log and nothing else on an empty one, and returns the log it read |
| Sync.PullsIffLaterStamp | cmd/peerstore/client/main.go:657-686 | If the old entries are a prefix, a resource is acted on exactly if an added entry is stamped later than all of them, and then by its newest entry; the local-newer branch is unreachable |
| Sync.PushesIffOldIsLater | cmd/peerstore/client/main.go:678-685 | On any logs the local-newer branch is taken exactly if an old entry is stamped later than every entry read, and it sends what the newest old entry says |
| Sync.ChangeIsSeenIff | cmd/peerstore/client/main.go:657-686 | A recorded change is picked up exactly if it is stamped later than all earlier entries of its resource |
| Sync.NextRoundIsIdleIff | cmd/peerstore/client/main.go:607-688 | The round after one that returned a log is idle exactly if no file is unlogged, no resource is new and no later entry was added; so on an unchanged log it does nothing |
| Sync.LogsExtend | cmd/peerstore/client/main.go:853-877 | Recording only appends: every earlier snapshot is a prefix of every later one, resource by resource |
| SyncRuns.AcceptedUpdateIsFetched | cmd/peerstore/client/main.go:824-880 | In every run of clients posting accepted updates of one resource to one node, each update is fetched by every client that synchronized with any earlier state of the log |
| SyncRuns.TakeTurn | cmd/peerstore/client/main.go:775-886 | One call of PostFile is one turn of such a run |
| SyncRuns.TurnClock | cmd/peerstore/client/main.go:842-880 | The client's clock passes its own stamp and the answer to its posting the log; no other client's moves |
| SyncRuns.DeletionIsMissed | cmd/peerstore/client/main.go:888-930 | After one update, a deletion recorded by a client that heard of no clock is not acted on by anybody who saw the update |
| Sync.RoundsOnlyPull | cmd/peerstore/client/main.go:649-686 | Between any two snapshots of a log written by recording, a round fetches exactly the new resources and those with a later entry that end in an update, removes exactly those with a later entry that end in a deletion, and does nothing else |

## Left out

- Transport, gob encoding, request signatures, worker goroutines, deadlines and the accept loop.
- Interleaving inside one Join or Stabilize: steps are atomic, and between SetSuccessor and SetPredecessor the invariant need not hold.
- Joins producing a correct ring of four or more nodes: the code does not provide it.
- Public keys inside node values and the lookup of peers' keys: they play no part in routing.
- User and node registration, trust lists, and the public-key handlers.
- FileServer.Server.DeleteFileHandler: a panic is an answer of its own; the node is not restarted, and runs go on with its files and clock.
- Sync.SharedLog.Record: the log is a value that survives a write and a read. The code posts it through the file handlers without a secret, which SecretlessIsCutShort says does not give the log back; the model follows what the log is meant to be.
- Sync.DeleteFile: the log travels as a value, as for PostFile, and only the clock in the answer to its post is kept.
- Client.Backup: the directory walk is left to the caller, one file per call, and a stored payload shorter than a vector ends the flow where the code panics.
- Aes.Encrypt: the random source is an argument and cannot fail.
- Sync.PostFile: the log travels as a value; of its own post to a node only the clock in the answer is kept, and concurrent read-modify-write of the log is excluded.
- Sync.Synchronize: the actions are returned as a list instead of being carried out on the local directory and the node.
- Go maps are visited in an arbitrary order; FollowLog picks keys in an arbitrary order too.
- File watchers, flags, signals, logging, and disk errors.
