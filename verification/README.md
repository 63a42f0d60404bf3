# AmorLib core, modelled in Dafny

AmorLib is a helper library for GTFO mods. This project models its core and
proves properties about that model:

- **State replication.** A mod keeps a small fixed-size state per replicator
  ID, and all peers of a lobby stay in agreement on it. The model covers:
  - the payload codec: a 256-byte buffer filled up to a size class;
  - the size-class choice;
  - the per-type handshake that records which side has set up which ID;
  - the replicator with its snapshots;
  - the static per-type registry, with its inbound callbacks, checkpoint fan-out
    and session teardown;
  - the per-type ID reservation sets.
- **Light modifiers.** Each light keeps a priority stack of modifiers. The
  highest priority wins, and among equal priorities the newest wins.
- **Course-node lookup.** `DimensionMap` builds a grid of integer cells and
  searches outward in square rings for the nearest non-empty cell.
- **Small utilities:**
  - the dictionary helpers;
  - `major.minor.patch` version checks;
  - the dirty-flag cache of zone indices in `GlobalBase`;
  - the tri-state `BoolBase`;
  - `EqualsAny`.

The network transport is not modelled as a service. Its truth predicates
appear as a `Net` value: in lobby, is master, and the master's ID when there
is one. Every send is appended to an `Outbox`, whose `sent` sequence records
the channel, the target or broadcast, the priority, the replicator ID and the
body. Game lookups such as a dimension by index or a zone by tuple are
function parameters. Dictionary enumeration order is a parameter `order` that
lists each key exactly once. A C# exception is modelled as an `ok` flag or an
outcome value, and the caller stops where the exception would propagate.

The classes follow the code as written, including its defects. Beside each
defect sits the evidently intended definition, with its intended property
proved (see "## Findings").

## Model


| member | source | states |
|---|---|---|
| Payload.LadderFitsBuffer | AmorLib/Networking/StateReplicators/ReplicatorPayload.cs:7-20 | every `Size` class lies between 4 and 256, so it fits the fixed 256-byte buffer |
| Payload.Decode | AmorLib/Networking/StateReplicators/ReplicatorPayload.cs:75-82 | reading a class back gives a state exactly when the state's length is at most the class, and that state has the type's length |
| Payload.Written | AmorLib/Networking/StateReplicators/ReplicatorPayload.cs:91-96 | a write leaves the buffer at its full length |
| Payload.WrittenLayout | AmorLib/Networking/StateReplicators/ReplicatorPayload.cs:91-96 | after a write the first L bytes are the state, bytes L up to the class are zero, and bytes from the class on are unchanged |
| Payload.DecodeWritten | AmorLib/Networking/StateReplicators/ReplicatorPayload.cs:75-96 | round trip: `Get` after `Set` of a fitting state gives that state back |
| Payload.StatePayloadBytes.constructor | AmorLib/Networking/StateReplicators/ReplicatorPayload.cs:55 | a new struct carries the ID and an all-zero 256-byte buffer |
| Payload.StatePayloadBytes.Set | AmorLib/Networking/StateReplicators/ReplicatorPayload.cs:84-97 | fails, leaving the buffer untouched, exactly when the state is longer than the class; otherwise the buffer becomes `Written` |
| Payload.StatePayloadBytes.Get | AmorLib/Networking/StateReplicators/ReplicatorPayload.cs:75-82 | returns `Decode` of the buffer |
| Payload.WireBytesIsPaddedState | AmorLib/Networking/StateReplicators/ReplicatorPayload.cs:73 | whatever the class, the wire buffer is the state followed by zeros up to 256 bytes |
| Payload.ReplicatorPayload.constructor | AmorLib/Networking/StateReplicators/ReplicatorPayload.cs:46-51 | a channel remembers its name and size class |
| Payload.ReplicatorPayload.Invoke | AmorLib/Networking/StateReplicators/ReplicatorPayload.cs:53-66 | posts exactly one send when the state fits the class and none otherwise |
| Payload.ReplicatorPayload.Receive | AmorLib/Networking/StateReplicators/ReplicatorPayload.cs:48 | the receiver is handed the sender, the packet's ID and a state of the type's length |
| Payload.ReplicatorPayload.InvokeThenReceive | AmorLib/Networking/StateReplicators/ReplicatorPayload.cs:46-66 | what is invoked is received unchanged, on the same channel and priority, and is broadcast exactly when no target is given |
| SizeClass.GetSizeType | AmorLib/Networking/StateReplicators/StateReplicator.Static.cs:92-105 | the scan returns the smallest class above 8 that holds the state, or 8 for states above 256 bytes |
| SizeClass.AsWrittenSizeTypeUnique | AmorLib/Networking/StateReplicators/StateReplicator.Static.cs:92-105 | the result described by `GetSizeType`'s contract is determined by the length |
| SizeClass.AsWrittenSkipsSmallClasses | AmorLib/Networking/StateReplicators/StateReplicator.Static.cs:94-102 | as written, 4 bytes get 16, 17 bytes get 32, and 300 bytes get 8, which is smaller than the state |
| SizeClass.FirstFittingIsFirst | AmorLib/Networking/StateReplicators/StateReplicator.Static.cs:94-102 | a first-fit scan finds a class exactly when one fits, and it finds the first that fits |
| SizeClass.SmallestSizeClassIsLeast | AmorLib/Networking/StateReplicators/StateReplicator.Static.cs:92-105 | the intended choice exists exactly for lengths up to 256, and it is then the least class holding the state |
| SizeClass.IntendedBoundaries | AmorLib/Networking/StateReplicators/StateReplicator.Static.cs:92-105 | under the intended choice, 4 gets 4, 5 gets 8, 32 gets 32, 33 gets 48, and 257 gets no class |
| Handshake.SyncStep | AmorLib/Networking/StateReplicators/ReplicatorHandshake.cs:197-210 | readiness becomes "the ID has both flags"; a sync request goes to the master only on a false-to-true change, and only for a client that has a master |
| Handshake.SyncRequestPosts | AmorLib/Networking/StateReplicators/ReplicatorHandshake.cs:43-55 | one sync request per tracked ID, in order, addressed to the master |
| Handshake.SetHostFlag | AmorLib/Networking/StateReplicators/ReplicatorHandshake.cs:169-181 | as written: the ID becomes tracked, every tracked entry keeps its flags, and an untracked ID gets the given host flag with the client flag clear |
| Handshake.SetClientFlag | AmorLib/Networking/StateReplicators/ReplicatorHandshake.cs:183-195 | as written: the ID becomes tracked, every tracked entry keeps its flags, and an untracked ID gets the given client flag with the host flag clear |
| Handshake.AnnounceStep | AmorLib/Networking/StateReplicators/ReplicatorHandshake.cs:103-167 | outside a lobby, or on a client with no master, nothing changes or is sent; the master records its host flag and ends with one broadcast of the action; a client records its client flag and ends with one send of the action to the master |
| Handshake.ActionReaction | AmorLib/Networking/StateReplicators/ReplicatorHandshake.cs:62-101 | a sync request is served exactly on the master for a player sender, and names that sender; a client ignores non-masters, and a sync request never changes the tracker |
| Handshake.ReplicatorHandshake.constructor | AmorLib/Networking/StateReplicators/ReplicatorHandshake.cs:28-35 | a new tracker has no entries and is not ready |
| Handshake.ReplicatorHandshake.UpdateSyncState | AmorLib/Networking/StateReplicators/ReplicatorHandshake.cs:197-210 | the tracker and the outbox move exactly as `SyncStep` says |
| Handshake.ReplicatorHandshake.SetHostState | AmorLib/Networking/StateReplicators/ReplicatorHandshake.cs:169-181 | the host-flag update as written, followed by the readiness update |
| Handshake.ReplicatorHandshake.SetClientState | AmorLib/Networking/StateReplicators/ReplicatorHandshake.cs:183-195 | the client-flag update as written, followed by the readiness update |
| Handshake.ReplicatorHandshake.Announce | AmorLib/Networking/StateReplicators/ReplicatorHandshake.cs:103-167 | the shared body of the Created and Destroyed announcements; it keeps the tracker invariant |
| Handshake.ReplicatorHandshake.UpdateCreated | AmorLib/Networking/StateReplicators/ReplicatorHandshake.cs:103-134 | the Created announcement: a flag update on this side and one packet along the route the lobby role picks |
| Handshake.ReplicatorHandshake.UpdateDestroyed | AmorLib/Networking/StateReplicators/ReplicatorHandshake.cs:136-167 | the Destroyed announcement, which records this side's flag as true as written |
| Handshake.ReplicatorHandshake.OnSyncAction | AmorLib/Networking/StateReplicators/ReplicatorHandshake.cs:62-101 | an inbound packet changes the tracker as `ActionReaction` says, sends nothing, and names the player whose sync request is to be served |
| Handshake.ReplicatorHandshake.ClientSyncRequest | AmorLib/Networking/StateReplicators/ReplicatorHandshake.cs:43-55 | sends nothing on the master; on a client with a master, sends one sync request per tracked ID |
| Handshake.ReplicatorHandshake.OnRecallDone | AmorLib/Networking/StateReplicators/ReplicatorHandshake.cs:37-41 | after a checkpoint reload, does what `ClientSyncRequest` does |
| Handshake.ReplicatorHandshake.Reset | AmorLib/Networking/StateReplicators/ReplicatorHandshake.cs:57-60 | empties the map and leaves the shared readiness flag as it was |
| Handshake.FlagUpdatesKeepNeverBoth | AmorLib/Networking/StateReplicators/ReplicatorHandshake.cs:169-195 | as written, no flag update ever yields an entry with both flags set |
| Handshake.FlagStepsNeverReady | AmorLib/Networking/StateReplicators/ReplicatorHandshake.cs:169-210 | as written, readiness never becomes true and no proactive sync request is ever sent |
| Handshake.AnnounceKeepsValid | AmorLib/Networking/StateReplicators/ReplicatorHandshake.cs:103-167 | announcements keep "never both flags" and "not ready" |
| Handshake.ReactionKeepsValid | AmorLib/Networking/StateReplicators/ReplicatorHandshake.cs:62-101 | inbound packets keep the invariant and post nothing |
| Handshake.AnnounceInLobby | AmorLib/Networking/StateReplicators/ReplicatorHandshake.cs:105-123 | the master records the host flag and broadcasts one packet; a client records the client flag and sends one packet to the master |
| Handshake.ClientReaction | AmorLib/Networking/StateReplicators/ReplicatorHandshake.cs:64-74 | a client ignores packets from anyone but the master; from the master, Created and Destroyed set the host flag to `action == Created`, and a sync request is dropped |
| Handshake.MasterReaction | AmorLib/Networking/StateReplicators/ReplicatorHandshake.cs:75-99 | the master sets the client flag on Created and clears it on Destroyed; it serves a sync request only when the sender is a player |
| Handshake.SetHostFlagIntended | AmorLib/Networking/StateReplicators/ReplicatorHandshake.cs:169-181 | the intended host-flag update overwrites the host flag and keeps the client flag |
| Handshake.SetClientFlagIntended | AmorLib/Networking/StateReplicators/ReplicatorHandshake.cs:183-195 | the intended client-flag update overwrites the client flag and keeps the host flag |
| Handshake.IntendedRendezvous | AmorLib/Networking/StateReplicators/ReplicatorHandshake.cs:136-195 | under the intended updates, Created from both sides sets both flags in either order, and Destroyed from either side clears the pair |
| Handshake.AsWrittenSecondFlagLost | AmorLib/Networking/StateReplicators/ReplicatorHandshake.cs:142-188 | as written, the second Created is lost, and Destroyed records the flag as true |
| StateReplicators.StateReplicator.constructor | AmorLib/Networking/StateReplicators/StateReplicator.Static.cs:67-72 | a new replicator has its ID, lifetime and start state, an all-zero last state and no snapshots |
| StateReplicators.StateReplicator.SetState | AmorLib/Networking/StateReplicators/StateReplicator.cs:31-36 | the state, the outbox and the ok flag move as `SetStateOutcome` says |
| StateReplicators.StateReplicator.SetStateUnsynced | AmorLib/Networking/StateReplicators/StateReplicator.cs:41-47 | the replicator becomes `Unsynced` |
| StateReplicators.StateReplicator.Unload | AmorLib/Networking/StateReplicators/StateReplicator.cs:52-61 | once valid: the replicator leaves the registry, its snapshots are dropped, the handshake hears Destroyed, and the ID becomes 0; once invalid: nothing happens |
| StateReplicators.StateReplicator.DoSync | AmorLib/Networking/StateReplicators/StateReplicator.cs:63-77 | the master-or-client branch of `SetStateOutcome` |
| StateReplicators.StateReplicator.Internal_ChangeState | AmorLib/Networking/StateReplicators/StateReplicator.cs:79-89 | the replicator becomes `ChangeState` |
| StateReplicators.StateReplicator.SendDropInState | AmorLib/Networking/StateReplicators/StateReplicator.cs:91-100 | the outbox grows by `DropInOutcome`'s posts, and nothing else changes |
| StateReplicators.StateReplicator.ClearAllRecallSnapshot | AmorLib/Networking/StateReplicators/StateReplicator.cs:102-107 | the replicator becomes `ClearedSnapshots` |
| StateReplicators.StateReplicator.SaveSnapshot | AmorLib/Networking/StateReplicators/StateReplicator.cs:109-114 | the replicator becomes `SavedSnapshot` |
| StateReplicators.StateReplicator.RestoreSnapshot | AmorLib/Networking/StateReplicators/StateReplicator.cs:116-130 | the replicator and the outbox move as `RestoreOutcome` says |
| StateReplicators.SendGates | AmorLib/Networking/StateReplicators/StateReplicator.cs:21-22 | the two send gates never open together and stay shut outside a lobby; the master sends to clients, and a client sends to a master only when its replicator allows it |
| StateReplicators.ChangeState | AmorLib/Networking/StateReplicators/StateReplicator.cs:79-89 | a live replicator takes the new state and keeps the old one as the last state, and the state-changed event is heard first, followed by the holder when there is one; the ID, snapshots and permission stay; an invalid one is left as it is |
| StateReplicators.SetStateOutcome | AmorLib/Networking/StateReplicators/StateReplicator.cs:31-77 | at most one send; the replicator is either unchanged or, on the master, changed to the new state; it fails exactly on a valid replicator with an open send gate and a state over the size class, and a failure changes and sends nothing |
| StateReplicators.RestoreOutcome | AmorLib/Networking/StateReplicators/StateReplicator.cs:116-130 | anything happens only on a valid master with the slot saved; then the saved state becomes the state as a recall, with one broadcast; a failure changes and sends nothing |
| StateReplicators.DropInOutcome | AmorLib/Networking/StateReplicators/StateReplicator.cs:91-100 | the replicator is unchanged, and at most one send goes out, only to a given target and only from a valid replicator |
| StateReplicators.Unloaded | AmorLib/Networking/StateReplicators/StateReplicator.cs:52-61 | afterwards the ID is 0; the state, last state and notices stay, and a valid replicator loses its snapshots |
| StateReplicators.InvalidIsInert | AmorLib/Networking/StateReplicators/StateReplicator.cs:13-118 | a replicator that is not `IsValid` (ID 0) is inert: every operation leaves it as it is and sends nothing |
| StateReplicators.SetStateAsMaster | AmorLib/Networking/StateReplicators/StateReplicator.cs:63-89 | on the master, one broadcast goes out on the host-set channel carrying the zero-padded state; then the state becomes x, the last state becomes the old state, and one non-recall notice is added |
| StateReplicators.SetStateAsClient | AmorLib/Networking/StateReplicators/StateReplicator.cs:21-75 | on a client, one send goes to the master on the client-request channel when clients may send, and none otherwise; the replicator does not change |
| StateReplicators.UnsyncedSetsBoth | AmorLib/Networking/StateReplicators/StateReplicator.cs:41-47 | the state and the last state both become x; no notice is added and the snapshots are kept |
| StateReplicators.SaveChangeRestore | AmorLib/Networking/StateReplicators/StateReplicator.cs:109-124 | on the master, save, then change, then restore brings the saved state back as a recall, with one recall broadcast |
| StateReplicators.RestoreWithoutSlot | AmorLib/Networking/StateReplicators/StateReplicator.cs:116-129 | restoring a slot that was never saved, or restoring on a client, changes and sends nothing |
| StateReplicators.DropInToTarget | AmorLib/Networking/StateReplicators/StateReplicator.cs:91-100 | a drop-in goes only to its target, on the recall channel, carries the current state, and changes nothing |
| StateReplicators.UnloadOnce | AmorLib/Networking/StateReplicators/StateReplicator.cs:52-61 | `Unload` leaves ID 0, and a second `Unload` changes nothing |
| StateReplicators.SessionIds | AmorLib/Networking/StateReplicators/StateReplicator.Static.cs:208-226 | the listed IDs are those of session-lifetime replicators |
| StateReplicators.SessionPositions | AmorLib/Networking/StateReplicators/StateReplicator.Static.cs:211-217 | the enumeration positions of the session replicators, strictly increasing, each of them included |
| StateReplicators.SessionIdsExact | AmorLib/Networking/StateReplicators/StateReplicator.Static.cs:208-226 | the listed IDs are the session IDs, each once, in enumeration order: one per session position, and every session ID is listed |
| StateReplicators.Permanents | AmorLib/Networking/StateReplicators/StateReplicator.Static.cs:208-226 | the entries teardown keeps are exactly the permanent-lifetime ones |
| StateReplicators.PermanentsByOrder | AmorLib/Networking/StateReplicators/StateReplicator.Static.cs:210-223 | after the loop, the registry holds exactly the permanent replicators |
| StateReplicators.SessionIdsNotPermanent | AmorLib/Networking/StateReplicators/StateReplicator.Static.cs:218-223 | removing the listed session IDs keeps every permanent entry |
| StateReplicators.TeardownDone | AmorLib/Networking/StateReplicators/StateReplicator.Static.cs:208-226 | at the end of the teardown loop, the session IDs are listed, the views are torn down and the permanent entries are kept |
| StateReplicators.ReplicatorType.constructor | AmorLib/Networking/StateReplicators/StateReplicator.Static.cs:21-43 | a type starts with the as-written size class, three state channels on that class, an empty registry and an empty handshake |
| StateReplicators.ReplicatorType.Create | AmorLib/Networking/StateReplicators/StateReplicator.Static.cs:53-90 | ID 0 or an ID already registered gives no replicator and no change; otherwise a new replicator is registered with the start state, and only session lifetime announces Created |
| StateReplicators.ReplicatorType.ClientRequestEventCallback | AmorLib/Networking/StateReplicators/StateReplicator.Static.cs:131-140 | ignored on a client; on the master, the registered replicator's `SetState` runs and no other replicator changes |
| StateReplicators.ReplicatorType.HostSetStateEventCallback | AmorLib/Networking/StateReplicators/StateReplicator.Static.cs:142-154 | applied as a non-recall change only when the sender is the master and the ID is registered |
| StateReplicators.ReplicatorType.HostSetRecallStateEventCallback | AmorLib/Networking/StateReplicators/StateReplicator.Static.cs:156-168 | applied as a recall change only when the sender is the master and the ID is registered |
| StateReplicators.ReplicatorType.ClientSyncRequested | AmorLib/Networking/StateReplicators/StateReplicator.Static.cs:170-179 | every valid replicator's state is sent to the requesting player, in enumeration order |
| StateReplicators.ReplicatorType.BufferStored | AmorLib/Networking/StateReplicators/StateReplicator.Static.cs:181-190 | every replicator saves its state in the slot |
| StateReplicators.ReplicatorType.BufferRecalled | AmorLib/Networking/StateReplicators/StateReplicator.Static.cs:192-201 | every replicator is restored from the slot, with the recall broadcasts in order |
| StateReplicators.ReplicatorType.UnloadSessionReplicators | AmorLib/Networking/StateReplicators/StateReplicator.Static.cs:208-226 | exactly the session replicators are unloaded and removed, each announcing Destroyed; permanent ones stay; the handshake map is emptied |
| StateReplicators.ReplicatorType.OnLevelCleanup | AmorLib/Networking/StateReplicators/StateReplicator.Static.cs:203-206 | level cleanup is the session teardown |
| StateReplicators.ReplicatorType.OnHandshakePacket | AmorLib/Networking/StateReplicators/StateReplicator.Static.cs:127 | the handshake reacts to the packet, and a served sync request sends every state to the sender |
| ReplicatorManager.Manager.constructor | AmorLib/Networking/StateReplicatorManager.cs:7 | no type has reserved IDs |
| ReplicatorManager.Manager.ReserveIds | AmorLib/Networking/StateReplicatorManager.cs:9-22 | the type's set gains every argument and is created when absent; other types are untouched; each already-present ID is skipped and reported |
| ReplicatorManager.Manager.DeregisterIds | AmorLib/Networking/StateReplicatorManager.cs:24-35 | for a type with no set, nothing changes and no entry is created; otherwise exactly the given IDs are removed |
| ReplicatorManager.AllReserved | AmorLib/Networking/StateReplicatorManager.cs:13-21 | after the loop, the set is the old set together with the arguments |
| LightWorkers.AddKeepsTop | AmorLib/API/LightWorker.cs:93-102 | adding a modifier keeps the current node at the top of the highest non-empty priority |
| LightWorkers.AddStep | AmorLib/API/LightWorker.cs:93-102 | the node is appended to its priority's list, created when absent, other lists stay; it becomes current exactly when nothing is current or its priority is at least the current one's |
| LightWorkers.UnlistStep | AmorLib/API/LightWorker.cs:107-112 | the current node, the set of priorities and every other list stay |
| LightWorkers.UnlistRemovesOne | AmorLib/API/LightWorker.cs:107-112 | unlisting takes exactly one occurrence of the node out of its list |
| LightWorkers.RemoveStep | AmorLib/API/LightWorker.cs:104-126 | the lists are those of `UnlistStep`; a non-current removal keeps the current node; a current removal picks a new current node listed under its priority |
| LightWorkers.NextCurrent | AmorLib/API/LightWorker.cs:114-121 | the fallback is listed under its priority: the predecessor in the same list when there is one, otherwise the last node of the highest non-empty list |
| LightWorkers.UnlistOtherKeepsTop | AmorLib/API/LightWorker.cs:107-112 | removing a node that is not current keeps the current node on top |
| LightWorkers.CurrentIsLast | AmorLib/API/LightWorker.cs:96-97 | the current node is the last node of the top priority list |
| LightWorkers.IntendedRemoveKeepsTop | AmorLib/API/LightWorker.cs:104-126 | the intended removal, which picks the fallback after the node is gone, keeps the current node on top |
| LightWorkers.RegisterKeepsTop | AmorLib/API/LightWorker.cs:202-209 | re-registering makes the modifier the newest of its priority, and the current node stays on top |
| LightWorkers.RemoveAgreesExceptSole | AmorLib/API/LightWorker.cs:114-125 | the as-written and intended removals agree except when the current node is the sole member of its list |
| LightWorkers.AsWrittenSoleStale | AmorLib/API/LightWorker.cs:114-125 | as written, removing the sole current node leaves it current, though no list holds it |
| LightWorkers.OnlyModifierRemoved | AmorLib/API/LightWorker.cs:114-125 | one modifier added then removed: as written it is still current; under the intended removal nothing is |
| LightWorkers.Light.constructor | AmorLib/API/LightWorker.cs:33-40 | the light starts as the game left it |
| LightWorkers.LightWorker.constructor | AmorLib/API/LightWorker.cs:33-40 | a worker starts with no lists, no current node and no modifiers |
| LightWorkers.LightWorker.EMPActiveIffActiveEMPModifier | AmorLib/API/LightWorker.cs:51 | the EMP override is in force exactly when some active modifier has EMP priority |
| LightWorkers.LightWorker.ActiveListed | AmorLib/API/LightWorker.cs:189 | an `Active` modifier's node belongs to it and is listed under its priority |
| LightWorkers.LightWorker.InUseShown | AmorLib/API/LightWorker.cs:190 | an `InUse` modifier owns the current node, and its look is on the light |
| LightWorkers.LightWorker.AddModifier | AmorLib/API/LightWorker.cs:86-91 | a new modifier with the given look is registered as `AddStep`, and it is shown exactly when it becomes current |
| LightWorkers.LightWorker.AddNode | AmorLib/API/LightWorker.cs:93-102 | the node is appended to its priority's list and becomes current and applied when its priority is at least the current one's |
| LightWorkers.LightWorker.RemoveModifier | AmorLib/API/LightWorker.cs:104-126 | the as-written `RemoveStep`; a non-current removal leaves the light untouched, and a current removal shows the chosen fallback |
| LightWorkers.LightWorker.ChooseNext | AmorLib/API/LightWorker.cs:114-121 | the fallback is the predecessor in the list, or else the last node of the highest non-empty list before the removal |
| LightWorkers.LightWorker.MakeCurrent | AmorLib/API/LightWorker.cs:114-125 | the node becomes current and its look is on the light |
| LightWorkers.LightWorker.Unlist | AmorLib/API/LightWorker.cs:205 | the node leaves its list; the current node is not updated |
| LightWorkers.LightModifier.constructor | AmorLib/API/LightWorker.cs:193-200 | a modifier holds its look, priority and worker, and has no node |
| LightWorkers.LightModifier.Apply | AmorLib/API/LightWorker.cs:211-216 | the light shows this modifier's look |
| LightWorkers.LightModifier.SetColor | AmorLib/API/LightWorker.cs:146-157 | the same value changes nothing; a new value is stored and reaches the light only when the modifier is in use |
| LightWorkers.LightModifier.SetIntensity | AmorLib/API/LightWorker.cs:160-171 | the same rule, for intensity |
| LightWorkers.LightModifier.SetEnabled | AmorLib/API/LightWorker.cs:174-185 | the same rule, for the enabled flag |
| LightWorkers.LightModifier.Set | AmorLib/API/ILightModifier.cs:41-46 | all three are stored; an in-use modifier's look is on the light, and otherwise the light is untouched |
| LightWorkers.LightModifier.Register | AmorLib/API/LightWorker.cs:202-209 | an active modifier leaves its list; then a new node is added on top of its priority and recorded as this modifier's; every modifier keeps its look, and the light shows this one exactly when it becomes current |
| LightWorkers.LightWorker.Relist | AmorLib/API/LightWorker.cs:205-207 | an active modifier's node leaves its list and a new node for it is added as `AddStep` says, its look kept |
| LightWorkers.LightModifier.Remove | AmorLib/API/LightWorker.cs:218-223 | an inactive modifier changes nothing; an active one is removed with `RemoveStep`; the node map and every look are kept; a non-current removal leaves the light alone, and a current one shows the fallback node's modifier |
| CourseNodes.Clamp | AmorLib/Utils/CourseNodeUtil.cs:104-105 | the result lies in the range, and it equals the input exactly when the input is in range |
| CourseNodes.MapPos | AmorLib/Utils/CourseNodeUtil.cs:100-107 | the map position is always inside the map, and it is the offset from the lower bound exactly when the cell lies within the map |
| CourseNodes.CellListUnique | AmorLib/Utils/CourseNodeUtil.cs:41-46 | no cell list holds two course nodes with the same NodeID |
| CourseNodes.CellListExact | AmorLib/Utils/CourseNodeUtil.cs:41-46 | a cell has a list exactly when some node maps to it, and that list holds exactly those nodes' course nodes |
| CourseNodes.CellList | AmorLib/Utils/CourseNodeUtil.cs:41-46 | a cell's list, once created, is never empty |
| CourseNodes.DimensionMap.constructor | AmorLib/Utils/CourseNodeUtil.cs:75-82 | the bounds start empty, at the largest and the smallest Int32 |
| CourseNodes.DimensionMap.UpdateBounds | AmorLib/Utils/CourseNodeUtil.cs:85-91 | the bounds widen just enough to take in the cell, and every cell already inside stays inside |
| CourseNodes.DimensionMap.CreateNodeMap | AmorLib/Utils/CourseNodeUtil.cs:93-98 | the map size is max - min + 1 on each axis, with empty grids of that size |
| CourseNodes.DimensionMap.GetBuildNodeList | AmorLib/Utils/CourseNodeUtil.cs:109-115 | a cell's list is created at most once, and the same cell gets the same list back |
| CourseNodes.DimensionMap.FinishBuild | AmorLib/Utils/CourseNodeUtil.cs:117-127 | every cell, empty or not, is copied into the lookup grid, and the build grid is dropped |
| CourseNodes.DimensionMap.ScanRows | AmorLib/Utils/CourseNodeUtil.cs:143-149 | returns the first list on the top and bottom rows, column by column, or none when both rows are empty |
| CourseNodes.DimensionMap.ScanColumns | AmorLib/Utils/CourseNodeUtil.cs:151-157 | the same search on the left and right columns |
| CourseNodes.DimensionMap.RowsFromSpan | AmorLib/Utils/CourseNodeUtil.cs:143-149 | what the row scan meets is on the top or bottom row within the span; none means both rows are empty there |
| CourseNodes.DimensionMap.ColumnsFromSpan | AmorLib/Utils/CourseNodeUtil.cs:151-157 | what the column scan meets is on the left or right column strictly between the rows; none means both columns are empty there |
| CourseNodes.DimensionMap.RingFirstSides | AmorLib/Utils/CourseNodeUtil.cs:136-158 | the ring's first list is the rows' find, else the columns' find, and none on a one-row ring |
| CourseNodes.DimensionMap.RingFirstNear | AmorLib/Utils/CourseNodeUtil.cs:136-158 | a ring's first list is within its radius, and a ring with none is empty at exactly its radius |
| CourseNodes.DimensionMap.RingEmpty | AmorLib/Utils/CourseNodeUtil.cs:136-158 | empty clamped rows and columns mean every cell at exactly that distance is empty |
| CourseNodes.DimensionMap.RingsFromFound | AmorLib/Utils/CourseNodeUtil.cs:138-161 | a find from the outward search comes from some ring, and every smaller ring found nothing |
| CourseNodes.DimensionMap.RingsFromNone | AmorLib/Utils/CourseNodeUtil.cs:138-161 | when the outward search finds nothing, every ring in the range is empty |
| CourseNodes.DimensionMap.EmptyBelow | AmorLib/Utils/CourseNodeUtil.cs:129-161 | an empty cell with empty rings below a radius has no filled cell closer than it |
| CourseNodes.DimensionMap.NearestWhenCloserEmpty | AmorLib/Utils/CourseNodeUtil.cs:129-161 | a filled cell within the radius is among the nearest when nothing closer is filled |
| CourseNodes.DimensionMap.LookupNearest | AmorLib/Utils/CourseNodeUtil.cs:129-162 | the lookup gives the cell's own list when present, none exactly when the map is empty, and otherwise the list of a nearest filled cell |
| CourseNodes.DimensionMap.ScanRing | AmorLib/Utils/CourseNodeUtil.cs:136-158 | returns the first list met in scan order: top and bottom rows column by column, then left and right columns; a list found lies within the radius, and none means the ring at that radius is empty |
| CourseNodes.DimensionMap.GetNodes | AmorLib/Utils/CourseNodeUtil.cs:129-162 | returns `Lookup`: the cell's own list when it has one, else the first list met by the scan of the smallest ring radius that meets one; that list is among the nearest filled cells, and none is returned exactly when the whole map is empty |
| CourseNodes.BoundGroup | AmorLib/Utils/CourseNodeUtil.cs:31-33 | the bounds become the tight box around every node's cell |
| CourseNodes.FillGroup | AmorLib/Utils/CourseNodeUtil.cs:37-47 | every cell's list is `CellList` of the entries |
| CourseNodes.BuildMap | AmorLib/Utils/CourseNodeUtil.cs:26-49 | the finished map contains every node's cell, and its grid holds exactly the deduplicated lists |
| Collections.ToManaged | AmorLib/Utils/Extensions/CollectionExtensions.cs:10-18 | the copy has the same length and the same elements in the same order |
| Collections.GetOrAddNew | AmorLib/Utils/Extensions/CollectionExtensions.cs:27-35 | a present key returns its stored value and leaves the dictionary unchanged; an absent key is added with the new value, which is returned; other keys are untouched |
| Collections.ForEachValue | AmorLib/Utils/Extensions/CollectionExtensions.cs:40-46 | the action is called on the values in enumeration order |
| Collections.OncePerKey | AmorLib/Utils/Extensions/CollectionExtensions.cs:42-45 | each key's value is acted on exactly once |
| Collections.AnyAllValues | AmorLib/Utils/Extensions/CollectionExtensions.cs:54-64 | true exactly when some nested collection holds an element that satisfies the predicate |
| Collections.FlattenAny | AmorLib/Utils/Extensions/CollectionExtensions.cs:54-64 | searching the flattened dictionary is the same as searching each collection |
| Collections.FirstOrDefaultAllValues | AmorLib/Utils/Extensions/CollectionExtensions.cs:72-85 | returns the first satisfying element in outer-then-inner order, or none |
| Collections.FirstAt | AmorLib/Utils/Extensions/CollectionExtensions.cs:74-82 | the element where the search stops is the first satisfying one of the flattening |
| Collections.FirstNoneIffNotAny | AmorLib/Utils/Extensions/CollectionExtensions.cs:54-85 | the search finds nothing exactly when `AnyAllValues` is false |
| PluginVersions.Match | AmorLib/Utils/Extensions/PluginInfoExtensions.cs:46-51 | the groups of a match are digit runs |
| PluginVersions.MatchIff | AmorLib/Utils/Extensions/PluginInfoExtensions.cs:46-51 | the text matches exactly when it splits into three digit runs at two dots, with at most one final line feed |
| PluginVersions.MatchComplete | AmorLib/Utils/Extensions/PluginInfoExtensions.cs:46-51 | a split text matches, with the three runs as the groups |
| PluginVersions.MatchSound | AmorLib/Utils/Extensions/PluginInfoExtensions.cs:46-51 | whatever matches is split at the dots where the match stops |
| PluginVersions.ParseInt32 | AmorLib/Utils/Extensions/PluginInfoExtensions.cs:53-55 | parsing gives the run's value when it fits Int32; otherwise it throws |
| PluginVersions.CompareToSign | AmorLib/Utils/Extensions/PluginInfoExtensions.cs:56 | the comparison is zero exactly on equal versions and positive exactly when the plugin's version is above |
| PluginVersions.CompareVersion | AmorLib/Utils/Extensions/PluginInfoExtensions.cs:38-57 | a missing version or a text that does not match gives null; otherwise the result is the comparison with the parsed major, minor and patch |
| PluginVersions.VersionEquals | AmorLib/Utils/Extensions/PluginInfoExtensions.cs:13-16 | true exactly when the comparison is not null and is 0 |
| PluginVersions.VersionExceeds | AmorLib/Utils/Extensions/PluginInfoExtensions.cs:23-26 | true exactly when the comparison is not null and is positive |
| PluginVersions.VersionAtLeast | AmorLib/Utils/Extensions/PluginInfoExtensions.cs:33-36 | true exactly when `VersionEquals` or `VersionExceeds` is |
| PluginVersions.ThrowsTogether | AmorLib/Utils/Extensions/PluginInfoExtensions.cs:53-55 | the three checks throw together, exactly on a matched text with a group above Int32 |
| PluginVersions.ShowMatches | AmorLib/Utils/Extensions/PluginInfoExtensions.cs:46-55 | a version written as `major.minor.patch` matches, with its numbers as the groups |
| PluginVersions.ShowCompares | AmorLib/Utils/Extensions/PluginInfoExtensions.cs:38-57 | comparing with a written-out version within Int32 is comparing with its numbers |
| GlobalIndexes.GlobalBase.constructor | AmorLib/Utils/GlobalBase.cs:53-58 | a new entry names Reality, MainLayer and Zone_0, with its caches built and the flag clear |
| GlobalIndexes.GlobalBase.SetDimensionIndex | AmorLib/Utils/GlobalBase.cs:12-16 | stores the value and raises the flag; nothing else changes |
| GlobalIndexes.GlobalBase.SetLayer | AmorLib/Utils/GlobalBase.cs:20-24 | stores the value and raises the flag; nothing else changes |
| GlobalIndexes.GlobalBase.SetLocalIndex | AmorLib/Utils/GlobalBase.cs:28-32 | stores the value and raises the flag; nothing else changes |
| GlobalIndexes.GlobalBase.RaiseFlag | AmorLib/Utils/GlobalBase.cs:75 | raises the flag and changes nothing else |
| GlobalIndexes.GlobalBase.Refresh | AmorLib/Utils/GlobalBase.cs:77-83 | with the flag clear, nothing changes; afterwards the flag is clear and both caches match the current indices |
| GlobalIndexes.GlobalBase.GetGlobalZoneIndex | AmorLib/Utils/GlobalBase.cs:36-39 | always the struct of the current indices |
| GlobalIndexes.GlobalBase.GetIntTuple | AmorLib/Utils/GlobalBase.cs:43-46 | always the integer casts of the current indices |
| GlobalIndexes.GlobalBase.OnAfterBuildBatch | AmorLib/Utils/GlobalBase.cs:60-67 | after the geomorph batch, the dimension is looked up by the index and the zone by the cached tuple; other batches change nothing |
| GlobalIndexes.GlobalBase.OnAfterBuildBatchRefreshed | AmorLib/Utils/GlobalBase.cs:60-67 | the intended version: the zone is that of the current indices |
| GlobalIndexes.GlobalBase.OnLevelCleanup | AmorLib/Utils/GlobalBase.cs:69-73 | the dimension and the zone are forgotten |
| GlobalIndexes.StaleZoneExample | AmorLib/Utils/GlobalBase.cs:60-67 | an entry whose zone is set after construction resolves no zone as written, and the right zone once refreshed |
| BoolBases.FromBool | AmorLib/Utils/JsonElementConverters/BoolBase.cs:10-13 | a plain boolean gives a forcing mode, True exactly for true |
| BoolBases.BoolBase.GetValue | AmorLib/Utils/JsonElementConverters/BoolBase.cs:20-28 | Unchanged gives the input back; a forcing mode gives true exactly for True |
| BoolBases.GetValueModes | AmorLib/Utils/JsonElementConverters/BoolBase.cs:20-28 | True gives true, False gives false, and Unchanged gives the input back |
| BoolBases.PassesThroughIff | AmorLib/Utils/JsonElementConverters/BoolBase.cs:20-28 | only Unchanged depends on the input |
| BoolBases.FromBoolForces | AmorLib/Utils/JsonElementConverters/BoolBase.cs:10-28 | an override built from b yields b whatever the input, and equals the matching static instance |
| BoolBases.GetValueIdempotent | AmorLib/Utils/JsonElementConverters/BoolBase.cs:20-28 | applying an override twice is applying it once |
| BoolBases.StaticInstances | AmorLib/Utils/JsonElementConverters/BoolBase.cs:30-32 | the static instances carry their matching modes |
| Strings.EqualsAny | AmorLib/Utils/Extensions/StringExtensions.cs:7-18 | true exactly when some argument equals the input in the chosen mode; false with no arguments |
| Strings.OrdinalImpliesIgnoreCase | AmorLib/Utils/Extensions/StringExtensions.cs:9-12 | every ordinal match is also a case-insensitive match |
| Strings.OrdinalIsMembership | AmorLib/Utils/Extensions/StringExtensions.cs:9-12 | without case folding, the result is membership of the input in the arguments |
| Strings.OrderIrrelevant | AmorLib/Utils/Extensions/StringExtensions.cs:10-16 | the result does not depend on the order or repetition of the arguments |

## Left out

- Payload.Decode: a state type larger than the size class gives none, whereas `PtrToStructure` in ReplicatorPayload.cs would read past the copied bytes into the rest of the buffer (ReplicatorPayload.cs:75-81, 113-122); unspecified memory contents are not modelled.
- StateReplicators.LifeTimeType: only `Permanent` and `Session` exist, so the error path of `Create` for any other (cast) enumeration value, which logs and returns null (StateReplicator.Static.cs:82-86), is not representable.
- Transport and players: `NetworkAPI`, `SNet` and `SNet_Player` are the `Net` parameter and the `Outbox`. Delivery, ordering and loss are not modelled.
- Event wiring is not modelled: the registration checks (StateReplicator.Static.cs:107-129), and the `SNetEvents` and `LevelEvents` forwarding. Hooks are methods that callers invoke directly.
- Channel names are not modelled. They are derived with MD5 and Base64 (StateReplicator.Static.cs:23-33), which are library calls; channels are the constants `ClientRequest`, `HostSetState`, `HostSetRecallState` and `Handshake`.
- The marshalled memory layout (ReplicatorPayload.cs:99-122) is not modelled. A state is its byte sequence of the type's length, so converting to and from bytes is the identity.
- Logging is not modelled. Where the source logs and returns, the model returns.
- Handshake.ReplicatorHandshake.ClientSyncRequest: the source passes a null master to the transport on a non-master with no master; the model sends nothing there.
- Collections.FirstOrDefaultAllValues: the C# `default` result is `None`.
- PluginVersions.Match: `\d` is taken as the ASCII digits only. .NET also accepts other Unicode decimal digits.
- PluginVersions.CompareTo: the semantic-version library's `Version.CompareTo` is abstracted. The comparison is lexicographic on (major, minor, patch), and a pre-release label orders a version below its release.
- Strings.EqualsMode: ordinal case-insensitive comparison is a per-character fold `fold`, given as a parameter. A string is a sequence of Unicode scalar values rather than UTF-16 code units, so lone surrogates are not representable and a surrogate pair is one character. A null input or argument array, which throws in the source, is not representable either.
- GlobalBase's `ToString` (GlobalBase.cs:85) is not modelled, because it prints the game's enumeration names. JSON attributes and the event subscriptions of its constructor are not modelled either.
- GlobalIndexes: `Reality`, `MainLayer` and `Zone_0` are the game's enumeration values, taken as 0. `Dimension.GetDimension` and `TryGetZone` are lookup parameters.
- CourseNodes.BuildMap: it requires at least one cell and a span below Int32Max on each axis; the empty map and overflowing spans are not modelled.
- CourseNodes.MapPos: the subtraction `cell - min` is taken on unbounded integers. The source's Int32 arithmetic could wrap for cells far outside the bounds.
- `CourseNodeUtil.GetNode` and `GetCourseNode` (CourseNodeUtil.cs:54-63, 164 on) are not modelled: they convert float positions to cells and choose by distance and height. The per-dimension `_maps` dictionary is not modelled either; `BuildMap` builds one dimension's map.
- LightWorker: `Setup`, `ToggleLightFlicker` and `Reset` (LightWorker.cs:131-136) are not modelled. They are Unity glue, and `Reset` removes entries while it enumerates the list it changes. Colour, intensity and enabled are opaque values compared with exact equality, whereas Unity's `Color ==` is approximate, so a near-equal colour that the source does not re-apply is stored and applied here. `AddModifier` takes the priority explicitly; its default of `LightPriority.Normal` (LightWorker.cs:86) is not modelled.
- `SyncedEvent`, `SyncedEventMasterOnly`, `LightAPI`, `LowResColor`, `ValueBase`, `LocaleText`, the Harmony patches and plugin bootstrap are not part of this model.
- StateReplicators.ReplicatorType: it is built from the as-written `GetSizeType`, so a state above 256 bytes gets the 8-byte class, and every `Set` on it fails.

## Findings

| source | as written | input that shows it | evidently intended | confidence | as-written member | corrected member |
|---|---|---|---|---|---|---|
| AmorLib/Networking/StateReplicators/StateReplicator.Static.cs:94-102 | the scan starts at 8 and takes only classes strictly above the running choice, so 4 and 8 are never chosen; above 256 bytes it returns 8 | a 4-byte state gets 16, a 17-byte state gets 32, and a 300-byte state gets 8 | the smallest class holding the state, and no class above 256 bytes | not executed | SizeClass.AsWrittenSkipsSmallClasses | SizeClass.SmallestSizeClassIsLeast |
| AmorLib/Networking/StateReplicators/ReplicatorHandshake.cs:171-174 | `SetHostState` and `SetClientState` update a copy of the value tuple when the ID is already tracked | host Created, then client Created, for the same ID: the entry stays (true, false) | the existing entry's flag is overwritten, so both sides meet | not executed | Handshake.AsWrittenSecondFlagLost | Handshake.IntendedRendezvous |
| AmorLib/Networking/StateReplicators/ReplicatorHandshake.cs:142 | `UpdateDestroyed` records its side's flag as true, the same as Created | Destroyed on the master for an untracked ID records (true, false) | Destroyed records false | not executed | Handshake.AsWrittenSecondFlagLost | Handshake.IntendedRendezvous |
| AmorLib/API/LightWorker.cs:120 | the fallback current node is chosen before the removed node leaves its list | one modifier added, then removed: it stays current although no list holds it | choose the fallback after the removal, and have no current node when every list is empty | not executed | LightWorkers.OnlyModifierRemoved | LightWorkers.IntendedRemoveKeepsTop |
| AmorLib/Utils/GlobalBase.cs:65 | the geomorph hook looks the zone up with the cached tuple without refreshing it | a new entry, then LocalIndex set to 1, then the geomorph batch: the lookup uses (0, 0, 0) | refresh the caches before the lookup | not executed | GlobalIndexes.StaleZoneExample | GlobalIndexes.GlobalBase.OnAfterBuildBatchRefreshed |
