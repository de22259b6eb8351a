# PipeWire client node and ALSA plugin core, modelled in Dafny

This project models three parts of an early PipeWire tree.

**The client side of a remote node (src/pipewire/remote.c).** A process exports a local node to the PipeWire server. The server drives it through protocol events and through a shared-memory transport with an eventfd.

- The memory-id table (`MemTable`) covers `add_mem`, lazy `mmap`, `clear_memid`, and the fd bookkeeping that closes each shared fd exactly once.
- Port buffers (`PortBuffers`) covers `clear_buffers` and the import loop of `port_use_buffers`: metadata layout, data planes, and reference counting on memory entries.
- The node (`ClientNode`) covers:
  - port lookup;
  - the real-time message handlers and the rt-socket drain;
  - node commands;
  - `port_set_io`, `port_set_param`, `port_command` and `port_use_buffers`;
  - transport creation and teardown;
  - the port lists of the two graph nodes, which outlive each transport.
- The remote's connection state machine (`RemoteState`) covers `pw_remote_update_state`, `pw_remote_state_as_string` and the core `done`/`error` events.

**The ALSA source's buffer pool (spa/plugins/alsa/alsa-source.c, module `AlsaSource`).** This part covers:

- the properties, node commands and port parameters;
- `use_buffers`, which fills the free list;
- `recycle_buffer`, `reuse_buffer` and `process_output`, which return buffers to the list.

**The ALSA udev monitor (spa/plugins/alsa/alsa-monitor.c, module `AlsaMonitor`).** This part covers:

- `path_get_card_id`;
- `open_card`/`close_card`;
- the `get_next_device` cursor over a card's PCM devices and streams;
- the classification and naming done by `fill_item`;
- the mapping from a udev action to a monitor event.

`Spa` holds the shared vocabulary: 32-bit ids, errno values, `Option`, directions, I/O areas, data types, node commands, and the string truncation `snprintf` performs.

**How effects are modelled.** System calls are not performed. Instead:

- `mmap` is an oracle parameter (`MemTable.Env`).
- `munmap` and `close` are recorded as counters and a multiset of closed fds (`MemTable.Sys`).
- What the client sends to the server or to local nodes is an ordered log of `ClientNode.Effect`s.
- ALSA and udev calls are parameters that carry their results.

Reference counts are unbounded naturals. The one place where the model wraps the source's 32-bit `ref` is the decrement of an entry whose count is already zero, which `PortBuffers.DecRef` writes out explicitly.

**Behaviour kept as the code has it:**

- A data plane of unknown type only draws a warning and is kept as declared (src/pipewire/remote.c:1132-1134). `PortBuffers.ImportPlane` does the same.
- Transport teardown releases every memory entry whatever its reference count (src/pipewire/remote.c:652-654). The model does too.
- Releasing an entry follows `clear_memid` as written (src/pipewire/remote.c:608-630): an entry whose fd another entry still holds keeps its mapping. `PortBuffers.DecRef` and the teardown loop `MemTable.ClearAllFrom` are built on `MemTable.ClearMemIdAsWritten`. The corrected `MemTable.ClearMemId` is stated beside it, for the finding below.

## Model

| member | source | states |
|---|---|---|
| MemTable.FindMem | src/pipewire/remote.c:572-581 | the result is the first entry carrying the id; none is found exactly when no entry carries it |
| MemTable.AddMem | src/pipewire/remote.c:685-709 | an id already in the table leaves the table unchanged; a new id is appended as an unmapped entry with no references |
| MemTable.AddMemThenFind | src/pipewire/remote.c:693-708 | after adding, looking the id up finds an entry with that id; a newly added entry keeps the given fd and flags |
| MemTable.AddMemIdempotent | src/pipewire/remote.c:693-698 | adding the same id a second time, whatever fd and flags it brings, changes nothing |
| MemTable.MemMap | src/pipewire/remote.c:583-598 | an already mapped entry is reused without a new `mmap`; otherwise the entry records the page range of the requested window and one `mmap` of that range is made, succeeding exactly when the `mmap` does and keeping the address it gives; the address returned is the mapping plus the in-page start; no other entry, no fd and no reference count changes |
| MemTable.MemMapReusesFirstMapping | src/pipewire/remote.c:585-597 | a second mapping request on a mapped entry returns the same base mapping and performs no further `mmap`, whatever range it asks for |
| MemTable.MemUnmap | src/pipewire/remote.c:599-606 | the entry's mapping is dropped, with one `munmap` exactly when it was mapped; nothing else changes |
| MemTable.ClearMemIdAsWritten | src/pipewire/remote.c:608-630 | an entry without an fd is left alone; otherwise it loses fd and id; while another entry holds the fd it keeps its mapping and nothing is closed; as the fd's last holder it loses its mapping (one `munmap` when mapped) and the fd is closed; other entries are untouched |
| MemTable.ClearMemIdAsWrittenKeepsLedger | src/pipewire/remote.c:608-630 | releasing an entry as written keeps the closed fds plus the fds still held unchanged, so no fd is closed twice or lost |
| MemTable.ClearMemIdVersionsAgree | src/pipewire/remote.c:608-630 | the release as written and the corrected release close the same fds and leave the same fds and ids; they differ only in a mapped entry whose fd is shared |
| MemTable.ClearMemIdAsWrittenLeaksMapping | src/pipewire/remote.c:619-628 | two entries share fd 5 and the first is mapped; after both are released, fd 5 is closed but the first mapping is never unmapped |
| MemTable.ClearMemId | src/pipewire/remote.c:608-630 | the corrected release: releasing an entry always unmaps its own mapping; it closes its fd exactly when no other entry still holds that fd; every other entry is untouched |
| MemTable.ClearMemIdKeepsLedger | src/pipewire/remote.c:608-630 | the corrected release keeps invariant the multiset of closed fds plus the fds still held, so no fd is closed twice or lost |
| MemTable.ClearAllClosesEachFdOnce | src/pipewire/remote.c:652-654 | releasing every entry closes each distinct held fd exactly once and leaves no entry with an fd; an entry that had an fd keeps its mapping exactly when a later entry shares the fd, and loses it otherwise |
| MemTable.ClearAllFromClosesEachFdOnce | src/pipewire/remote.c:652-653 | the release loop from any position closes exactly the distinct fds held from there on; each released entry keeps its mapping exactly when a later entry shares its fd; already released entries are left alone |
| PortBuffers.DecRef | src/pipewire/remote.c:993-994 | a reference is dropped with 32-bit wrap-around; at zero the entry is released as `clear_memid` does it, keeping its mapping while another entry holds its fd; otherwise only its count changes; other entries are untouched |
| PortBuffers.DecAllAt | src/pipewire/remote.c:991-995 | dropping a list of references lowers each entry's count by how often the list names it; an entry reaching zero loses fd and id, and either keeps its mapping or loses it |
| PortBuffers.DecAllKeepsLedger | src/pipewire/remote.c:991-998 | dropping references never closes an fd twice: the fd ledger is unchanged |
| PortBuffers.ClearBuffers | src/pipewire/remote.c:978-1004 | clearing leaves the port with no buffers and the table the same length |
| PortBuffers.ClearBidsAt | src/pipewire/remote.c:986-1002 | clearing a buffer set lowers each entry's count by the references the set held on it; an entry that reaches zero loses its fd; an entry not referenced is untouched |
| PortBuffers.ClearBidsAccounts | src/pipewire/remote.c:986-1002 | the per-entry accounting of clearing, for every entry at once |
| PortBuffers.ClearBidsKeepsLedger | src/pipewire/remote.c:986-1002 | clearing buffers keeps the fd ledger |
| PortBuffers.LayoutMetas | src/pipewire/remote.c:1096-1102 | metadata areas are laid out one after another, and the next offset is the start plus their total size |
| PortBuffers.LayoutMetasLaysOut | src/pipewire/remote.c:1096-1102 | each metadata area points into the mapping at the start plus the sizes of the areas before it, and keeps its declared type and size |
| PortBuffers.ImportPlane | src/pipewire/remote.c:1104-1134 | an fd plane whose memory id is unknown fails; an fd plane takes the entry's fd and one reference on it; a pointer plane points into the mapping; the chunk sits at its slot after the metadata |
| PortBuffers.ImportDatas | src/pipewire/remote.c:1104-1135 | the plane loop fails exactly when some fd plane names an unknown memory id; otherwise it yields one plane per declaration |
| PortBuffers.ImportDatasImports | src/pipewire/remote.c:1104-1135 | on success every plane is imported as its declaration says |
| PortBuffers.ImportMapped | src/pipewire/remote.c:1062-1135 | a mapped buffer holds its own memory entry first, and fails with -EINVAL exactly when a plane's memory is unknown |
| PortBuffers.ImportMappedLaysOut | src/pipewire/remote.c:1076-1135 | a mapped buffer keeps the declared id, lays out its metadata at the window start, and imports its planes after it |
| PortBuffers.ImportOne | src/pipewire/remote.c:1035-1136 | a buffer whose memory id is unknown is rejected with -EINVAL; every error is a negative errno; the buffer only refers to entries in the table |
| PortBuffers.ImportOneImports | src/pipewire/remote.c:1038-1136 | a buffer imports without error exactly when it is importable, and then it is imported as declared |
| PortBuffers.ImportAllRunsThrough | src/pipewire/remote.c:1035-1137 | the loop runs to the end exactly when every step succeeds; otherwise it stops at the first error |
| PortBuffers.ImportAllAppendsEach | src/pipewire/remote.c:1035-1137 | a loop that runs through appends one buffer per declaration, in order |
| PortBuffers.ImportAllImported | src/pipewire/remote.c:1035-1137 | against the memory table, the loop succeeds exactly when every declaration is importable, and then each buffer is that declaration imported |
| PortBuffers.UseBuffers | src/pipewire/remote.c:1028-1149 | the previous buffers are cleared first; the port keeps its binding; every buffer refers only to table entries |
| PortBuffers.UseBuffersRefs | src/pipewire/remote.c:1031-1147 | every entry's count loses the old buffers' references and gains those of the buffers the port ends up holding |
| PortBuffers.UseBuffersImports | src/pipewire/remote.c:1035-1149 | when every declaration is importable, the port holds exactly the imported declarations and the result is the local port's; otherwise the port has no buffers and the result is a negative errno |
| PortBuffers.UseBuffersKeepsLedger | src/pipewire/remote.c:1028-1149 | using buffers never closes a still-held fd: the fd ledger is unchanged |
| ClientNode.FindPortAsWritten | src/pipewire/remote.c:671-683 | the lookup as written accepts every port id up to and including the maximum |
| ClientNode.FindPortAsWrittenOverruns | src/pipewire/remote.c:674-681 | the id equal to the maximum yields an index equal to the number of ports, one past the table |
| ClientNode.FindPort | src/pipewire/remote.c:671-683 | a port is found exactly when its id is below the direction's maximum, and the index is in the table |
| ClientNode.NodeNeedInput | src/pipewire/remote.c:858-865 | one need-input message is queued and the server is woken; nothing else changes |
| ClientNode.NodeHaveOutput | src/pipewire/remote.c:867-874 | one have-output message is queued and the server is woken; nothing else changes |
| ClientNode.ProcessImplQueuesOneMessage | src/pipewire/remote.c:1314-1328 | processing input queues exactly one have-output message and processing output exactly one need-input message; each wakes the server once and returns 0 |
| ClientNode.Command | src/pipewire/remote.c:876-934 | Pause polls the rt socket for errors only; Start polls it for input too, marks every input slot as needing a buffer and asks the server for input; both forward the command to the local node and reply with its result; a clock update changes nothing; any other command is answered -ENOTSUP |
| ClientNode.PauseThenStart | src/pipewire/remote.c:883-913 | pausing then starting restores the socket's interest in input, and replies to both requests in order |
| ClientNode.UnknownCommandOnlyReplies | src/pipewire/remote.c:915-933 | an unknown command produces only the -ENOTSUP reply; a clock update produces no reply |
| ClientNode.FirstLinked | src/pipewire/remote.c:525-532 | the result is the first graph port linked to a peer with the requested id; none exactly when no port is so linked |
| ClientNode.HandleMessage | src/pipewire/remote.c:502-539 | process-input becomes have-output on the graph, process-output becomes need-input; a reuse request goes to the first linked peer, if any; other messages do nothing |
| ClientNode.DispatchConcat | src/pipewire/remote.c:564-568 | dispatching two batches one after the other is dispatching their concatenation |
| ClientNode.DispatchCountsProcess | src/pipewire/remote.c:506-515 | dispatch emits exactly one have-output per process-input message and one need-input per process-output message |
| ClientNode.DrainInbox | src/pipewire/remote.c:553-569 | the drain loop empties the inbox and emits every message's handling in order; the table and the active flag are untouched |
| ClientNode.OnRtsocketCondition | src/pipewire/remote.c:541-570 | an error or hang-up removes the rt source and does nothing else; readable input drains the inbox; otherwise nothing happens |
| ClientNode.PortSetIo | src/pipewire/remote.c:1168-1212 | an unknown port is ignored; the invalid memory id clears the slot; an unknown memory id leaves things as they are; otherwise the memory is mapped and the slot points into it |
| ClientNode.PortSetIoReusesMapping | src/pipewire/remote.c:1194-1201 | a second I/O set on the same memory performs no new mapping |
| ClientNode.PortSetParam | src/pipewire/remote.c:948-976 | an unknown or unbound port is answered -EINVAL; a local failure is replied as is; on success the port's state is sent to the server before the reply |
| ClientNode.PortCommandOp | src/pipewire/remote.c:1151-1166 | the command is forwarded exactly when the port exists; nothing else changes |
| ClientNode.PortUseBuffers | src/pipewire/remote.c:1006-1149 | an unknown port is answered -EINVAL with nothing changed; otherwise the port's buffers are replaced and the result is replied; the node stays well formed |
| ClientNode.PortUseBuffersKeepsRefs | src/pipewire/remote.c:1031-1147 | every memory entry's reference count equals the references the node's buffers hold on it, before and after |
| ClientNode.CleanTransport | src/pipewire/remote.c:632-662 | the transport is dropped and the memory table is emptied; without a transport nothing changes |
| ClientNode.CleanTransportClosesEachFdOnce | src/pipewire/remote.c:652-654 | teardown closes each distinct held fd exactly once |
| ClientNode.CreateTransport | src/pipewire/remote.c:711-784 | the old transport is cleaned; the new one has the announced port counts, fresh ports bound where the local node has them, empty I/O slots, output graph ports linked to their local ports and the socket polled for errors only; an active node tells the server so; reference accounting stays consistent |
| ClientNode.Unlink | src/pipewire/remote.c:643-650 | the graph ports of the given transport at the given indices leave the list; every other entry stays |
| ClientNode.RelinkAsWritten | src/pipewire/remote.c:643-768 | as written, replacing a transport unlinks only the graph ports of indices with a local port; the new transport's graph port of every index below its maximum is linked, and the result holds that transport |
| ClientNode.RelinkAsWrittenKeepsFreed | src/pipewire/remote.c:643-657 | a graph port of the old transport at an index without a local port stays linked after its port array is freed |
| ClientNode.ReplaceTransportLeavesFreedPort | src/pipewire/remote.c:643-768 | two transports in a row with two output ports each, while local port 0 exists: graph port 1 of the first transport is still linked to `out_node` after the second transport is in place |
| ClientNode.Relink | src/pipewire/remote.c:711-784 | the corrected replacement, unlinking every graph port of the old transport: a list holding exactly the graph ports of the transport in place keeps that property, so nothing freed stays linked |
| ClientNode.RelinkVersionsAgree | src/pipewire/remote.c:643-650 | the two replacements give the same list exactly when every index of the old transport had a local port |
| ClientNode.ClearPorts | src/pipewire/remote.c:1280-1284 | every port is left with no buffers and is otherwise unchanged |
| ClientNode.ClearPortsKeepsLedger | src/pipewire/remote.c:1280-1284 | clearing all ports keeps the fd ledger |
| ClientNode.NodeProxyDestroy | src/pipewire/remote.c:1286-1301 | destroying the node proxy drops the transport and empties the memory table; without a transport nothing changes |
| ClientNode.NodeProxyDestroyClosesEachFdOnce | src/pipewire/remote.c:1286-1298 | destroying the proxy closes each distinct held fd exactly once |
| RemoteState.StateAsString | src/pipewire/remote.c:107-120 | a state outside the enumeration is named "invalid-state" and no valid state is |
| RemoteState.StateNamesRoundTrip | src/pipewire/remote.c:107-120 | a valid state's name reads back as that state |
| RemoteState.StateNamesDistinct | src/pipewire/remote.c:107-120 | distinct valid states have distinct names |
| RemoteState.UpdateState | src/pipewire/remote.c:123-150 | a change of state records the new state and message and emits one state-changed event from the old state; the same state changes nothing; the result is 0 |
| RemoteState.UpdateStateIdempotent | src/pipewire/remote.c:123-150 | updating twice to the same state is the same as updating once |
| RemoteState.UpdateStateKeepsHistory | src/pipewire/remote.c:123-150 | the emitted events replay from the initial state to the current state |
| RemoteState.CoreEventDone | src/pipewire/remote.c:161-170 | the reply to sync 0 makes the remote connected; every reply is passed on to the listeners last |
| RemoteState.CoreEventError | src/pipewire/remote.c:172-176 | an error event enters the error state with the server's message |
| RemoteState.CoreEventsKeepHistory | src/pipewire/remote.c:161-176 | both core events keep the event history consistent with the state |
| AlsaSource.CheckPortMatchesNPorts | spa/plugins/alsa/alsa-source.c:211-230 | a port passes the port check exactly when it lies within the output port count reported |
| AlsaSource.DefaultProps | spa/plugins/alsa/alsa-source.c:35-42 | the default properties are device "hw:0" and minimum latency 1024 |
| AlsaSource.SetParam | spa/plugins/alsa/alsa-source.c:139-165 | only the props id is accepted (others give -ENOENT); no object resets to defaults; an object overwrites exactly the fields it carries |
| AlsaSource.SetParamResetsAndOverwrites | spa/plugins/alsa/alsa-source.c:139-165 | resetting is idempotent; a full object sets both fields; an empty object changes nothing |
| AlsaSource.SendCommand | spa/plugins/alsa/alsa-source.c:167-192 | Start without format or buffers gives -EIO; other commands than Start and Pause give -ENOTSUP; success means the driver call succeeded |
| AlsaSource.StartAfterUseBuffers | spa/plugins/alsa/alsa-source.c:167-192 | after a non-empty buffer set is accepted, Start succeeds exactly when the driver's start does; after a set of the output port is rejected for an unusable buffer, Start gives -EIO |
| AlsaSource.RecycleIdempotent | spa/plugins/alsa/alsa-source.c:276-287 | recycling a buffer twice is recycling it once |
| AlsaSource.RecycleKeepsPool | spa/plugins/alsa/alsa-source.c:276-287 | recycling keeps the free list duplicate-free, in range and free of outstanding buffers |
| AlsaSource.ClearBuffersKeepsPool | spa/plugins/alsa/alsa-source.c:400-408 | clearing empties the free list and keeps the pool well formed |
| AlsaSource.PortSetFormat | spa/plugins/alsa/alsa-source.c:410-448 | no format clears the format and the buffers; a format that is not parseable raw audio gives -EINVAL; a failing driver call returns its error; every failure changes nothing; otherwise the format is set |
| AlsaSource.PortSetParam | spa/plugins/alsa/alsa-source.c:450-471 | a bad port gives -EINVAL; an id other than format gives -ENOENT; otherwise the format is set |
| AlsaSource.ClearFormatStopsNode | spa/plugins/alsa/alsa-source.c:410-448 | after the format is cleared the pool is empty and well formed, and both Start and use_buffers fail with -EIO |
| AlsaSource.FillFree | spa/plugins/alsa/alsa-source.c:496-512 | the fill loop appends, in order, exactly the buffers before the first unusable one, and runs to the end exactly when there is no unusable one |
| AlsaSource.FillAccounts | spa/plugins/alsa/alsa-source.c:496-512 | the fill loop appends, in order, the buffers before the first unusable one; it runs to the end exactly when every buffer is usable, and then none is outstanding |
| AlsaSource.UseBuffersAsWrittenCorruptsFreeList | spa/plugins/alsa/alsa-source.c:505-510 | a rejected second buffer leaves buffer 0 on the free list with no buffers in use; a later good call then lists buffer 0 twice |
| AlsaSource.UseBuffersAsWrittenAccounts | spa/plugins/alsa/alsa-source.c:473-516 | as written: a bad port gives -EINVAL and no format -EIO, with nothing changed; otherwise the free list left by clearing gains the buffers before the first unusable one; success happens exactly when there is none, and then every buffer is in use; a rejected set gives -EINVAL with no buffer in use |
| AlsaSource.UseBuffersAccounts | spa/plugins/alsa/alsa-source.c:473-516 | the corrected version, which empties the free list on failure: the pool stays well formed; success happens exactly when the port, the format and every buffer are good, and then every buffer is free, in order; each failure has its own errno |
| AlsaSource.PortSetIo | spa/plugins/alsa/alsa-source.c:543-566 | a bad port gives -EINVAL; an unknown I/O id gives -ENOENT; the buffers I/O id sets the area |
| AlsaSource.ReuseBuffer | spa/plugins/alsa/alsa-source.c:568-587 | a bad port gives -EINVAL, no buffers gives -EIO and an id out of range gives -EINVAL; otherwise the buffer is recycled |
| AlsaSource.ProcessOutput | spa/plugins/alsa/alsa-source.c:602-621 | no I/O area gives -EIO; a buffer still pending reports have-buffer with nothing changed; otherwise a returned buffer in range is recycled and the area's buffer id is reset, and the result is 0 |
| AlsaSource.ProcessOutputIdempotent | spa/plugins/alsa/alsa-source.c:602-621 | processing output twice is processing it once |
| AlsaSource.ReturnsKeepPool | spa/plugins/alsa/alsa-source.c:568-621 | reuse_buffer and process_output both keep the pool well formed |
| AlsaMonitor.FirstNonEmptyAt | spa/plugins/alsa/alsa-monitor.c:128-135 | the first key with a non-empty value gives the name |
| AlsaMonitor.FirstNonEmptyNone | spa/plugins/alsa/alsa-monitor.c:128-135 | no name is found exactly when every key is missing or empty |
| AlsaMonitor.PathGetCardIdFinds | spa/plugins/alsa/alsa-monitor.c:90-104 | a path whose last component is "card" plus an id yields that id |
| AlsaMonitor.PathGetCardIdShape | spa/plugins/alsa/alsa-monitor.c:90-104 | any id found is the non-empty text after "card" in the last path component |
| AlsaMonitor.PathGetCardIdNull | spa/plugins/alsa/alsa-monitor.c:90-104 | a missing or empty path yields no id |
| AlsaMonitor.ScanYields | spa/plugins/alsa/alsa-monitor.c:255-301 | a device found is the least remaining device and stream with a known PCM, and the cursor moves just past it; with a readable card, no more devices means none remains; an unreadable card gives its error |
| AlsaMonitor.GetNextDeviceYields | spa/plugins/alsa/alsa-monitor.c:255-301 | the same property from the monitor's saved cursor |
| AlsaMonitor.FoundAdvances | spa/plugins/alsa/alsa-monitor.c:255-301 | every found device strictly reduces what remains, so the event loop terminates |
| AlsaMonitor.Walk | spa/plugins/alsa/alsa-monitor.c:327-339 | every pair yielded has a known PCM and a playback or capture stream |
| AlsaMonitor.WalkSound | spa/plugins/alsa/alsa-monitor.c:255-339 | every stream the loop yields is one the cursor could still reach, and an unreadable card yields nothing |
| AlsaMonitor.WalkOrdered | spa/plugins/alsa/alsa-monitor.c:255-339 | the loop yields streams in strictly increasing device-major order, so none twice |
| AlsaMonitor.WalkComplete | spa/plugins/alsa/alsa-monitor.c:255-339 | with a readable card, every reachable stream with a known PCM is yielded |
| AlsaMonitor.WalkYieldsEveryStream | spa/plugins/alsa/alsa-monitor.c:255-339 | the loop yields, in strictly increasing order, exactly the remaining device and stream pairs with a known PCM, and nothing for an unreadable card |
| AlsaMonitor.OpenCard | spa/plugins/alsa/alsa-monitor.c:226-253 | an already open card is kept; an ignored device, a modem or a device with no card id in its path gives -1; otherwise the card name is "hw:" and the id cut to 15 characters, a failing control open returns its error, and a newly opened card's cursor starts before the first device |
| AlsaMonitor.CloseCard | spa/plugins/alsa/alsa-monitor.c:219-224 | closing leaves no card open |
| AlsaMonitor.CloseThenOpenRestarts | spa/plugins/alsa/alsa-monitor.c:219-253 | closing and reopening a card starts its device walk from the beginning |
| AlsaMonitor.FreshWalkYieldsAll | spa/plugins/alsa/alsa-monitor.c:226-301 | from a freshly opened readable card, the walk yields every device and stream pair with a known PCM |
| AlsaMonitor.Classify | spa/plugins/alsa/alsa-monitor.c:115-126 | playback and capture streams are classified; any other stream yields no item |
| AlsaMonitor.ModelName | spa/plugins/alsa/alsa-monitor.c:128-136 | the item name is never empty |
| AlsaMonitor.ModelNameFallsBack | spa/plugins/alsa/alsa-monitor.c:128-136 | the name is the database model, else the encoded model, else the model, else "Unknown" |
| AlsaMonitor.NatToStringRoundTrip | spa/plugins/alsa/alsa-monitor.c:138 | the decimal rendering of a device number reads back as that number |
| AlsaMonitor.SignedDecimalOf | spa/plugins/alsa/alsa-monitor.c:138 | `%d` of a 32-bit device number prints it as is below 2^31 and as minus 2^32 minus it from there on |
| AlsaMonitor.DeviceNameRoundTrip | spa/plugins/alsa/alsa-monitor.c:138 | for a card name of at most 15 characters and a device number below 2^31, the device name is card name, comma and device number, untruncated |
| AlsaMonitor.DeviceNameNegative | spa/plugins/alsa/alsa-monitor.c:138 | for a card name of at most 15 characters and a device number from 2^31 to 2^32 - 1, the device name is card name, comma, minus sign and the digits of 2^32 minus the number, untruncated |
| AlsaMonitor.FillItem | spa/plugins/alsa/alsa-monitor.c:106-217 | an item is produced exactly for playback and capture streams, with their factory and class, the model name, the card and device names; the bus path is absent exactly when both the path property and the syspath are, and the vendor name exactly when every vendor key is |
| AlsaMonitor.ActionTypeRoundTrip | spa/plugins/alsa/alsa-monitor.c:312-322 | each event type's action name maps back to it; a missing action counts as a change; other actions are ignored |
| AlsaMonitor.OnFdEventsReports | spa/plugins/alsa/alsa-monitor.c:303-340 | an ignored action does nothing; a card that cannot be opened reports nothing; otherwise one event per walked stream is reported and the card is closed |

## Left out

- **System calls.** `mmap`, `munmap`, `close`, `mlock`, the eventfd `read`/`write` and the sysconf page size are not performed.
  - `mmap` and `pw_map_range_init` are oracles in `MemTable.Env`.
  - `munmap` and `close` are recorded in `MemTable.Sys`.
  - The eventfd write is the `Wake` effect.
  - A failing `mlock`, or a failing `read` of the eventfd, only logs in the source, so it is left out.
- **Logging.** All logging is left out.
- **Cross-thread and proxy plumbing.** The loop invocation that removes the rt source from the data thread is modelled as the source becoming absent. Not modelled:
  - the `pw_proxy`/`pw_remote` listener plumbing;
  - `pw_remote_connect`/`disconnect`;
  - `node_active_changed`;
  - `do_node_init`.
- **Server messages that only log.** `client_node_set_param`, `client_node_event`, `client_node_add_port`, `client_node_remove_port` and the client node's own `reuse_buffer` only log or return 0, so they are left out.
- **POD building and parsing.** These are not modelled.
  - Port updates sent to the server are the `PortUpdate` effect.
  - The ALSA property, format and item objects are records whose fields say what was parsed or built.
- **Local node and port calls.** `spa_node_send_command`, `pw_port_set_param` and `pw_port_use_buffers` are not visible. Their results are parameters.
- **Unexpected buffer ids.** A buffer whose id differs from its position only draws a warning in the source, so it is left out.
- **ALSA library and udev calls.** These are parameters carrying their results. Each card's device list, its PCM table and the card-info result stand for `snd_ctl_*`/`snd_pcm_info`.
  - AlsaMonitor.ScanYields: the error result of `snd_ctl_pcm_next_device` is not modelled. The device list is taken as given.
  - `impl_monitor_enum_items`, `impl_monitor_set_callbacks` and the udev enumeration and initialisation code are outside the modelled core.
- **ALSA source parts not modelled.** `spa_alsa_start`/`pause` and the driver's timing and reading are parameters. The `info.rate` update on a new format is left out.
- AlsaSource.SetParam: the copy of the device name into a fixed 64-byte buffer is not modelled, so a longer device string is kept whole.
- AlsaSource.UseBuffersAccounts: the bound of the source's fixed buffer array is not modelled, because it is defined in a header that is not part of this model. Any 32-bit count of buffers is accepted.
- AlsaMonitor.FillItem: the fixed properties of an item are not modelled, because they do not vary with the input. These are the "udev-probed" and "device.api" values, the item flags and the item state. Strings are sequences of characters, so embedded NUL bytes are not modelled.
- ClientNode.PortSetIo: a port id equal to the direction's maximum is treated as unknown, because the model uses the corrected `ClientNode.FindPort`. The source indexes one past the port array there (see Findings).
- ClientNode.PortSetParam: the same corrected lookup; the source indexes one past the port array for a port id equal to the maximum.
- ClientNode.PortCommandOp: the same corrected lookup; the source indexes one past the port array for a port id equal to the maximum.
- ClientNode.PortUseBuffers: the same corrected lookup; the source indexes one past the port array for a port id equal to the maximum.
- ClientNode.PortSetIo: on a port with no local port bound, the model emits the set-io call; the source dereferences the missing local port (src/pipewire/remote.c:1206), which is undefined behaviour.
- ClientNode.HandleMessage: a reuse request for an output port with no local port bound is dropped. In the source every output graph port is linked, and for such a port the peer belongs to no node, which is then dereferenced (src/pipewire/remote.c:525-530), undefined behaviour.
- ClientNode.CreateTransport: the transport's `outGraph` is built afresh, as the corrected `ClientNode.Relink` does. The source keeps the graph ports of unbound indices linked in `in_node`/`out_node` after `clean_transport` frees them (src/pipewire/remote.c:643-650, 656-657, 746, 768, 1367-1370); that is modelled on its own by `ClientNode.RelinkAsWritten` (see Findings), and the later reads of that freed memory (525, 509, 514) are not modelled.
- ClientNode.CreateTransport: a local port whose id is at or above the announced maximum is left unbound; the source writes past the port arrays for it (src/pipewire/remote.c:750-753 and 772-775), which is undefined behaviour.
- ClientNode.RelinkAsWritten: when a local port appears between two transports, `clean_transport` removes that index's graph ports although they were never linked (src/pipewire/remote.c:644-649; the first transport linked the local side only for ports that existed then, 750-753 and 772-775), which is undefined behaviour; the model treats removing an entry that is not in the list as doing nothing.
- PortBuffers.ImportMapped: a buffer refers to its memory entries by their index in the table, where the source keeps `struct mem_id` pointers into the storage of `mem_ids` (src/pipewire/remote.c:64, 1087, 1125). `client_node_add_mem` grows that array with `pw_array_add` (700) past the 64 entries reserved at 1364-1365, which can move the storage and leave earlier buffers' pointers dangling for `clear_buffers` (993-994); the model does not capture this, and the array implementation is not part of this model.
- PortBuffers.ImportOne: a failed buffer `mmap` leaves a clean new entry in the model; in the source the slot added by `pw_array_add` (src/pipewire/remote.c:1045) still holds stale memory references and buffer pointer that the cleanup then reads.
- PortBuffers.ImportPlane: the MemPtr offset is an unsigned 32-bit value; the source converts the pointer with `SPA_PTR_TO_INT` (src/pipewire/remote.c:1129), so an offset of 2^31 or more would be negative there.
- PortBuffers.DecAllAt: says only that an entry reaching zero keeps or loses its mapping; which one depends on whether another entry holds its fd at that moment, as `PortBuffers.DecRef` states for a single step.
- RemoteState.CoreEventError: the server's message is stored verbatim. The source passes it to `pw_remote_update_state` as the `printf` format with no arguments (src/pipewire/remote.c:175, formatted at 130-134), so a message with `%` conversions would be expanded, and a failed allocation stores no message; neither is modelled.
- ClientNode.Command: Pause and Start require a transport with its rt source in place, because the source dereferences both without a check.
- PortBuffers.AddRefs: reference increments do not wrap at 2^32. Only the decrement of a zero count models the 32-bit wrap.

## Findings

| source | as written | input that shows it | evidently intended | confidence | as-written member | corrected member |
|---|---|---|---|---|---|---|
| src/pipewire/remote.c:674-681 | `find_port` rejects only ids `> max_input_ports` / `> max_output_ports` | port id equal to the maximum: the index returned equals the port count, one past the array | reject ids `>=` the maximum | not executed | ClientNode.FindPortAsWrittenOverruns | ClientNode.FindPort |
| src/pipewire/remote.c:619-628 | `clear_memid` unmaps an entry's mapping only when it also closes the fd | two entries sharing fd 5, the first mapped: after both are released fd 5 is closed and the first mapping is never unmapped | always unmap the entry's own mapping; close the fd only when no other entry holds it | not executed | MemTable.ClearMemIdAsWrittenLeaksMapping | MemTable.ClearMemId |
| src/pipewire/remote.c:643-650 | `clean_transport` unlinks from `in_node`/`out_node` only the graph ports of indices that have a local port, then frees the port arrays (656-657), while `client_node_transport` links a graph port for every index (746, 768) | two transports in a row with two output ports each, while the node has local port 0: graph port 1 of the freed first array is still in `out_node`'s list | unlink the graph ports of every index before freeing the arrays | not executed | ClientNode.ReplaceTransportLeavesFreedPort | ClientNode.Relink |
| spa/plugins/alsa/alsa-source.c:505-510 | `use_buffers` returns -EINVAL on an unusable buffer and leaves the earlier buffers on the free list while `n_buffers` stays 0 | buffers [good, bad] on an empty pool, then [good]: buffer 0's list node is appended a second time, so its link points to itself and the free list loops (the model's list shows buffer 0 twice) | drop the partially filled free list on failure | not executed | AlsaSource.UseBuffersAsWrittenCorruptsFreeList | AlsaSource.UseBuffersAccounts |
