/** The client side of a PipeWire client node (src/pipewire/remote.c): the
    state a process keeps for a local node that a remote server drives, and
    the handlers for what the server sends.

    The server talks to the client over two channels: protocol events
    (`add_mem`, `transport`, `command`, `port_use_buffers`, ...) and a
    shared-memory transport with an eventfd for real-time messages.  The
    model keeps the memory table, the transport (port tables, I/O slots,
    graph ports, the polled socket and the queued messages) and a log of
    everything the client does to the outside world. */
module ClientNode {
  import opened Spa
  import opened MemTable
  import opened PortBuffers

  /** Events a data-loop I/O source can be interested in or report. */
  datatype IoFlag = IoIn | IoErr | IoHup

  /** Real-time messages the server queues on the transport. */
  datatype InMessage =
    | ProcessInput
    | ProcessOutput
    | PortReuseBuffer(portId: u32, bufferId: u32)
    | OtherMessage(code: u32)

  /** Real-time messages the client queues for the server. */
  datatype OutMessage = NeedInputMsg | HaveOutputMsg

  /** What the client does to the world outside its own state, in order. */
  datatype Effect =
    | Send(msg: OutMessage)                        // queued on the transport
    | Wake                                         // 8-byte write to the rt write fd
    | Done(reqSeq: u32, res: int)                     // reply to a server request
    | LocalCommand(cmd: NodeCommand)               // command sent to the local node
    | GraphHaveOutput                              // have_output on the input-side graph node
    | GraphNeedInput                               // need_input on the output-side graph node
    | ReuseOnPeer(peerPort: u32, bufferId: u32)    // reuse_buffer on a linked local port
    | SetIo(dir: Direction, portId: u32, ioId: u32, ptr: Option<Addr>, size: nat)
    | PortUpdate(dir: Direction, portId: u32)      // parameters and info sent to the server
    | PortCommand(dir: Direction, portId: u32, code: u32)
    | SetActive(active: bool)

  /** An input port of the output-side graph node: its id and, when it is
      linked to a local port, the id of that peer port. */
  datatype GraphPort = GraphPort(portId: u32, peer: Option<u32>)

  /** The transport the server created: port tables and I/O slots for each
      direction, the graph ports reuse requests go through, the rt write fd,
      the interest mask of the polled rt socket (absent once the source is
      removed), and the queued real-time messages. */
  datatype Transport = Transport(
    maxIn: u32, maxOut: u32,
    inPorts: seq<Port>, outPorts: seq<Port>,
    inputs: seq<IoBuffers>, outputs: seq<IoBuffers>,
    outGraph: seq<GraphPort>,
    writeFd: int,
    source: Option<set<IoFlag>>,
    inbox: seq<InMessage>)

  /** `struct node_data`, reduced to what the handlers touch. */
  datatype Node = Node(t: Table, trans: Option<Transport>, active: bool, out: seq<Effect>)

  /** The port and slot tables have the sizes the transport announced. */
  predicate ValidTransport(tr: Transport)
  {
    && |tr.inPorts| == tr.maxIn && |tr.outPorts| == tr.maxOut
    && |tr.inputs| == tr.maxIn && |tr.outputs| == tr.maxOut
  }

  function Ports(tr: Transport, dir: Direction): seq<Port>
  {
    if dir == Input then tr.inPorts else tr.outPorts
  }

  function MaxPorts(tr: Transport, dir: Direction): u32
  {
    if dir == Input then tr.maxIn else tr.maxOut
  }

  /** Every buffer of every port refers to entries inside a table of `n`
      entries. */
  predicate PortsInTable(ports: seq<Port>, n: nat)
  {
    forall i :: 0 <= i < |ports| ==> RefsInTable(ports[i].buffers, n)
  }

  /** The node state the handlers keep. */
  predicate ValidNode(n: Node)
  {
    n.trans.Some? ==>
      && ValidTransport(n.trans.value)
      && PortsInTable(n.trans.value.inPorts, |n.t.mems|)
      && PortsInTable(n.trans.value.outPorts, |n.t.mems|)
  }

  // ---------------------------------------------------------------------
  // find_port

  /** `find_port` as written: the bound check uses `>`, so `port_id` equal
      to the maximum passes and indexes one past the port table. */
  function FindPortAsWritten(tr: Transport, dir: Direction, portId: u32): (r: Option<nat>)
    ensures r.Some? <==> portId <= MaxPorts(tr, dir)
    ensures r.Some? ==> r.value == portId
  {
    if portId > MaxPorts(tr, dir) then None else Some(portId)
  }

  /** For every transport, the port id equal to the maximum is accepted by
      `find_port` as written and lies outside the port table. */
  lemma FindPortAsWrittenOverruns(tr: Transport, dir: Direction)
    requires ValidTransport(tr)
    ensures FindPortAsWritten(tr, dir, MaxPorts(tr, dir)).Some?
    ensures FindPortAsWritten(tr, dir, MaxPorts(tr, dir)).value == |Ports(tr, dir)|
  {
  }

  /** `find_port` with the bound check `>=`: a port is found exactly when
      its id is below the maximum, and it is then inside the port table. */
  function FindPort(tr: Transport, dir: Direction, portId: u32): (r: Option<nat>)
    requires ValidTransport(tr)
    ensures r.Some? <==> portId < MaxPorts(tr, dir)
    ensures r.Some? ==> r.value == portId && r.value < |Ports(tr, dir)|
  {
    if portId >= MaxPorts(tr, dir) then None else Some(portId)
  }

  function WithPort(tr: Transport, dir: Direction, i: nat, p: Port): (r: Transport)
    requires ValidTransport(tr) && i < |Ports(tr, dir)|
    ensures ValidTransport(r)
    ensures Ports(r, dir) == Ports(tr, dir)[i := p]
    ensures dir == Input ==> r.outPorts == tr.outPorts
    ensures dir == Output ==> r.inPorts == tr.inPorts
  {
    if dir == Input then tr.(inPorts := tr.inPorts[i := p]) else tr.(outPorts := tr.outPorts[i := p])
  }

  // ---------------------------------------------------------------------
  // node_need_input, node_have_output, impl_process_input/output

  /** `node_need_input`: queue one NEED_INPUT message and wake the server. */
  function NodeNeedInput(n: Node): (r: Node)
    ensures r.out == n.out + [Send(NeedInputMsg), Wake]
    ensures r.(out := n.out) == n
  {
    n.(out := n.out + [Send(NeedInputMsg), Wake])
  }

  /** `node_have_output`: queue one HAVE_OUTPUT message and wake the server. */
  function NodeHaveOutput(n: Node): (r: Node)
    ensures r.out == n.out + [Send(HaveOutputMsg), Wake]
    ensures r.(out := n.out) == n
  {
    n.(out := n.out + [Send(HaveOutputMsg), Wake])
  }

  /** `impl_process_input` of the output-side graph node: the local graph
      has produced output for the server. */
  function ProcessInputImpl(n: Node): (r: (Node, int))
  {
    (NodeHaveOutput(n), 0)
  }

  /** `impl_process_output` of the input-side graph node: the local graph
      wants input from the server. */
  function ProcessOutputImpl(n: Node): (r: (Node, int))
  {
    (NodeNeedInput(n), 0)
  }

  /** The number of messages of kind `m` the effects `out` queue. */
  function Sent(out: seq<Effect>, m: OutMessage): nat
  {
    Count(out, Send(m))
  }

  /** Each graph callback succeeds, queues exactly one message of its kind
      and none of the other, and wakes the server once. */
  lemma ProcessImplQueuesOneMessage(n: Node)
    ensures ProcessInputImpl(n).1 == 0 && ProcessOutputImpl(n).1 == 0
    ensures var d := ProcessInputImpl(n).0.out[|n.out|..];
      Sent(d, HaveOutputMsg) == 1 && Sent(d, NeedInputMsg) == 0 && Count(d, Wake) == 1
    ensures var d := ProcessOutputImpl(n).0.out[|n.out|..];
      Sent(d, NeedInputMsg) == 1 && Sent(d, HaveOutputMsg) == 0 && Count(d, Wake) == 1
  {
    assert ProcessInputImpl(n).0.out[|n.out|..] == [Send(HaveOutputMsg), Wake];
    assert ProcessOutputImpl(n).0.out[|n.out|..] == [Send(NeedInputMsg), Wake];
  }

  // ---------------------------------------------------------------------
  // client_node_command

  /** The rt socket is being polled: a transport exists and its source has
      not been removed.  Pause and Start update the source's mask and need
      it. */
  predicate Polling(n: Node)
  {
    n.trans.Some? && n.trans.value.source.Some?
  }

  /** `client_node_command`.  Pause polls for errors only, forwards the
      command and replies with its result.  Start also polls for input,
      forwards the command, marks every input slot as needing a buffer,
      asks the server for input and then replies.  ClockUpdate does nothing.
      Any other command is answered with `-ENOTSUP`.  `localRes` is what the
      local node answered. */
  function Command(n: Node, reqSeq: u32, cmd: NodeCommand, localRes: int): (r: Node)
    requires (cmd.Pause? || cmd.Start?) ==> Polling(n)
    ensures r.t == n.t && r.active == n.active
    ensures cmd.Pause? ==>
      && r.trans == Some(n.trans.value.(source := Some({IoErr, IoHup})))
      && r.out == n.out + [LocalCommand(Pause), Done(reqSeq, localRes)]
    ensures cmd.Start? ==>
      && r.trans.Some?
      && r.trans.value == n.trans.value.(source := Some({IoIn, IoErr, IoHup}), inputs := r.trans.value.inputs)
      && |r.trans.value.inputs| == |n.trans.value.inputs|
      && (forall i :: 0 <= i < |r.trans.value.inputs| ==>
            r.trans.value.inputs[i] == n.trans.value.inputs[i].(status := NeedBuffer))
      && r.out == n.out + [LocalCommand(Start), Send(NeedInputMsg), Wake, Done(reqSeq, localRes)]
    ensures cmd.ClockUpdate? ==> r == n
    ensures cmd.OtherCommand? ==> r == n.(out := n.out + [Done(reqSeq, -ENOTSUP)])
  {
    match cmd
    case Pause =>
      var tr := n.trans.value.(source := Some({IoErr, IoHup}));
      n.(trans := Some(tr), out := n.out + [LocalCommand(Pause), Done(reqSeq, localRes)])
    case Start =>
      var tr0 := n.trans.value;
      var ins := seq(|tr0.inputs|, i requires 0 <= i < |tr0.inputs| => tr0.inputs[i].(status := NeedBuffer));
      var tr := tr0.(source := Some({IoIn, IoErr, IoHup}), inputs := ins);
      var n1 := n.(trans := Some(tr), out := n.out + [LocalCommand(Start)]);
      var n2 := NodeNeedInput(n1);
      n2.(out := n2.out + [Done(reqSeq, localRes)])
    case ClockUpdate => n
    case OtherCommand(_) => n.(out := n.out + [Done(reqSeq, -ENOTSUP)])
  }

  /** Pause then Start: the server is asked for input exactly once, only
      after both replies' commands reached the local node, and the socket
      ends up polled for input with every input slot waiting for a buffer. */
  lemma PauseThenStart(n: Node, s1: u32, s2: u32, r1: int, r2: int)
    requires Polling(n)
    ensures var m := Command(Command(n, s1, Pause, r1), s2, Start, r2);
      && m.trans.value.source == Some({IoIn, IoErr, IoHup})
      && (forall i :: 0 <= i < |m.trans.value.inputs| ==> m.trans.value.inputs[i].status == NeedBuffer)
      && m.out[|n.out|..] == [LocalCommand(Pause), Done(s1, r1), LocalCommand(Start), Send(NeedInputMsg), Wake, Done(s2, r2)]
  {
    var m := Command(Command(n, s1, Pause, r1), s2, Start, r2);
    assert m.out[|n.out|..] == [LocalCommand(Pause), Done(s1, r1), LocalCommand(Start), Send(NeedInputMsg), Wake, Done(s2, r2)];
  }

  /** A command the node does not know is answered, and nothing else
      happens; a clock update is not even answered. */
  lemma UnknownCommandOnlyReplies(n: Node, s: u32, code: u32, res: int)
    ensures Command(n, s, OtherCommand(code), res).out[|n.out|..] == [Done(s, -ENOTSUP)]
    ensures Count(Command(n, s, ClockUpdate, res).out[|n.out|..], Done(s, res)) == 0
  {
    assert Command(n, s, OtherCommand(code), res).out[|n.out|..] == [Done(s, -ENOTSUP)];
    assert Command(n, s, ClockUpdate, res).out[|n.out|..] == [];
  }

  // ---------------------------------------------------------------------
  // handle_rtnode_message and the drain loop of on_rtsocket_condition

  /** The graph port `g` has id `portId` and is linked to a local port. */
  predicate LinkedAs(g: GraphPort, portId: u32)
  {
    g.portId == portId && g.peer.Some?
  }

  /** Index of the first graph port with id `portId` that is linked. */
  function FirstLinked(gs: seq<GraphPort>, portId: u32, i: nat): (r: Option<nat>)
    requires i <= |gs|
    ensures r.Some? ==> i <= r.value < |gs| && LinkedAs(gs[r.value], portId)
    ensures r.Some? ==> forall j :: i <= j < r.value ==> !LinkedAs(gs[j], portId)
    ensures r.None? <==> forall j :: i <= j < |gs| ==> !LinkedAs(gs[j], portId)
    decreases |gs| - i
  {
    if i == |gs| then None
    else if LinkedAs(gs[i], portId) then Some(i)
    else FirstLinked(gs, portId, i + 1)
  }

  /** `handle_rtnode_message`: PROCESS_INPUT reports output of the
      input-side graph node, PROCESS_OUTPUT asks the output-side graph node
      for input, REUSE_BUFFER is handed to the peer of the first linked
      graph port with the requested id and dropped when there is none, and
      anything else is ignored. */
  function HandleMessage(tr: Transport, m: InMessage): (r: seq<Effect>)
    ensures m.ProcessInput? ==> r == [GraphHaveOutput]
    ensures m.ProcessOutput? ==> r == [GraphNeedInput]
    ensures m.PortReuseBuffer? ==>
      var g := FirstLinked(tr.outGraph, m.portId, 0);
      if g.Some? then r == [ReuseOnPeer(tr.outGraph[g.value].peer.value, m.bufferId)]
      else r == []
    ensures m.OtherMessage? ==> r == []
    ensures |r| <= 1
  {
    match m
    case ProcessInput => [GraphHaveOutput]
    case ProcessOutput => [GraphNeedInput]
    case PortReuseBuffer(p, b) =>
      (match FirstLinked(tr.outGraph, p, 0)
       case None => []
       case Some(g) => [ReuseOnPeer(tr.outGraph[g].peer.value, b)])
    case OtherMessage(_) => []
  }

  /** Reference definition of draining: every message handled, in order. */
  function Dispatch(tr: Transport, msgs: seq<InMessage>): seq<Effect>
  {
    if |msgs| == 0 then [] else HandleMessage(tr, msgs[0]) + Dispatch(tr, msgs[1..])
  }

  /** Draining two batches in a row is draining their concatenation. */
  lemma {:induction false} DispatchConcat(tr: Transport, a: seq<InMessage>, b: seq<InMessage>)
    ensures Dispatch(tr, a + b) == Dispatch(tr, a) + Dispatch(tr, b)
    decreases |a|
  {
    if |a| == 0 {
      assert a + b == b;
    } else {
      assert (a + b)[1..] == a[1..] + b;
      DispatchConcat(tr, a[1..], b);
    }
  }

  /** Every PROCESS_INPUT and PROCESS_OUTPUT message yields exactly one
      graph call of its kind. */
  lemma {:induction false} DispatchCountsProcess(tr: Transport, msgs: seq<InMessage>)
    ensures Count(Dispatch(tr, msgs), GraphHaveOutput) == Count(msgs, ProcessInput)
    ensures Count(Dispatch(tr, msgs), GraphNeedInput) == Count(msgs, ProcessOutput)
    decreases |msgs|
  {
    if |msgs| > 0 {
      DispatchCountsProcess(tr, msgs[1..]);
      CountConcat(HandleMessage(tr, msgs[0]), Dispatch(tr, msgs[1..]));
    }
  }

  /** The drain loop of `on_rtsocket_condition`: handle every queued
      message in order and leave the queue empty. */
  method DrainInbox(n: Node) returns (r: Node)
    requires n.trans.Some?
    ensures r.trans == Some(n.trans.value.(inbox := []))
    ensures r.out == n.out + Dispatch(n.trans.value, n.trans.value.inbox)
    ensures r.t == n.t && r.active == n.active
  {
    var tr := n.trans.value;
    var out := n.out;
    var i := 0;
    while i < |tr.inbox|
      invariant 0 <= i <= |tr.inbox|
      invariant out == n.out + Dispatch(tr, tr.inbox[..i])
    {
      DispatchConcat(tr, tr.inbox[..i], [tr.inbox[i]]);
      assert tr.inbox[..i + 1] == tr.inbox[..i] + [tr.inbox[i]];
      assert Dispatch(tr, [tr.inbox[i]]) == HandleMessage(tr, tr.inbox[i]);
      out := out + HandleMessage(tr, tr.inbox[i]);
      i := i + 1;
    }
    assert tr.inbox[..i] == tr.inbox;
    r := n.(trans := Some(tr.(inbox := [])), out := out);
  }

  /** `on_rtsocket_condition`: on an error or hang-up the socket source is
      removed and nothing queued is handled; otherwise, when input is
      signalled, the queue is drained. */
  method OnRtsocketCondition(n: Node, mask: set<IoFlag>) returns (r: Node)
    requires n.trans.Some?
    ensures (IoErr in mask || IoHup in mask) ==> r == n.(trans := Some(n.trans.value.(source := None)))
    ensures !(IoErr in mask || IoHup in mask) && IoIn in mask ==>
      && r.trans == Some(n.trans.value.(inbox := []))
      && r.out == n.out + Dispatch(n.trans.value, n.trans.value.inbox)
      && r.t == n.t
    ensures !(IoErr in mask || IoHup in mask) && IoIn !in mask ==> r == n
  {
    if IoErr in mask || IoHup in mask {
      r := n.(trans := Some(n.trans.value.(source := None)));
    } else if IoIn in mask {
      r := DrainInbox(n);
    } else {
      r := n;
    }
  }

  // ---------------------------------------------------------------------
  // client_node_port_set_io

  /** `client_node_port_set_io`: an unknown port or memory id, or a failed
      mapping, sets nothing; the invalid memory id clears the slot; any
      other id maps the entry (once) and hands the pointer to the local
      node. */
  function PortSetIo(n: Node, dir: Direction, portId: u32, ioId: u32, memId: u32, offset: nat, size: nat, env: Env)
    : (r: Node)
    requires n.trans.Some? && ValidTransport(n.trans.value)
    ensures r.trans == n.trans && r.active == n.active
    ensures FindPort(n.trans.value, dir, portId).None? ==> r == n
    ensures FindPort(n.trans.value, dir, portId).Some? && memId == ID_INVALID ==>
      r == n.(out := n.out + [SetIo(dir, portId, ioId, None, 0)])
    ensures FindPort(n.trans.value, dir, portId).Some? && memId != ID_INVALID && FindMem(n.t.mems, memId).None? ==>
      r == n
    ensures FindPort(n.trans.value, dir, portId).Some? && memId != ID_INVALID && FindMem(n.t.mems, memId).Some? ==>
      var (t1, ptr) := MemMap(n.t, FindMem(n.t.mems, memId).value, offset, size, env);
      && r.t == t1
      && r.out == n.out + (if ptr.Some? then [SetIo(dir, portId, ioId, ptr, size)] else [])
  {
    match FindPort(n.trans.value, dir, portId)
    case None => n
    case Some(_) =>
      if memId == ID_INVALID then n.(out := n.out + [SetIo(dir, portId, ioId, None, 0)])
      else
        match FindMem(n.t.mems, memId)
        case None => n
        case Some(k) =>
          var (t1, ptr) := MemMap(n.t, k, offset, size, env);
          if ptr.None? then n.(t := t1)
          else n.(t := t1, out := n.out + [SetIo(dir, portId, ioId, ptr, size)])
  }

  /** Once an I/O area has been mapped from an entry, setting I/O again
      from the same entry hands out the same pointer, whatever window is
      asked for, without mapping again. */
  lemma PortSetIoReusesMapping(n: Node, dir: Direction, portId: u32, ioId: u32, memId: u32,
                               off1: nat, size1: nat, off2: nat, size2: nat, env: Env)
    requires n.trans.Some? && ValidTransport(n.trans.value)
    requires FindPort(n.trans.value, dir, portId).Some? && memId != ID_INVALID
    requires FindMem(n.t.mems, memId).Some?
    requires var k := FindMem(n.t.mems, memId).value; MemMap(n.t, k, off1, size1, env).1.Some?
    ensures var n1 := PortSetIo(n, dir, portId, ioId, memId, off1, size1, env);
      var n2 := PortSetIo(n1, dir, portId, ioId, memId, off2, size2, env);
      && n2.t == n1.t
      && n2.out == n1.out + [SetIo(dir, portId, ioId, n1.out[|n1.out| - 1].ptr, size2)]
  {
    var k := FindMem(n.t.mems, memId).value;
    var n1 := PortSetIo(n, dir, portId, ioId, memId, off1, size1, env);
    MemMapReusesFirstMapping(n.t, k, off1, size1, off2, size2, env);
    SameIdsSameFind(n.t.mems, MemMap(n.t, k, off1, size1, env).0.mems, memId);
  }

  /** Lookups depend only on the ids, position by position. */
  lemma SameIdsSameFind(a: seq<MemId>, b: seq<MemId>, id: u32)
    requires |a| == |b| && forall j :: 0 <= j < |a| ==> a[j].id == b[j].id
    ensures FindMem(a, id) == FindMem(b, id)
  {
  }

  // ---------------------------------------------------------------------
  // client_node_port_set_param, client_node_port_command

  /** `client_node_port_set_param`: an unknown or unbound port gets
      `-EINVAL`; otherwise the local port's answer is the reply, and a
      successful change is followed by a port update to the server. */
  function PortSetParam(n: Node, reqSeq: u32, dir: Direction, portId: u32, localRes: int): (r: Node)
    requires n.trans.Some? && ValidTransport(n.trans.value)
    ensures r.t == n.t && r.trans == n.trans && r.active == n.active
    ensures var p := FindPort(n.trans.value, dir, portId);
      if p.None? || !Ports(n.trans.value, dir)[p.value].bound then r.out == n.out + [Done(reqSeq, -EINVAL)]
      else if localRes < 0 then r.out == n.out + [Done(reqSeq, localRes)]
      else r.out == n.out + [PortUpdate(dir, portId), Done(reqSeq, localRes)]
  {
    match FindPort(n.trans.value, dir, portId)
    case None => n.(out := n.out + [Done(reqSeq, -EINVAL)])
    case Some(i) =>
      if !Ports(n.trans.value, dir)[i].bound then n.(out := n.out + [Done(reqSeq, -EINVAL)])
      else if localRes < 0 then n.(out := n.out + [Done(reqSeq, localRes)])
      else n.(out := n.out + [PortUpdate(dir, portId), Done(reqSeq, localRes)])
  }

  /** `client_node_port_command`: forwarded to a found port, dropped for an
      unknown one; never answered. */
  function PortCommandOp(n: Node, dir: Direction, portId: u32, code: u32): (r: Node)
    requires n.trans.Some? && ValidTransport(n.trans.value)
    ensures r.(out := n.out) == n
    ensures FindPort(n.trans.value, dir, portId).Some? <==> r.out == n.out + [PortCommand(dir, portId, code)]
    ensures FindPort(n.trans.value, dir, portId).None? <==> r.out == n.out
  {
    match FindPort(n.trans.value, dir, portId)
    case None => n
    case Some(_) => n.(out := n.out + [PortCommand(dir, portId, code)])
  }

  // ---------------------------------------------------------------------
  // client_node_port_use_buffers

  /** `client_node_port_use_buffers`: an unknown port gets `-EINVAL` and
      nothing changes; otherwise the port's buffers are replaced (mapped
      writable for output ports) and the result is the reply. */
  function PortUseBuffers(n: Node, reqSeq: u32, dir: Direction, portId: u32, decls: seq<BufferDecl>, env: Env, localRes: int)
    : (r: Node)
    requires ValidNode(n) && n.trans.Some?
    ensures ValidNode(r) && r.trans.Some? && r.active == n.active
    ensures |r.t.mems| == |n.t.mems|
    ensures FindPort(n.trans.value, dir, portId).None? ==> r == n.(out := n.out + [Done(reqSeq, -EINVAL)])
    ensures FindPort(n.trans.value, dir, portId).Some? ==>
      var i := FindPort(n.trans.value, dir, portId).value;
      var u := UseBuffers(n.t, Ports(n.trans.value, dir)[i], decls, env, dir == Output, localRes);
      && r.t == u.t
      && r.trans == Some(WithPort(n.trans.value, dir, i, u.port))
      && r.out == n.out + [Done(reqSeq, u.res)]
  {
    var tr := n.trans.value;
    match FindPort(tr, dir, portId)
    case None => n.(out := n.out + [Done(reqSeq, -EINVAL)])
    case Some(i) =>
      assert RefsInTable(Ports(tr, dir)[i].buffers, |n.t.mems|);
      var u := UseBuffers(n.t, Ports(tr, dir)[i], decls, env, dir == Output, localRes);
      var tr1 := WithPort(tr, dir, i, u.port);
      assert PortsInTable(tr1.inPorts, |u.t.mems|) && PortsInTable(tr1.outPorts, |u.t.mems|) by {
        forall j | 0 <= j < |Ports(tr1, dir)| ensures RefsInTable(Ports(tr1, dir)[j].buffers, |u.t.mems|) {
          if j != i { assert Ports(tr1, dir)[j] == Ports(tr, dir)[j]; }
        }
      }
      Node(u.t, Some(tr1), n.active, n.out + [Done(reqSeq, u.res)])
  }

  // ---------------------------------------------------------------------
  // reference counts across all ports

  /** References all buffers of `ports` hold on entry `k`. */
  function PortsRefs(ports: seq<Port>, k: nat): nat
  {
    if |ports| == 0 then 0 else BufRefs(ports[0].buffers, k) + PortsRefs(ports[1..], k)
  }

  /** References all buffers of the node hold on entry `k`. */
  function NodeRefs(n: Node, k: nat): nat
  {
    if n.trans.None? then 0 else PortsRefs(n.trans.value.inPorts, k) + PortsRefs(n.trans.value.outPorts, k)
  }

  /** Each memory entry's count is the number of references the buffers of
      all ports hold on it. */
  predicate RefsConsistent(n: Node)
  {
    ValidNode(n) && forall k: nat :: k < |n.t.mems| ==> n.t.mems[k].ref == NodeRefs(n, k)
  }

  lemma {:induction false} PortsRefsUpdate(ports: seq<Port>, i: nat, p: Port, k: nat)
    requires i < |ports|
    ensures PortsRefs(ports, k) >= BufRefs(ports[i].buffers, k)
    ensures PortsRefs(ports[i := p], k) == PortsRefs(ports, k) - BufRefs(ports[i].buffers, k) + BufRefs(p.buffers, k)
    decreases |ports|
  {
    if i > 0 {
      PortsRefsUpdate(ports[1..], i - 1, p, k);
      assert ports[i := p][1..] == ports[1..][i - 1 := p];
    }
  }

  /** Replacing one port's buffers keeps every count equal to the
      references held across all ports. */
  lemma PortUseBuffersKeepsRefs(n: Node, reqSeq: u32, dir: Direction, portId: u32, decls: seq<BufferDecl>, env: Env, localRes: int)
    requires RefsConsistent(n) && n.trans.Some?
    ensures RefsConsistent(PortUseBuffers(n, reqSeq, dir, portId, decls, env, localRes))
  {
    var tr := n.trans.value;
    var r := PortUseBuffers(n, reqSeq, dir, portId, decls, env, localRes);
    match FindPort(tr, dir, portId)
    case None =>
    case Some(i) =>
      var p := Ports(tr, dir)[i];
      forall k: nat | k < |n.t.mems| ensures BufRefs(p.buffers, k) <= n.t.mems[k].ref {
        PortsRefsUpdate(Ports(tr, dir), i, p, k);
      }
      assert RefsInTable(p.buffers, |n.t.mems|);
      UseBuffersRefs(n.t, p, decls, env, dir == Output, localRes);
      var u := UseBuffers(n.t, p, decls, env, dir == Output, localRes);
      var tr1 := WithPort(tr, dir, i, u.port);
      assert r.t == u.t && r.trans == Some(tr1);
      forall k: nat | k < |r.t.mems| ensures r.t.mems[k].ref == NodeRefs(r, k) {
        PortsRefsUpdate(Ports(tr, dir), i, u.port, k);
        assert u.t.mems[k].ref == n.t.mems[k].ref - BufRefs(p.buffers, k) + BufRefs(u.port.buffers, k);
        assert NodeRefs(r, k) == PortsRefs(tr1.inPorts, k) + PortsRefs(tr1.outPorts, k);
      }
  }

  // ---------------------------------------------------------------------
  // clean_transport, client_node_transport, node_proxy_destroy

  /** `clean_transport`: without a transport nothing happens; otherwise the
      socket source goes, every memory entry is released, the table is
      emptied, the rt write fd is closed and the transport is dropped. */
  function CleanTransport(n: Node): (r: Node)
    ensures r.trans.None? && r.active == n.active && r.out == n.out
    ensures n.trans.None? ==> r == n
    ensures n.trans.Some? ==> r.t.mems == []
  {
    match n.trans
    case None => n
    case Some(tr) =>
      var t1 := ClearAll(n.t);
      Node(Table([], t1.sys.(closed := t1.sys.closed + multiset{tr.writeFd})), None, n.active, n.out)
  }

  /** Tearing the transport down closes each distinct fd the table holds
      exactly once, and the rt write fd. */
  lemma CleanTransportClosesEachFdOnce(n: Node)
    requires n.trans.Some?
    ensures CleanTransport(n).t.sys.closed
      == n.t.sys.closed + multiset(FdsFrom(n.t.mems, 0)) + multiset{n.trans.value.writeFd}
  {
    ClearAllClosesEachFdOnce(n.t);
  }

  /** A port of a fresh transport: no buffers, in order, bound when a local
      port with its id exists. */
  function FreshPort(bound: bool): Port
  {
    Port([], bound, true)
  }

  /** `client_node_transport`: the previous transport is torn down, then
      port tables and I/O slots are created for the announced maxima, every
      slot starts empty, each port is bound when a local port with its id
      exists (`localIn`/`localOut`), each output graph port is linked to its
      local port, the rt socket is polled for errors only, and an active
      node tells the server so. */
  function CreateTransport(n: Node, maxIn: u32, maxOut: u32, writeFd: int, localIn: set<u32>, localOut: set<u32>)
    : (r: Node)
    ensures r.trans.Some? && ValidTransport(r.trans.value) && ValidNode(r)
    ensures r.t == CleanTransport(n).t
    ensures var tr := r.trans.value;
      && tr.maxIn == maxIn && tr.maxOut == maxOut && tr.writeFd == writeFd
      && tr.source == Some({IoErr, IoHup}) && tr.inbox == []
      && (forall i :: 0 <= i < maxIn ==> tr.inputs[i] == IO_BUFFERS_INIT && tr.inPorts[i] == FreshPort(i in localIn))
      && (forall i :: 0 <= i < maxOut ==> tr.outputs[i] == IO_BUFFERS_INIT && tr.outPorts[i] == FreshPort(i in localOut))
      && |tr.outGraph| == maxOut
      && (forall i :: 0 <= i < maxOut ==>
            tr.outGraph[i] == GraphPort(i, if i in localOut then Some(i as u32) else None))
    ensures r.out == n.out + (if n.active then [SetActive(true)] else [])
    ensures RefsConsistent(n) ==> RefsConsistent(r)
  {
    var n1 := CleanTransport(n);
    var tr := Transport(
      maxIn, maxOut,
      seq(maxIn, i requires 0 <= i < maxIn => FreshPort(i in localIn)),
      seq(maxOut, i requires 0 <= i < maxOut => FreshPort(i in localOut)),
      seq(maxIn, _ => IO_BUFFERS_INIT),
      seq(maxOut, _ => IO_BUFFERS_INIT),
      seq(maxOut, i requires 0 <= i < maxOut => GraphPort(i, if i in localOut then Some(i as u32) else None)),
      writeFd, Some({IoErr, IoHup}), []);
    var r := Node(n1.t, Some(tr), n.active, n.out + (if n.active then [SetActive(true)] else []));
    NoBuffersNoRefs(tr.inPorts);
    NoBuffersNoRefs(tr.outPorts);
    r
  }

  lemma {:induction false} NoBuffersNoRefs(ports: seq<Port>)
    requires forall i :: 0 <= i < |ports| ==> ports[i].buffers == []
    ensures forall k: nat :: PortsRefs(ports, k) == 0
    ensures forall n: nat :: PortsInTable(ports, n)
    decreases |ports|
  {
    if |ports| > 0 {
      NoBuffersNoRefs(ports[1..]);
    }
  }

  /** `clear_port` over a port table: every port loses its buffers, in
      order, each dropping its references. */
  function ClearPorts(t: Table, ports: seq<Port>): (r: (Table, seq<Port>))
    requires PortsInTable(ports, |t.mems|)
    ensures |r.0.mems| == |t.mems| && |r.1| == |ports|
    ensures forall i :: 0 <= i < |ports| ==> r.1[i] == ports[i].(buffers := [])
    decreases |ports|
  {
    if |ports| == 0 then (t, [])
    else
      var (t1, p1) := ClearBuffers(t, ports[0]);
      assert PortsInTable(ports[1..], |t1.mems|);
      var rest := ClearPorts(t1, ports[1..]);
      (rest.0, [p1] + rest.1)
  }

  lemma {:induction false} ClearPortsKeepsLedger(t: Table, ports: seq<Port>)
    requires PortsInTable(ports, |t.mems|)
    ensures Ledger(ClearPorts(t, ports).0) == Ledger(t)
    decreases |ports|
  {
    if |ports| > 0 {
      ClearBidsKeepsLedger(t, ports[0].buffers);
      var t1 := ClearBuffers(t, ports[0]).0;
      assert PortsInTable(ports[1..], |t1.mems|);
      ClearPortsKeepsLedger(t1, ports[1..]);
    }
  }

  /** `node_proxy_destroy`: every port of both directions loses its buffers,
      then the transport is torn down. */
  function NodeProxyDestroy(n: Node): (r: Node)
    requires ValidNode(n)
    ensures r.trans.None? && r.out == n.out
    ensures n.trans.None? ==> r == n
    ensures n.trans.Some? ==> r.t.mems == []
  {
    match n.trans
    case None => n
    case Some(tr) =>
      var (t1, ins) := ClearPorts(n.t, tr.inPorts);
      assert PortsInTable(tr.outPorts, |t1.mems|);
      var (t2, outs) := ClearPorts(t1, tr.outPorts);
      CleanTransport(Node(t2, Some(tr.(inPorts := ins, outPorts := outs)), n.active, n.out))
  }

  /** Destroying the node proxy closes every distinct fd the memory table
      holds exactly once, whether it is closed when the last buffer using
      it goes or when the table is emptied, and closes the rt write fd. */
  lemma NodeProxyDestroyClosesEachFdOnce(n: Node)
    requires ValidNode(n) && n.trans.Some?
    ensures NodeProxyDestroy(n).t.sys.closed
      == n.t.sys.closed + multiset(FdsFrom(n.t.mems, 0)) + multiset{n.trans.value.writeFd}
  {
    var tr := n.trans.value;
    var t1 := ClearPorts(n.t, tr.inPorts).0;
    ClearPortsKeepsLedger(n.t, tr.inPorts);
    assert PortsInTable(tr.outPorts, |t1.mems|);
    var t2 := ClearPorts(t1, tr.outPorts).0;
    ClearPortsKeepsLedger(t1, tr.outPorts);
    ClearAllClosesEachFdOnce(t2);
    var t3 := ClearAll(t2);
    assert forall j :: 0 <= j < |t3.mems| ==> t3.mems[j].fd == -1;
    assert FdsFrom(t3.mems, 0) == {};
  }

  // ---------------------------------------------------------------------
  // the port lists of in_node and out_node across transports

  /** A graph port linked into `in_node` or `out_node`: the transport whose
      port array holds it (numbered from 1) and its index in that array. */
  datatype GraphEntry = GraphEntry(gen: nat, index: nat)

  /** The port list of one of the two graph nodes, which live as long as
      the node proxy: the entries linked into it, the number of the latest
      transport, whether that transport is still in place, and its port
      count. */
  datatype GraphList = GraphList(entries: seq<GraphEntry>, gen: nat, live: bool, size: nat)

  /** The list as `client_node_proxy_init` leaves it: empty, no transport. */
  const GRAPH_INIT: GraphList := GraphList([], 0, false, 0)

  /** An entry whose port array has been freed. */
  predicate Stale(g: GraphList, e: GraphEntry)
  {
    !(g.live && e.gen == g.gen)
  }

  /** One graph port per index of transport `gen`, in order. */
  function FreshEntries(gen: nat, n: nat): (r: seq<GraphEntry>)
    ensures |r| == n && forall i :: 0 <= i < n ==> r[i] == GraphEntry(gen, i)
  {
    seq(n, i requires 0 <= i < n => GraphEntry(gen, i))
  }

  /** `spa_graph_port_remove` of the ports of transport `gen` whose index is
      in `idx`; every other entry stays, in order. */
  function Unlink(es: seq<GraphEntry>, gen: nat, idx: set<nat>): (r: seq<GraphEntry>)
    ensures forall e :: e in r <==> e in es && !(e.gen == gen && e.index in idx)
    decreases |es|
  {
    if |es| == 0 then []
    else (if es[0].gen == gen && es[0].index in idx then [] else [es[0]]) + Unlink(es[1..], gen, idx)
  }

  /** The list part of `client_node_transport` as written: `clean_transport`
      unlinks only the graph ports at the indices of the local ports
      `bound`, then frees the port array; the new transport links one graph
      port per index below its maximum `n`. */
  function RelinkAsWritten(g: GraphList, bound: set<nat>, n: nat): (r: GraphList)
    ensures r.live && r.gen == g.gen + 1 && r.size == n
    ensures forall i :: 0 <= i < n ==> GraphEntry(r.gen, i) in r.entries
    ensures forall e :: e in g.entries && !(g.live && e.gen == g.gen && e.index in bound) ==> e in r.entries
  {
    var kept := if g.live then Unlink(g.entries, g.gen, bound) else g.entries;
    GraphList(kept + FreshEntries(g.gen + 1, n), g.gen + 1, true, n)
  }

  /** Replacing a transport leaves every graph port of an index without a
      local port linked, although its port array has been freed. */
  lemma RelinkAsWrittenKeepsFreed(g: GraphList, bound: set<nat>, n: nat, i: nat)
    requires g.live && GraphEntry(g.gen, i) in g.entries && i !in bound
    ensures var r := RelinkAsWritten(g, bound, n);
      GraphEntry(g.gen, i) in r.entries && Stale(r, GraphEntry(g.gen, i))
  {
  }

  /** Two transports in a row, each with two output ports, while the node
      has one local port, port 0: graph port 1 of the first transport is
      still linked after its array was freed. */
  lemma ReplaceTransportLeavesFreedPort()
    ensures var g1 := RelinkAsWritten(GRAPH_INIT, {0}, 2);
      var g2 := RelinkAsWritten(g1, {0}, 2);
      && GraphEntry(1, 1) in g2.entries && Stale(g2, GraphEntry(1, 1))
      && g2.entries == [GraphEntry(1, 1), GraphEntry(2, 0), GraphEntry(2, 1)]
  {
    var g1 := RelinkAsWritten(GRAPH_INIT, {0}, 2);
    assert g1.entries == [GraphEntry(1, 0), GraphEntry(1, 1)];
    assert Unlink(g1.entries, 1, {0}) == [GraphEntry(1, 1)] by {
      assert g1.entries[1..] == [GraphEntry(1, 1)];
      assert Unlink([GraphEntry(1, 1)], 1, {0}) == [GraphEntry(1, 1)] + Unlink([], 1, {0});
    }
  }

  /** The indices below `n`. */
  function Below(n: nat): (r: set<nat>)
    ensures forall i: nat :: i in r <==> i < n
  {
    if n == 0 then {} else Below(n - 1) + {n - 1}
  }

  /** The list holds exactly the graph ports of the transport in place. */
  predicate GraphOk(g: GraphList)
  {
    g.entries == if g.live then FreshEntries(g.gen, g.size) else []
  }

  /** `client_node_transport` with `clean_transport` unlinking the graph
      port of every index of the old transport.  From a consistent list the
      result again holds exactly the new transport's graph ports, so no
      entry is stale. */
  function Relink(g: GraphList, n: nat): (r: GraphList)
    requires GraphOk(g)
    ensures GraphOk(r) && r.live && r.gen == g.gen + 1 && r.size == n
    ensures forall e :: e in r.entries ==> !Stale(r, e) && e.index < n
  {
    var kept := if g.live then Unlink(g.entries, g.gen, Below(g.size)) else g.entries;
    UnlinkAll(g.entries, g.gen, Below(g.size));
    GraphList(kept + FreshEntries(g.gen + 1, n), g.gen + 1, true, n)
  }

  /** The two versions agree exactly when every index of the old transport
      had a local port, which is when the source leaves nothing stale. */
  lemma RelinkVersionsAgree(g: GraphList, bound: set<nat>, n: nat)
    requires GraphOk(g)
    ensures RelinkAsWritten(g, bound, n) == Relink(g, n)
      <==> (g.live ==> forall i: nat :: i < g.size ==> i in bound)
  {
    var r1, r2 := RelinkAsWritten(g, bound, n), Relink(g, n);
    if g.live && exists i: nat :: i < g.size && i !in bound {
      var i: nat :| i < g.size && i !in bound;
      assert FreshEntries(g.gen, g.size)[i] == GraphEntry(g.gen, i);
      assert GraphEntry(g.gen, i) in r1.entries;
      assert GraphEntry(g.gen, i) !in r2.entries;
    } else if g.live {
      UnlinkAll(g.entries, g.gen, bound);
      UnlinkAll(g.entries, g.gen, Below(g.size));
    }
  }

  /** Unlinking every entry's own index leaves nothing. */
  lemma {:induction false} UnlinkAll(es: seq<GraphEntry>, gen: nat, idx: set<nat>)
    requires forall i :: 0 <= i < |es| ==> es[i].gen == gen && es[i].index in idx
    ensures Unlink(es, gen, idx) == []
    decreases |es|
  {
    if |es| > 0 {
      UnlinkAll(es[1..], gen, idx);
    }
  }
}
