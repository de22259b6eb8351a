/** The buffer pool of the ALSA capture node (spa/plugins/alsa/alsa-source.c).

    The node has a single output port.  Buffers handed to it with
    `use_buffers` go on a free list; the capture side (in the ALSA helper
    code, not part of this model) takes buffers off the free list, marks
    them outstanding and hands them downstream.  A buffer comes back through
    `reuse_buffer` or through `process_output`, which recycle it: an
    outstanding buffer loses the flag and goes back on the free list.

    Calls into the ALSA helpers (`spa_alsa_start`, `spa_alsa_pause`,
    `spa_alsa_set_format`, `spa_alsa_close`) are not modelled; where their
    result matters it is a parameter. */
module AlsaSource {
  import opened Spa

  /** `struct props`: the ALSA device name and the minimum latency. */
  datatype Props = Props(device: string, minLatency: u32)

  const DEFAULT_DEVICE: string := "hw:0"
  const DEFAULT_MIN_LATENCY: u32 := 1024

  /** `SPA_STATUS_HAVE_BUFFER` as a return value (`1 << 1`). */
  const STATUS_HAVE_BUFFER: int := 2

  /** Parameter ids of the node and of its port. */
  datatype ParamId = IdProps | IdFormat | OtherParam(code: u32)

  /** The fields of a Props object: each is optional. */
  datatype PropsPod = PropsPod(device: Option<string>, minLatency: Option<u32>)

  /** What `port_set_format` reads from a format object: whether its media
      type is audio and its subtype raw, and whether the raw audio info
      parses. */
  datatype FormatPod = FormatPod(isAudio: bool, isRaw: bool, rawParses: bool)

  /** What `use_buffers` reads from a buffer: the type of its first data
      plane and whether that plane's data pointer is set. */
  datatype BufferDesc = BufferDesc(firstType: DataType, firstMapped: bool)

  /** I/O area ids. */
  datatype IoId = IoBuffersId | OtherIo(code: u32)

  /** `struct state`, reduced to the pool: properties, whether a format is
      set, the number of buffers in use, the `outstanding` flag of each
      slot of the buffer array (a slot never written reads as not
      outstanding), the free and ready lists of buffer indices, and the I/O
      area (absent is NULL). */
  datatype Source = Source(
    props: Props,
    haveFormat: bool,
    nBuffers: u32,
    slots: seq<bool>,
    free: seq<nat>,
    ready: seq<nat>,
    io: Option<IoBuffers>)

  predicate Outstanding(s: Source, i: nat)
  {
    i < |s.slots| && s.slots[i]
  }

  predicate Distinct(xs: seq<nat>)
  {
    forall i, j :: 0 <= i < j < |xs| ==> xs[i] != xs[j]
  }

  /** The pool is consistent: the free list names each buffer in use at
      most once, and only buffers in use that are not outstanding. */
  predicate PoolOk(s: Source)
  {
    && Distinct(s.free)
    && forall i :: 0 <= i < |s.free| ==> s.free[i] < s.nBuffers && !Outstanding(s, s.free[i])
  }

  // ---------------------------------------------------------------------
  // ports

  /** `CHECK_PORT`. */
  predicate CheckPort(dir: Direction, portId: u32)
  {
    dir == Output && portId == 0
  }

  /** `impl_node_get_n_ports`: input ports and their maximum, output ports
      and their maximum. */
  function GetNPorts(): (r: (nat, nat, nat, nat))
  {
    (0, 0, 1, 1)
  }

  /** The ports `CHECK_PORT` accepts are exactly the ones the node reports:
      none on the input side, one output port with id 0. */
  lemma CheckPortMatchesNPorts(dir: Direction, portId: u32)
    ensures var (nIn, maxIn, nOut, maxOut) := GetNPorts();
      && nIn == maxIn && nOut == maxOut
      && (CheckPort(dir, portId) <==>
            (dir == Input && portId < maxIn) || (dir == Output && portId < maxOut))
  {
  }

  // ---------------------------------------------------------------------
  // properties

  /** `reset_props`. */
  function DefaultProps(): (p: Props)
    ensures p.device == "hw:0" && p.minLatency == 1024
  {
    Props(DEFAULT_DEVICE, DEFAULT_MIN_LATENCY)
  }

  /** `impl_node_set_param`: Props without an object resets them, Props
      with one takes each field it carries; any other id is `-ENOENT` and
      changes nothing. */
  function SetParam(s: Source, id: ParamId, param: Option<PropsPod>): (r: (Source, int))
    ensures id != IdProps ==> r == (s, -ENOENT)
    ensures id == IdProps ==> r.1 == 0 && r.0 == s.(props := r.0.props)
    ensures id == IdProps && param.None? ==> r.0.props == DefaultProps()
    ensures id == IdProps && param.Some? ==>
      && r.0.props.device == (if param.value.device.Some? then param.value.device.value else s.props.device)
      && r.0.props.minLatency == (if param.value.minLatency.Some? then param.value.minLatency.value else s.props.minLatency)
  {
    if id != IdProps then (s, -ENOENT)
    else
      match param
      case None => (s.(props := DefaultProps()), 0)
      case Some(p) =>
        var device := if p.device.Some? then p.device.value else s.props.device;
        var lat := if p.minLatency.Some? then p.minLatency.value else s.props.minLatency;
        (s.(props := Props(device, lat)), 0)
  }

  /** Resetting is idempotent, and a Props object that carries every field
      sets the properties to exactly those fields whatever they were. */
  lemma SetParamResetsAndOverwrites(s: Source, device: string, lat: u32)
    ensures SetParam(SetParam(s, IdProps, None).0, IdProps, None) == SetParam(s, IdProps, None)
    ensures SetParam(s, IdProps, Some(PropsPod(Some(device), Some(lat)))).0.props == Props(device, lat)
    ensures SetParam(s, IdProps, Some(PropsPod(None, None))).0 == s
  {
  }

  // ---------------------------------------------------------------------
  // commands

  /** `impl_node_send_command`: Start needs a format and buffers (`-EIO`)
      and then returns what the driver's start returns on failure; Pause
      returns what the driver's pause returns on failure; anything else is
      `-ENOTSUP`.  `driverRes` is the driver call's result. */
  function SendCommand(s: Source, cmd: NodeCommand, driverRes: int): (r: int)
    ensures r == 0 <==>
      (cmd.Start? && s.haveFormat && s.nBuffers > 0 && driverRes >= 0) || (cmd.Pause? && driverRes >= 0)
    ensures cmd.Start? && (!s.haveFormat || s.nBuffers == 0) ==> r == -EIO
    ensures !cmd.Start? && !cmd.Pause? ==> r == -ENOTSUP
    ensures r != 0 ==> r < 0
  {
    match cmd
    case Start =>
      if !s.haveFormat then -EIO
      else if s.nBuffers == 0 then -EIO
      else if driverRes < 0 then driverRes
      else 0
    case Pause => if driverRes < 0 then driverRes else 0
    case _ => -ENOTSUP
  }

  // ---------------------------------------------------------------------
  // recycle_buffer, clear_buffers

  /** `recycle_buffer`: an outstanding buffer loses the flag and is
      appended to the free list; any other buffer is left alone. */
  function Recycle(s: Source, id: nat): (r: Source)
    ensures Outstanding(s, id) ==>
      && !Outstanding(r, id) && r.free == s.free + [id]
      && |r.slots| == |s.slots|
      && (forall i :: 0 <= i < |s.slots| && i != id ==> r.slots[i] == s.slots[i])
      && r == s.(slots := r.slots, free := r.free)
    ensures !Outstanding(s, id) ==> r == s
  {
    if !Outstanding(s, id) then s
    else s.(slots := s.slots[id := false], free := s.free + [id])
  }

  /** Recycling the same buffer twice is recycling it once: the free list
      never gets a buffer twice from recycling. */
  lemma RecycleIdempotent(s: Source, id: nat)
    ensures Recycle(Recycle(s, id), id) == Recycle(s, id)
  {
  }

  /** Recycling a buffer in use keeps the pool consistent. */
  lemma RecycleKeepsPool(s: Source, id: nat)
    requires PoolOk(s) && id < s.nBuffers
    ensures PoolOk(Recycle(s, id))
  {
    var r := Recycle(s, id);
    if Outstanding(s, id) {
      assert forall i :: 0 <= i < |s.free| ==> s.free[i] != id;
      forall i | 0 <= i < |r.free| ensures !Outstanding(r, r.free[i]) {
        if i < |s.free| { assert r.free[i] == s.free[i]; }
      }
    }
  }

  /** `clear_buffers`: with buffers in use, both lists are emptied and no
      buffer is in use any more; otherwise nothing changes. */
  function ClearBuffers(s: Source): (r: Source)
    ensures r.nBuffers == 0 && r.slots == s.slots && r.haveFormat == s.haveFormat
    ensures s.nBuffers > 0 ==> r.free == [] && r.ready == []
    ensures s.nBuffers == 0 ==> r == s
  {
    if s.nBuffers > 0 then s.(free := [], ready := [], nBuffers := 0) else s
  }

  /** Clearing keeps a consistent pool consistent (the free list of a pool
      without buffers in use is already empty). */
  lemma ClearBuffersKeepsPool(s: Source)
    requires PoolOk(s)
    ensures PoolOk(ClearBuffers(s))
    ensures ClearBuffers(s).free == []
  {
    if |s.free| > 0 {
      assert s.free[0] < s.nBuffers;
    }
  }

  // ---------------------------------------------------------------------
  // port_set_format, impl_node_port_set_param

  /** `port_set_format`.  Without a format the driver is paused, the
      buffers are cleared, the device is closed and no format is set.  A
      format that is not raw audio, or whose raw info does not parse, is
      `-EINVAL`; a failing driver call returns its error; otherwise the
      format is set.  Failures change nothing. */
  function PortSetFormat(s: Source, format: Option<FormatPod>, setFormatRes: int): (r: (Source, int))
    ensures format.None? ==> r == (ClearBuffers(s).(haveFormat := false), 0)
    ensures format.Some? && !(format.value.isAudio && format.value.isRaw && format.value.rawParses) ==>
      r == (s, -EINVAL)
    ensures format.Some? && format.value.isAudio && format.value.isRaw && format.value.rawParses ==>
      if setFormatRes < 0 then r == (s, setFormatRes) else r == (s.(haveFormat := true), 0)
  {
    match format
    case None => (ClearBuffers(s).(haveFormat := false), 0)
    case Some(f) =>
      if !f.isAudio || !f.isRaw then (s, -EINVAL)
      else if !f.rawParses then (s, -EINVAL)
      else if setFormatRes < 0 then (s, setFormatRes)
      else (s.(haveFormat := true), 0)
  }

  /** `impl_node_port_set_param`: the format of the one output port; any
      other port is `-EINVAL`, any other id `-ENOENT`. */
  function PortSetParam(s: Source, dir: Direction, portId: u32, id: ParamId, format: Option<FormatPod>, setFormatRes: int)
    : (r: (Source, int))
    ensures !CheckPort(dir, portId) ==> r == (s, -EINVAL)
    ensures CheckPort(dir, portId) && id != IdFormat ==> r == (s, -ENOENT)
    ensures CheckPort(dir, portId) && id == IdFormat ==> r == PortSetFormat(s, format, setFormatRes)
  {
    if !CheckPort(dir, portId) then (s, -EINVAL)
    else if id == IdFormat then PortSetFormat(s, format, setFormatRes)
    else (s, -ENOENT)
  }

  /** Clearing the format leaves a consistent pool with no buffers and no
      format, after which Start and `use_buffers` both fail with `-EIO`. */
  lemma ClearFormatStopsNode(s: Source, startRes: int, bufs: seq<BufferDesc>)
    requires PoolOk(s)
    ensures var r := PortSetFormat(s, None, 0).0;
      && PoolOk(r) && r.nBuffers == 0 && !r.haveFormat
      && SendCommand(r, Start, startRes) == -EIO
      && (|bufs| <= MAX_U32 ==> UseBuffers(r, Output, 0, bufs).1 == -EIO)
  {
    ClearBuffersKeepsPool(s);
  }

  // ---------------------------------------------------------------------
  // impl_node_port_use_buffers

  /** A buffer the node can capture into: its first plane is memory (an fd
      or a pointer) and is mapped. */
  predicate Usable(b: BufferDesc)
  {
    (b.firstType == MemFd || b.firstType == DmaBuf || b.firstType == MemPtr) && b.firstMapped
  }

  /** `slots` with slot `i` set to `v`, growing the array when needed. */
  function SetSlot(slots: seq<bool>, i: nat, v: bool): (r: seq<bool>)
    ensures |r| == if i < |slots| then |slots| else i + 1
    ensures r[i] == v
    ensures forall j :: 0 <= j < |slots| && j != i ==> r[j] == slots[j]
    ensures forall j :: |slots| <= j < |r| && j != i ==> !r[j]
  {
    if i < |slots| then slots[i := v] else slots + seq(i - |slots|, _ => false) + [v]
  }

  /** The indices `lo`, ..., `hi - 1` in order. */
  function Range(lo: nat, hi: nat): (r: seq<nat>)
    requires lo <= hi
    ensures |r| == hi - lo
    ensures forall k :: 0 <= k < |r| ==> r[k] == lo + k
  {
    seq(hi - lo, k requires 0 <= k < hi - lo => lo + k)
  }

  /** The loop of `use_buffers` from buffer `i` on: each buffer's slot is
      marked not outstanding, then the buffer is checked and, when usable,
      appended to the free list; the first unusable buffer stops the loop,
      with everything appended so far left in place. */
  function Fill(s: Source, bufs: seq<BufferDesc>, i: nat): (r: (Source, bool))
    requires i <= |bufs|
    ensures r.0 == s.(slots := r.0.slots, free := r.0.free)
    decreases |bufs| - i
  {
    if i == |bufs| then (s, true)
    else
      var s1 := s.(slots := SetSlot(s.slots, i, false));
      if !Usable(bufs[i]) then (s1, false)
      else Fill(s1.(free := s1.free + [i]), bufs, i + 1)
  }

  /** The first unusable buffer from `i` on, or `|bufs|` when there is
      none. */
  function FirstUnusable(bufs: seq<BufferDesc>, i: nat): (b: nat)
    requires i <= |bufs|
    ensures i <= b <= |bufs|
    ensures forall j :: i <= j < b ==> Usable(bufs[j])
    ensures b < |bufs| ==> !Usable(bufs[b])
    decreases |bufs| - i
  {
    if i == |bufs| || !Usable(bufs[i]) then i else FirstUnusable(bufs, i + 1)
  }

  /** The loop appends `i`, ... up to the first unusable buffer, in order,
      and runs to the end exactly when there is none. */
  lemma {:induction false} FillFree(s: Source, bufs: seq<BufferDesc>, i: nat)
    requires i <= |bufs|
    ensures var r := Fill(s, bufs, i);
      && (r.1 <==> FirstUnusable(bufs, i) == |bufs|)
      && r.0.free == s.free + Range(i, FirstUnusable(bufs, i))
    decreases |bufs| - i
  {
    if i < |bufs| && Usable(bufs[i]) {
      var s1 := s.(slots := SetSlot(s.slots, i, false));
      var s2 := s1.(free := s1.free + [i]);
      FillFree(s2, bufs, i + 1);
      assert Range(i, FirstUnusable(bufs, i)) == [i] + Range(i + 1, FirstUnusable(bufs, i + 1));
    }
  }

  /** The loop appends `i`, ... up to the first unusable buffer, in order,
      and runs to the end exactly when every buffer from `i` on is usable;
      it then has cleared the outstanding flag of each of them.  Slots
      below `i` are untouched. */
  lemma {:induction false} FillAccounts(s: Source, bufs: seq<BufferDesc>, i: nat)
    requires i <= |bufs|
    ensures var r := Fill(s, bufs, i);
      && (r.1 <==> forall j :: i <= j < |bufs| ==> Usable(bufs[j]))
      && (r.1 <==> FirstUnusable(bufs, i) == |bufs|)
      && r.0.free == s.free + Range(i, FirstUnusable(bufs, i))
      && (r.1 ==> forall j :: i <= j < |bufs| ==> !Outstanding(r.0, j))
      && (forall j :: 0 <= j < i ==> Outstanding(r.0, j) == Outstanding(s, j))
    decreases |bufs| - i
  {
    FillFree(s, bufs, i);
    if i < |bufs| {
      var s1 := s.(slots := SetSlot(s.slots, i, false));
      if Usable(bufs[i]) {
        FillAccounts(s1.(free := s1.free + [i]), bufs, i + 1);
      }
    }
  }

  /** `impl_node_port_use_buffers` exactly as written.  Any port but the
      output port is `-EINVAL`, no format is `-EIO`; buffers in use are
      paused and cleared, then the new ones are filled in.  An unusable
      buffer returns `-EINVAL` with the buffers before it still on the free
      list while the count of buffers in use stays 0. */
  function UseBuffersAsWritten(s: Source, dir: Direction, portId: u32, bufs: seq<BufferDesc>): (r: (Source, int))
    requires |bufs| <= MAX_U32
  {
    if !CheckPort(dir, portId) then (s, -EINVAL)
    else if !s.haveFormat then (s, -EIO)
    else
      var s1 := ClearBuffers(s);
      var f := Fill(s1, bufs, 0);
      if !f.1 then (f.0, -EINVAL)
      else (f.0.(nBuffers := |bufs| as u32), 0)
  }

  /** As written, `use_buffers` checks the port and then the format; past
      those checks the old buffers are cleared and the buffers before the
      first unusable one are appended to whatever free list the clearing
      left.  It succeeds exactly when no buffer is unusable, and then has
      every buffer in use; a rejected set returns `-EINVAL` with no buffer
      in use. */
  lemma UseBuffersAsWrittenAccounts(s: Source, dir: Direction, portId: u32, bufs: seq<BufferDesc>)
    requires |bufs| <= MAX_U32
    ensures var r := UseBuffersAsWritten(s, dir, portId, bufs);
      && (!CheckPort(dir, portId) ==> r == (s, -EINVAL))
      && (CheckPort(dir, portId) && !s.haveFormat ==> r == (s, -EIO))
      && (CheckPort(dir, portId) && s.haveFormat ==>
            var b := FirstUnusable(bufs, 0);
            && r.0.free == ClearBuffers(s).free + Range(0, b)
            && (r.1 == 0 <==> b == |bufs|)
            && (r.1 == 0 ==> r.0.nBuffers as nat == |bufs|)
            && (r.1 != 0 ==> r.1 == -EINVAL && r.0.nBuffers == 0))
  {
    if CheckPort(dir, portId) && s.haveFormat {
      FillAccounts(ClearBuffers(s), bufs, 0);
    }
  }

  /** A consistent pool without buffers, with a format set. */
  function EmptyPool(): (s: Source)
    ensures PoolOk(s) && s.haveFormat && s.nBuffers == 0
  {
    Source(DefaultProps(), true, 0, [], [], [], None)
  }

  /** As written, a rejected buffer set leaves buffer 0 on the free list of
      a pool with no buffers in use, and offering a good set afterwards
      puts buffer 0 on the free list twice.  In C the second append links
      buffer 0's list node in again after itself, so its link points back
      to itself and the free list loops. */
  lemma UseBuffersAsWrittenCorruptsFreeList()
    ensures var good := BufferDesc(MemFd, true);
      var bad := BufferDesc(MemFd, false);
      var r1 := UseBuffersAsWritten(EmptyPool(), Output, 0, [good, bad]);
      var r2 := UseBuffersAsWritten(r1.0, Output, 0, [good]);
      && r1.1 == -EINVAL && r1.0.nBuffers == 0 && r1.0.free == [0] && !PoolOk(r1.0)
      && r2.1 == 0 && r2.0.free == [0, 0] && !PoolOk(r2.0)
  {
    var good := BufferDesc(MemFd, true);
    var bad := BufferDesc(MemFd, false);
    var s := EmptyPool();
    assert SetSlot([], 0, false) == [false];
    assert SetSlot([false], 1, false) == [false, false];
    assert SetSlot([false, false], 0, false) == [false, false];
    var a := s.(slots := [false], free := [0]);
    assert s.(slots := [false]).(free := s.free + [0]) == a;
    assert Fill(a, [good, bad], 1) == (a.(slots := [false, false]), false);
    assert Fill(s, [good, bad], 0) == Fill(a, [good, bad], 1);
    var r1 := UseBuffersAsWritten(s, Output, 0, [good, bad]);
    assert r1.0 == a.(slots := [false, false]);
    var b := r1.0.(free := [0, 0]);
    assert r1.0.(slots := [false, false]).(free := r1.0.free + [0]) == b;
    assert Fill(r1.0, [good], 0) == Fill(b, [good], 1);
    var r2 := UseBuffersAsWritten(r1.0, Output, 0, [good]);
    assert r2.0 == b.(nBuffers := 1);
    assert r1.0.free[0] >= r1.0.nBuffers;
    assert r2.0.free[0] == r2.0.free[1];
  }

  /** `impl_node_port_use_buffers` with the error path dropping what the
      loop appended, so a rejected set leaves no buffer on the free list. */
  function UseBuffers(s: Source, dir: Direction, portId: u32, bufs: seq<BufferDesc>): (r: (Source, int))
    requires |bufs| <= MAX_U32
  {
    if !CheckPort(dir, portId) then (s, -EINVAL)
    else if !s.haveFormat then (s, -EIO)
    else
      var s1 := ClearBuffers(s);
      var f := Fill(s1, bufs, 0);
      if !f.1 then (f.0.(free := []), -EINVAL)
      else (f.0.(nBuffers := |bufs| as u32), 0)
  }

  /** `use_buffers` succeeds exactly for the output port with a format and
      usable buffers; it then has every buffer in use, none outstanding,
      all on the free list in order.  Every outcome keeps the pool
      consistent, and a rejected set leaves no buffer in use. */
  lemma UseBuffersAccounts(s: Source, dir: Direction, portId: u32, bufs: seq<BufferDesc>)
    requires |bufs| <= MAX_U32 && PoolOk(s)
    ensures var r := UseBuffers(s, dir, portId, bufs);
      && PoolOk(r.0)
      && (r.1 == 0 <==> CheckPort(dir, portId) && s.haveFormat && forall j :: 0 <= j < |bufs| ==> Usable(bufs[j]))
      && (r.1 == 0 ==>
            && r.0.nBuffers == |bufs| && r.0.free == Range(0, |bufs|)
            && forall j :: 0 <= j < |bufs| ==> !Outstanding(r.0, j))
      && (!CheckPort(dir, portId) ==> r == (s, -EINVAL))
      && (CheckPort(dir, portId) && !s.haveFormat ==> r == (s, -EIO))
      && (CheckPort(dir, portId) && s.haveFormat && r.1 != 0 ==> r.1 == -EINVAL && r.0.nBuffers == 0 && r.0.free == [])
  {
    if CheckPort(dir, portId) && s.haveFormat {
      var s1 := ClearBuffers(s);
      ClearBuffersKeepsPool(s);
      FillAccounts(s1, bufs, 0);
      var f := Fill(s1, bufs, 0);
      if f.1 {
        FreshPoolOk(f.0, |bufs| as u32);
      }
    }
  }

  /** Start follows `use_buffers`: after a non-empty set is accepted, Start
      does what the driver's start does; after a set of the output port is
      rejected for an unusable buffer, Start is `-EIO`. */
  lemma StartAfterUseBuffers(s: Source, portId: u32, bufs: seq<BufferDesc>, driverRes: int)
    requires |bufs| <= MAX_U32 && PoolOk(s)
    ensures var r := UseBuffers(s, Output, portId, bufs);
      && (r.1 == 0 && |bufs| > 0 ==> (SendCommand(r.0, Start, driverRes) == 0 <==> driverRes >= 0))
      && (CheckPort(Output, portId) && s.haveFormat && r.1 != 0 ==> SendCommand(r.0, Start, driverRes) == -EIO)
  {
    UseBuffersAccounts(s, Output, portId, bufs);
  }

  /** A pool whose free list is every buffer in use, in order, with none of
      them outstanding, is consistent. */
  lemma FreshPoolOk(s: Source, n: u32)
    requires s.free == Range(0, n as nat)
    requires forall j :: 0 <= j < n as nat ==> !Outstanding(s, j)
    ensures PoolOk(s.(nBuffers := n))
    ensures forall j :: 0 <= j < n as nat ==> !Outstanding(s.(nBuffers := n), j)
  {
    var r := s.(nBuffers := n);
    forall i | 0 <= i < |r.free| ensures r.free[i] < r.nBuffers && !Outstanding(r, r.free[i]) {
      assert r.free[i] == i;
      assert !Outstanding(s, i);
    }
    forall j | 0 <= j < n as nat ensures !Outstanding(r, j) {
      assert !Outstanding(s, j);
    }
  }

  // ---------------------------------------------------------------------
  // impl_node_port_set_io, impl_node_port_reuse_buffer, impl_node_process_output

  /** `impl_node_port_set_io`: the output port's buffer I/O area is set (or
      unset); any other port is `-EINVAL`, any other id `-ENOENT`. */
  function PortSetIo(s: Source, dir: Direction, portId: u32, id: IoId, data: Option<IoBuffers>): (r: (Source, int))
    ensures !CheckPort(dir, portId) ==> r == (s, -EINVAL)
    ensures CheckPort(dir, portId) && id.OtherIo? ==> r == (s, -ENOENT)
    ensures CheckPort(dir, portId) && id.IoBuffersId? ==> r == (s.(io := data), 0)
  {
    if !CheckPort(dir, portId) then (s, -EINVAL)
    else if id.IoBuffersId? then (s.(io := data), 0)
    else (s, -ENOENT)
  }

  /** `impl_node_port_reuse_buffer`: only port 0; no buffers in use is
      `-EIO`, an id past them is `-EINVAL`; otherwise the buffer is
      recycled. */
  function ReuseBuffer(s: Source, portId: u32, bufferId: u32): (r: (Source, int))
    ensures portId != 0 ==> r == (s, -EINVAL)
    ensures portId == 0 && s.nBuffers == 0 ==> r == (s, -EIO)
    ensures portId == 0 && s.nBuffers > 0 && bufferId >= s.nBuffers ==> r == (s, -EINVAL)
    ensures portId == 0 && bufferId < s.nBuffers ==> r == (Recycle(s, bufferId), 0)
  {
    if portId != 0 then (s, -EINVAL)
    else if s.nBuffers == 0 then (s, -EIO)
    else if bufferId >= s.nBuffers then (s, -EINVAL)
    else (Recycle(s, bufferId), 0)
  }

  /** `impl_node_process_output`: no I/O area is `-EIO`; a buffer still
      waiting downstream (status HAVE_BUFFER) is reported as such and
      nothing changes; otherwise a buffer id in use is recycled and the slot
      forgets it, and the call returns 0. */
  function ProcessOutput(s: Source): (r: (Source, int))
    ensures s.io.None? ==> r == (s, -EIO)
    ensures s.io.Some? && s.io.value.status == HaveBuffer ==> r == (s, STATUS_HAVE_BUFFER)
    ensures s.io.Some? && s.io.value.status != HaveBuffer ==>
      && r.1 == 0
      && (s.io.value.bufferId < s.nBuffers ==>
            r.0 == Recycle(s, s.io.value.bufferId).(io := Some(s.io.value.(bufferId := ID_INVALID))))
      && (s.io.value.bufferId >= s.nBuffers ==> r.0 == s)
  {
    match s.io
    case None => (s, -EIO)
    case Some(io) =>
      if io.status == HaveBuffer then (s, STATUS_HAVE_BUFFER)
      else if io.bufferId < s.nBuffers then
        (Recycle(s, io.bufferId).(io := Some(io.(bufferId := ID_INVALID))), 0)
      else (s, 0)
  }

  /** A second `process_output` right after the first does nothing more:
      the buffer was recycled once and the slot no longer names it. */
  lemma ProcessOutputIdempotent(s: Source)
    ensures ProcessOutput(ProcessOutput(s).0).0 == ProcessOutput(s).0
  {
  }

  /** Reuse and process-output keep the pool consistent. */
  lemma ReturnsKeepPool(s: Source, portId: u32, bufferId: u32)
    requires PoolOk(s)
    ensures PoolOk(ReuseBuffer(s, portId, bufferId).0)
    ensures PoolOk(ProcessOutput(s).0)
  {
    if portId == 0 && bufferId < s.nBuffers {
      RecycleKeepsPool(s, bufferId);
    }
    if s.io.Some? && s.io.value.status != HaveBuffer && s.io.value.bufferId < s.nBuffers {
      RecycleKeepsPool(s, s.io.value.bufferId);
    }
  }
}
