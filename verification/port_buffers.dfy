/** Per-port buffer import of a client node (`struct buffer_id`,
    `clear_buffers` and the import loop of `client_node_port_use_buffers` in
    src/pipewire/remote.c).

    The server declares each buffer as a window of a memory entry plus a
    list of metas and data planes.  The client maps the window, lays the
    metas out one after another from the window start, puts chunk `j` after
    the metas, and resolves each data plane: a MemFd/DmaBuf plane names
    another memory entry whose fd it takes (and references), a MemPtr plane
    becomes an address inside the window.  Every memory entry a buffer uses
    is referenced once per use; `clear_buffers` drops those references and
    releases an entry whose count reaches zero. */
module PortBuffers {
  import opened Spa
  import opened MemTable

  /** A meta as declared on the wire: its type and size. */
  datatype WireMeta = WireMeta(mtype: u32, size: nat)

  /** A data plane as declared on the wire.  `payload` is the plane's data
      field: a memory id for MemFd/DmaBuf planes, a byte offset into the
      buffer's window for MemPtr planes. */
  datatype WireData = WireData(dtype: DataType, flags: u32, fd: int, mapOffset: nat, maxSize: nat, payload: u32)

  /** The `struct spa_buffer` of a declaration. */
  datatype WireBuffer = WireBuffer(id: u32, metas: seq<WireMeta>, datas: seq<WireData>)

  /** `struct pw_client_node_buffer`: the window of memory entry `memId`
      holding the buffer, and the buffer's layout. */
  datatype BufferDecl = BufferDecl(memId: u32, offset: nat, size: nat, buffer: WireBuffer)

  /** An imported meta: its data points into the mapped window. */
  datatype Meta = Meta(mtype: u32, size: nat, data: Addr)

  /** The data pointer of an imported plane. */
  datatype PlaneData = NullData | Pointer(addr: Addr) | Raw(value: u32)

  /** An imported `struct spa_data`. */
  datatype Data = Data(dtype: DataType, flags: u32, fd: int, mapOffset: nat, maxSize: nat, data: PlaneData, chunk: Addr)

  /** An imported `struct spa_buffer`. */
  datatype Buffer = Buffer(id: u32, metas: seq<Meta>, datas: seq<Data>)

  /** `struct buffer_id`: the mapping of the buffer's window, the memory
      entries it references (by index into the table) and the buffer. */
  datatype BufferId = BufferId(id: u32, range: MapRange, ptr: Option<Addr>, mem: seq<nat>, buf: Option<Buffer>)

  /** `struct port` of the client node: its buffers, whether a local
      `pw_port` is bound to it, and the `in_order` flag. */
  datatype Port = Port(buffers: seq<BufferId>, bound: bool, inOrder: bool)

  // ---------------------------------------------------------------------
  // reference counting

  /** Number of references the buffers `bids` hold on entry `k`. */
  function BufRefs(bids: seq<BufferId>, k: nat): nat
  {
    if |bids| == 0 then 0 else Count(bids[0].mem, k) + BufRefs(bids[1..], k)
  }

  /** Every entry index a buffer refers to lies inside the table. */
  predicate RefsInTable(bids: seq<BufferId>, n: nat)
  {
    forall i, j :: 0 <= i < |bids| && 0 <= j < |bids[i].mem| ==> bids[i].mem[j] < n
  }

  /** Entry `k` of `mems` once its last reference is dropped: released,
      unless it was already.  As `clear_memid` is written, the entry keeps its
      mapping while another entry still holds the same fd. */
  function Dropped(mems: seq<MemId>, k: nat): MemId
    requires k < |mems|
  {
    var m := mems[k];
    if m.fd == -1 then m.(ref := 0)
    else Released(m).(ref := 0, ptr := if HasFd(mems[k := Released(m)], m.fd) then m.ptr else None)
  }

  /** `--ref == 0 ? clear_memid : nothing`, with the 32-bit wrap of a
      decrement from zero written out: the count drops by one (wrapping
      from zero to the largest `uint32_t`); an entry left at zero is
      released. */
  function DecRef(t: Table, k: nat): (r: Table)
    requires k < |t.mems|
    ensures |r.mems| == |t.mems|
    ensures forall j :: 0 <= j < |t.mems| && j != k ==> r.mems[j] == t.mems[j]
    ensures r.mems[k].ref == if t.mems[k].ref == 0 then MAX_U32 as nat else t.mems[k].ref - 1
    ensures r.mems[k].ref > 0 ==> r.mems[k] == t.mems[k].(ref := r.mems[k].ref)
    ensures r.mems[k].ref == 0 ==> r.mems[k] == Dropped(t.mems, k)
    ensures r.sys.maps == t.sys.maps
  {
    var m := t.mems[k];
    var ref := if m.ref == 0 then MAX_U32 as nat else m.ref - 1;
    var t1 := Table(t.mems[k := m.(ref := ref)], t.sys);
    if ref == 0 then
      assert HasFd(t1.mems[k := Released(t1.mems[k])], m.fd) == HasFd(t.mems[k := Released(m)], m.fd) by {
        var s1, s2 := t1.mems[k := Released(t1.mems[k])], t.mems[k := Released(m)];
        assert forall j :: 0 <= j < |s1| ==> s1[j].fd == s2[j].fd;
      }
      ClearMemIdAsWritten(t1, k)
    else t1
  }

  /** Drops one reference per element of `ks`, in order. */
  function DecAll(t: Table, ks: seq<nat>): (r: Table)
    requires forall i :: 0 <= i < |ks| ==> ks[i] < |t.mems|
    ensures |r.mems| == |t.mems|
    ensures r.sys.maps == t.sys.maps
    decreases |ks|
  {
    if |ks| == 0 then t else DecAll(DecRef(t, ks[0]), ks[1..])
  }

  /** Dropping the references `ks` lowers the count of entry `k` by its
      number of occurrences; the entry is untouched when it does not occur,
      changes only its count while that stays positive, and is released
      (loses fd and id, and keeps or loses its mapping) when the count
      reaches zero. */
  lemma {:induction false} DecAllAt(t: Table, ks: seq<nat>, k: nat)
    requires forall i :: 0 <= i < |ks| ==> ks[i] < |t.mems|
    requires k < |t.mems| && Count(ks, k) <= t.mems[k].ref
    ensures DecAll(t, ks).mems[k].ref == t.mems[k].ref - Count(ks, k)
    ensures Count(ks, k) == 0 ==> DecAll(t, ks).mems[k] == t.mems[k]
    ensures DecAll(t, ks).mems[k].ref > 0 ==> DecAll(t, ks).mems[k] == t.mems[k].(ref := DecAll(t, ks).mems[k].ref)
    ensures Count(ks, k) > 0 && DecAll(t, ks).mems[k].ref == 0 ==>
      var d := DecAll(t, ks).mems[k];
      && d.(ptr := t.mems[k].ptr) == (if t.mems[k].fd == -1 then t.mems[k] else Released(t.mems[k])).(ref := 0)
      && (d.ptr == t.mems[k].ptr || (t.mems[k].fd != -1 && d.ptr.None?))
    decreases |ks|
  {
    if |ks| > 0 {
      var t1 := DecRef(t, ks[0]);
      assert Count(ks, k) == (if ks[0] == k then 1 else 0) + Count(ks[1..], k);
      DecAllAt(t1, ks[1..], k);
    }
  }

  /** Dropping references keeps the fd ledger: fds are only closed by
      releases. */
  lemma {:induction false} DecAllKeepsLedger(t: Table, ks: seq<nat>)
    requires forall i :: 0 <= i < |ks| ==> ks[i] < |t.mems|
    ensures Ledger(DecAll(t, ks)) == Ledger(t)
    decreases |ks|
  {
    if |ks| > 0 {
      var k := ks[0];
      var m := t.mems[k];
      var ref := if m.ref == 0 then MAX_U32 as nat else m.ref - 1;
      var t1 := Table(t.mems[k := m.(ref := ref)], t.sys);
      SameFdsSameLedger(t1, t);
      if ref == 0 { ClearMemIdAsWrittenKeepsLedger(t1, k); }
      DecAllKeepsLedger(DecRef(t, k), ks[1..]);
    }
  }

  // ---------------------------------------------------------------------
  // clear_buffers

  /** Releases the window mapping of one buffer. */
  function UnmapBid(t: Table, b: BufferId): (r: Table)
    ensures r.mems == t.mems && r.sys.maps == t.sys.maps
  {
    if b.ptr.Some? then t.(sys := t.sys.(unmaps := t.sys.unmaps + 1)) else t
  }

  /** The loop of `clear_buffers`: per buffer, unmap its window and drop its
      references in order. */
  function ClearBids(t: Table, bids: seq<BufferId>): (r: Table)
    requires RefsInTable(bids, |t.mems|)
    ensures |r.mems| == |t.mems|
    ensures r.sys.maps == t.sys.maps
    decreases |bids|
  {
    if |bids| == 0 then t
    else
      var t1 := DecAll(UnmapBid(t, bids[0]), bids[0].mem);
      ClearBids(t1, bids[1..])
  }

  /** `clear_buffers`: drops every reference the port's buffers hold and
      leaves the port without buffers. */
  function ClearBuffers(t: Table, p: Port): (r: (Table, Port))
    requires RefsInTable(p.buffers, |t.mems|)
    ensures |r.0.mems| == |t.mems|
    ensures r.1 == p.(buffers := [])
  {
    (ClearBids(t, p.buffers), p.(buffers := []))
  }

  /** Clearing buffers lowers the count of entry `k` by the references
      those buffers held; the entry is untouched when they held none, and is
      left without an fd when its count reaches zero. */
  lemma {:induction false} ClearBidsAt(t: Table, bids: seq<BufferId>, k: nat)
    requires RefsInTable(bids, |t.mems|)
    requires k < |t.mems| && BufRefs(bids, k) <= t.mems[k].ref
    ensures ClearBids(t, bids).mems[k].ref == t.mems[k].ref - BufRefs(bids, k)
    ensures BufRefs(bids, k) == 0 ==> ClearBids(t, bids).mems[k] == t.mems[k]
    ensures BufRefs(bids, k) > 0 && ClearBids(t, bids).mems[k].ref == 0 ==> ClearBids(t, bids).mems[k].fd == -1
    decreases |bids|
  {
    if |bids| > 0 {
      var b := bids[0];
      var t0 := UnmapBid(t, b);
      assert forall i :: 0 <= i < |b.mem| ==> b.mem[i] < |t0.mems|;
      DecAllAt(t0, b.mem, k);
      var t1 := DecAll(t0, b.mem);
      assert RefsInTable(bids[1..], |t1.mems|);
      ClearBidsAt(t1, bids[1..], k);
    }
  }

  /** `ClearBidsAt` for every entry at once. */
  lemma ClearBidsAccounts(t: Table, bids: seq<BufferId>)
    requires RefsInTable(bids, |t.mems|)
    requires forall k: nat :: k < |t.mems| ==> BufRefs(bids, k) <= t.mems[k].ref
    ensures forall k: nat :: k < |t.mems| ==> ClearBids(t, bids).mems[k].ref == t.mems[k].ref - BufRefs(bids, k)
    ensures forall k: nat :: k < |t.mems| && BufRefs(bids, k) == 0 ==> ClearBids(t, bids).mems[k] == t.mems[k]
    ensures forall k: nat :: k < |t.mems| && BufRefs(bids, k) > 0 && ClearBids(t, bids).mems[k].ref == 0 ==>
      ClearBids(t, bids).mems[k].fd == -1
  {
    forall k: nat | k < |t.mems|
      ensures ClearBids(t, bids).mems[k].ref == t.mems[k].ref - BufRefs(bids, k)
      ensures BufRefs(bids, k) == 0 ==> ClearBids(t, bids).mems[k] == t.mems[k]
      ensures BufRefs(bids, k) > 0 && ClearBids(t, bids).mems[k].ref == 0 ==> ClearBids(t, bids).mems[k].fd == -1
    {
      ClearBidsAt(t, bids, k);
    }
  }

  /** Clearing buffers keeps the fd ledger. */
  lemma {:induction false} ClearBidsKeepsLedger(t: Table, bids: seq<BufferId>)
    requires RefsInTable(bids, |t.mems|)
    ensures Ledger(ClearBids(t, bids)) == Ledger(t)
    decreases |bids|
  {
    if |bids| > 0 {
      var b := bids[0];
      var t0 := UnmapBid(t, b);
      forall i | 0 <= i < |b.mem| ensures b.mem[i] < |t0.mems| {
        assert b.mem[i] == bids[0].mem[i];
      }
      SameFdsSameLedger(t0, t);
      DecAllKeepsLedger(t0, b.mem);
      var t1 := DecAll(t0, b.mem);
      assert RefsInTable(bids[1..], |t1.mems|);
      ClearBidsKeepsLedger(t1, bids[1..]);
    }
  }

  // ---------------------------------------------------------------------
  // import of one buffer
  //
  // Lookups during the import depend only on ids and fds, never on
  // reference counts, so the import is computed against the table as it
  // stands and the references it takes (recorded in each `buffer_id`) are
  // added to the table afterwards; `AddRefs` does that.

  /** Sum of the sizes of `ms`. */
  function MetaBytes(ms: seq<WireMeta>): nat
  {
    if |ms| == 0 then 0 else ms[0].size + MetaBytes(ms[1..])
  }

  /** Lays the metas out one after another from `offset` inside the mapping
      at `base`; also returns the offset just past them. */
  function LayoutMetas(base: Addr, offset: nat, ms: seq<WireMeta>): (r: (seq<Meta>, nat))
    ensures r.1 == offset + MetaBytes(ms)
    ensures |r.0| == |ms|
    decreases |ms|
  {
    if |ms| == 0 then ([], offset)
    else
      var rest := LayoutMetas(base, offset + ms[0].size, ms[1..]);
      ([Meta(ms[0].mtype, ms[0].size, base + offset)] + rest.0, rest.1)
  }

  /** Each meta is placed at the sum of the sizes of those before it. */
  lemma {:induction false} LayoutMetasLaysOut(base: Addr, offset: nat, ms: seq<WireMeta>)
    ensures MetasLaidOut(ms, LayoutMetas(base, offset, ms).0, base, offset)
    decreases |ms|
  {
    if |ms| > 0 {
      LayoutMetasLaysOut(base, offset + ms[0].size, ms[1..]);
      assert forall j :: 1 <= j < |ms| ==> ms[..j][1..] == ms[1..][..j - 1];
    }
  }

  /** `metas` are the declared metas `ms` laid out one after another from
      `start` inside the mapping at `base`. */
  predicate MetasLaidOut(ms: seq<WireMeta>, metas: seq<Meta>, base: Addr, start: nat)
  {
    |metas| == |ms|
    && forall j :: 0 <= j < |ms| ==> metas[j] == Meta(ms[j].mtype, ms[j].size, base + start + MetaBytes(ms[..j]))
  }

  predicate IsFdPlane(w: WireData)
  {
    w.dtype == MemFd || w.dtype == DmaBuf
  }

  /** The plane `d` is plane `w` imported into the mapping at `base` whose
      requested window starts at `start`, with its chunk at `chunk`:
      MemFd/DmaBuf planes carry the fd of the entry they name and no data
      pointer; MemPtr planes point at the declared offset inside the window
      and carry no fd; any other plane keeps its declared fd and data. */
  predicate PlaneImported(mems: seq<MemId>, w: WireData, d: Data, base: Addr, start: nat, chunk: Addr)
  {
    && d.dtype == w.dtype && d.flags == w.flags
    && d.mapOffset == w.mapOffset && d.maxSize == w.maxSize
    && d.chunk == chunk
    && (IsFdPlane(w) ==>
          FindMem(mems, w.payload).Some?
          && d.data == NullData && d.fd == mems[FindMem(mems, w.payload).value].fd)
    && (w.dtype == MemPtr ==> d.data == Pointer(base + start + w.payload) && d.fd == -1)
    && (!IsFdPlane(w) && w.dtype != MemPtr ==> d.data == Raw(w.payload) && d.fd == w.fd)
  }

  /** Result of importing one plane: the entry it references (at most one)
      and the plane, absent when the plane names an unknown memory id. */
  datatype PlaneStep = PlaneStep(mem: seq<nat>, d: Option<Data>)

  /** One iteration of the plane loop of `client_node_port_use_buffers`. */
  function ImportPlane(mems: seq<MemId>, w: WireData, base: Addr, start: nat, chunk: Addr): (r: PlaneStep)
    ensures r.d.None? <==> IsFdPlane(w) && FindMem(mems, w.payload).None?
    ensures r.d.Some? ==> PlaneImported(mems, w, r.d.value, base, start, chunk)
    ensures r.mem == if r.d.Some? && IsFdPlane(w) then [FindMem(mems, w.payload).value] else []
  {
    if IsFdPlane(w) then
      match FindMem(mems, w.payload)
      case None => PlaneStep([], None)
      case Some(k) =>
        PlaneStep([k], Some(Data(w.dtype, w.flags, mems[k].fd, w.mapOffset, w.maxSize, NullData, chunk)))
    else if w.dtype == MemPtr then
      PlaneStep([], Some(Data(w.dtype, w.flags, -1, w.mapOffset, w.maxSize, Pointer(base + start + w.payload), chunk)))
    else
      PlaneStep([], Some(Data(w.dtype, w.flags, w.fd, w.mapOffset, w.maxSize, Raw(w.payload), chunk)))
  }

  /** Result of importing planes: the entries referenced, the planes
      imported, and whether an unknown memory id stopped the import. */
  datatype PlaneImport = PlaneImport(mem: seq<nat>, datas: seq<Data>, failed: bool)

  /** Address of chunk `j` of a buffer mapped at `base` whose metas end at
      offset `chunkBase`. */
  function ChunkAddr(base: Addr, chunkBase: nat, chunkSize: nat, j: nat): Addr
  {
    base + chunkBase + chunkSize * j
  }

  /** Every MemFd/DmaBuf plane from `j` on names a known memory id. */
  predicate PlanesKnown(mems: seq<MemId>, ws: seq<WireData>, j: nat)
  {
    forall i :: j <= i < |ws| && IsFdPlane(ws[i]) ==> FindMem(mems, ws[i].payload).Some?
  }

  /** `ds` are the declared planes `ws`, each imported, with chunk `j`
      placed `j` chunk sizes after offset `chunkBase`. */
  predicate PlanesImported(mems: seq<MemId>, ws: seq<WireData>, ds: seq<Data>, base: Addr, start: nat, chunkBase: nat, chunkSize: nat)
  {
    |ds| == |ws|
    && forall j :: 0 <= j < |ws| ==> PlaneImported(mems, ws[j], ds[j], base, start, ChunkAddr(base, chunkBase, chunkSize, j))
  }

  /** The plane loop of `client_node_port_use_buffers` from plane `j` on,
      stopping at the first plane naming an unknown memory id.  `chunkBase`
      is the offset just past the metas. */
  function ImportDatas(mems: seq<MemId>, ws: seq<WireData>, base: Addr, start: nat, chunkBase: nat, chunkSize: nat, j: nat)
    : (r: PlaneImport)
    requires j <= |ws|
    ensures forall i :: 0 <= i < |r.mem| ==> r.mem[i] < |mems|
    ensures r.failed <==> !PlanesKnown(mems, ws, j)
    ensures !r.failed ==> |r.datas| == |ws| - j
    decreases |ws| - j
  {
    if j == |ws| then PlaneImport([], [], false)
    else
      var step := ImportPlane(mems, ws[j], base, start, ChunkAddr(base, chunkBase, chunkSize, j));
      if step.d.None? then PlaneImport([], [], true)
      else
        var rest := ImportDatas(mems, ws, base, start, chunkBase, chunkSize, j + 1);
        PlaneImport(step.mem + rest.mem, [step.d.value] + rest.datas, rest.failed)
  }

  /** When the plane loop from `j` runs to the end, plane `i` is imported
      with chunk `i` placed `i` chunk sizes after the metas. */
  lemma {:induction false} ImportDatasAt(mems: seq<MemId>, ws: seq<WireData>, base: Addr, start: nat, chunkBase: nat, chunkSize: nat, j: nat, i: nat)
    requires j <= i < |ws|
    requires !ImportDatas(mems, ws, base, start, chunkBase, chunkSize, j).failed
    ensures PlaneImported(mems, ws[i], ImportDatas(mems, ws, base, start, chunkBase, chunkSize, j).datas[i - j],
                          base, start, ChunkAddr(base, chunkBase, chunkSize, i))
    decreases |ws| - j
  {
    if j < i {
      var r := ImportDatas(mems, ws, base, start, chunkBase, chunkSize, j);
      var rest := ImportDatas(mems, ws, base, start, chunkBase, chunkSize, j + 1);
      assert r.datas[i - j] == rest.datas[i - (j + 1)];
      ImportDatasAt(mems, ws, base, start, chunkBase, chunkSize, j + 1, i);
    }
  }

  /** When the plane loop runs to the end, every plane is imported. */
  lemma ImportDatasImports(mems: seq<MemId>, ws: seq<WireData>, base: Addr, start: nat, chunkBase: nat, chunkSize: nat)
    requires !ImportDatas(mems, ws, base, start, chunkBase, chunkSize, 0).failed
    ensures PlanesImported(mems, ws, ImportDatas(mems, ws, base, start, chunkBase, chunkSize, 0).datas, base, start, chunkBase, chunkSize)
  {
    var r := ImportDatas(mems, ws, base, start, chunkBase, chunkSize, 0);
    forall i | 0 <= i < |ws| ensures PlaneImported(mems, ws[i], r.datas[i], base, start, ChunkAddr(base, chunkBase, chunkSize, i)) {
      ImportDatasAt(mems, ws, base, start, chunkBase, chunkSize, 0, i);
    }
  }

  /** The `buffer_id` appended for a declaration whose window `rng` of entry
      `k` was mapped at `a`: it references the entry, then the entries its
      planes name; its metas are laid out from the window start and its
      planes after them.  It fails exactly when a plane names an unknown
      memory id, with the planes imported so far. */
  function ImportMapped(mems: seq<MemId>, k: nat, decl: BufferDecl, rng: MapRange, a: Addr, chunkSize: nat): (r: StepResult)
    requires k < |mems|
    ensures r.bid.Some? && |r.bid.value.mem| >= 1 && r.bid.value.mem[0] == k
    ensures forall i :: 0 <= i < |r.bid.value.mem| ==> r.bid.value.mem[i] < |mems|
    ensures r.err.None? <==> PlanesKnown(mems, decl.buffer.datas, 0)
    ensures r.err.Some? ==> r.err == Some(-EINVAL)
  {
    var lay := LayoutMetas(a, rng.start, decl.buffer.metas);
    var pl := ImportDatas(mems, decl.buffer.datas, a, rng.start, lay.1, chunkSize, 0);
    var b := Buffer(decl.buffer.id, lay.0, pl.datas);
    StepResult(Some(BufferId(decl.buffer.id, rng, Some(a), [k] + pl.mem, Some(b))), if pl.failed then Some(-EINVAL) else None)
  }

  /** The `buffer_id` appended for a mapped window carries the declared id,
      the window and its mapping, and the declared metas laid out from the
      window start; when no plane fails, every plane is imported with its
      chunk after the metas. */
  lemma ImportMappedLaysOut(mems: seq<MemId>, k: nat, decl: BufferDecl, rng: MapRange, a: Addr, chunkSize: nat)
    requires k < |mems|
    ensures var r := ImportMapped(mems, k, decl, rng, a, chunkSize);
      && r.bid.value.id == decl.buffer.id && r.bid.value.range == rng && r.bid.value.ptr == Some(a)
      && r.bid.value.buf.Some? && r.bid.value.buf.value.id == decl.buffer.id
      && MetasLaidOut(decl.buffer.metas, r.bid.value.buf.value.metas, a, rng.start)
      && (r.err.None? ==>
            PlanesImported(mems, decl.buffer.datas, r.bid.value.buf.value.datas, a, rng.start,
                           rng.start + MetaBytes(decl.buffer.metas), chunkSize))
  {
    LayoutMetasLaysOut(a, rng.start, decl.buffer.metas);
    var pl := ImportDatas(mems, decl.buffer.datas, a, rng.start, rng.start + MetaBytes(decl.buffer.metas), chunkSize, 0);
    if !pl.failed {
      ImportDatasImports(mems, decl.buffer.datas, a, rng.start, rng.start + MetaBytes(decl.buffer.metas), chunkSize);
    }
  }

  /** The outcome of importing one declaration: the `buffer_id` appended to
      the port (absent when the memory id is unknown) and the error code that
      stops the import. */
  datatype StepResult = StepResult(bid: Option<BufferId>, err: Option<int>)

  /** The declaration can be imported: its memory id is known, the window
      maps, and every MemFd/DmaBuf plane names a known memory id. */
  predicate Importable(mems: seq<MemId>, decl: BufferDecl, env: Env, writable: bool)
  {
    && FindMem(mems, decl.memId).Some?
    && (var rng := env.pageRange(decl.offset, decl.size);
        env.mmap(mems[FindMem(mems, decl.memId).value].fd, rng.offset, rng.size, writable).Mapped?)
    && PlanesKnown(mems, decl.buffer.datas, 0)
  }

  /** `bid` is the buffer declared by `decl`, imported: its id is the
      declared one (a mismatch with its position is tolerated), its window is
      the page range of the declared window, mapped, it references the
      buffer's memory entry first, its metas sit one after another from the
      window start, and each plane is imported with chunk `j` placed `j`
      chunk sizes after the metas. */
  predicate BufferImported(mems: seq<MemId>, decl: BufferDecl, env: Env, bid: BufferId)
  {
    && var rng := env.pageRange(decl.offset, decl.size);
    && FindMem(mems, decl.memId).Some?
    && bid.id == decl.buffer.id
    && bid.range == rng
    && bid.ptr.Some?
    && |bid.mem| >= 1 && bid.mem[0] == FindMem(mems, decl.memId).value
    && bid.buf.Some?
    && bid.buf.value.id == decl.buffer.id
    && MetasLaidOut(decl.buffer.metas, bid.buf.value.metas, bid.ptr.value, rng.start)
    && PlanesImported(mems, decl.buffer.datas, bid.buf.value.datas, bid.ptr.value, rng.start,
                      rng.start + MetaBytes(decl.buffer.metas), env.chunkSize)
  }

  /** One iteration of the buffer loop of `client_node_port_use_buffers`:
      an unknown memory id fails before anything is appended, a failed
      mapping appends an unmapped `buffer_id` and fails with the mapping's
      error, and a plane naming an unknown memory id fails with the
      partially imported buffer appended. */
  function ImportOne(mems: seq<MemId>, decl: BufferDecl, env: Env, writable: bool): (r: StepResult)
    ensures r.bid.Some? ==> forall i :: 0 <= i < |r.bid.value.mem| ==> r.bid.value.mem[i] < |mems|
    ensures r.bid.None? <==> FindMem(mems, decl.memId).None?
    ensures r.bid.None? ==> r.err == Some(-EINVAL)
    ensures r.err.Some? ==> r.err.value < 0
  {
    match FindMem(mems, decl.memId)
    case None => StepResult(None, Some(-EINVAL))
    case Some(k) =>
      var rng := env.pageRange(decl.offset, decl.size);
      match env.mmap(mems[k].fd, rng.offset, rng.size, writable)
      case MapFailed(e) =>
        var code: int := -(e as int);
        StepResult(Some(BufferId(ID_INVALID, rng, None, [], None)), Some(code))
      case Mapped(a) => ImportMapped(mems, k, decl, rng, a, env.chunkSize)
  }

  /** One iteration succeeds exactly when the declaration is importable,
      and then appends the declared buffer, imported. */
  lemma ImportOneImports(mems: seq<MemId>, decl: BufferDecl, env: Env, writable: bool)
    ensures var r := ImportOne(mems, decl, env, writable);
      && (r.err.None? <==> Importable(mems, decl, env, writable))
      && (r.err.None? ==> BufferImported(mems, decl, env, r.bid.value))
  {
    match FindMem(mems, decl.memId)
    case None =>
    case Some(k) =>
      var rng := env.pageRange(decl.offset, decl.size);
      match env.mmap(mems[k].fd, rng.offset, rng.size, writable)
      case MapFailed(_) =>
      case Mapped(a) => ImportMappedLaysOut(mems, k, decl, rng, a, env.chunkSize);
  }

  // ---------------------------------------------------------------------
  // the buffer loop

  /** Result of the buffer loop: buffers appended, first error. */
  datatype LoopResult = LoopResult(bids: seq<BufferId>, err: Option<int>)

  /** The buffer loop of `client_node_port_use_buffers`: `step` imports
      one declaration; the loop appends what each step produced and stops
      at the first error. */
  function ImportAll(step: BufferDecl -> StepResult, decls: seq<BufferDecl>): (r: LoopResult)
    decreases |decls|
  {
    if |decls| == 0 then LoopResult([], None)
    else
      var s := step(decls[0]);
      if s.bid.None? then LoopResult([], s.err)
      else if s.err.Some? then LoopResult([s.bid.value], s.err)
      else
        var rest := ImportAll(step, decls[1..]);
        LoopResult([s.bid.value] + rest.bids, rest.err)
  }

  /** One import step of `client_node_port_use_buffers` against `mems`. */
  function ImportStep(mems: seq<MemId>, env: Env, writable: bool): BufferDecl -> StepResult
  {
    d => ImportOne(mems, d, env, writable)
  }

  /** A step whose buffers reference entries of a table of `n` entries. */
  predicate StepInTable(s: StepResult, n: nat)
  {
    s.bid.Some? ==> forall i :: 0 <= i < |s.bid.value.mem| ==> s.bid.value.mem[i] < n
  }

  /** Every import step stays within the table it runs against. */
  lemma ImportStepInTable(mems: seq<MemId>, env: Env, writable: bool)
    ensures forall d :: StepInTable(ImportStep(mems, env, writable)(d), |mems|)
  {
  }

  /** When every step stays within the table, so does the loop. */
  lemma {:induction false} ImportAllInTable(step: BufferDecl -> StepResult, decls: seq<BufferDecl>, n: nat)
    requires forall d :: StepInTable(step(d), n)
    ensures RefsInTable(ImportAll(step, decls).bids, n)
    decreases |decls|
  {
    if |decls| > 0 {
      ImportAllInTable(step, decls[1..], n);
      assert StepInTable(step(decls[0]), n);
    }
  }

  /** The buffer loop runs to the end exactly when no step fails. */
  lemma {:induction false} ImportAllRunsThrough(step: BufferDecl -> StepResult, decls: seq<BufferDecl>)
    requires forall d :: step(d).bid.None? ==> step(d).err.Some?
    requires forall d :: step(d).err.Some? ==> step(d).err.value < 0
    ensures ImportAll(step, decls).err.None? <==> forall n :: 0 <= n < |decls| ==> step(decls[n]).err.None?
    ensures ImportAll(step, decls).err.Some? ==> ImportAll(step, decls).err.value < 0
    decreases |decls|
  {
    if |decls| > 0 {
      ImportAllRunsThrough(step, decls[1..]);
      assert forall n :: 1 <= n < |decls| ==> decls[1..][n - 1] == decls[n];
    }
  }

  /** A buffer loop that runs to the end appends, for each declaration and
      in order, what its own step produced. */
  lemma {:induction false} ImportAllAppendsEach(step: BufferDecl -> StepResult, decls: seq<BufferDecl>)
    requires forall d :: step(d).bid.None? ==> step(d).err.Some?
    requires ImportAll(step, decls).err.None?
    ensures |ImportAll(step, decls).bids| == |decls|
    ensures forall n :: 0 <= n < |decls| ==>
      step(decls[n]).bid.Some? && ImportAll(step, decls).bids[n] == step(decls[n]).bid.value
    decreases |decls|
  {
    if |decls| > 0 {
      var rest := ImportAll(step, decls[1..]);
      ImportAllAppendsEach(step, decls[1..]);
      var r := ImportAll(step, decls);
      forall n | 0 <= n < |decls|
        ensures step(decls[n]).bid.Some? && r.bids[n] == step(decls[n]).bid.value
      {
        if n > 0 {
          assert r.bids[n] == rest.bids[n - 1] && decls[n] == decls[1..][n - 1];
        }
      }
    }
  }

  /** Running the import loop against `mems`: it runs to the end exactly
      when every declaration is importable, and then appends each
      declaration, imported, in order. */
  lemma ImportAllImported(mems: seq<MemId>, decls: seq<BufferDecl>, env: Env, writable: bool)
    ensures var r := ImportAll(ImportStep(mems, env, writable), decls);
      && RefsInTable(r.bids, |mems|)
      && (r.err.None? <==> forall n :: 0 <= n < |decls| ==> Importable(mems, decls[n], env, writable))
      && (r.err.Some? ==> r.err.value < 0)
      && (r.err.None? ==> |r.bids| == |decls|)
      && (r.err.None? ==> forall n :: 0 <= n < |decls| ==> BufferImported(mems, decls[n], env, r.bids[n]))
  {
    var step := ImportStep(mems, env, writable);
    ImportStepInTable(mems, env, writable);
    ImportAllInTable(step, decls, |mems|);
    ImportAllRunsThrough(step, decls);
    var r := ImportAll(step, decls);
    forall n | 0 <= n < |decls|
      ensures step(decls[n]).err.None? <==> Importable(mems, decls[n], env, writable)
    {
      ImportOneImports(mems, decls[n], env, writable);
    }
    if r.err.None? {
      ImportAllAppendsEach(step, decls);
      forall n | 0 <= n < |decls| ensures BufferImported(mems, decls[n], env, r.bids[n]) {
        ImportOneImports(mems, decls[n], env, writable);
      }
    }
  }

  /** Number of `buffer_id`s whose window is mapped. */
  function MappedCount(bids: seq<BufferId>): nat
  {
    if |bids| == 0 then 0 else (if bids[0].ptr.Some? then 1 else 0) + MappedCount(bids[1..])
  }

  /** The table after the import loop: each entry carries the references
      the imported buffers took on it, and each mapped window counts as one
      mapping. */
  function AddRefs(t: Table, bids: seq<BufferId>): (r: Table)
    ensures |r.mems| == |t.mems|
  {
    Table(seq(|t.mems|, k requires 0 <= k < |t.mems| => t.mems[k].(ref := t.mems[k].ref + BufRefs(bids, k))),
          t.sys.(maps := t.sys.maps + MappedCount(bids)))
  }

  // ---------------------------------------------------------------------
  // client_node_port_use_buffers, after the port lookup

  /** Result of `port_use_buffers` on a found port: table, port, and the
      result code sent back to the server. */
  datatype UseResult = UseResult(t: Table, port: Port, res: int)

  /** Always clears the previous buffers first, then imports the declared
      ones.  On the first error the partial set is cleared again and the
      error is the result; otherwise the port holds the new set and the
      result is what the bound local port answered (`localRes`). */
  function UseBuffers(t: Table, p: Port, decls: seq<BufferDecl>, env: Env, writable: bool, localRes: int)
    : (r: UseResult)
    requires RefsInTable(p.buffers, |t.mems|)
    ensures |r.t.mems| == |t.mems|
    ensures RefsInTable(r.port.buffers, |t.mems|)
    ensures r.port.bound == p.bound && r.port.inOrder == p.inOrder
  {
    var (t1, p1) := ClearBuffers(t, p);
    var imp := ImportAll(ImportStep(t1.mems, env, writable), decls);
    ImportAllImported(t1.mems, decls, env, writable);
    var t2 := AddRefs(t1, imp.bids);
    if imp.err.Some? then
      var (t3, p3) := ClearBuffers(t2, p1.(buffers := imp.bids));
      UseResult(t3, p3, imp.err.value)
    else
      UseResult(t2, p1.(buffers := imp.bids), localRes)
  }

  /** What `port_use_buffers` does to references: every entry's count
      loses the old buffers' references and gains those of the buffers the
      port ends up holding. */
  lemma UseBuffersRefs(t: Table, p: Port, decls: seq<BufferDecl>, env: Env, writable: bool, localRes: int)
    requires RefsInTable(p.buffers, |t.mems|)
    requires forall k: nat :: k < |t.mems| ==> BufRefs(p.buffers, k) <= t.mems[k].ref
    ensures var r := UseBuffers(t, p, decls, env, writable, localRes);
      forall k: nat :: k < |t.mems| ==>
        r.t.mems[k].ref == t.mems[k].ref - BufRefs(p.buffers, k) + BufRefs(r.port.buffers, k)
  {
    var t1 := ClearBuffers(t, p).0;
    ClearBidsAccounts(t, p.buffers);
    var imp := ImportAll(ImportStep(t1.mems, env, writable), decls);
    ImportAllImported(t1.mems, decls, env, writable);
    var t2 := AddRefs(t1, imp.bids);
    if imp.err.Some? {
      ClearBidsAccounts(t2, imp.bids);
    }
  }

  /** What `port_use_buffers` leaves on the port: when every declaration is
      importable (against the table after the previous set was cleared) the
      port holds exactly the imported declarations and the result is the
      local port's; otherwise the port is left without buffers and the
      result is the first error, a negative errno. */
  lemma UseBuffersImports(t: Table, p: Port, decls: seq<BufferDecl>, env: Env, writable: bool, localRes: int)
    requires RefsInTable(p.buffers, |t.mems|)
    ensures var r := UseBuffers(t, p, decls, env, writable, localRes);
      var cleared := ClearBuffers(t, p).0;
      if forall n :: 0 <= n < |decls| ==> Importable(cleared.mems, decls[n], env, writable) then
        && r.res == localRes
        && |r.port.buffers| == |decls|
        && forall n :: 0 <= n < |decls| ==> BufferImported(cleared.mems, decls[n], env, r.port.buffers[n])
      else
        r.port.buffers == [] && r.res < 0
  {
    var t1 := ClearBuffers(t, p).0;
    ImportAllImported(t1.mems, decls, env, writable);
  }

  /** `port_use_buffers` never closes an fd an entry still holds: the fd
      ledger is the same before and after. */
  lemma UseBuffersKeepsLedger(t: Table, p: Port, decls: seq<BufferDecl>, env: Env, writable: bool, localRes: int)
    requires RefsInTable(p.buffers, |t.mems|)
    ensures Ledger(UseBuffers(t, p, decls, env, writable, localRes).t) == Ledger(t)
  {
    var t1 := ClearBuffers(t, p).0;
    ClearBidsKeepsLedger(t, p.buffers);
    var imp := ImportAll(ImportStep(t1.mems, env, writable), decls);
    ImportAllImported(t1.mems, decls, env, writable);
    var t2 := AddRefs(t1, imp.bids);
    SameFdsSameLedger(t2, t1);
    if imp.err.Some? {
      ClearBidsKeepsLedger(t2, imp.bids);
    }
  }
}
