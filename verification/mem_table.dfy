/** The memory-id table of a client node (`struct mem_id` and the
    `pw_array mem_ids` of `struct node_data` in src/pipewire/remote.c).

    The server announces shared-memory regions with `add_mem`; buffers and
    I/O areas refer to them by id.  An entry is mapped lazily and at most
    once, and is released (`clear_memid`) when its reference count drops to
    zero or the transport is torn down.  The fd of a released entry is closed
    only when no other entry shares that fd.

    System calls are not performed: `mmap` is an oracle carried in `Env`, and
    `munmap`/`close` are recorded in `Sys`. */
module MemTable {
  import opened Spa

  /** A process-local address. */
  type Addr = nat

  /** `struct pw_map_range`: page-aligned file offset, start of the requested
      window inside the mapping, and mapped size. */
  datatype MapRange = MapRange(offset: nat, start: nat, size: nat)

  /** `PW_MAP_RANGE_INIT`. */
  const MAP_RANGE_INIT: MapRange := MapRange(0, 0, 0)

  /** Result of an `mmap` call: an address or `MAP_FAILED` with its errno. */
  datatype MmapOutcome = Mapped(addr: Addr) | MapFailed(errno: Errno)

  /** The collaborators the table cannot see:
      - `pageRange(offset, size)` is `pw_map_range_init` for the host page size;
      - `mmap(fd, fileOffset, size, writable)` is the outcome of the system call;
      - `chunkSize` is `sizeof(struct spa_chunk)`. */
  datatype Env = Env(
    pageRange: (nat, nat) -> MapRange,
    mmap: (int, nat, nat, bool) -> MmapOutcome,
    chunkSize: nat)

  /** `struct mem_id`; `ptr == None` is the NULL pointer. */
  datatype MemId = MemId(id: u32, fd: int, flags: u32, ref: nat, range: MapRange, ptr: Option<Addr>)

  /** The system calls performed so far: successful mappings, unmappings and
      the multiset of closed fds. */
  datatype Sys = Sys(maps: nat, unmaps: nat, closed: multiset<int>)

  /** The table together with the recorded system calls. */
  datatype Table = Table(mems: seq<MemId>, sys: Sys)

  /** The entry released by `clear_memid`: no fd and the invalid id. */
  function Released(m: MemId): MemId
  {
    m.(fd := -1, id := ID_INVALID)
  }

  // ---------------------------------------------------------------------
  // find_mem

  /** `find_mem`: index of the first entry carrying `id`. */
  function FindMem(mems: seq<MemId>, id: u32): (r: Option<nat>)
    ensures r.Some? ==> r.value < |mems| && mems[r.value].id == id
    ensures r.Some? ==> forall j :: 0 <= j < r.value ==> mems[j].id != id
    ensures r.None? <==> forall j :: 0 <= j < |mems| ==> mems[j].id != id
  {
    FindMemFrom(mems, id, 0)
  }

  function FindMemFrom(mems: seq<MemId>, id: u32, i: nat): (r: Option<nat>)
    requires i <= |mems|
    ensures r.Some? ==> i <= r.value < |mems| && mems[r.value].id == id
    ensures r.Some? ==> forall j :: i <= j < r.value ==> mems[j].id != id
    ensures r.None? <==> forall j :: i <= j < |mems| ==> mems[j].id != id
    decreases |mems| - i
  {
    if i == |mems| then None
    else if mems[i].id == id then Some(i)
    else FindMemFrom(mems, id, i + 1)
  }

  // ---------------------------------------------------------------------
  // client_node_add_mem

  /** The entry `add_mem` appends for a new id. */
  function NewMem(memId: u32, fd: int, flags: u32): MemId
  {
    MemId(memId, fd, flags, 0, MAP_RANGE_INIT, None)
  }

  /** `client_node_add_mem`: a known id is ignored (a warning), a new one is
      appended unreferenced and unmapped.  The region type is not stored. */
  function AddMem(t: Table, memId: u32, fd: int, flags: u32): (r: Table)
    ensures FindMem(t.mems, memId).Some? ==> r == t
    ensures FindMem(t.mems, memId).None? ==> r == Table(t.mems + [NewMem(memId, fd, flags)], t.sys)
  {
    if FindMem(t.mems, memId).Some? then t
    else Table(t.mems + [NewMem(memId, fd, flags)], t.sys)
  }

  /** After `add_mem`, looking the id up finds an entry for it; when the id
      was new, the entry is the appended one, with ref 0, no mapping and the
      given fd.  Earlier entries keep their indices. */
  lemma AddMemThenFind(t: Table, memId: u32, fd: int, flags: u32)
    ensures var r := AddMem(t, memId, fd, flags);
      && FindMem(r.mems, memId).Some?
      && (FindMem(t.mems, memId).None? ==>
            && FindMem(r.mems, memId) == Some(|t.mems|)
            && r.mems[|t.mems|].fd == fd
            && r.mems[|t.mems|].ref == 0
            && r.mems[|t.mems|].ptr.None?)
      && (forall j :: 0 <= j < |t.mems| ==> r.mems[j] == t.mems[j])
  {
    var r := AddMem(t, memId, fd, flags);
    if FindMem(t.mems, memId).None? {
      assert r.mems[|t.mems|].id == memId;
      assert forall j :: 0 <= j < |t.mems| ==> r.mems[j].id != memId;
    }
  }

  /** Announcing an id twice keeps the first announcement. */
  lemma AddMemIdempotent(t: Table, memId: u32, fd: int, flags: u32, fd2: int, flags2: u32)
    ensures AddMem(AddMem(t, memId, fd, flags), memId, fd2, flags2) == AddMem(t, memId, fd, flags)
  {
    AddMemThenFind(t, memId, fd, flags);
  }

  // ---------------------------------------------------------------------
  // mem_map / mem_unmap

  /** `mem_map`: maps the entry on first use with the page range of the
      requested window, and returns the address of that first window's start.
      Later calls reuse the mapping whatever window they ask for.  A failed
      `mmap` leaves the entry unmapped (its range already recorded). */
  function MemMap(t: Table, k: nat, offset: nat, size: nat, env: Env): (r: (Table, Option<Addr>))
    requires k < |t.mems|
    ensures |r.0.mems| == |t.mems|
    ensures forall j :: 0 <= j < |t.mems| && j != k ==> r.0.mems[j] == t.mems[j]
    ensures t.mems[k].ptr.Some? ==> r.0 == t
    ensures r.1.Some? <==> r.0.mems[k].ptr.Some?
    ensures r.1.Some? ==> r.1.value == r.0.mems[k].ptr.value + r.0.mems[k].range.start
    ensures r.0.mems[k].id == t.mems[k].id && r.0.mems[k].fd == t.mems[k].fd && r.0.mems[k].ref == t.mems[k].ref
    ensures r.0.sys.unmaps == t.sys.unmaps && r.0.sys.closed == t.sys.closed
    ensures r.0.sys.maps == t.sys.maps + (if t.mems[k].ptr.None? && r.1.Some? then 1 else 0)
    ensures t.mems[k].ptr.None? ==>
      var rng := env.pageRange(offset, size);
      var out := env.mmap(t.mems[k].fd, rng.offset, rng.size, true);
      && r.0.mems[k].range == rng
      && (r.1.Some? <==> out.Mapped?)
      && (out.Mapped? ==> r.0.mems[k].ptr == Some(out.addr))
  {
    var m := t.mems[k];
    if m.ptr.None? then
      var rng := env.pageRange(offset, size);
      match env.mmap(m.fd, rng.offset, rng.size, true)
      case MapFailed(_) =>
        (Table(t.mems[k := m.(range := rng)], t.sys), None)
      case Mapped(a) =>
        (Table(t.mems[k := m.(range := rng, ptr := Some(a))], t.sys.(maps := t.sys.maps + 1)),
         Some(a + rng.start))
    else
      (t, Some(m.ptr.value + m.range.start))
  }

  /** Mapping an entry a second time returns the first window's address and
      performs no system call, whatever offset and size the second call asks
      for. */
  lemma MemMapReusesFirstMapping(t: Table, k: nat, off1: nat, size1: nat, off2: nat, size2: nat, env: Env)
    requires k < |t.mems|
    requires MemMap(t, k, off1, size1, env).1.Some?
    ensures var (t1, a1) := MemMap(t, k, off1, size1, env);
      MemMap(t1, k, off2, size2, env) == (t1, a1)
  {
  }

  /** `mem_unmap`: releases the entry's mapping, if any. */
  function MemUnmap(t: Table, k: nat): (r: Table)
    requires k < |t.mems|
    ensures |r.mems| == |t.mems| && r.mems[k].ptr.None?
    ensures forall j :: 0 <= j < |t.mems| && j != k ==> r.mems[j] == t.mems[j]
    ensures r.mems[k] == t.mems[k].(ptr := None)
    ensures r.sys.maps == t.sys.maps && r.sys.closed == t.sys.closed
    ensures r.sys.unmaps == t.sys.unmaps + (if t.mems[k].ptr.Some? then 1 else 0)
  {
    if t.mems[k].ptr.Some? then
      Table(t.mems[k := t.mems[k].(ptr := None)], t.sys.(unmaps := t.sys.unmaps + 1))
    else t
  }

  // ---------------------------------------------------------------------
  // clear_memid

  /** Some entry of `mems` holds `fd`. */
  predicate HasFd(mems: seq<MemId>, fd: int)
  {
    exists j :: 0 <= j < |mems| && mems[j].fd == fd
  }

  /** `clear_memid` exactly as the source writes it.  An entry without an fd
      is left alone.  Otherwise the entry loses its fd and id; when another
      entry still holds the same fd, nothing else happens (the entry keeps
      its mapping); when it was the last holder, its mapping is released and
      the fd closed.  No other entry changes. */
  function ClearMemIdAsWritten(t: Table, k: nat): (r: Table)
    requires k < |t.mems|
    ensures |r.mems| == |t.mems|
    ensures forall j :: 0 <= j < |t.mems| && j != k ==> r.mems[j] == t.mems[j]
    ensures t.mems[k].fd == -1 ==> r == t
    ensures t.mems[k].fd != -1 ==>
      var shared := HasFd(t.mems[k := Released(t.mems[k])], t.mems[k].fd);
      && r.mems[k] == Released(t.mems[k]).(ptr := if shared then t.mems[k].ptr else None)
      && r.sys.maps == t.sys.maps
      && r.sys.unmaps == t.sys.unmaps + (if !shared && t.mems[k].ptr.Some? then 1 else 0)
      && r.sys.closed == t.sys.closed + (if shared then multiset{} else multiset{t.mems[k].fd})
  {
    var m := t.mems[k];
    if m.fd == -1 then t
    else
      var mems1 := t.mems[k := Released(m)];
      if HasFd(mems1, m.fd) then Table(mems1, t.sys)
      else
        var t2 := MemUnmap(Table(mems1, t.sys), k);
        t2.(sys := t2.sys.(closed := t2.sys.closed + multiset{m.fd}))
  }

  /** With two entries sharing fd 5 and the first one mapped, releasing the
      first one keeps its mapping while dropping its fd; releasing the second
      then closes fd 5, and the first entry's mapping is left without any
      `munmap`. */
  lemma ClearMemIdAsWrittenLeaksMapping()
    ensures var a := MemId(1, 5, 0, 0, MapRange(0, 0, 4096), Some(4096));
      var b := MemId(2, 5, 0, 0, MAP_RANGE_INIT, None);
      var t := Table([a, b], Sys(1, 0, multiset{}));
      var t1 := ClearMemIdAsWritten(t, 0);
      var t2 := ClearMemIdAsWritten(t1, 1);
      && t2.mems[0].fd == -1 && t2.mems[1].fd == -1
      && t2.mems[0].ptr.Some?
      && t2.sys.closed == multiset{5}
      && t2.sys.maps == 1 && t2.sys.unmaps == 0
  {
    var a := MemId(1, 5, 0, 0, MapRange(0, 0, 4096), Some(4096));
    var b := MemId(2, 5, 0, 0, MAP_RANGE_INIT, None);
    var t := Table([a, b], Sys(1, 0, multiset{}));
    var t1 := ClearMemIdAsWritten(t, 0);
    assert t1.mems[1].fd == 5;
    assert HasFd(t.mems[0 := Released(a)], 5);
    var t2 := ClearMemIdAsWritten(t1, 1);
    assert !HasFd(t1.mems[1 := Released(t1.mems[1])], 5);
  }

  /** `clear_memid` with the entry's own mapping always released: the entry
      loses fd, id and mapping; its fd is closed exactly when no other entry
      holds it.  Nothing else changes. */
  function ClearMemId(t: Table, k: nat): (r: Table)
    requires k < |t.mems|
    ensures |r.mems| == |t.mems|
    ensures forall j :: 0 <= j < |t.mems| && j != k ==> r.mems[j] == t.mems[j]
    ensures t.mems[k].fd == -1 ==> r == t
    ensures t.mems[k].fd != -1 ==>
      && r.mems[k] == Released(t.mems[k]).(ptr := None)
      && r.sys.maps == t.sys.maps
      && r.sys.unmaps == t.sys.unmaps + (if t.mems[k].ptr.Some? then 1 else 0)
      && r.sys.closed == t.sys.closed +
           (if HasFd(t.mems[k := Released(t.mems[k])], t.mems[k].fd) then multiset{}
            else multiset{t.mems[k].fd})
  {
    var m := t.mems[k];
    if m.fd == -1 then t
    else
      var mems1 := t.mems[k := Released(m)];
      var t2 := MemUnmap(Table(mems1, t.sys), k);
      if HasFd(mems1, m.fd) then t2
      else t2.(sys := t2.sys.(closed := t2.sys.closed + multiset{m.fd}))
  }

  /** The two versions of `clear_memid` close the same fds and leave the
      same fds and ids behind; they differ only in whether the released
      entry's mapping survives, and only when its fd is shared. */
  lemma ClearMemIdVersionsAgree(t: Table, k: nat)
    requires k < |t.mems|
    ensures var (a, b) := (ClearMemIdAsWritten(t, k), ClearMemId(t, k));
      && a.sys.closed == b.sys.closed && a.sys.maps == b.sys.maps
      && (forall j :: 0 <= j < |t.mems| ==> a.mems[j].(ptr := None) == b.mems[j].(ptr := None))
      && (forall j :: 0 <= j < |t.mems| && j != k ==> a.mems[j] == b.mems[j])
      && (a.mems[k] != b.mems[k] ==> t.mems[k].fd != -1 && t.mems[k].ptr.Some?
                                      && HasFd(t.mems[k := Released(t.mems[k])], t.mems[k].fd))
  {
  }

  // ---------------------------------------------------------------------
  // the release loop of clean_transport

  /** The distinct fds held by entries `i..` of `mems`. */
  function FdsFrom(mems: seq<MemId>, i: nat): set<int>
  {
    set j | i <= j < |mems| && mems[j].fd != -1 :: mems[j].fd
  }

  /** The loop of `clean_transport` that releases every entry in order. */
  function ClearAllFrom(t: Table, i: nat): (r: Table)
    requires i <= |t.mems|
    ensures |r.mems| == |t.mems|
    decreases |t.mems| - i
  {
    if i == |t.mems| then t
    else ClearAllFrom(ClearMemIdAsWritten(t, i), i + 1)
  }

  function ClearAll(t: Table): (r: Table)
    ensures |r.mems| == |t.mems|
  {
    ClearAllFrom(t, 0)
  }

  /** The fds closed so far together with the distinct fds still held.
      Releasing entries only moves fds from the second part to the first. */
  function Ledger(t: Table): multiset<int>
  {
    t.sys.closed + multiset(FdsFrom(t.mems, 0))
  }

  /** Tables with the same fds at every position and the same closed fds
      have the same ledger. */
  lemma SameFdsSameLedger(a: Table, b: Table)
    requires |a.mems| == |b.mems| && a.sys.closed == b.sys.closed
    requires forall j :: 0 <= j < |a.mems| ==> a.mems[j].fd == b.mems[j].fd
    ensures Ledger(a) == Ledger(b)
  {
    assert FdsFrom(a.mems, 0) == FdsFrom(b.mems, 0);
  }

  /** An fd other than -1 is held by some entry exactly when it is among
      the distinct fds of the table. */
  lemma HasFdIffHeld(mems: seq<MemId>, fd: int)
    requires fd != -1
    ensures HasFd(mems, fd) <==> fd in FdsFrom(mems, 0)
  {
    if HasFd(mems, fd) {
      var j :| 0 <= j < |mems| && mems[j].fd == fd;
      assert mems[j].fd in FdsFrom(mems, 0);
    }
  }

  /** Releasing an entry that holds an fd removes at most that fd from the
      distinct fds of the table. */
  lemma ReleaseFds(mems: seq<MemId>, k: nat)
    requires k < |mems| && mems[k].fd != -1
    ensures FdsFrom(mems, 0) == FdsFrom(mems[k := Released(mems[k])], 0) + {mems[k].fd}
  {
    var mems1 := mems[k := Released(mems[k])];
    forall x | x in FdsFrom(mems, 0) ensures x in FdsFrom(mems1, 0) + {mems[k].fd} {
      var j :| 0 <= j < |mems| && mems[j].fd != -1 && mems[j].fd == x;
      if j != k { assert mems1[j].fd == x; }
    }
    assert mems[k].fd in FdsFrom(mems, 0);
  }

  /** Releasing any entry keeps the ledger: its fd is closed exactly when
      the entry was its last holder, so every fd is closed once over a
      sequence of releases. */
  lemma ClearMemIdKeepsLedger(t: Table, k: nat)
    requires k < |t.mems|
    ensures Ledger(ClearMemId(t, k)) == Ledger(t)
  {
    var fd := t.mems[k].fd;
    var t1 := ClearMemId(t, k);
    if fd != -1 {
      var mems1 := t.mems[k := Released(t.mems[k])];
      SameFdsSameLedger(t1, Table(mems1, t1.sys));
      ReleaseFds(t.mems, k);
      HasFdIffHeld(mems1, fd);
      if HasFd(mems1, fd) {
        assert FdsFrom(t.mems, 0) == FdsFrom(mems1, 0);
      } else {
        assert multiset(FdsFrom(t.mems, 0)) == multiset(FdsFrom(mems1, 0)) + multiset{fd};
      }
    }
  }

  /** The same holds for `clear_memid` as written: a leaked mapping does not
      change which fds are closed. */
  lemma ClearMemIdAsWrittenKeepsLedger(t: Table, k: nat)
    requires k < |t.mems|
    ensures Ledger(ClearMemIdAsWritten(t, k)) == Ledger(t)
  {
    ClearMemIdVersionsAgree(t, k);
    ClearMemIdKeepsLedger(t, k);
    SameFdsSameLedger(ClearMemIdAsWritten(t, k), ClearMemId(t, k));
  }

  /** Once entries before `i` hold no fd, entry `i`'s fd is shared with
      another entry exactly when some later entry holds it. */
  lemma SharedIffLater(mems: seq<MemId>, i: nat)
    requires i < |mems| && mems[i].fd != -1
    requires forall j :: 0 <= j < i ==> mems[j].fd == -1
    ensures HasFd(mems[i := Released(mems[i])], mems[i].fd) <==> HasFd(mems[i + 1..], mems[i].fd)
  {
    var fd := mems[i].fd;
    var mems1 := mems[i := Released(mems[i])];
    if HasFd(mems1, fd) {
      var j :| 0 <= j < |mems1| && mems1[j].fd == fd;
      assert mems[i + 1..][j - i - 1].fd == fd;
    }
    if HasFd(mems[i + 1..], fd) {
      var j :| 0 <= j < |mems[i + 1..]| && mems[i + 1..][j].fd == fd;
      assert mems1[i + 1 + j].fd == fd;
    }
  }

  /** One step of the loop: entry `i` closes its fd exactly when no later
      entry holds it, so the closed fds plus the fds still held stay the
      same set. */
  lemma ClearStepAccounts(t: Table, i: nat)
    requires i < |t.mems|
    requires forall j :: 0 <= j < i ==> t.mems[j].fd == -1
    ensures var t1 := ClearMemIdAsWritten(t, i);
      t1.sys.closed + multiset(FdsFrom(t1.mems, i + 1))
        == t.sys.closed + multiset(FdsFrom(t.mems, i))
  {
    var t1 := ClearMemIdAsWritten(t, i);
    var fd := t.mems[i].fd;
    assert FdsFrom(t1.mems, i + 1) == FdsFrom(t.mems, i + 1);
    if fd == -1 {
      assert FdsFrom(t.mems, i) == FdsFrom(t.mems, i + 1);
    } else {
      assert FdsFrom(t.mems, i) == {fd} + FdsFrom(t.mems, i + 1);
      var mems1 := t.mems[i := Released(t.mems[i])];
      if HasFd(mems1, fd) {
        var j :| 0 <= j < |mems1| && mems1[j].fd == fd;
        assert i < j;
        assert fd in FdsFrom(t.mems, i + 1);
        assert FdsFrom(t.mems, i) == FdsFrom(t.mems, i + 1);
      } else {
        assert fd !in FdsFrom(t.mems, i + 1);
        assert multiset(FdsFrom(t.mems, i)) == multiset{fd} + multiset(FdsFrom(t.mems, i + 1));
      }
    }
  }

  /** Releasing entries `i..` closes each distinct fd they hold exactly once
      and leaves no entry with an fd.  An entry that held an fd keeps its
      mapping when a later entry shares the fd and loses it otherwise;
      entries without an fd are untouched. */
  lemma {:induction false} ClearAllFromClosesEachFdOnce(t: Table, i: nat)
    requires i <= |t.mems|
    requires forall j :: 0 <= j < i ==> t.mems[j].fd == -1
    ensures ClearAllFrom(t, i).sys.closed == t.sys.closed + multiset(FdsFrom(t.mems, i))
    ensures forall j :: 0 <= j < |t.mems| ==> ClearAllFrom(t, i).mems[j].fd == -1
    ensures forall j :: i <= j < |t.mems| && t.mems[j].fd != -1 ==>
      ClearAllFrom(t, i).mems[j]
        == Released(t.mems[j]).(ptr := if HasFd(t.mems[j + 1..], t.mems[j].fd) then t.mems[j].ptr else None)
    ensures forall j :: 0 <= j < |t.mems| && t.mems[j].fd == -1 ==> ClearAllFrom(t, i).mems[j] == t.mems[j]
    decreases |t.mems| - i
  {
    if i == |t.mems| {
      assert FdsFrom(t.mems, i) == {};
    } else {
      var t1 := ClearMemIdAsWritten(t, i);
      ClearStepAccounts(t, i);
      ClearAllFromClosesEachFdOnce(t1, i + 1);
      var r := ClearAllFrom(t1, i + 1);
      assert ClearAllFrom(t, i) == r;
      forall j | i <= j < |t.mems| && t.mems[j].fd != -1
        ensures r.mems[j]
          == Released(t.mems[j]).(ptr := if HasFd(t.mems[j + 1..], t.mems[j].fd) then t.mems[j].ptr else None)
      {
        if j == i {
          SharedIffLater(t.mems, i);
        } else {
          assert t1.mems[j] == t.mems[j];
          assert t1.mems[j + 1..] == t.mems[j + 1..];
        }
      }
    }
  }

  /** The whole release loop: each distinct fd closed once and no fd left;
      an entry that held an fd keeps its mapping exactly when a later entry
      shares that fd, and loses it otherwise. */
  lemma ClearAllClosesEachFdOnce(t: Table)
    ensures ClearAll(t).sys.closed == t.sys.closed + multiset(FdsFrom(t.mems, 0))
    ensures forall j :: 0 <= j < |t.mems| ==> ClearAll(t).mems[j].fd == -1
    ensures forall j :: 0 <= j < |t.mems| && t.mems[j].fd != -1 ==>
      ClearAll(t).mems[j]
        == Released(t.mems[j]).(ptr := if HasFd(t.mems[j + 1..], t.mems[j].fd) then t.mems[j].ptr else None)
  {
    ClearAllFromClosesEachFdOnce(t, 0);
  }
}
