/** Borrowed strings: readers on any thread hold pins on the buffers of large strings, and the owning thread
    overwrites, frees and moves those strings meanwhile. The protocol is a state machine. Every step runs on the
    owning thread, except Unpin and Move, which any thread may take between two owner steps. */
module PinProtocol {
  type Byte = b: nat | b < 256

  /** A buffer: which allocation it is, and its bytes up to its full capacity. */
  datatype Block = Block(id: nat, bytes: seq<Byte>)

  /** A large string; `pending` is its read_pending bit. */
  datatype Str = Null | Str(addr: nat, size: nat, pending: bool)

  /** An entry of the pin map. */
  datatype Pin = Pin(refcnt: nat, orphaned: bool)

  /** A borrowed string that holds a pin: the address it points to, and the bytes it was given. */
  datatype Handle = Handle(addr: nat, view: seq<Byte>)

  datatype State = State(
    heap: map<nat, Block>, strs: map<nat, Str>, pins: map<nat, Pin>, handles: map<nat, Handle>,
    nextId: nat, freed: seq<nat>)

  datatype Label =
    | SetString(sid: nat, bytes: seq<Byte>, addr: nat, capacity: nat)   // addr and capacity of a new buffer
    | Free(sid: nat)
    | Defrag(sid: nat, addr: nat, capacity: nat)
    | Borrow(sid: nat, hid: nat)
    | Unpin(hid: nat)
    | Move(hid: nat, to: nat)
    | Drain(pin: nat)
    | SetBytes(sid: nat, idx: nat, bytes: seq<Byte>)   // one byte of a raw string, or a packed group of an ASCII one

  // ---- the invariant --------------------------------------------------------------------

  ghost function Readers(hs: map<nat, Handle>, a: nat): set<nat> { set h | h in hs && hs[h].addr == a }

  /** The pin map counts the handles. */
  ghost predicate Counted(s: State) {
    && (forall a | a in s.pins :: s.pins[a].refcnt == |Readers(s.handles, a)|)
    && (forall h | h in s.handles :: s.handles[h].addr in s.pins)
  }

  ghost predicate OwnedBy(s: State, i: nat, a: nat) { i in s.strs && s.strs[i].Str? && s.strs[i].addr == a }

  /** Every handle points to an allocated buffer at least as long as what it was given, and if this is still the
      buffer of a string, it was given the whole string. */
  ghost predicate Pointed(s: State) {
    && (forall h | h in s.handles ::
          s.handles[h].addr in s.heap && |s.handles[h].view| <= |s.heap[s.handles[h].addr].bytes|)
    && (forall h, i | h in s.handles && OwnedBy(s, i, s.handles[h].addr) :: |s.handles[h].view| == s.strs[i].size)
  }

  /** Every handle still sees the bytes it was given. */
  ghost predicate Readable(s: State) {
    forall h | h in s.handles ::
      s.handles[h].addr in s.heap && s.handles[h].view <= s.heap[s.handles[h].addr].bytes
  }

  /** A string's buffer is its own; if it has a pin, the bit is set and the pin is not orphaned. */
  ghost predicate Owned(s: State) {
    && (forall i | i in s.strs && s.strs[i].Str? ::
          s.strs[i].addr in s.heap && s.strs[i].size <= |s.heap[s.strs[i].addr].bytes|)
    && (forall i, j | i in s.strs && j in s.strs && s.strs[i].Str? && s.strs[j].Str? && i != j ::
          s.strs[i].addr != s.strs[j].addr)
    && (forall i | i in s.strs && s.strs[i].Str? && s.strs[i].addr in s.pins ::
          s.strs[i].pending && !s.pins[s.strs[i].addr].orphaned)
    && (forall a | a in s.pins :: a in s.heap)
  }

  ghost predicate HasOwner(s: State, a: nat) { exists i | i in s.strs :: s.strs[i].Str? && s.strs[i].addr == a }

  /** Nothing leaks: a buffer belongs to a string or to an orphaned pin. */
  ghost predicate NoLeak(s: State) {
    && (forall a | a in s.heap :: HasOwner(s, a) || (a in s.pins && s.pins[a].orphaned))
    && (forall a | a in s.pins && !s.pins[a].orphaned :: HasOwner(s, a))
  }

  /** No allocation is freed twice. */
  ghost predicate FreedOnce(s: State) {
    && (forall a | a in s.heap :: s.heap[a].id < s.nextId && s.heap[a].id !in s.freed)
    && (forall a, b | a in s.heap && b in s.heap && a != b :: s.heap[a].id != s.heap[b].id)
    && (forall x, y | 0 <= x < y < |s.freed| :: s.freed[x] != s.freed[y])
    && (forall x | x in s.freed :: x < s.nextId)
  }

  ghost predicate Inv(s: State) { Counted(s) && Pointed(s) && Owned(s) && NoLeak(s) && FreedOnce(s) }

  // ---- the steps ------------------------------------------------------------------------

  ghost function Deallocate(s: State, a: nat): State
    requires a in s.heap
  {
    s.(heap := s.heap - {a}, freed := s.freed + [s.heap[a].id])
  }

  ghost function Allocate(s: State, a: nat, bytes: seq<Byte>): State {
    s.(heap := s.heap[a := Block(s.nextId, bytes)], nextId := s.nextId + 1)
  }

  /** ReleasePtr: a pinned buffer is orphaned, any other is freed. */
  ghost function ReleasePtr(s: State, sid: nat): State
    requires Inv(s) && sid in s.strs
  {
    var str := s.strs[sid];
    if str.Null? then s
    else if str.pending && str.addr in s.pins then
      s.(pins := s.pins[str.addr := s.pins[str.addr].(orphaned := true)], strs := s.strs[sid := Null])
    else Deallocate(s, str.addr).(strs := s.strs[sid := Null])
  }

  /** A copy to the beginning of a buffer. */
  ghost function Overlay(buf: seq<Byte>, bytes: seq<Byte>): seq<Byte>
    requires |bytes| <= |buf|
  {
    bytes + buf[|bytes|..]
  }

  ghost function Zeros(n: nat): (r: seq<Byte>)
    ensures |r| == n
  {
    if n == 0 then [] else Zeros(n - 1) + [0]
  }

  /** A new buffer for a string that has none. */
  ghost function Fill(s: State, sid: nat, addr: nat, capacity: nat, bytes: seq<Byte>): State
    requires |bytes| <= capacity
  {
    var t := Allocate(s, addr, Overlay(Zeros(capacity), bytes));
    t.(strs := t.strs[sid := Str(addr, |bytes|, false)])
  }

  /** The new value does not fit, or the old one may be read. */
  ghost predicate NeedsFresh(s: State, sid: nat, bytes: seq<Byte>)
    requires Inv(s) && sid in s.strs
  {
    var str := s.strs[sid];
    str.Null? || |bytes| > |s.heap[str.addr].bytes| || str.pending
  }

  ghost predicate Enabled(s: State, l: Label)
    requires Inv(s)
  {
    match l
    case SetString(sid, bytes, addr, capacity) =>
      sid in s.strs && 0 < |bytes| <= capacity && (NeedsFresh(s, sid, bytes) ==> addr !in ReleasePtr(s, sid).heap)
    case Free(sid) => sid in s.strs
    case Defrag(sid, addr, capacity) =>
      sid in s.strs && s.strs[sid].Str? && addr !in s.heap && s.strs[sid].size <= capacity
    case Borrow(sid, hid) => sid in s.strs && s.strs[sid].Str? && hid !in s.handles
    case Unpin(hid) => hid in s.handles
    case Move(hid, to) => hid in s.handles && to !in s.handles
    case Drain(a) => a in s.pins
    case SetBytes(sid, idx, bytes) => sid in s.strs && s.strs[sid].Str?
  }

  ghost function Apply(s: State, l: Label): State
    requires Inv(s) && Enabled(s, l)
  {
    match l
    case SetString(sid, bytes, addr, capacity) =>
      if NeedsFresh(s, sid, bytes) then Fill(ReleasePtr(s, sid), sid, addr, capacity, bytes)
      else InPlace(s, sid, bytes)
    case Free(sid) => ReleasePtr(s, sid)
    case Defrag(sid, addr, capacity) => if s.strs[sid].pending then s else Relocate(s, sid, addr, capacity)
    case Borrow(sid, hid) => TryBorrow(s, sid, hid)
    case Unpin(hid) => UnpinRead(s, hid)
    case Move(hid, to) => s.(handles := (s.handles - {hid})[to := s.handles[hid]])
    case Drain(a) => DrainPin(s, a)
    case SetBytes(sid, idx, bytes) => SetBytesAt(s, sid, idx, bytes)
  }

  /** A copy into the middle of a buffer. */
  ghost function Patch(buf: seq<Byte>, idx: nat, bytes: seq<Byte>): seq<Byte>
    requires idx + |bytes| <= |buf|
  {
    buf[..idx] + bytes + buf[idx + |bytes|..]
  }

  /** SetByteAtIndex: an index out of bounds is refused; the bit and the pin map are not looked at. */
  ghost function SetBytesAt(s: State, sid: nat, idx: nat, bytes: seq<Byte>): State
    requires Inv(s) && sid in s.strs && s.strs[sid].Str?
  {
    var (a, size) := (s.strs[sid].addr, s.strs[sid].size);
    if idx + |bytes| > size then s
    else s.(heap := s.heap[a := s.heap[a].(bytes := Patch(s.heap[a].bytes, idx, bytes))])
  }

  ghost function InPlace(s: State, sid: nat, bytes: seq<Byte>): State
    requires Inv(s) && sid in s.strs && !NeedsFresh(s, sid, bytes)
  {
    var a := s.strs[sid].addr;
    s.(heap := s.heap[a := s.heap[a].(bytes := Overlay(s.heap[a].bytes, bytes))],
       strs := s.strs[sid := s.strs[sid].(size := |bytes|)])
  }

  /** ReallocateString: allocate, copy, free. */
  ghost function Relocate(s: State, sid: nat, addr: nat, capacity: nat): State
    requires Inv(s) && sid in s.strs && s.strs[sid].Str? && s.strs[sid].size <= capacity && addr !in s.heap
  {
    var str := s.strs[sid];
    var t := Allocate(s, addr, Overlay(Zeros(capacity), s.heap[str.addr].bytes[..str.size]));
    Deallocate(t.(strs := t.strs[sid := str.(addr := addr)]), str.addr)
  }

  /** RegisterPin and the read_pending bit. */
  ghost function TryBorrow(s: State, sid: nat, hid: nat): State
    requires Inv(s) && sid in s.strs && s.strs[sid].Str?
  {
    var str := s.strs[sid];
    var pin := if str.addr in s.pins then s.pins[str.addr].(refcnt := s.pins[str.addr].refcnt + 1) else Pin(1, false);
    s.(pins := s.pins[str.addr := pin],
       strs := s.strs[sid := str.(pending := true)],
       handles := s.handles[hid := Handle(str.addr, s.heap[str.addr].bytes[..str.size])])
  }

  /** The count cannot be zero while a handle is there. */
  ghost function UnpinRead(s: State, hid: nat): State
    requires Inv(s) && hid in s.handles
  {
    var a := s.handles[hid].addr;
    assert hid in Readers(s.handles, a);
    s.(handles := s.handles - {hid}, pins := s.pins[a := s.pins[a].(refcnt := s.pins[a].refcnt - 1)])
  }

  ghost function DrainPin(s: State, a: nat): State
    requires Inv(s) && a in s.pins
  {
    if s.pins[a].refcnt > 0 then s
    else if s.pins[a].orphaned then Deallocate(s.(pins := s.pins - {a}), a)
    else s.(pins := s.pins - {a})
  }

  // ---- every step keeps the invariant ----------------------------------------------------

  lemma DeallocateOnce(s: State, a: nat)
    requires FreedOnce(s) && a in s.heap
    ensures FreedOnce(Deallocate(s, a))
  {
  }

  lemma AllocateOnce(s: State, a: nat, bytes: seq<Byte>)
    requires FreedOnce(s)
    ensures FreedOnce(Allocate(s, a, bytes))
  {
  }

  /** Steps that leave the handles and the buffers they see alone. */
  lemma ReadersKept(s: State, t: State)
    requires Counted(s) && Pointed(s) && t.handles == s.handles
    requires forall a | a in t.pins :: a in s.pins && t.pins[a].refcnt == s.pins[a].refcnt
    requires forall h | h in s.handles ::
               var a := s.handles[h].addr;
               a in t.pins && a in t.heap && a in s.heap && t.heap[a].bytes == s.heap[a].bytes
    requires forall i | i in t.strs && t.strs[i].Str? :: SameOrUnread(s, t.strs[i], i)
    ensures Counted(t) && Pointed(t) && (Readable(t) <==> Readable(s))
  {
    forall h, i | h in t.handles && OwnedBy(t, i, t.handles[h].addr) ensures |t.handles[h].view| == t.strs[i].size {
      assert SameOrUnread(s, t.strs[i], i);
      assert OwnedBy(s, i, s.handles[h].addr);
    }
  }

  /** The string has the buffer and the size it had, or a buffer nobody reads. */
  ghost predicate SameOrUnread(s: State, str: Str, i: nat)
    requires str.Str?
  {
    || (i in s.strs && s.strs[i].Str? && s.strs[i].addr == str.addr && s.strs[i].size == str.size)
    || (forall h | h in s.handles :: s.handles[h].addr != str.addr)
  }

  /** Nothing leaks if the strings other than `sid` keep their buffers, and what `sid` or an orphaned pin gives up is
      taken over or gone. */
  lemma NoLeakKept(s: State, t: State, sid: nat)
    requires NoLeak(s)
    requires forall i | i in s.strs && i != sid && s.strs[i].Str? ::
               i in t.strs && t.strs[i].Str? && t.strs[i].addr == s.strs[i].addr
    requires forall b | b in t.heap ::
               || OwnedBy(t, sid, b) || (b in t.pins && t.pins[b].orphaned)
               || (b in s.heap && !OwnedBy(s, sid, b) && !(b in s.pins && s.pins[b].orphaned))
    requires forall b | b in t.pins && !t.pins[b].orphaned ::
               OwnedBy(t, sid, b) || (b in s.pins && !s.pins[b].orphaned && !OwnedBy(s, sid, b))
    ensures NoLeak(t)
  {
    forall b | HasOwner(s, b) && !OwnedBy(s, sid, b) ensures HasOwner(t, b) {
      var i :| i in s.strs && s.strs[i].Str? && s.strs[i].addr == b;
      assert i in t.strs && t.strs[i].addr == b;
    }
    forall b | OwnedBy(t, sid, b) ensures HasOwner(t, b) {
    }
  }

  lemma ReleaseKeeps(s: State, sid: nat)
    requires Inv(s) && sid in s.strs
    ensures Inv(ReleasePtr(s, sid)) && ReleasePtr(s, sid).strs[sid].Null?
    ensures Readable(ReleasePtr(s, sid)) <==> Readable(s)
  {
    hide Readers, Pointed, Counted, FreedOnce, NoLeak;
    var t := ReleasePtr(s, sid);
    if s.strs[sid].Str? {
      var a := s.strs[sid].addr;
      assert Owned(t);
      NoLeakKept(s, t, sid);
      ReleaseReaders(s, sid);
      DeallocateOnce(s, a);
      SameAllocations(s, s.(pins := t.pins, strs := t.strs));
      SameAllocations(Deallocate(s, a), Deallocate(s, a).(strs := t.strs));
    }
  }

  lemma SameAllocations(s: State, t: State)
    requires FreedOnce(s) && t.heap == s.heap && t.nextId == s.nextId && t.freed == s.freed
    ensures FreedOnce(t)
  {
  }

  lemma ReleaseReaders(s: State, sid: nat)
    requires Inv(s) && sid in s.strs && s.strs[sid].Str?
    ensures Counted(ReleasePtr(s, sid)) && Pointed(ReleasePtr(s, sid))
            && (Readable(ReleasePtr(s, sid)) <==> Readable(s))
  {
    hide Readers, FreedOnce, NoLeak;
    ReadersKept(s, ReleasePtr(s, sid));
  }

  lemma FillKeeps(s: State, sid: nat, addr: nat, capacity: nat, bytes: seq<Byte>)
    requires Inv(s) && sid in s.strs && s.strs[sid].Null? && addr !in s.heap && |bytes| <= capacity
    ensures var t := Fill(s, sid, addr, capacity, bytes); Inv(t) && (Readable(t) <==> Readable(s))
  {
    hide Readers, Zeros, Overlay, FreedOnce, NoLeak, Pointed, Counted;
    var t := Fill(s, sid, addr, capacity, bytes);
    OverlayLength(Zeros(capacity), bytes);
    assert Owned(t);
    NoLeakKept(s, t, sid);
    FillReaders(s, sid, addr, capacity, bytes);
    AllocateOnce(s, addr, Overlay(Zeros(capacity), bytes));
    SameAllocations(Allocate(s, addr, Overlay(Zeros(capacity), bytes)), t);
  }

  lemma FillReaders(s: State, sid: nat, addr: nat, capacity: nat, bytes: seq<Byte>)
    requires Inv(s) && sid in s.strs && addr !in s.heap && |bytes| <= capacity
    ensures var t := Fill(s, sid, addr, capacity, bytes); Counted(t) && Pointed(t) && (Readable(t) <==> Readable(s))
  {
    hide Readers, Zeros, Overlay, FreedOnce, NoLeak, Owned;
    ReadersKept(s, Fill(s, sid, addr, capacity, bytes));
  }

  lemma OverlayLength(buf: seq<Byte>, bytes: seq<Byte>)
    requires |bytes| <= |buf|
    ensures |Overlay(buf, bytes)| == |buf|
  {
  }

  /** Only a string whose bit is clear is written in place, and then nobody reads it. */
  lemma InPlaceKeeps(s: State, sid: nat, bytes: seq<Byte>)
    requires Inv(s) && sid in s.strs && !NeedsFresh(s, sid, bytes)
    ensures Inv(InPlace(s, sid, bytes)) && (Readable(InPlace(s, sid, bytes)) <==> Readable(s))
  {
    hide Readers, Overlay, NoLeak, Pointed, Counted, FreedOnce;
    var (t, a) := (InPlace(s, sid, bytes), s.strs[sid].addr);
    OverlayLength(s.heap[a].bytes, bytes);
    assert Owned(t);
    NoLeakKept(s, t, sid);
    InPlaceReaders(s, sid, bytes);
    SameIds(s, t);
  }

  lemma SameIds(s: State, t: State)
    requires FreedOnce(s) && t.heap.Keys == s.heap.Keys && t.nextId == s.nextId && t.freed == s.freed
    requires forall a | a in s.heap :: t.heap[a].id == s.heap[a].id
    ensures FreedOnce(t)
  {
    forall a | a in t.heap ensures a in s.heap {
      assert a in t.heap.Keys;
    }
  }

  /** A string whose bit is clear has no readers. */
  lemma NotRead(s: State, sid: nat)
    requires Inv(s) && sid in s.strs && s.strs[sid].Str? && !s.strs[sid].pending
    ensures s.strs[sid].addr !in s.pins && forall h | h in s.handles :: s.handles[h].addr != s.strs[sid].addr
  {
    hide Readers, NoLeak, FreedOnce, Pointed;
  }

  lemma InPlaceReaders(s: State, sid: nat, bytes: seq<Byte>)
    requires Inv(s) && sid in s.strs && !NeedsFresh(s, sid, bytes)
    ensures Counted(InPlace(s, sid, bytes)) && Pointed(InPlace(s, sid, bytes))
            && (Readable(InPlace(s, sid, bytes)) <==> Readable(s))
  {
    hide Readers, Overlay, NoLeak, FreedOnce;
    NotRead(s, sid);
    ReadersKept(s, InPlace(s, sid, bytes));
  }

  /** Moving a string is freeing it and filling it anew. */
  lemma RelocateIsRefill(s: State, sid: nat, addr: nat, capacity: nat)
    requires Inv(s) && sid in s.strs && s.strs[sid].Str? && !s.strs[sid].pending
    requires s.strs[sid].size <= capacity && addr !in s.heap
    ensures Relocate(s, sid, addr, capacity)
            == Fill(ReleasePtr(s, sid), sid, addr, capacity, s.heap[s.strs[sid].addr].bytes[..s.strs[sid].size])
  {
    hide Readers, Overlay, Zeros;
    var (t, u) := (Relocate(s, sid, addr, capacity),
                   Fill(ReleasePtr(s, sid), sid, addr, capacity, s.heap[s.strs[sid].addr].bytes[..s.strs[sid].size]));
    assert t.heap == u.heap && t.strs == u.strs;
  }

  lemma ReadersPlus(hs: map<nat, Handle>, hid: nat, h: Handle, a: nat)
    requires hid !in hs
    ensures |Readers(hs[hid := h], a)| == |Readers(hs, a)| + if h.addr == a then 1 else 0
  {
    assert Readers(hs[hid := h], a) == Readers(hs, a) + if h.addr == a then {hid} else {};
  }

  lemma ReadersMinus(hs: map<nat, Handle>, hid: nat, a: nat)
    requires hid in hs
    ensures |Readers(hs, a)| == |Readers(hs - {hid}, a)| + if hs[hid].addr == a then 1 else 0
  {
    ReadersPlus(hs - {hid}, hid, hs[hid], a);
    assert (hs - {hid})[hid := hs[hid]] == hs;
  }

  lemma BorrowKeeps(s: State, sid: nat, hid: nat)
    requires Inv(s) && sid in s.strs && s.strs[sid].Str? && hid !in s.handles
    ensures Inv(TryBorrow(s, sid, hid)) && (Readable(s) ==> Readable(TryBorrow(s, sid, hid)))
  {
    hide Readers, NoLeak, Pointed, Counted, FreedOnce;
    var t := TryBorrow(s, sid, hid);
    assert Owned(t);
    NoLeakKept(s, t, sid);
    BorrowReaders(s, sid, hid);
    SameAllocations(s, t);
  }

  lemma BorrowReaders(s: State, sid: nat, hid: nat)
    requires Inv(s) && sid in s.strs && s.strs[sid].Str? && hid !in s.handles
    ensures var t := TryBorrow(s, sid, hid); Counted(t) && Pointed(t) && (Readable(s) ==> Readable(t))
  {
    hide Readers, NoLeak, FreedOnce;
    var (t, a) := (TryBorrow(s, sid, hid), s.strs[sid].addr);
    if a !in s.pins {
      NobodyReads(s, a);
    }
    forall b | b in t.pins ensures t.pins[b].refcnt == |Readers(t.handles, b)| {
      ReadersPlus(s.handles, hid, t.handles[hid], b);
    }
  }

  lemma NobodyReads(s: State, a: nat)
    requires Counted(s) && a !in s.pins
    ensures Readers(s.handles, a) == {}
  {
  }

  lemma UnpinKeeps(s: State, hid: nat)
    requires Inv(s) && hid in s.handles
    ensures Inv(UnpinRead(s, hid)) && (Readable(s) ==> Readable(UnpinRead(s, hid)))
  {
    hide Readers, NoLeak, Pointed, Readable, FreedOnce;
    var t := UnpinRead(s, hid);
    assert Owned(t);
    SameOwners(s, t);
    SameAllocations(s, t);
    forall b | b in t.pins ensures t.pins[b].refcnt == |Readers(t.handles, b)| {
      ReadersMinus(s.handles, hid, b);
    }
    FewerViews(s, t);
  }

  lemma SameOwners(s: State, t: State)
    requires NoLeak(s) && t.strs == s.strs && t.heap == s.heap && t.pins.Keys == s.pins.Keys
    requires forall a | a in t.pins :: a in s.pins && t.pins[a].orphaned == s.pins[a].orphaned
    ensures NoLeak(t)
  {
    forall b | HasOwner(s, b) ensures HasOwner(t, b) {
      var i :| i in s.strs && s.strs[i].Str? && s.strs[i].addr == b;
      assert i in t.strs && t.strs[i].addr == b;
    }
    forall b | b in s.pins ensures b in t.pins {
      assert b in s.pins.Keys;
    }
  }

  lemma FewerViews(s: State, t: State)
    requires Pointed(s) && t.heap == s.heap && t.strs == s.strs
    requires forall h | h in t.handles :: exists g | g in s.handles :: s.handles[g] == t.handles[h]
    ensures Pointed(t) && (Readable(s) ==> Readable(t))
  {
    forall h, i | h in t.handles && OwnedBy(t, i, t.handles[h].addr) ensures |t.handles[h].view| == t.strs[i].size {
      var g :| g in s.handles && s.handles[g] == t.handles[h];
      assert OwnedBy(s, i, s.handles[g].addr);
    }
  }

  lemma MoveKeeps(s: State, hid: nat, to: nat)
    requires Inv(s) && hid in s.handles && to !in s.handles
    ensures Inv(Apply(s, Move(hid, to))) && (Readable(s) ==> Readable(Apply(s, Move(hid, to))))
  {
    hide Readers, NoLeak, Pointed, Readable, FreedOnce;
    var t := Apply(s, Move(hid, to));
    SameOwners(s, t);
    SameAllocations(s, t);
    forall b | b in t.pins ensures t.pins[b].refcnt == |Readers(t.handles, b)| {
      ReadersMinus(s.handles, hid, b);
      ReadersPlus(s.handles - {hid}, to, s.handles[hid], b);
    }
    FewerViews(s, t);
  }

  /** A pin goes only when no handle is left, and an orphaned buffer with it. */
  lemma DrainKeeps(s: State, a: nat)
    requires Inv(s) && a in s.pins
    ensures Inv(DrainPin(s, a)) && (Readable(DrainPin(s, a)) <==> Readable(s))
  {
    hide Readers, NoLeak, Pointed, Readable, Counted, FreedOnce;
    var t := DrainPin(s, a);
    if s.pins[a].refcnt == 0 {
      assert Owned(t) by {
        DrainOwned(s, a);
      }
      DrainReaders(s, a);
      DrainNoLeak(s, a);
      DeallocateOnce(s, a);
      SameAllocations(s, s.(pins := t.pins));
      SameAllocations(Deallocate(s, a), Deallocate(s, a).(pins := t.pins));
    }
  }

  lemma DrainOwned(s: State, a: nat)
    requires Inv(s) && a in s.pins
    ensures Owned(DrainPin(s, a))
  {
    hide Readers, NoLeak, Pointed, Counted, FreedOnce;
  }

  lemma DrainNoLeak(s: State, a: nat)
    requires Inv(s) && a in s.pins
    ensures NoLeak(DrainPin(s, a))
  {
    hide Readers, Pointed, Counted, FreedOnce;
    var t := DrainPin(s, a);
    forall b | HasOwner(s, b) ensures HasOwner(t, b) {
      var i :| i in s.strs && s.strs[i].Str? && s.strs[i].addr == b;
      assert i in t.strs && t.strs[i].addr == b;
    }
  }

  lemma DrainReaders(s: State, a: nat)
    requires Inv(s) && a in s.pins
    ensures var t := DrainPin(s, a); Counted(t) && Pointed(t) && (Readable(t) <==> Readable(s))
  {
    hide NoLeak, FreedOnce, Owned;
    if s.pins[a].refcnt == 0 {
      forall h | h in s.handles ensures s.handles[h].addr != a {
        assert h !in Readers(s.handles, a);
      }
      hide Readers;
      ReadersKept(s, DrainPin(s, a));
    }
  }

  // ---- a write that does not look at the bit ---------------------------------------------

  /** The written bytes differ from those the string had, and somebody reads the string. */
  ghost predicate Spoils(s: State, l: Label)
    requires Inv(s) && Enabled(s, l)
  {
    && l.SetBytes? && l.idx + |l.bytes| <= s.strs[l.sid].size
    && var a := s.strs[l.sid].addr;
       && a in s.pins && s.pins[a].refcnt > 0
       && s.heap[a].bytes[l.idx..l.idx + |l.bytes|] != l.bytes
  }

  lemma SetBytesKeeps(s: State, sid: nat, idx: nat, bytes: seq<Byte>)
    requires Inv(s) && sid in s.strs && s.strs[sid].Str?
    ensures Inv(SetBytesAt(s, sid, idx, bytes))
  {
    hide Readers, NoLeak, FreedOnce, HasOwner;
    var (t, a) := (SetBytesAt(s, sid, idx, bytes), s.strs[sid].addr);
    if idx + |bytes| <= s.strs[sid].size {
      assert |t.heap[a].bytes| == |s.heap[a].bytes|;
      assert t.heap.Keys == s.heap.Keys;
      SameIds(s, t);
      NoLeakKept(s, t, sid);
    }
  }

  /** SetByteAtIndex changes what a live handle sees exactly when it changes the string and the string has a reader. */
  lemma SetBytesReadable(s: State, sid: nat, idx: nat, bytes: seq<Byte>)
    requires Inv(s) && Readable(s) && Enabled(s, SetBytes(sid, idx, bytes))
    ensures Readable(SetBytesAt(s, sid, idx, bytes)) <==> !Spoils(s, SetBytes(sid, idx, bytes))
  {
    hide Inv, Readable, Spoils, SetBytesAt;
    if Spoils(s, SetBytes(sid, idx, bytes)) {
      SpoiledIsSeen(s, sid, idx, bytes);
    } else {
      SparedStaysReadable(s, sid, idx, bytes);
    }
  }

  lemma SpoiledIsSeen(s: State, sid: nat, idx: nat, bytes: seq<Byte>)
    requires Inv(s) && Readable(s) && Enabled(s, SetBytes(sid, idx, bytes)) && Spoils(s, SetBytes(sid, idx, bytes))
    ensures !Readable(SetBytesAt(s, sid, idx, bytes))
  {
    hide NoLeak, FreedOnce;
    var (t, a) := (SetBytesAt(s, sid, idx, bytes), s.strs[sid].addr);
    var (buf, now) := (s.heap[a].bytes, t.heap[a].bytes);
    ReaderOf(s, a);
    var h :| h in s.handles && s.handles[h].addr == a;
    assert OwnedBy(s, sid, a);
    var j :| 0 <= j < |bytes| && buf[idx..idx + |bytes|][j] != bytes[j];
    assert s.handles[h].view[idx + j] == buf[idx + j] != now[idx + j];
    assert !(s.handles[h].view <= now);
  }

  lemma SparedStaysReadable(s: State, sid: nat, idx: nat, bytes: seq<Byte>)
    requires Inv(s) && Readable(s) && Enabled(s, SetBytes(sid, idx, bytes)) && !Spoils(s, SetBytes(sid, idx, bytes))
    ensures Readable(SetBytesAt(s, sid, idx, bytes))
  {
    hide NoLeak, FreedOnce;
    var (t, a) := (SetBytesAt(s, sid, idx, bytes), s.strs[sid].addr);
    if idx + |bytes| <= s.strs[sid].size {
      if a in s.pins && s.pins[a].refcnt > 0 {
        assert t.heap[a].bytes == s.heap[a].bytes;
      } else {
        forall h | h in s.handles ensures s.handles[h].addr != a {
          assert s.handles[h].addr == a ==> h in Readers(s.handles, a);
        }
      }
    }
  }

  lemma ReaderOf(s: State, a: nat)
    requires Counted(s) && a in s.pins && s.pins[a].refcnt > 0
    ensures exists h | h in s.handles :: s.handles[h].addr == a
  {
    assert Readers(s.handles, a) != {};
    var h :| h in Readers(s.handles, a);
  }

  /** A string whose bit is clear may be written by anyone. */
  lemma ClearBitIsSafe(s: State, l: Label)
    requires Inv(s) && Enabled(s, l) && l.SetBytes? && !s.strs[l.sid].pending
    ensures !Spoils(s, l)
  {
    hide Readers, NoLeak, FreedOnce, Pointed;
    NotRead(s, l.sid);
  }

  /** A string of one byte is borrowed and its byte set: the handle no longer sees the byte it was given. */
  lemma SetByteSpoilsView() returns (ss: seq<State>, ls: seq<Label>)
    ensures Run(ss, ls) && |ls| == 3 && ls[2].SetBytes?
    ensures 0 in ss[3].handles && Inv(ss[3]) && !(ss[3].handles[0].view <= ss[3].heap[ss[3].handles[0].addr].bytes)
  {
    hide Counted, Pointed, Owned, NoLeak, FreedOnce, Readable, Spoils;
    var s0 := State(map[], map[0 := Null], map[], map[], 0, []);
    var s1 := State(map[0 := Block(0, [1])], map[0 := Str(0, 1, false)], map[], map[], 1, []);
    var s2 := s1.(strs := map[0 := Str(0, 1, true)], pins := map[0 := Pin(1, false)],
                  handles := map[0 := Handle(0, [1])]);
    var s3 := s2.(heap := map[0 := Block(0, [2])]);
    ls := [SetString(0, [1], 0, 1), Borrow(0, 0), SetBytes(0, 0, [2])];
    EmptyIsFine(s0);
    FirstValue(s0, s1);
    StepKeeps(s0, ls[0]);
    StepKeeps(s1, ls[1]);
    assert s2 == Apply(s1, ls[1]);
    StepKeeps(s2, ls[2]);
    assert Patch([1], 0, [2]) == [2];
    assert s3 == Apply(s2, ls[2]);
    assert s3.handles[0].view[0] != s3.heap[0].bytes[0];
    ss := [s0, s1, s2, s3];
  }

  lemma FirstValue(s: State, t: State)
    requires Inv(s) && s == State(map[], map[0 := Null], map[], map[], 0, [])
    requires t == State(map[0 := Block(0, [1])], map[0 := Str(0, 1, false)], map[], map[], 1, [])
    ensures Enabled(s, SetString(0, [1], 0, 1)) && t == Apply(s, SetString(0, [1], 0, 1))
  {
    hide Inv;
    var bytes: seq<Byte> := [1];
    assert Overlay(Zeros(1), bytes) == bytes;
  }

  lemma StepKeeps(s: State, l: Label)
    requires Inv(s) && Enabled(s, l)
    ensures Inv(Apply(s, l))
    ensures Readable(s) ==> (Readable(Apply(s, l)) <==> !Spoils(s, l))
  {
    hide Counted, Pointed, NoLeak, FreedOnce, Readable;
    match l
    case SetBytes(sid, idx, bytes) =>
      SetBytesKeeps(s, sid, idx, bytes);
      if Readable(s) {
        SetBytesReadable(s, sid, idx, bytes);
      }
    case SetString(sid, bytes, addr, capacity) =>
      if NeedsFresh(s, sid, bytes) {
        ReleaseKeeps(s, sid);
        FillKeeps(ReleasePtr(s, sid), sid, addr, capacity, bytes);
      } else {
        InPlaceKeeps(s, sid, bytes);
      }
    case Free(sid) => ReleaseKeeps(s, sid);
    case Defrag(sid, addr, capacity) =>
      if !s.strs[sid].pending {
        RelocateIsRefill(s, sid, addr, capacity);
        ReleaseKeeps(s, sid);
        FillKeeps(ReleasePtr(s, sid), sid, addr, capacity, s.heap[s.strs[sid].addr].bytes[..s.strs[sid].size]);
      }
    case Borrow(sid, hid) => BorrowKeeps(s, sid, hid);
    case Unpin(hid) => UnpinKeeps(s, hid);
    case Move(hid, to) => MoveKeeps(s, hid, to);
    case Drain(a) => DrainKeeps(s, a);
  }

  // ---- what a string reads --------------------------------------------------------------

  datatype Reading = NoString | Reads(bytes: seq<Byte>)

  /** The string has a buffer that is long enough. */
  ghost predicate Backed(s: State, i: nat) {
    && i in s.strs && s.strs[i].Str? && s.strs[i].addr in s.heap
    && s.strs[i].size <= |s.heap[s.strs[i].addr].bytes|
  }

  ghost function Value(s: State, i: nat): Reading {
    if Backed(s, i) then Reads(s.heap[s.strs[i].addr].bytes[..s.strs[i].size]) else NoString
  }

  lemma AllBacked(s: State, i: nat, j: nat)
    requires Inv(s) && i in s.strs && j in s.strs
    ensures s.strs[i].Str? ==> Backed(s, i)
    ensures i != j && s.strs[i].Str? && s.strs[j].Str? ==> s.strs[i].addr != s.strs[j].addr
  {
    hide Counted, Pointed, NoLeak, FreedOnce;
  }

  /** The bytes from `idx` on replaced by others. */
  ghost function Replaced(v: seq<Byte>, idx: nat, bytes: seq<Byte>): seq<Byte> {
    seq(|v|, j requires 0 <= j < |v| => if idx <= j < idx + |bytes| then bytes[j - idx] else v[j])
  }

  /** What string `i` is to read after a step, going by what it read before. */
  ghost function Written(v: Reading, l: Label, i: nat): Reading {
    match l
    case SetString(sid, bytes, _, _) => if sid == i then Reads(bytes) else v
    case Free(sid) => if sid == i then NoString else v
    case SetBytes(sid, idx, bytes) =>
      if sid == i && v.Reads? && idx + |bytes| <= |v.bytes| then Reads(Replaced(v.bytes, idx, bytes)) else v
    case Defrag(_, _, _) => v
    case Borrow(_, _) => v
    case Unpin(_) => v
    case Move(_, _) => v
    case Drain(_) => v
  }

  /** A string keeps its reading if it keeps its buffer and size and the buffer its bytes. */
  lemma SameValue(s: State, t: State, i: nat)
    requires i in s.strs && i in t.strs && (s.strs[i].Str? ==> Backed(s, i))
    requires s.strs[i].Null? <==> t.strs[i].Null?
    requires s.strs[i].Str? ==>
               && t.strs[i].addr == s.strs[i].addr && t.strs[i].size == s.strs[i].size
               && t.strs[i].addr in t.heap && t.heap[t.strs[i].addr].bytes == s.heap[s.strs[i].addr].bytes
    ensures Value(t, i) == Value(s, i)
  {
  }

  lemma ReleaseValue(s: State, sid: nat, i: nat)
    requires Inv(s) && sid in s.strs && i in s.strs
    ensures Inv(ReleasePtr(s, sid)) && i in ReleasePtr(s, sid).strs
    ensures Value(ReleasePtr(s, sid), i) == if i == sid then NoString else Value(s, i)
  {
    hide Inv, Value, Readable;
    ReleaseKeeps(s, sid);
    AllBacked(s, i, sid);
    AllBacked(s, sid, sid);
    if i != sid {
      SameValue(s, ReleasePtr(s, sid), i);
    } else {
      NullReads(ReleasePtr(s, sid), i);
    }
  }

  lemma NullReads(s: State, i: nat)
    requires i in s.strs && s.strs[i].Null?
    ensures Value(s, i) == NoString
  {
  }

  lemma FillValue(s: State, sid: nat, addr: nat, capacity: nat, bytes: seq<Byte>, i: nat)
    requires Inv(s) && sid in s.strs && s.strs[sid].Null? && addr !in s.heap && |bytes| <= capacity && i in s.strs
    ensures var t := Fill(s, sid, addr, capacity, bytes);
            Inv(t) && i in t.strs && Value(t, i) == if i == sid then Reads(bytes) else Value(s, i)
  {
    hide Inv, Readable, Zeros;
    FillKeeps(s, sid, addr, capacity, bytes);
    AllBacked(s, i, sid);
    var t := Fill(s, sid, addr, capacity, bytes);
    if i != sid {
      SameValue(s, t, i);
    } else {
      assert Overlay(Zeros(capacity), bytes)[..|bytes|] == bytes;
    }
  }

  lemma InPlaceValue(s: State, sid: nat, bytes: seq<Byte>, i: nat)
    requires Inv(s) && sid in s.strs && !NeedsFresh(s, sid, bytes) && i in s.strs
    ensures var t := InPlace(s, sid, bytes);
            Inv(t) && i in t.strs && Value(t, i) == if i == sid then Reads(bytes) else Value(s, i)
  {
    hide Inv, Readable;
    InPlaceKeeps(s, sid, bytes);
    AllBacked(s, i, sid);
    AllBacked(s, sid, sid);
    var (t, a) := (InPlace(s, sid, bytes), s.strs[sid].addr);
    if i != sid {
      SameValue(s, t, i);
    } else {
      assert Overlay(s.heap[a].bytes, bytes)[..|bytes|] == bytes;
    }
  }

  lemma SetBytesValue(s: State, sid: nat, idx: nat, bytes: seq<Byte>, i: nat)
    requires Inv(s) && Enabled(s, SetBytes(sid, idx, bytes)) && i in s.strs
    ensures var t := SetBytesAt(s, sid, idx, bytes);
            Inv(t) && i in t.strs && Value(t, i) == Written(Value(s, i), SetBytes(sid, idx, bytes), i)
  {
    hide Inv, Readable;
    SetBytesKeeps(s, sid, idx, bytes);
    AllBacked(s, i, sid);
    AllBacked(s, sid, sid);
    var (t, a, size) := (SetBytesAt(s, sid, idx, bytes), s.strs[sid].addr, s.strs[sid].size);
    if i != sid {
      SameValue(s, t, i);
    } else if idx + |bytes| <= size {
      var buf := s.heap[a].bytes;
      assert Patch(buf, idx, bytes)[..size] == Replaced(buf[..size], idx, bytes);
    }
  }

  /** SetString gives a string exactly the bytes, Free takes it away, a write by index replaces bytes in place; no other
      step, and no step on another string, changes what a string reads. */
  lemma StepValue(s: State, l: Label, i: nat)
    requires Inv(s) && Enabled(s, l) && i in s.strs
    ensures Inv(Apply(s, l)) && i in Apply(s, l).strs
    ensures Value(Apply(s, l), i) == Written(Value(s, i), l, i)
  {
    hide Inv, Readable, Spoils, Value;
    StepKeeps(s, l);
    AllBacked(s, i, i);
    match l
    case SetString(sid, bytes, addr, capacity) =>
      if NeedsFresh(s, sid, bytes) {
        ReleaseKeeps(s, sid);
        ReleaseValue(s, sid, i);
        FillValue(ReleasePtr(s, sid), sid, addr, capacity, bytes, i);
      } else {
        InPlaceValue(s, sid, bytes, i);
      }
    case Free(sid) => ReleaseValue(s, sid, i);
    case Defrag(sid, addr, capacity) =>
      DefragValue(s, sid, addr, capacity, i);
    case SetBytes(sid, idx, bytes) => SetBytesValue(s, sid, idx, bytes, i);
    case Borrow(sid, hid) => SameValue(s, TryBorrow(s, sid, hid), i);
    case Unpin(hid) => SameValue(s, UnpinRead(s, hid), i);
    case Move(hid, to) => SameValue(s, Apply(s, l), i);
    case Drain(a) => DrainValue(s, a, i);
  }

  lemma DrainValue(s: State, a: nat, i: nat)
    requires Inv(s) && a in s.pins && i in s.strs
    ensures Inv(DrainPin(s, a)) && i in DrainPin(s, a).strs && Value(DrainPin(s, a), i) == Value(s, i)
  {
    DrainKeeps(s, a);
    AllBacked(s, i, i);
    AllBacked(DrainPin(s, a), i, i);
    hide Inv, Readable, Value;
    SameValue(s, DrainPin(s, a), i);
  }

  lemma DefragValue(s: State, sid: nat, addr: nat, capacity: nat, i: nat)
    requires Inv(s) && Enabled(s, Defrag(sid, addr, capacity)) && i in s.strs
    ensures i in Apply(s, Defrag(sid, addr, capacity)).strs
    ensures Value(Apply(s, Defrag(sid, addr, capacity)), i) == Value(s, i)
  {
    AllBacked(s, sid, i);
    if !s.strs[sid].pending {
      RelocateIsRefill(s, sid, addr, capacity);
      ReleaseKeeps(s, sid);
      ReleaseHeap(s, sid, addr);
      hide Inv, Readable, Value, Backed;
      ReleaseValue(s, sid, i);
      var bytes := s.heap[s.strs[sid].addr].bytes[..s.strs[sid].size];
      FillValue(ReleasePtr(s, sid), sid, addr, capacity, bytes, i);
      OwnReading(s, sid);
    }
  }

  lemma ReleaseHeap(s: State, sid: nat, addr: nat)
    requires Inv(s) && sid in s.strs && addr !in s.heap
    ensures addr !in ReleasePtr(s, sid).heap && sid in ReleasePtr(s, sid).strs
  {
    hide Inv;
  }

  lemma OwnReading(s: State, sid: nat)
    requires Backed(s, sid)
    ensures Value(s, sid) == Reads(s.heap[s.strs[sid].addr].bytes[..s.strs[sid].size])
  {
  }

  /** A borrow hands out what the string reads. */
  lemma BorrowReads(s: State, sid: nat, hid: nat)
    requires Inv(s) && Enabled(s, Borrow(sid, hid))
    ensures hid in Apply(s, Borrow(sid, hid)).handles
    ensures Value(s, sid) == Reads(Apply(s, Borrow(sid, hid)).handles[hid].view)
  {
    hide Counted, Pointed, NoLeak, FreedOnce;
  }

  // ---- whole runs -----------------------------------------------------------------------

  ghost predicate Init(s: State) {
    s.heap == map[] && s.pins == map[] && s.handles == map[] && s.nextId == 0 && s.freed == []
    && forall i | i in s.strs :: s.strs[i].Null?
  }

  /** A run interleaves steps of the owner with unpins and moves of other threads in any order. */
  ghost predicate Run(ss: seq<State>, ls: seq<Label>) {
    && |ss| == |ls| + 1 && Init(ss[0])
    && forall i | 0 <= i < |ls| :: Inv(ss[i]) ==> Enabled(ss[i], ls[i]) && ss[i + 1] == Apply(ss[i], ls[i])
  }

  lemma EmptyIsFine(s: State)
    requires Init(s)
    ensures Inv(s) && Readable(s)
  {
    assert FreedOnce(s) && NoLeak(s) && Owned(s) && Pointed(s) && Counted(s);
  }

  lemma {:induction false} RunInv(ss: seq<State>, ls: seq<Label>, n: nat)
    requires Run(ss, ls) && n < |ss|
    ensures Inv(ss[n])
  {
    hide Enabled, Apply, Inv, Readable, Spoils, Init;
    if n == 0 {
      EmptyIsFine(ss[0]);
    } else {
      RunInv(ss, ls, n - 1);
      StepKeeps(ss[n - 1], ls[n - 1]);
    }
  }

  /** Memory safety: in every state of every run a live handle points to an allocated buffer that is long
      enough, and the count of its pin is the number of live handles on that buffer. */
  lemma HandlesArePinned(ss: seq<State>, ls: seq<Label>, n: nat, h: nat)
    requires Run(ss, ls) && n < |ss| && h in ss[n].handles
    ensures var s := ss[n];
            var hd := s.handles[h];
            && hd.addr in s.heap && |hd.view| <= |s.heap[hd.addr].bytes|
            && hd.addr in s.pins && s.pins[hd.addr].refcnt == |Readers(s.handles, hd.addr)|
  {
    hide Readers, Enabled, Apply, NoLeak, FreedOnce, Owned;
    RunInv(ss, ls, n);
  }

  /** Step i leaves what the handles see alone. */
  ghost predicate Spares(ss: seq<State>, ls: seq<Label>, i: nat)
    requires i < |ls| && |ss| == |ls| + 1
  {
    Inv(ss[i]) && Enabled(ss[i], ls[i]) && !Spoils(ss[i], ls[i])
  }

  /** In every state of every run whose writes by index spare the readers, every live handle sees the bytes it
      was given; and the first write that does not is where this ends. */
  lemma {:induction false} HandlesAreSafe(ss: seq<State>, ls: seq<Label>, n: nat)
    requires Run(ss, ls) && n < |ss| && forall i | 0 <= i < n - 1 :: Spares(ss, ls, i)
    ensures n == 0 ==> Readable(ss[n])
    ensures n > 0 ==> (Readable(ss[n]) <==> Spares(ss, ls, n - 1))
  {
    hide Enabled, Apply, Inv, Readable, Spoils, Init;
    RunInv(ss, ls, n);
    if n == 0 {
      EmptyIsFine(ss[0]);
    } else {
      RunInv(ss, ls, n - 1);
      assert n > 1 ==> Spares(ss, ls, n - 2);
      HandlesAreSafe(ss, ls, n - 1);
      StepKeeps(ss[n - 1], ls[n - 1]);
    }
  }

  /** What a handle was given does not change while it lives. */
  lemma ViewIsFixed(s: State, l: Label, h: nat)
    requires Inv(s) && Enabled(s, l) && h in s.handles && h in Apply(s, l).handles
    ensures Apply(s, l).handles[h] == s.handles[h]
  {
    hide Inv;
  }

  /** What string `i` is to read after the first `n` steps. */
  ghost function LastWritten(ls: seq<Label>, n: nat, i: nat): Reading
    requires n <= |ls|
  {
    if n == 0 then NoString else Written(LastWritten(ls, n - 1, i), ls[n - 1], i)
  }

  /** In every state of every run a string reads what was written to it. */
  lemma {:induction false} RunValue(ss: seq<State>, ls: seq<Label>, n: nat, i: nat)
    requires Run(ss, ls) && n < |ss| && i in ss[0].strs
    ensures Inv(ss[n]) && i in ss[n].strs && Value(ss[n], i) == LastWritten(ls, n, i)
  {
    hide Enabled, Apply, Inv, Readable, Spoils, Written;
    RunInv(ss, ls, n);
    if n > 0 {
      RunValue(ss, ls, n - 1, i);
      StepValue(ss[n - 1], ls[n - 1], i);
    }
  }

  predicate Writes(l: Label, i: nat) { (l.SetString? || l.Free? || l.SetBytes?) && l.sid == i }

  /** A string reads what the last SetString gave it until it is written or freed. */
  lemma {:induction false} LastWriteStays(ss: seq<State>, ls: seq<Label>, m: nat, n: nat, i: nat)
    requires Run(ss, ls) && m < n < |ss| && i in ss[0].strs && ls[m].SetString? && ls[m].sid == i
    requires forall x | m < x < n :: !Writes(ls[x], i)
    ensures Inv(ss[n]) && i in ss[n].strs && Value(ss[n], i) == Reads(ls[m].bytes)
  {
    hide Enabled, Apply, Inv, Readable, Spoils;
    RunValue(ss, ls, n, i);
    if m + 1 < n {
      LastWriteStays(ss, ls, m, n - 1, i);
      RunValue(ss, ls, n - 1, i);
    }
  }

  /** No allocation is freed twice in a run, and none that is still referred to. */
  lemma NeverFreedTwice(ss: seq<State>, ls: seq<Label>, n: nat)
    requires Run(ss, ls) && n < |ss|
    ensures forall x, y | 0 <= x < y < |ss[n].freed| :: ss[n].freed[x] != ss[n].freed[y]
    ensures forall a | a in ss[n].heap :: ss[n].heap[a].id !in ss[n].freed
  {
    hide Enabled, Apply, Counted, Pointed, Owned, NoLeak;
    RunInv(ss, ls, n);
  }

  /** An orphaned buffer goes with its pin: by a drain when the last handle has gone, and by nothing else. */
  lemma OrphanGoesByDrain(s: State, l: Label, a: nat)
    requires Inv(s) && Enabled(s, l) && a in s.pins && s.pins[a].orphaned
    ensures var t := Apply(s, l);
            if l == Drain(a) && Readers(s.handles, a) == {}
            then a !in t.heap && t.freed == s.freed + [s.heap[a].id] && a !in t.pins
            else a in t.heap && t.heap[a] == s.heap[a] && a in t.pins && t.pins[a].orphaned
  {
    hide NoLeak, FreedOnce, Pointed, Overlay, Zeros, Patch;
    OrphanCount(s, a);
    hide Readers;
  }

  lemma OrphanCount(s: State, a: nat)
    requires Counted(s) && a in s.pins
    ensures s.pins[a].refcnt == 0 <==> Readers(s.handles, a) == {}
  {
    hide Readers;
  }

  /** When no handle is left, draining every pin leaves exactly the buffers of the strings. */
  lemma {:induction false} DrainAll(s: State) returns (t: State)
    requires Inv(s) && s.handles == map[]
    ensures Inv(t) && t.pins == map[] && t.strs == s.strs && t.handles == map[]
    ensures forall a | a in t.heap :: a in s.heap && t.heap[a] == s.heap[a] && HasOwner(t, a)
    ensures forall a | a in s.heap && HasOwner(s, a) :: a in t.heap
    decreases |s.pins|
  {
    if s.pins == map[] {
      t := s;
      hide Counted, Pointed, Owned, FreedOnce;
      assert NoLeak(s);
    } else {
      var a :| a in s.pins;
      NoReaders(s, a);
      DrainKeeps(s, a);
      var u := DrainPin(s, a);
      DrainShrinks(s, a);
      t := DrainAll(u);
    }
  }

  lemma NoReaders(s: State, a: nat)
    requires Inv(s) && s.handles == map[] && a in s.pins
    ensures s.pins[a].refcnt == 0
  {
    assert Readers(s.handles, a) == {};
  }

  lemma DrainShrinks(s: State, a: nat)
    requires Inv(s) && a in s.pins && s.pins[a].refcnt == 0
    ensures var u := DrainPin(s, a);
            && |u.pins| < |s.pins| && u.strs == s.strs && u.handles == s.handles
            && (forall b | b in u.heap :: b in s.heap && u.heap[b] == s.heap[b])
            && (forall b | b in s.heap && HasOwner(s, b) :: b in u.heap && HasOwner(u, b))
  {
    hide Counted, Pointed, FreedOnce, NoLeak;
    var u := DrainPin(s, a);
    assert u.pins.Keys == s.pins.Keys - {a};
    forall b | b in s.heap && HasOwner(s, b) ensures b in u.heap && HasOwner(u, b) {
      var i :| i in s.strs && s.strs[i].Str? && s.strs[i].addr == b;
      assert i in u.strs && u.strs[i].addr == b;
    }
  }
}
