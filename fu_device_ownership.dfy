/**
 * Buffer ownership behind `fu_device_set_equivalent_id` (src/fu-device.c:59-65).
 *
 * The device model in module `FuDevice` treats strings as values.  Here a
 * string lives in a heap of allocated buffers instead, so the order of the
 * `g_free` of the old id and the `g_strdup` of the argument shows: the code
 * frees first, so an argument that points into the stored id (the id itself,
 * or a suffix of it) is read after it was freed.  `SetCorrected` copies
 * first, which is the behaviour the value model
 * `FuDevice.Device.SetEquivalentId` has.
 */
module EquivalentIdStorage {
  import opened Wrappers

  /** The allocated string buffers: an address maps to the string it holds; a freed address is absent. */
  type Heap = map<nat, string>

  /** A non-NULL `gchar *`: the buffer it points into and how far into that buffer it points. */
  datatype Ref = Ref(base: nat, offset: nat)

  /** A `gchar *`: NULL or a position in a buffer. */
  type Ptr = Option<Ref>

  /** A pointer the code may read: NULL, or a position within an allocated buffer. */
  predicate Readable(h: Heap, p: Ptr) {
    p.None? || (p.value.base in h && p.value.offset <= |h[p.value.base]|)
  }

  /** The string a readable pointer designates (the rest of its buffer), NULL for NULL. */
  function Contents(h: Heap, p: Ptr): (s: Option<string>)
    requires Readable(h, p)
  {
    if p.None? then None else Some(h[p.value.base][p.value.offset..])
  }

  /** `arg` points into the buffer `field` points into. */
  predicate SameBuffer(field: Ptr, arg: Ptr) {
    field.Some? && arg.Some? && field.value.base == arg.value.base
  }

  /** What a call leaves behind: the heap and the new id field, or undefined behaviour (a read of a freed buffer). */
  datatype Outcome = Done(heap: Heap, field: Ptr) | Undefined

  /**
   * `fu_device_set_equivalent_id` as written: release the stored id (line 63),
   * then copy the argument into a new buffer at `addr` (line 64).  `addr`
   * is the address the allocator hands out at that point; it may be the one
   * just released.
   */
  function SetAsWritten(h: Heap, field: Ptr, arg: Ptr, addr: nat): (r: Outcome)
    requires Readable(h, field) && Readable(h, arg)
    requires addr !in h || (field.Some? && field.value.base == addr)
    ensures r.Undefined? <==> SameBuffer(field, arg)
    ensures r.Done? ==> Readable(r.heap, r.field) && Contents(r.heap, r.field) == Contents(h, arg)
  {
    var released := if field.Some? then h - {field.value.base} else h;
    if arg.None? then Done(released, None)
    else if arg.value.base !in released then Undefined
    else Done(released[addr := h[arg.value.base][arg.value.offset..]], Some(Ref(addr, 0)))
  }

  /**
   * Setting the id to a pointer into the id it already holds, as in
   * `fu_device_set_equivalent_id (d, fu_device_get_equivalent_id (d))` or
   * the same with `+ n` to strip a prefix, reads the released buffer.
   */
  lemma PointerIntoStoredIdReadsFreedBuffer(h: Heap, stored: Ref, offset: nat, addr: nat)
    requires Readable(h, Some(stored))
    requires offset <= |h[stored.base]|
    requires addr !in h || addr == stored.base
    ensures SetAsWritten(h, Some(stored), Some(Ref(stored.base, offset)), addr) == Undefined
  {
  }

  /**
   * The setter with the copy taken before the old id is released: the id
   * then holds the argument's string, at the start of a buffer of its own,
   * for every argument, one pointing into the stored id included; the old
   * buffer is released; every other buffer is untouched, and no other buffer
   * is allocated.
   */
  function SetCorrected(h: Heap, field: Ptr, arg: Ptr, addr: nat): (r: Outcome)
    requires Readable(h, field) && Readable(h, arg)
    requires addr !in h
    ensures r.Done?
    ensures Readable(r.heap, r.field) && Contents(r.heap, r.field) == Contents(h, arg)
    ensures r.field.Some? ==> r.field.value.base !in h && r.field.value.offset == 0
    ensures field.Some? ==> field.value.base !in r.heap
    ensures forall a :: a in h && (field.None? || field.value.base != a) ==> a in r.heap && r.heap[a] == h[a]
    ensures r.heap.Keys == (if field.Some? then h.Keys - {field.value.base} else h.Keys) + (if r.field.Some? then {r.field.value.base} else {})
  {
    var copied := if arg.None? then h else h[addr := h[arg.value.base][arg.value.offset..]];
    var copy := if arg.None? then None else Some(Ref(addr, 0));
    Done(if field.Some? then copied - {field.value.base} else copied, copy)
  }

  /** The code as written and the corrected setter agree whenever the argument does not point into the stored id. */
  lemma AgreeUnlessAliased(h: Heap, field: Ptr, arg: Ptr, addr: nat)
    requires Readable(h, field) && Readable(h, arg)
    requires addr !in h
    requires !SameBuffer(field, arg)
    ensures SetAsWritten(h, field, arg, addr) == SetCorrected(h, field, arg, addr)
  {
    if field.Some? && arg.Some? {
      var s := h[arg.value.base][arg.value.offset..];
      assert (h - {field.value.base})[addr := s] == h[addr := s] - {field.value.base};
    }
  }
}
