/** The bump arena of chaos.h: a dynamic array of bytes whose `count` is the bump pointer. */
module Arena {
  import opened Common
  import opened DynArray

  /** chaos_arena_alloc: hands out the `size` bytes at offset `old(count)`, growing the
      buffer with chaos_da_reserve first. Bytes handed out earlier keep their values. */
  method Alloc(a: Da<Byte>, size: nat) returns (offset: nat)
    requires a.Valid()
    modifies a.Repr
    ensures a.Valid() && fresh(a.Repr - old(a.Repr))
    ensures offset == old(a.count)
    ensures a.count == old(a.count) + size && a.count <= a.capacity
    ensures a.capacity == ReservedCapacity(old(a.capacity), old(a.count) + size)
    ensures a.items[..offset] == old(a.items[..a.count])
  {
    offset := a.count;
    a.Reserve(a.count + size);
    ReserveGrowsToLeastDoubling(old(a.capacity), old(a.count) + size);
    a.count := a.count + size;
    a.Contents := a.items[..a.count];
  }

  /** chaos_arena_reset: forgets every allocation; the buffer and its capacity stay. */
  method Reset(a: Da<Byte>)
    requires a.Valid()
    modifies a
    ensures a.Valid()
    ensures a.count == 0 && a.Contents == []
    ensures a.capacity == old(a.capacity) && a.items == old(a.items) && a.Repr == old(a.Repr)
  {
    a.count := 0;
    a.Contents := [];
  }
}
