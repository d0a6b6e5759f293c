/** Byte buffers that Dart owns as a pointer and a length, and that Rust takes back. */
module LeakedBuffers {
  import opened SseFormat

  datatype Block = Block(contents: seq<u8>, capacity: nat)

  /** What Dart holds of a buffer. */
  datatype Wire = Wire(ptr: nat, len: nat)

  /** The pointer of a vector without capacity: no allocation stands behind it. */
  const DANGLING: nat := 1

  /** `Vec::resize` with zeros: the prefix stays. */
  function Resized(s: seq<u8>, n: nat): (r: seq<u8>)
    ensures |r| == n
    ensures forall i :: 0 <= i < n ==> r[i] == if i < |s| then s[i] else 0
  {
    if n <= |s| then s[..n] else s + seq(n - |s|, _ => 0)
  }

  function Stored(s: seq<u8>, i: nat, byte: u8): (r: seq<u8>)
    requires i < |s|
    ensures |r| == |s| && forall j :: 0 <= j < |s| ==> r[j] == if j == i then byte else s[j]
  {
    s[..i] + [byte] + s[i + 1..]
  }

  /** The vector during a resize: `reserve_exact` may leave `spare` bytes more than asked for. */
  method VecResize(vec: Block, newLen: nat, spare: nat) returns (r: Block)
    requires |vec.contents| <= vec.capacity
    ensures r.contents == Resized(vec.contents, newLen) && newLen <= r.capacity
  {
    r := vec;
    if newLen > |r.contents| && newLen > r.capacity {
      r := r.(capacity := newLen + spare);
    }
    r := r.(contents := Resized(r.contents, newLen));
  }

  /** What a buffer's owner would read in it. */
  function ContentsOf(blocks: map<nat, Block>, w: Wire): seq<u8> {
    if w.len == 0 || w.ptr !in blocks then [] else blocks[w.ptr].contents
  }

  /** An empty buffer has no allocation; any other has one of exactly its length, its own. */
  predicate WireOk(blocks: map<nat, Block>, owner: map<nat, nat>, slot: nat, w: Wire) {
    if w.len == 0 then w.ptr == DANGLING
    else
      && w.ptr in blocks && |blocks[w.ptr].contents| == w.len && blocks[w.ptr].capacity == w.len
      && w.ptr in owner && owner[w.ptr] == slot
  }

  class RustHeap {
    var blocks: map<nat, Block>
    var slots: map<nat, Wire>

    /** The buffer that each allocation belongs to. */
    ghost var owner: map<nat, nat>

    /** Allocations and nonempty outstanding buffers are one to one: nothing is leaked, nothing shared. */
    ghost predicate Valid()
      reads this
    {
      && DANGLING !in blocks
      && (forall slot :: slot in slots ==> WireOk(blocks, owner, slot, slots[slot]))
      && (forall ptr :: ptr in blocks ==> ptr in owner && owner[ptr] in slots && slots[owner[ptr]].ptr == ptr)
    }

    /** The buffers as plain byte sequences. */
    ghost function Model(): map<nat, seq<u8>>
      reads this
    {
      map slot | slot in slots :: ContentsOf(blocks, slots[slot])
    }

    constructor ()
      ensures Valid() && Model() == map[]
    {
      blocks, slots, owner := map[], map[], map[];
    }

    /** `into_leak_vec_ptr`: after `shrink_to_fit`, the vector lives at some free address. Its length goes
        out as an `i32`. */
    method IntoLeakVecPtr(slot: nat, contents: seq<u8>, address: nat)
      requires Valid() && slot !in slots && address !in blocks && address != DANGLING && |contents| <= I32_MAX
      modifies this
      ensures Valid() && Model() == old(Model())[slot := contents]
    {
      if contents == [] {
        slots := slots[slot := Wire(DANGLING, 0)];
      } else {
        blocks := blocks[address := Block(contents, |contents|)];
        owner := owner[address := slot];
        slots := slots[slot := Wire(address, |contents|)];
      }
    }

    /** `vec_from_leak_ptr`: Rust owns the vector again, and its allocation with it. */
    method VecFromLeakPtr(slot: nat) returns (vec: Block)
      requires Valid() && slot in slots
      modifies this
      ensures Valid() && Model() == old(Model()) - {slot}
      ensures vec == Block(old(Model())[slot], |old(Model())[slot]|)
      ensures slots == old(slots) - {slot}
      ensures blocks == old(blocks) - {old(slots)[slot].ptr}
    {
      var w := slots[slot];
      vec := if w.len == 0 then Block([], 0) else blocks[w.ptr];
      slots := slots - {slot};
      blocks := blocks - {w.ptr};
    }

    /** `frb_rust_vec_u8_new`: false is a capacity overflow. */
    method New(slot: nat, len: int, address: nat) returns (ok: bool)
      requires Valid() && slot !in slots && address !in blocks && address != DANGLING && len <= I32_MAX
      modifies this
      ensures Valid() && ok == (len >= 0)
      ensures Model() == if ok then old(Model())[slot := seq(len, _ => 0)] else old(Model())
    {
      if len < 0 {
        return false;
      }
      IntoLeakVecPtr(slot, seq(len, _ => 0), address);
      return true;
    }

    /** `frb_rust_vec_u8_resize`. The buffer may stay where it is. A negative length overflows the capacity, and unwinding frees the vector. */
    method Resize(slot: nat, newLen: int, spare: nat, address: nat) returns (ok: bool)
      requires Valid() && slot in slots && address != DANGLING
      requires (address !in blocks || address == slots[slot].ptr) && newLen <= I32_MAX
      modifies this
      ensures Valid() && ok == (newLen >= 0)
      ensures Model() == if ok then old(Model())[slot := Resized(old(Model())[slot], newLen)] else old(Model()) - {slot}
    {
      var vec := VecFromLeakPtr(slot);
      if newLen < 0 {
        return false;
      }
      vec := VecResize(vec, newLen, spare);
      IntoLeakVecPtr(slot, vec.contents, address);
      return true;
    }

    /** Dart stores a byte through the pointer. */
    method Write(slot: nat, i: nat, byte: u8)
      requires Valid() && slot in slots && i < slots[slot].len
      modifies this`blocks
      ensures Valid() && i < |old(Model())[slot]|
      ensures Model() == old(Model())[slot := Stored(old(Model())[slot], i, byte)]
    {
      var ptr := slots[slot].ptr;
      blocks := blocks[ptr := blocks[ptr].(contents := Stored(blocks[ptr].contents, i, byte))];
    }

    /** `from_wire` takes the vector into a message; `frb_rust_vec_u8_free` takes it and drops it. */
    method Take(slot: nat) returns (contents: seq<u8>)
      requires Valid() && slot in slots
      modifies this
      ensures Valid() && Model() == old(Model()) - {slot} && contents == old(Model())[slot]
      ensures slots == map[] ==> blocks == map[]
    {
      var vec := VecFromLeakPtr(slot);
      contents := vec.contents;
    }
  }
}
