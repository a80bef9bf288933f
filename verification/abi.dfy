/** The calling convention: statuses, and values crossing guest memory whole or not at all. */
module Abi {
  import opened Wrappers
  import opened Utf8

  type U32 = x: int | 0 <= x < 0x1_0000_0000

  const STATUS_INTERNAL := -1
  const STATUS_NOT_FOUND := -4
  const STATUS_INVALID := -5
  const MAX_INT32 := 0x7FFF_FFFF
  const MAX_STRING_IN := 0x1_0000

  /** What a (pointer, length) pair reads as: no length is the empty value wherever it points. */
  function ReadFrom(mem: seq<Byte>, ptr: U32, n: U32): Option<seq<Byte>> {
    if n == 0 then Some([])
    else if n > MAX_STRING_IN || ptr + n > |mem| then None
    else Some(mem[ptr..ptr + n])
  }

  /** Refused exactly when something is asked for and it is too long or runs past the memory; else the bytes from
      the pointer on, one by one. */
  lemma ReadsExactly(mem: seq<Byte>, ptr: U32, n: U32)
    ensures ReadFrom(mem, ptr, n).None? <==> n > 0 && (n > 65536 || ptr + n > |mem|)
    ensures var r := ReadFrom(mem, ptr, n);
            r.Some? ==> |r.value| == n && forall i :: 0 <= i < n ==> r.value[i] == mem[ptr + i]
  {
  }

  /** The answer to a value offered to a guest buffer, and the guest's memory afterwards. */
  function Written(mem: seq<Byte>, ptr: U32, capacity: U32, value: seq<Byte>): (int, seq<Byte>) {
    if |value| > MAX_INT32 then (STATUS_INTERNAL, mem)
    else if |value| > capacity then (|value|, mem)
    else if |value| == 0 then (0, mem)
    else if ptr + |value| > |mem| then (STATUS_INVALID, mem)
    else (|value|, mem[..ptr] + value + mem[ptr + |value|..])
  }

  /** The guest took the value: a size came back, and it is one that fitted. */
  predicate Delivered(n: int, capacity: U32, value: seq<Byte>) { n >= 0 && |value| <= capacity }

  /** All or nothing: either the guest holds the whole value where it asked, or its memory is untouched
      and the answer says why; a size larger than the buffer is always the exact size to retry at. */
  lemma AllOrNothing(mem: seq<Byte>, ptr: U32, capacity: U32, value: seq<Byte>)
    ensures var (n, mem') := Written(mem, ptr, capacity, value);
            && |mem'| == |mem|
            && (Delivered(n, capacity, value) ==> n == |value| && ReadAt(mem', ptr, n) == value)
            && (!Delivered(n, capacity, value) ==> mem' == mem)
            && (n > capacity ==> n == |value|)
            && (forall i :: 0 <= i < |mem| && !(ptr <= i < ptr + |value|) ==> mem'[i] == mem[i])
            && (n == STATUS_INTERNAL <==> |value| > MAX_INT32)
            && (n == STATUS_INVALID <==> 0 < |value| <= MAX_INT32 && |value| <= capacity && ptr + |value| > |mem|)
            && (n < 0 ==> n == STATUS_INTERNAL || n == STATUS_INVALID)
  {}

  function ReadAt(mem: seq<Byte>, ptr: U32, n: int): seq<Byte> {
    if 0 < n && ptr + n <= |mem| then mem[ptr..ptr + n] else []
  }

  method ReadBytes(mem: array<Byte>, ptr: U32, n: U32) returns (r: Option<seq<Byte>>)
    ensures r == ReadFrom(mem[..], ptr, n)
    ensures r.None? <==> n > 0 && (n > 65536 || ptr + n > mem.Length)
    ensures r.Some? ==> |r.value| == n && forall i :: 0 <= i < n ==> r.value[i] == mem[ptr + i]
  {
    if n == 0 {
      return Some([]);
    }
    if n > MAX_STRING_IN || ptr + n > mem.Length {
      return None;
    }
    r := Some(mem[ptr..ptr + n]);
    assert mem[..][ptr..ptr + n] == mem[ptr..ptr + n];
  }

  method WriteOut(mem: array<Byte>, ptr: U32, capacity: U32, value: seq<Byte>) returns (n: int)
    modifies mem
    ensures (n, mem[..]) == Written(old(mem[..]), ptr, capacity, value)
  {
    if |value| > MAX_INT32 {
      return STATUS_INTERNAL;
    }
    var size := |value|;
    if size > capacity {
      return size;
    }
    if size > 0 {
      if ptr + size > mem.Length {
        return STATUS_INVALID;
      }
      for i := 0 to size
        invariant forall k :: 0 <= k < i ==> mem[ptr + k] == value[k]
        invariant forall k :: 0 <= k < mem.Length && !(ptr <= k < ptr + i) ==> mem[k] == old(mem[k])
      {
        mem[ptr + i] := value[i];
      }
      assert mem[..] == old(mem[..])[..ptr] + value + old(mem[..])[ptr + size..];
    }
    n := size;
  }
}
