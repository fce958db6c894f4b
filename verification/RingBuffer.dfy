/** The fixed-size ring behind a pipe (lib/kernel_intf/src/ds/ring_buffer.rs), shown to behave
    as the queue that the pipe protocol uses. */
module RingBuffer {
  import opened Basics

  /** The slot of element `i`; `(head + i) % n` for a head inside the ring. */
  function Slot(head: nat, i: nat, n: nat): (k: nat)
    requires head < n && i <= n
    ensures k < n && k == (head + i) % n
  {
    if head + i < n then head + i else (SlotWraps(head + i, n); head + i - n)
  }

  lemma {:induction false} SlotWraps(x: nat, n: nat)
    requires 0 < n <= x < 2 * n
    ensures x % n == x - n
  {
    assert x / n == 1;
  }

  class Ring<T> {
    const buf: array<T>
    var head: nat
    var len: nat
    ghost var contents: seq<T>

    ghost predicate Valid()
      reads this, buf
    {
      && 0 < buf.Length && head < buf.Length && len <= buf.Length && len == |contents|
      && forall i | 0 <= i < len :: buf[Slot(head, i, buf.Length)] == contents[i]
    }

    constructor (initial: T, n: nat)
      requires n > 0
      ensures Valid() && fresh(buf) && buf.Length == n && contents == []
    {
      buf := new T[n](_ => initial);
      head, len, contents := 0, 0, [];
    }

    /** A full ring drops the item. */
    method Push(item: T)
      requires Valid()
      modifies this`len, this`contents, buf
      ensures Valid()
      ensures contents == if |old(contents)| < buf.Length then old(contents) + [item] else old(contents)
    {
      if len < buf.Length {
        var tail := (head + len) % buf.Length;
        assert tail == Slot(head, len, buf.Length);
        forall i | 0 <= i < len ensures Slot(head, i, buf.Length) != tail { }
        buf[tail] := item;
        len := len + 1;
        contents := contents + [item];
      }
    }

    /** The write loop of the pipe: everything that fits is appended in order. */
    method PushAll(items: seq<T>)
      requires Valid()
      modifies this`len, this`contents, buf
      ensures Valid()
      ensures contents == old(contents) + items[..Min(|items|, buf.Length - |old(contents)|)]
    {
      for k := 0 to |items|
        invariant Valid() && contents == old(contents) + items[..Min(k, buf.Length - |old(contents)|)]
      {
        Push(items[k]);
        assert k < buf.Length - |old(contents)| ==> items[..k + 1] == items[..k] + [items[k]];
      }
    }

    /** The oldest items, without removing them. */
    method PeekInto(n: nat) returns (r: seq<T>)
      requires Valid()
      ensures r == contents[..Min(n, len)]
    {
      var count := Min(len, n);
      r := [];
      for i := 0 to count
        invariant r == contents[..i]
      {
        assert (head + i) % buf.Length == Slot(head, i, buf.Length);
        r := r + [buf[(head + i) % buf.Length]];
      }
    }

    method Advance(n: nat)
      requires Valid()
      modifies this`head, this`len, this`contents
      ensures Valid() && contents == old(contents)[Min(n, |old(contents)|)..]
    {
      var k := Min(n, len);
      assert (head + k) % buf.Length == Slot(head, k, buf.Length);
      forall i | 0 <= i < len - k
        ensures Slot(Slot(head, k, buf.Length), i, buf.Length) == Slot(head, k + i, buf.Length) { }
      head := (head + k) % buf.Length;
      len := len - k;
      contents := contents[k..];
    }

    /** What a read takes is what was there first. */
    method DequeueInto(n: nat) returns (r: seq<T>)
      requires Valid()
      modifies this`head, this`len, this`contents
      ensures Valid() && |r| == Min(n, |old(contents)|) && r + contents == old(contents)
    {
      r := PeekInto(n);
      Advance(|r|);
    }

    /** The newest item. */
    method PopBack() returns (r: Option<T>)
      requires Valid()
      modifies this`len, this`contents
      ensures Valid()
      ensures old(contents) == [] ==> r == None && contents == []
      ensures old(contents) != [] ==> r.Some? && contents + [r.value] == old(contents)
    {
      if len == 0 { return None; }
      assert (head + len - 1) % buf.Length == Slot(head, len - 1, buf.Length);
      r := Some(buf[(head + len - 1) % buf.Length]);
      len := len - 1;
      contents := contents[..len];
    }
  }
}
