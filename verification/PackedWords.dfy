/** Option values and the 64-bit words in which the lock-free queue keeps a node pointer. */
module Common {
  datatype Option<+T> = None | Some(value: T)
}

/**
 A word holds a node address and, when sizes are tracked, a 32-bit running size counter in
 its low half. Word 0 is the null link.
 */
module PackedWords {
  const W: nat := 0x1_0000_0000

  type uint32 = x: nat | x < W
  type Word = nat

  // A real address is not null, and fits the upper half of the word when the lower half is used.
  predicate ValidPtr(track: bool, ptr: nat) {
    0 < ptr && (track ==> ptr < W)
  }

  function NewNodePtr(track: bool, ptr: nat, size: uint32): Word {
    if track then ptr * W + size else ptr
  }

  function GetPtr(track: bool, w: Word): nat {
    if track then w / W else w
  }

  function GetSize(w: Word): uint32 {
    w % W
  }

  // The value a successful compare-and-swap stores: the node of `desired`, with both counters added.
  function Swapped(track: bool, expected: Word, desired: Word): Word {
    NewNodePtr(track, GetPtr(track, desired), (GetSize(expected) + GetSize(desired)) % W)
  }

  lemma Unpack(track: bool, ptr: nat, size: uint32)
    ensures GetPtr(track, NewNodePtr(track, ptr, size)) == ptr
    ensures track ==> GetSize(NewNodePtr(track, ptr, size)) == size
    ensures ValidPtr(track, ptr) ==> NewNodePtr(track, ptr, size) != 0
  {
  }

  // Equal words name the same node, so a pointer comparison is never fooled by a counter.
  lemma PackInjective(track: bool, p: nat, a: uint32, q: nat, b: uint32)
    requires NewNodePtr(track, p, a) == NewNodePtr(track, q, b)
    ensures p == q && (track ==> a == b)
  {
    Unpack(track, p, a);
    Unpack(track, q, b);
  }

  lemma SwapAdds(track: bool, p: nat, a: uint32, q: nat, b: uint32)
    ensures Swapped(track, NewNodePtr(track, p, a), NewNodePtr(track, q, b)) == NewNodePtr(track, q, (a + b) % W)
    ensures Swapped(track, 0, NewNodePtr(track, q, b)) == NewNodePtr(track, q, b)
  {
    Unpack(track, p, a);
    Unpack(track, q, b);
  }

  function Sum(sizes: seq<uint32>): nat {
    if sizes == [] then 0 else Sum(sizes[..|sizes| - 1]) + sizes[|sizes| - 1]
  }

  lemma {:induction false} SumAppend(a: seq<uint32>, b: seq<uint32>)
    ensures Sum(a + b) == Sum(a) + Sum(b)
  {
    if b == [] {
      assert a + b == a;
    } else {
      var n := |b| - 1;
      assert (a + b)[..|a + b| - 1] == a + b[..n];
      SumAppend(a, b[..n]);
    }
  }

  lemma ModAdd(a: nat, b: nat)
    ensures (a % W + b) % W == (a + b) % W
    ensures (a + b % W) % W == (a + b) % W
  {
    var q := a / W;
    assert a == q * W + a % W;
    var r := b / W;
    assert b == r * W + b % W;
  }

  // Subtracting 32-bit counters recovers a sum modulo 2^32, however often the counters wrapped.
  lemma ModDiff(a: nat, b: nat)
    ensures ((a + b) % W + W - a % W) % W == b % W
  {
    var q := a / W;
    assert a == q * W + a % W;
    var r := (a + b) / W;
    assert a + b == r * W + (a + b) % W;
    var k := b / W;
    assert b == k * W + b % W;
  }

  // Two prefix sums a and b of one total, subtracted as 32-bit counters.
  lemma ModSpan(a: nat, b: nat, all: nat)
    requires a <= all && b <= all
    ensures ((b % W + W - a % W) % W + (all - b)) % W == (all - a) % W
  {
    var x := b % W + W - a % W;
    assert b == b / W * W + b % W && a == a / W * W + a % W && x == x / W * W + x % W;
    var y := x % W + (all - b);
    assert y - (all - a) == (a / W + 1 - b / W - x / W) * W;
    var k := a / W + 1 - b / W - x / W;
    assert y == (all - a) + k * W;
    ModShift(all - a, k);
  }

  lemma ModShift(n: nat, k: int)
    requires n + k * W >= 0
    ensures (n + k * W) % W == n % W
  {
  }
}
