/** A counter that runs round a ring of 1024 slots: each round of a run may take the next slot. */
module IdRing {
  import opened HashTables

  /** How many rounds took a slot; `taken[i]` says whether round `i` did. */
  function Count(taken: seq<bool>): nat {
    if taken == [] then 0 else Count(taken[..|taken| - 1]) + if taken[|taken| - 1] then 1 else 0
  }

  /** The slot that is next after the rounds, when the ring started at `first`. */
  function Slot(first: nat, taken: seq<bool>): nat { (first + Count(taken)) % MAX_AMOUNT }

  /** The last round that took slot `t`, or -1. */
  function Last(first: nat, taken: seq<bool>, t: nat): (k: int)
    ensures -1 <= k < |taken|
    ensures k >= 0 ==> taken[k]
  {
    if taken == [] then -1 else
      var prefix := taken[..|taken| - 1];
      if taken[|taken| - 1] && Slot(first, prefix) == t then |taken| - 1 else Last(first, prefix, t)
  }

  lemma {:induction false} CountGrows(taken: seq<bool>, k: nat)
    requires k <= |taken|
    ensures Count(taken[..k]) <= Count(taken)
  {
    if k < |taken| {
      var prefix := taken[..|taken| - 1];
      CountGrows(prefix, k);
      assert prefix[..k] == taken[..k];
    } else {
      assert taken[..k] == taken;
    }
  }

  lemma {:induction false} CountNext(taken: seq<bool>, k: nat)
    requires k < |taken|
    ensures Count(taken[..k + 1]) == Count(taken[..k]) + if taken[k] then 1 else 0
  {
    assert taken[..k + 1][..k] == taken[..k];
  }

  lemma {:induction false} NextSlot(n: nat)
    ensures (n % MAX_AMOUNT + 1) % MAX_AMOUNT == (n + 1) % MAX_AMOUNT
  {
  }

  lemma {:induction false} FirstSlot(first: nat)
    requires first < MAX_AMOUNT
    ensures Slot(first, []) == first
  {
  }

  /** A round that takes a slot moves the counter on by one. */
  lemma {:induction false} SlotMoves(first: nat, taken: seq<bool>)
    requires taken != []
    ensures var before := Slot(first, taken[..|taken| - 1]);
      Slot(first, taken) == if taken[|taken| - 1] then (before + 1) % MAX_AMOUNT else before
  {
    NextSlot(first + Count(taken[..|taken| - 1]));
  }

  lemma {:induction false} SameSlot(a: nat, d: nat)
    ensures (a + d) % MAX_AMOUNT == a % MAX_AMOUNT <==> d % MAX_AMOUNT == 0
  {
  }

  /** Round `k` keeps its slot exactly as long as fewer than 1024 slots are taken after it. */
  lemma {:induction false} KeepsSlotIff(first: nat, taken: seq<bool>, k: nat)
    requires k < |taken| && taken[k]
    ensures var last := Last(first, taken, Slot(first, taken[..k]));
      last >= k && (last == k <==> Count(taken) - Count(taken[..k + 1]) < MAX_AMOUNT)
    decreases |taken|
  {
    var n := |taken|;
    var prefix := taken[..n - 1];
    CountNext(taken, k);
    if n == k + 1 {
      assert prefix == taken[..k] && taken[..k + 1] == taken;
    } else {
      assert prefix[..k] == taken[..k] && prefix[..k + 1] == taken[..k + 1];
      KeepsSlotIff(first, prefix, k);
      CountGrows(prefix, k + 1);
      SameSlot(first + Count(taken[..k]), Count(prefix) - Count(taken[..k]));
    }
  }

  /** Slots taken fewer than 1024 takings apart differ. */
  lemma {:induction false} NearbySlotsDiffer(first: nat, taken: seq<bool>, i: nat, j: nat)
    requires i < j <= |taken| && taken[i] && Count(taken[..j]) - Count(taken[..i]) < MAX_AMOUNT
    ensures Slot(first, taken[..i]) != Slot(first, taken[..j])
  {
    CountNext(taken, i);
    CountGrows(taken[..j], i + 1);
    assert taken[..j][..i + 1] == taken[..i + 1];
    SameSlot(first + Count(taken[..i]), Count(taken[..j]) - Count(taken[..i]));
  }
}
