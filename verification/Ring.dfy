/** The traffic daemon's date rings: circular arrays keyed by a date, and the
    insertion-ordered ledger that they stand for. */
module Ring {
  import opened Bytes

  datatype Direction = RX | TX

  datatype Counters = Counters(rx: u64, tx: u64) {
    function At(dir: Direction): u64 {
      if dir == RX then rx else tx
    }
  }

  const ZERO := Counters(0, 0)

  /** 64-bit unsigned addition, which wraps. */
  function Plus(a: Counters, b: Counters): Counters {
    Counters((a.rx + b.rx) % TWO64, (a.tx + b.tx) % TWO64)
  }

  /** A ring slot; key 0 marks a slot never used. */
  datatype Slot = Slot(key: nat, counter: Counters)

  // ---- The ledger --------------------------------------------------------------

  function IndexOf(list: seq<Slot>, key: nat): (i: nat)
    ensures i <= |list|
    ensures i < |list| ==> list[i].key == key
    ensures forall k :: 0 <= k < i ==> list[k].key != key
  {
    if list == [] || list[0].key == key then 0 else 1 + IndexOf(list[1..], key)
  }

  /** Add to the entry with this key wherever it is; otherwise append a new
      entry and, at `max` entries, drop the oldest. */
  function Post(list: seq<Slot>, max: nat, key: nat, c: Counters): seq<Slot> {
    var i := IndexOf(list, key);
    if i < |list| then list[i := Slot(key, Plus(list[i].counter, c))]
    else (if 0 < |list| == max then list[1..] else list) + [Slot(key, c)]
  }

  /** What `Post` drops. */
  function Dropped(list: seq<Slot>, max: nat, key: nat): Counters {
    if IndexOf(list, key) == |list| && 0 < |list| == max then list[0].counter else ZERO
  }

  function Sum(list: seq<Slot>, dir: Direction): int {
    if list == [] then 0 else list[0].counter.At(dir) + Sum(list[1..], dir)
  }

  predicate DistinctKeys(list: seq<Slot>) {
    (forall i :: 0 <= i < |list| ==> list[i].key != 0) &&
    forall i, j :: 0 <= i < j < |list| ==> list[i].key != list[j].key
  }

  lemma PostKeepsLedger(list: seq<Slot>, max: nat, key: nat, c: Counters)
    requires DistinctKeys(list) && |list| <= max && key != 0 && max > 0
    ensures DistinctKeys(Post(list, max, key, c)) && |Post(list, max, key, c)| <= max
  {
  }

  /** What is booked under a key. */
  function Held(list: seq<Slot>, key: nat): Counters {
    var i := IndexOf(list, key);
    if i < |list| then list[i].counter else ZERO
  }

  predicate HasKey(list: seq<Slot>, key: nat) {
    IndexOf(list, key) < |list|
  }

  lemma {:induction false} IndexIs(list: seq<Slot>, key: nat, i: nat)
    requires i < |list| && list[i].key == key && forall k :: 0 <= k < i ==> list[k].key != key
    ensures IndexOf(list, key) == i
  {
  }

  /** Posting adds to its own key, which is the newest one if it was not there; every
      other key keeps what is booked under it, unless the ledger is full and the
      oldest key makes room for a new one. */
  lemma PostMeaning(list: seq<Slot>, max: nat, key: nat, c: Counters, other: nat)
    requires DistinctKeys(list) && |list| <= max && key != 0 && max > 0 && other != key
    ensures var r := Post(list, max, key, c);
      var full := |list| == max && !HasKey(list, key);
      && HasKey(r, key) && Held(r, key) == Plus(Held(list, key), c)
      && (!HasKey(list, key) ==> r[|r| - 1].key == key)
      && (HasKey(r, other) <==> HasKey(list, other) && !(full && list[0].key == other))
      && (HasKey(r, other) ==> Held(r, other) == Held(list, other))
  {
    hide IndexOf;
    var i, o := IndexOf(list, key), IndexOf(list, other);
    if i < |list| {
      var r := list[i := Slot(key, Plus(list[i].counter, c))];
      IndexIs(r, key, i);
      if o < |list| {
        IndexIs(r, other, o);
      }
    } else {
      var from := if 0 < |list| == max then 1 else 0;
      var r := list[from..] + [Slot(key, c)];
      IndexIs(r, key, |r| - 1);
      if from <= o < |list| {
        IndexIs(r, other, o - from);
      } else {
        assert forall k :: 0 <= k < |r| - 1 ==> r[k] == list[k + from];
      }
    }
  }

  lemma {:induction false} SumAppend(list: seq<Slot>, x: Slot, dir: Direction)
    ensures Sum(list + [x], dir) == Sum(list, dir) + x.counter.At(dir)
  {
    if list == [] {
      assert list + [x] == [x];
    } else {
      assert (list + [x])[1..] == list[1..] + [x];
      SumAppend(list[1..], x, dir);
    }
  }

  lemma {:induction false} SumUpdate(list: seq<Slot>, i: nat, x: Slot, dir: Direction)
    requires i < |list|
    ensures Sum(list[i := x], dir) == Sum(list, dir) - list[i].counter.At(dir) + x.counter.At(dir)
  {
    if i == 0 {
      assert list[i := x][1..] == list[1..];
    } else {
      assert list[i := x][1..] == list[1..][i - 1 := x];
      SumUpdate(list[1..], i - 1, x, dir);
    }
  }

  /** a and b agree modulo 2^64. */
  ghost predicate Congruent(a: int, b: int) {
    exists w: int :: a == b + w * TWO64
  }

  lemma CongruentBy(a: int, b: int, w: int)
    requires a == b + w * TWO64
    ensures Congruent(a, b)
  {
  }

  lemma CongruentAdd(a: int, b: int, c: int, d: int)
    requires Congruent(a, b) && Congruent(c, d)
    ensures Congruent(a + c, b + d)
  {
    var v: int :| a == b + v * TWO64;
    var w: int :| c == d + w * TWO64;
    CongruentBy(a + c, b + d, v + w);
  }

  /** Posting conserves traffic: what is held plus what is dropped grows by
      exactly what is posted, modulo the 64-bit wrap of each counter. */
  lemma PostConserves(list: seq<Slot>, max: nat, key: nat, c: Counters, dir: Direction)
    ensures Congruent(Sum(Post(list, max, key, c), dir) + Dropped(list, max, key).At(dir), Sum(list, dir) + c.At(dir))
  {
    var i := IndexOf(list, key);
    if i < |list| {
      var x := Slot(key, Plus(list[i].counter, c));
      SumUpdate(list, i, x, dir);
      var s := list[i].counter.At(dir) + c.At(dir);
      assert s == x.counter.At(dir) + (s / TWO64) * TWO64;
      CongruentBy(Sum(Post(list, max, key, c), dir) + Dropped(list, max, key).At(dir), Sum(list, dir) + c.At(dir), -(s / TWO64));
    } else {
      SumAppend(if 0 < |list| == max then list[1..] else list, Slot(key, c), dir);
      CongruentBy(Sum(Post(list, max, key, c), dir) + Dropped(list, max, key).At(dir), Sum(list, dir) + c.At(dir), 0);
    }
  }

  // ---- The ring ------------------------------------------------------------------

  /** The slots in traversal order: from the one behind the tail, around to the tail. */
  function Rotation<T>(slots: seq<T>, tail: nat): (r: seq<T>)
    requires tail < |slots|
    ensures |r| == |slots|
  {
    slots[tail + 1..] + slots[..tail + 1]
  }

  function Used(r: seq<Slot>): (u: seq<Slot>)
    ensures |u| <= |r|
  {
    if r == [] then [] else if r[0].key == 0 then Used(r[1..]) else [r[0]] + Used(r[1..])
  }

  /** The ring's entries, oldest first. */
  function Entries(slots: seq<Slot>, tail: nat): (e: seq<Slot>)
    requires tail < |slots|
    ensures |e| <= |slots|
  {
    Used(Rotation(slots, tail))
  }

  /** In traversal order the unused slots come first; used keys are distinct. */
  ghost predicate InOrder(r: seq<Slot>) {
    && (forall i, j :: 0 <= i < j < |r| && r[i].key != 0 ==> r[j].key != 0)
    && (forall i, j :: 0 <= i < j < |r| && r[i].key != 0 ==> r[i].key != r[j].key)
  }

  ghost predicate ValidRing(slots: seq<Slot>, tail: nat) {
    tail < |slots| && InOrder(Rotation(slots, tail))
  }

  lemma {:induction false} UsedAll(r: seq<Slot>)
    requires forall i :: 0 <= i < |r| ==> r[i].key != 0
    ensures Used(r) == r
  {
    if r != [] {
      UsedAll(r[1..]);
    }
  }

  lemma {:induction false} UsedAppend(r: seq<Slot>, x: Slot)
    requires x.key != 0
    ensures Used(r + [x]) == Used(r) + [x]
  {
    if r == [] {
      assert r + [x] == [x];
    } else {
      assert (r + [x])[1..] == r[1..] + [x];
      UsedAppend(r[1..], x);
    }
  }

  /** The entry with a used key, bumped where it is. */
  lemma {:induction false} UsedInPlace(r: seq<Slot>, i: nat, max: nat, c: Counters)
    requires InOrder(r) && i < |r| && r[i].key != 0
    ensures Used(r[i := Slot(r[i].key, Plus(r[i].counter, c))]) == Post(Used(r), max, r[i].key, c)
  {
    var x := Slot(r[i].key, Plus(r[i].counter, c));
    if r[0].key == 0 {
      assert r[i := x][1..] == r[1..][i - 1 := x];
      UsedInPlace(r[1..], i - 1, max, c);
    } else {
      UsedAll(r);
      UsedAll(r[i := x]);
      assert IndexOf(r, r[i].key) == i;
    }
  }

  /** A new key pushes the slot behind the tail out of the traversal. */
  lemma UsedPush(r: seq<Slot>, key: nat, c: Counters)
    requires InOrder(r) && r != [] && key != 0
    requires forall i :: 0 <= i < |r| ==> r[i].key != key
    ensures Used(r[1..] + [Slot(key, c)]) == Post(Used(r), |r|, key, c)
  {
    hide Used, IndexOf;
    UsedAppend(r[1..], Slot(key, c));
    UsedKeys(r, key);
    PostNew(Used(r), |r|, key, c);
    if r[0].key != 0 {
      UsedAll(r);
      UsedAll(r[1..]);
    } else {
      UsedRest(r);
    }
  }

  lemma PostNew(list: seq<Slot>, max: nat, key: nat, c: Counters)
    requires forall i :: 0 <= i < |list| ==> list[i].key != key
    ensures Post(list, max, key, c) == (if 0 < |list| == max then list[1..] else list) + [Slot(key, c)]
  {
  }

  lemma UsedRest(r: seq<Slot>)
    requires r != [] && r[0].key == 0
    ensures Used(r) == Used(r[1..])
  {
  }

  lemma {:induction false} UsedKeys(r: seq<Slot>, key: nat)
    requires forall i :: 0 <= i < |r| ==> r[i].key != key
    ensures forall i :: 0 <= i < |Used(r)| ==> Used(r)[i].key != key
  {
    if r != [] {
      UsedKeys(r[1..], key);
    }
  }

  /** A valid ring stands for a ledger. */
  lemma {:induction false} EntriesDistinct(r: seq<Slot>)
    requires InOrder(r)
    ensures DistinctKeys(Used(r))
  {
    if r != [] {
      if r[0].key == 0 {
        EntriesDistinct(r[1..]);
      } else {
        UsedAll(r);
      }
    }
  }

  /** `bump`: the circular array does what `Post` does to the ledger. */
  method Bump(data: array<Slot>, tail: nat, xnow: nat, counter: Counters) returns (newTail: nat)
    requires ValidRing(data[..], tail) && xnow != 0
    modifies data
    ensures ValidRing(data[..], newTail)
    ensures Entries(data[..], newTail) == Post(old(Entries(data[..], tail)), data.Length, xnow, counter)
  {
    hide Entries, Post, InOrder;
    ghost var before := data[..];
    var t := Locate(data, tail, xnow);
    newTail := tail;
    if t == data.Length {
      t := (tail + 1) % data.Length;
      newTail := t;
      data[t] := Slot(xnow, ZERO);
      BumpNew(before, tail, xnow, counter);
    } else {
      BumpOld(before, tail, t, counter);
    }
    data[t] := Slot(xnow, Plus(data[t].counter, counter));
    assert data[..] == before[t := data[t]];
  }

  /** The search of `bump`: the tail first, then from the highest index down. */
  method Locate(data: array<Slot>, tail: nat, xnow: nat) returns (t: nat)
    requires tail < data.Length
    ensures t <= data.Length
    ensures t < data.Length ==> data[t].key == xnow
    ensures t == data.Length ==> forall k :: 0 <= k < data.Length ==> data[k].key != xnow
  {
    if data[tail].key == xnow {
      return tail;
    }
    var i := data.Length - 1;
    while i >= 0
      invariant -1 <= i < data.Length
      invariant forall k :: i < k < data.Length ==> data[k].key != xnow
      decreases i
    {
      if data[i].key == xnow {
        return i;
      }
      i := i - 1;
    }
    return data.Length;
  }

  lemma BumpNew(slots: seq<Slot>, tail: nat, key: nat, c: Counters)
    requires ValidRing(slots, tail) && key != 0
    requires forall k :: 0 <= k < |slots| ==> slots[k].key != key
    ensures var t := (tail + 1) % |slots|;
            var slots' := slots[t := Slot(key, c)];
            ValidRing(slots', t) && Entries(slots', t) == Post(Entries(slots, tail), |slots|, key, c)
  {
    PushRotates(slots, tail, Slot(key, c));
    UsedPush(Rotation(slots, tail), key, c);
  }

  lemma BumpOld(slots: seq<Slot>, tail: nat, t: nat, c: Counters)
    requires ValidRing(slots, tail) && t < |slots| && slots[t].key != 0
    ensures var slots' := slots[t := Slot(slots[t].key, Plus(slots[t].counter, c))];
            ValidRing(slots', tail) && Entries(slots', tail) == Post(Entries(slots, tail), |slots|, slots[t].key, c)
  {
    var i := InPlaceRotates(slots, tail, t, Slot(slots[t].key, Plus(slots[t].counter, c)));
    UsedInPlace(Rotation(slots, tail), i, |slots|, c);
  }

  lemma NextIndex(p: nat, max: nat)
    requires p < max
    ensures (p + 1) % max == if p + 1 == max then 0 else p + 1
  {
  }

  lemma PushRotates<T>(slots: seq<T>, tail: nat, x: T)
    requires tail < |slots|
    ensures var t := (tail + 1) % |slots|;
            Rotation(slots[t := x], t) == Rotation(slots, tail)[1..] + [x]
  {
    NextIndex(tail, |slots|);
  }

  lemma InPlaceRotates(slots: seq<Slot>, tail: nat, t: nat, x: Slot) returns (i: nat)
    requires tail < |slots| && t < |slots|
    ensures i < |slots| && Rotation(slots, tail)[i] == slots[t]
    ensures Rotation(slots[t := x], tail) == Rotation(slots, tail)[i := x]
  {
    i := if t > tail then t - tail - 1 else |slots| - tail - 1 + t;
  }

  lemma UsedStep(r: seq<Slot>, k: nat)
    requires k < |r|
    ensures Used(r[k..]) == if r[k].key == 0 then Used(r[k + 1..]) else [r[k]] + Used(r[k + 1..])
  {
  }

  /** `Node_print_datajs`: the walk from behind the tail that skips unused
      slots lists the entries in insertion order. */
  method List(data: array<Slot>, tail: nat) returns (out: seq<Slot>)
    requires tail < data.Length
    ensures out == Entries(data[..], tail)
  {
    hide Used, Rotation, ListedTo;
    out := [];
    var p, max := tail, data.Length;
    ghost var r := Rotation(data[..], tail);
    NoneListed(r);
    for k := 0 to max
      invariant p == if tail + k < max then tail + k else tail + k - max
      invariant ListedTo(r, out, k)
    {
      NextIndex(p, max);
      p := (p + 1) % max;
      RotationAt(data[..], tail, k);
      ListedStep(r, out, k);
      if data[p].key == 0 {
        continue;
      }
      out := out + [data[p]];
    }
    AllListed(r, out);
  }

  /** The slots in use among the first `k` are listed. */
  ghost predicate ListedTo(r: seq<Slot>, out: seq<Slot>, k: nat) {
    k <= |r| && out + Used(r[k..]) == Used(r)
  }

  lemma NoneListed(r: seq<Slot>)
    ensures ListedTo(r, [], 0)
  {
    assert r[0..] == r && [] + Used(r) == Used(r);
  }

  lemma ListedStep(r: seq<Slot>, out: seq<Slot>, k: nat)
    requires k < |r| && ListedTo(r, out, k)
    ensures ListedTo(r, if r[k].key == 0 then out else out + [r[k]], k + 1)
  {
    hide Used;
    UsedStep(r, k);
    assert out + ([r[k]] + Used(r[k + 1..])) == (out + [r[k]]) + Used(r[k + 1..]);
  }

  lemma AllListed(r: seq<Slot>, out: seq<Slot>)
    requires ListedTo(r, out, |r|)
    ensures out == Used(r)
  {
    assert r[|r|..] == [] && out + [] == out;
  }

  lemma RotationAt<T>(slots: seq<T>, tail: nat, k: nat)
    requires tail < |slots| && k < |slots|
    ensures Rotation(slots, tail)[k] == slots[if tail + 1 + k < |slots| then tail + 1 + k else tail + 1 + k - |slots|]
  {
  }
}
