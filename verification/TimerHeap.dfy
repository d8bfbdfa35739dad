/** The timer heap: a binary heap in an array counted from one, with the timers' expiry as
    the key, and the loop that fires what has expired. */
module TimerHeap {

  /** An entry; a cancelled timer leaves its entry behind without a timer. */
  datatype TimerRef = TimerRef(expire: nat, id: nat, live: bool)

  type Bag = multiset<TimerRef>

  function At(h: seq<TimerRef>, k: nat): TimerRef
    requires 1 <= k <= |h|
  {
    h[k - 1]
  }

  function Put(h: seq<TimerRef>, k: nat, x: TimerRef): (r: seq<TimerRef>)
    requires 1 <= k <= |h|
    ensures |r| == |h| && At(r, k) == x
    ensures forall j :: 1 <= j <= |h| && j != k ==> At(r, j) == At(h, j)
  {
    h[k - 1 := x]
  }

  // ---------- the two sifts on the live elements ----------

  /** Larger parents move down into the hole at i until x fits. */
  function SiftUp(h: seq<TimerRef>, i: nat, x: TimerRef): (r: seq<TimerRef>)
    requires 1 <= i <= |h|
    ensures |r| == |h|
    decreases i
  {
    if i > 1 && At(h, i / 2).expire > x.expire then SiftUp(Put(h, i, At(h, i / 2)), i / 2, x)
    else Put(h, i, x)
  }

  function Insert(h: seq<TimerRef>, x: TimerRef): seq<TimerRef> {
    SiftUp(h + [x], |h| + 1, x)
  }

  function SmallerChild(h: seq<TimerRef>, i: nat): (c: nat)
    requires 1 <= i && 2 * i <= |h|
    ensures i < c <= |h| && c / 2 == i
    ensures forall k :: 1 <= k <= |h| && k / 2 == i ==> At(h, c).expire <= At(h, k).expire
  {
    if 2 * i != |h| && At(h, 2 * i + 1).expire < At(h, 2 * i).expire then 2 * i + 1 else 2 * i
  }

  /** The smaller child moves up into the hole at i until x fits. */
  function SiftDown(h: seq<TimerRef>, i: nat, x: TimerRef): (r: seq<TimerRef>)
    requires 1 <= i <= |h|
    ensures |r| == |h|
    decreases |h| - i
  {
    if 2 * i <= |h| && x.expire > At(h, SmallerChild(h, i)).expire
    then SiftDown(Put(h, i, At(h, SmallerChild(h, i))), SmallerChild(h, i), x)
    else Put(h, i, x)
  }

  /** What is left once the top is taken: the last element sinks from the top. */
  function Pop(h: seq<TimerRef>): (r: seq<TimerRef>)
    requires |h| > 0
    ensures |r| == |h| - 1
  {
    if |h| == 1 then [] else SiftDown(h[..|h| - 1], 1, h[|h| - 1])
  }

  // ---------- heap order ----------

  predicate Ordered(h: seq<TimerRef>) {
    forall k :: 2 <= k <= |h| ==> At(h, k / 2).expire <= At(h, k).expire
  }

  /** In order but for the hole: every other edge holds, and edges across the hole hold. */
  predicate OrderedAround(h: seq<TimerRef>, i: nat)
    requires 1 <= i <= |h|
  {
    && (forall k :: 2 <= k <= |h| && k != i && k / 2 != i ==> At(h, k / 2).expire <= At(h, k).expire)
    && (forall k :: 2 <= k <= |h| && k / 2 == i && i > 1 ==> At(h, i / 2).expire <= At(h, k).expire)
  }

  predicate BelowChildren(h: seq<TimerRef>, i: nat, x: TimerRef) {
    forall k :: 2 <= k <= |h| && k / 2 == i ==> x.expire <= At(h, k).expire
  }

  lemma {:induction false} SiftUpOrdered(h: seq<TimerRef>, i: nat, x: TimerRef)
    requires 1 <= i <= |h| && OrderedAround(h, i) && BelowChildren(h, i, x)
    ensures Ordered(SiftUp(h, i, x))
    decreases i
  {
    if i > 1 && At(h, i / 2).expire > x.expire {
      var g := Put(h, i, At(h, i / 2));
      assert OrderedAround(g, i / 2) && BelowChildren(g, i / 2, x);
      SiftUpOrdered(g, i / 2, x);
    } else {
      assert Ordered(Put(h, i, x));
    }
  }

  lemma {:induction false} SiftDownOrdered(h: seq<TimerRef>, i: nat, x: TimerRef)
    requires 1 <= i <= |h| && OrderedAround(h, i) && (i > 1 ==> At(h, i / 2).expire <= x.expire)
    ensures Ordered(SiftDown(h, i, x))
    decreases |h| - i
  {
    if 2 * i <= |h| && x.expire > At(h, SmallerChild(h, i)).expire {
      var c := SmallerChild(h, i);
      var g := Put(h, i, At(h, c));
      assert OrderedAround(g, c);
      SiftDownOrdered(g, c, x);
    } else {
      assert 2 * i <= |h| ==> At(h, SmallerChild(h, i)).expire >= x.expire;
      assert Ordered(Put(h, i, x));
    }
  }

  lemma InsertOrdered(h: seq<TimerRef>, x: TimerRef)
    requires Ordered(h)
    ensures Ordered(Insert(h, x))
  {
    assert forall k :: 1 <= k <= |h| ==> At(h + [x], k) == At(h, k);
    assert OrderedAround(h + [x], |h| + 1);
    SiftUpOrdered(h + [x], |h| + 1, x);
  }

  lemma PopOrdered(h: seq<TimerRef>)
    requires |h| > 0 && Ordered(h)
    ensures Ordered(Pop(h))
  {
    var g := h[..|h| - 1];
    assert forall k :: 1 <= k < |h| ==> At(g, k) == At(h, k);
    if |h| > 1 {
      assert OrderedAround(g, 1);
      SiftDownOrdered(g, 1, h[|h| - 1]);
    }
  }

  /** The top of a heap in order is a minimum. */
  lemma {:induction false} TopIsLeast(h: seq<TimerRef>, k: nat)
    requires Ordered(h) && 1 <= k <= |h|
    ensures At(h, 1).expire <= At(h, k).expire
  {
    if k > 1 {
      TopIsLeast(h, k / 2);
      assert At(h, k / 2).expire <= At(h, k).expire;
    }
  }

  // ---------- contents ----------

  lemma PutBag(h: seq<TimerRef>, k: nat, x: TimerRef)
    requires 1 <= k <= |h|
    ensures multiset(Put(h, k, x)) == multiset(h) - multiset{At(h, k)} + multiset{x}
  {
    assert h == h[..k - 1] + [h[k - 1]] + h[k..];
    assert Put(h, k, x) == h[..k - 1] + [x] + h[k..];
  }

  lemma {:induction false} SiftUpBag(h: seq<TimerRef>, i: nat, x: TimerRef)
    requires 1 <= i <= |h|
    ensures multiset(SiftUp(h, i, x)) == multiset(h) - multiset{At(h, i)} + multiset{x}
    decreases i
  {
    PutBag(h, i, x);
    if i > 1 && At(h, i / 2).expire > x.expire {
      PutBag(h, i, At(h, i / 2));
      SiftUpBag(Put(h, i, At(h, i / 2)), i / 2, x);
      InBag(h, i);
    }
  }

  lemma InBag(h: seq<TimerRef>, i: nat)
    requires 1 <= i <= |h|
    ensures At(h, i) in multiset(h)
  {}

  lemma {:induction false} SiftDownBag(h: seq<TimerRef>, i: nat, x: TimerRef)
    requires 1 <= i <= |h|
    ensures multiset(SiftDown(h, i, x)) == multiset(h) - multiset{At(h, i)} + multiset{x}
    decreases |h| - i
  {
    PutBag(h, i, x);
    if 2 * i <= |h| && x.expire > At(h, SmallerChild(h, i)).expire {
      var c := SmallerChild(h, i);
      PutBag(h, i, At(h, c));
      SiftDownBag(Put(h, i, At(h, c)), c, x);
      InBag(h, i);
    }
  }

  lemma InsertBag(h: seq<TimerRef>, x: TimerRef)
    ensures multiset(Insert(h, x)) == multiset(h) + multiset{x}
  {
    SiftUpBag(h + [x], |h| + 1, x);
  }

  lemma PopBag(h: seq<TimerRef>)
    requires |h| > 0
    ensures multiset(Pop(h)) == multiset(h) - multiset{At(h, 1)}
  {
    var g := h[..|h| - 1];
    assert h == g + [h[|h| - 1]];
    if |h| > 1 {
      assert At(g, 1) == At(h, 1);
      SiftDownBag(g, 1, h[|h| - 1]);
    }
  }

  // ---------- every run of inserts and peeks ----------

  datatype Op = OpInsert(ref: TimerRef) | OpPeek

  /** The heap and what each peek handed out so far. */
  datatype State = State(heap: seq<TimerRef>, out: seq<TimerRef>)

  const START: State := State([], [])

  function Step(s: State, op: Op): State {
    match op
    case OpInsert(x) => s.(heap := Insert(s.heap, x))
    case OpPeek => if s.heap == [] then s else State(Pop(s.heap), s.out + [At(s.heap, 1)])
  }

  function Run(ops: seq<Op>): State {
    if ops == [] then START else Step(Run(ops[..|ops| - 1]), ops[|ops| - 1])
  }

  function Inserted(ops: seq<Op>): Bag {
    if ops == [] then multiset{}
    else
      var last := ops[|ops| - 1];
      Inserted(ops[..|ops| - 1]) + Entering(last)
  }

  predicate Least(x: TimerRef, b: Bag) {
    x in b && forall y <- b :: x.expire <= y.expire
  }

  lemma TopLeast(h: seq<TimerRef>)
    requires Ordered(h) && h != []
    ensures Least(At(h, 1), multiset(h))
  {
    forall y | y in multiset(h) ensures At(h, 1).expire <= y.expire {
      var j :| 0 <= j < |h| && h[j] == y;
      TopIsLeast(h, j + 1);
      assert At(h, j + 1) == y;
    }
  }

  lemma StepKeeps(s: State, op: Op)
    requires Ordered(s.heap)
    ensures Ordered(Step(s, op).heap)
    ensures multiset(Step(s, op).heap) + multiset(Step(s, op).out)
         == multiset(s.heap) + multiset(s.out) + Entering(op)
  {
    hide Ordered;
    hide Insert;
    hide Pop;
    match op
    case OpInsert(x) =>
      InsertOrdered(s.heap, x);
      InsertBag(s.heap, x);
    case OpPeek =>
      if s.heap != [] {
        PopOrdered(s.heap);
        PopBag(s.heap);
        InBag(s.heap, 1);
        assert multiset(s.out + [At(s.heap, 1)]) == multiset(s.out) + multiset{At(s.heap, 1)};
      }
  }

  /** What the last operation inserts. */
  function Entering(op: Op): Bag {
    if op.OpInsert? then multiset{op.ref} else multiset{}
  }

  function Held(s: State): Bag {
    multiset(s.heap) + multiset(s.out)
  }

  /** Over every run: heap order, and what was inserted is what is held plus what came out. */
  lemma {:induction false} RunKeeps(ops: seq<Op>)
    ensures Ordered(Run(ops).heap)
    ensures Inserted(ops) == multiset(Run(ops).heap) + multiset(Run(ops).out)
  {
    hide Ordered;
    hide Step;
    if ops == [] {
      EmptyOrdered();
    } else {
      hide Entering;
      var rest := ops[..|ops| - 1];
      RunKeeps(rest);
      StepKeeps(Run(rest), ops[|ops| - 1]);
      assert Held(Run(ops)) == Held(Run(rest)) + Entering(ops[|ops| - 1]);
      assert Inserted(ops) == Inserted(rest) + Entering(ops[|ops| - 1]);
    }
  }

  /** A peek after any run hands out a least element of what was inserted and not yet out. */
  lemma PeekIsLeast(ops: seq<Op>)
    requires Run(ops).heap != []
    ensures Run(ops + [OpPeek]).out == Run(ops).out + [At(Run(ops).heap, 1)]
    ensures Least(At(Run(ops).heap, 1), Inserted(ops) - multiset(Run(ops).out))
  {
    RunKeeps(ops);
    hide Ordered;
    hide At;
    hide Least;
    TopLeast(Run(ops).heap);
    BagMinus(multiset(Run(ops).heap), multiset(Run(ops).out));
    assert (ops + [OpPeek])[..|ops|] == ops;
  }

  lemma BagMinus(a: Bag, b: Bag)
    ensures a + b - b == a
  {}

  lemma EmptyOrdered()
    ensures Ordered([])
  {}

  // ---------- draining and firing ----------

  predicate Sorted(s: seq<TimerRef>) {
    forall i, j :: 0 <= i < j < |s| ==> s[i].expire <= s[j].expire
  }

  function InsertAll(h: seq<TimerRef>, xs: seq<TimerRef>): seq<TimerRef> {
    if xs == [] then h else Insert(InsertAll(h, xs[..|xs| - 1]), xs[|xs| - 1])
  }

  predicate NoneEarlier(xs: seq<TimerRef>, expire: nat) {
    forall i :: 0 <= i < |xs| ==> xs[i].expire >= expire
  }

  lemma {:induction false} InsertAllKeeps(h: seq<TimerRef>, xs: seq<TimerRef>)
    requires Ordered(h)
    ensures Ordered(InsertAll(h, xs))
    ensures multiset(InsertAll(h, xs)) == multiset(h) + multiset(xs)
  {
    if xs != [] {
      var g := InsertAll(h, xs[..|xs| - 1]);
      InsertAllKeeps(h, xs[..|xs| - 1]);
      InsertOrdered(g, xs[|xs| - 1]);
      InsertBag(g, xs[|xs| - 1]);
      assert xs == xs[..|xs| - 1] + [xs[|xs| - 1]];
    }
  }

  /** A new element that is not earlier than the top does not displace it. */
  lemma {:induction false} SiftUpTop(h: seq<TimerRef>, i: nat, x: TimerRef)
    requires 1 < i <= |h| && At(h, 1).expire <= x.expire
    ensures At(SiftUp(h, i, x), 1) == At(h, 1)
    decreases i
  {
    if At(h, i / 2).expire > x.expire { SiftUpTop(Put(h, i, At(h, i / 2)), i / 2, x); }
  }

  lemma {:induction false} InsertAllTop(h: seq<TimerRef>, xs: seq<TimerRef>)
    requires h != [] && NoneEarlier(xs, At(h, 1).expire)
    ensures InsertAll(h, xs) != [] && At(InsertAll(h, xs), 1) == At(h, 1)
  {
    if xs != [] {
      var g := InsertAll(h, xs[..|xs| - 1]);
      InsertAllTop(h, xs[..|xs| - 1]);
      assert At(g + [xs[|xs| - 1]], 1) == At(g, 1);
      SiftUpTop(g + [xs[|xs| - 1]], |g| + 1, xs[|xs| - 1]);
    }
  }

  /** A callback runs before its own entry is taken off. The entry then taken off is its own
      exactly when the callback added nothing earlier. */
  lemma TakesOffTheFiredIff(h: seq<TimerRef>, xs: seq<TimerRef>)
    requires Ordered(h) && h != []
    ensures InsertAll(h, xs) != []
    ensures At(InsertAll(h, xs), 1) == At(h, 1) <==> NoneEarlier(xs, At(h, 1).expire)
  {
    InsertAllKeeps(h, xs);
    var g := InsertAll(h, xs);
    assert |g| == |multiset(h) + multiset(xs)| == |h| + |xs|;
    if NoneEarlier(xs, At(h, 1).expire) {
      InsertAllTop(h, xs);
    } else {
      TopLeast(g);
      var i :| 0 <= i < |xs| && xs[i].expire < At(h, 1).expire;
      assert xs[i] in multiset(g);
    }
  }

  /** Some of `before`, without the entries at or after the tick. */
  ghost predicate ExactlyDue(fired: Bag, before: Bag, tick: nat) {
    forall x :: fired[x] == if x.expire < tick then before[x] else 0
  }

  ghost predicate ExactlyLater(left: Bag, before: Bag, added: Bag, tick: nat) {
    forall x :: left[x] == (if x.expire < tick then 0 else before[x]) + added[x]
  }

  /** The state of the firing loop: fired and held entries together are the old and the added. */
  ghost predicate Fires(before: seq<TimerRef>, tick: nat, fired: seq<TimerRef>, added: seq<TimerRef>,
                        h: seq<TimerRef>) {
    && Ordered(h)
    && multiset(before) + multiset(added) == multiset(h) + multiset(fired)
    && Sorted(fired)
    && NoneEarlier(added, tick)
    && AllBefore(fired, tick)
    && AllAfter(fired, multiset(h))
  }

  /** Nothing in the bag is earlier than anything fired. */
  predicate AllAfter(fired: seq<TimerRef>, b: Bag) {
    forall i :: 0 <= i < |fired| ==> forall y <- b :: fired[i].expire <= y.expire
  }

  predicate AllBefore(fired: seq<TimerRef>, tick: nat) {
    forall i :: 0 <= i < |fired| ==> fired[i].expire < tick
  }

  lemma FireOne(fired: seq<TimerRef>, tick: nat, h: Bag, xs: seq<TimerRef>, top: TimerRef, left: Bag)
    requires Sorted(fired) && AllAfter(fired, h) && AllBefore(fired, tick) && NoneEarlier(xs, tick)
    requires Least(top, h) && top.expire < tick && left <= h + multiset(xs)
    ensures Sorted(fired + [top]) && AllAfter(fired + [top], left) && AllBefore(fired + [top], tick)
  {
    forall y | y in left ensures y.expire >= top.expire {
      assert y in h || y in multiset(xs);
    }
  }

  lemma FireBags(before: Bag, added: Bag, h: Bag, fired: Bag, xs: Bag, top: TimerRef)
    requires before + added == h + fired && top in h
    ensures before + (added + xs) == h + xs - multiset{top} + (fired + multiset{top})
  {
    assert before + (added + xs) == h + fired + xs;
  }

  lemma FireStep(before: seq<TimerRef>, tick: nat, fired: seq<TimerRef>, added: seq<TimerRef>,
                 h: seq<TimerRef>, xs: seq<TimerRef>)
    requires Fires(before, tick, fired, added, h) && h != [] && At(h, 1).expire < tick && NoneEarlier(xs, tick)
    ensures var g := InsertAll(h, xs);
            && g != [] && At(g, 1) == At(h, 1)
            && Fires(before, tick, fired + [At(g, 1)], added + xs, Pop(g))
  {
    hide Ordered;
    hide At;
    hide Pop;
    hide InsertAll;
    hide Sorted;
    hide AllAfter;
    hide AllBefore;
    hide Least;
    var g := InsertAll(h, xs);
    TakesOffTheFiredIff(h, xs);
    InsertAllKeeps(h, xs);
    PopOrdered(g);
    PopBag(g);
    InBag(g, 1);
    TopLeast(h);
    FireOne(fired, tick, multiset(h), xs, At(h, 1), multiset(Pop(g)));
    assert multiset(fired + [At(g, 1)]) == multiset(fired) + multiset{At(g, 1)};
    assert multiset(added + xs) == multiset(added) + multiset(xs);
    FireBags(multiset(before), multiset(added), multiset(h), multiset(fired), multiset(xs), At(g, 1));
    assert NoneEarlier(added + xs, tick);
    hide NoneEarlier;
    assert Fires(before, tick, fired + [At(g, 1)], added + xs, Pop(g));
  }

  lemma FiresStart(before: seq<TimerRef>, tick: nat)
    requires Ordered(before)
    ensures Fires(before, tick, [], [], before)
  {}

  lemma FiresBound(before: seq<TimerRef>, tick: nat, fired: seq<TimerRef>, added: seq<TimerRef>, h: seq<TimerRef>)
    requires Fires(before, tick, fired, added, h)
    ensures |fired| <= |before|
  {
    forall x ensures multiset(fired)[x] <= multiset(before)[x] {
      if x in multiset(fired) {
        assert (multiset(before) + multiset(added))[x] == (multiset(h) + multiset(fired))[x];
        assert x !in multiset(added);
      }
    }
    assert multiset(fired) <= multiset(before);
    var rest := multiset(before) - multiset(fired);
    assert multiset(before) == multiset(fired) + rest;
  }

  lemma FiresEnd(before: seq<TimerRef>, tick: nat, fired: seq<TimerRef>, added: seq<TimerRef>, h: seq<TimerRef>)
    requires Fires(before, tick, fired, added, h) && (h == [] || At(h, 1).expire >= tick)
    ensures Ordered(h) && Sorted(fired)
    ensures ExactlyDue(multiset(fired), multiset(before), tick)
    ensures ExactlyLater(multiset(h), multiset(before), multiset(added), tick)
  {
    if h != [] { TopLeast(h); }
    forall x ensures multiset(fired)[x] == if x.expire < tick then multiset(before)[x] else 0
             ensures multiset(h)[x] == (if x.expire < tick then 0 else multiset(before)[x]) + multiset(added)[x]
    {
      assert (multiset(before) + multiset(added))[x] == (multiset(h) + multiset(fired))[x];
      assert x in multiset(added) ==> x.expire >= tick;
      assert x in multiset(fired) ==> x.expire < tick;
      assert x in multiset(h) ==> x.expire >= tick;
    }
  }

  // ---------- cancelling ----------

  /** The first entry of the number, from k on, loses its timer. */
  function CancelFrom(h: seq<TimerRef>, id: nat, k: nat): (r: seq<TimerRef>)
    requires 1 <= k <= |h| + 1
    ensures |r| == |h|
    decreases |h| - k
  {
    if k == |h| + 1 then h
    else if At(h, k).id == id then Put(h, k, At(h, k).(live := false))
    else CancelFrom(h, id, k + 1)
  }

  /** Number zero is no timer's. */
  function Cancel(h: seq<TimerRef>, id: nat): (r: seq<TimerRef>)
    ensures |r| == |h|
  {
    if id == 0 then h else CancelFrom(h, id, 1)
  }

  /** What an entry is apart from its timer; the heap looks at nothing else. */
  function Bare(x: TimerRef): TimerRef { x.(live := true) }

  function Bares(h: seq<TimerRef>): (r: seq<TimerRef>)
    ensures |r| == |h| && forall i :: 0 <= i < |h| ==> r[i] == Bare(h[i])
  {
    seq(|h|, i requires 0 <= i < |h| => Bare(h[i]))
  }

  lemma BaresPut(h: seq<TimerRef>, k: nat, x: TimerRef)
    requires 1 <= k <= |h|
    ensures Bares(Put(h, k, x)) == Put(Bares(h), k, Bare(x)) && At(Bares(h), k) == Bare(At(h, k))
  {}

  lemma {:induction false} BaresSiftUp(h: seq<TimerRef>, i: nat, x: TimerRef)
    requires 1 <= i <= |h|
    ensures Bares(SiftUp(h, i, x)) == SiftUp(Bares(h), i, Bare(x))
    decreases i
  {
    BaresPut(h, i, x);
    if i > 1 {
      BaresPut(h, i / 2, x);
      BaresPut(h, i, At(h, i / 2));
      if At(h, i / 2).expire > x.expire { BaresSiftUp(Put(h, i, At(h, i / 2)), i / 2, x); }
    }
  }

  lemma BaresSmaller(h: seq<TimerRef>, i: nat)
    requires 1 <= i && 2 * i <= |h|
    ensures SmallerChild(Bares(h), i) == SmallerChild(h, i)
  {
    var x := TimerRef(0, 0, false);
    BaresPut(h, 2 * i, x);
    if 2 * i < |h| { BaresPut(h, 2 * i + 1, x); }
  }

  lemma {:induction false} BaresSiftDown(h: seq<TimerRef>, i: nat, x: TimerRef)
    requires 1 <= i <= |h|
    ensures Bares(SiftDown(h, i, x)) == SiftDown(Bares(h), i, Bare(x))
    decreases |h| - i
  {
    BaresPut(h, i, x);
    if 2 * i <= |h| {
      var c := SmallerChild(h, i);
      BaresSmaller(h, i);
      BaresPut(h, c, x);
      BaresPut(h, i, At(h, c));
      if x.expire > At(h, c).expire { BaresSiftDown(Put(h, i, At(h, c)), c, x); }
    }
  }

  lemma BaresInsert(h: seq<TimerRef>, x: TimerRef)
    ensures Bares(Insert(h, x)) == Insert(Bares(h), Bare(x))
  {
    BaresSiftUp(h + [x], |h| + 1, x);
    assert Bares(h + [x]) == Bares(h) + [Bare(x)];
  }

  lemma BaresPop(h: seq<TimerRef>)
    requires h != []
    ensures Bares(Pop(h)) == Pop(Bares(h))
  {
    if |h| > 1 {
      var front, last := h[..|h| - 1], h[|h| - 1];
      BaresSiftDown(front, 1, last);
      assert Bares(front) == Bares(h)[..|h| - 1];
    }
  }

  lemma {:induction false} BaresCancel(h: seq<TimerRef>, id: nat, k: nat)
    requires 1 <= k <= |h| + 1
    ensures Bares(CancelFrom(h, id, k)) == Bares(h)
    decreases |h| - k
  {
    if k <= |h| {
      if At(h, k).id == id {
        BaresPut(h, k, At(h, k).(live := false));
      } else {
        BaresCancel(h, id, k + 1);
      }
    }
  }

  lemma BaresOrdered(h: seq<TimerRef>)
    ensures Ordered(Bares(h)) <==> Ordered(h)
  {
    assert forall k :: 1 <= k <= |h| ==> At(Bares(h), k).expire == At(h, k).expire;
  }

  /** Cancelling gives no timer back: entries with a timer only become fewer. */
  lemma {:induction false} CancelBag(h: seq<TimerRef>, id: nat, k: nat, x: TimerRef)
    requires 1 <= k <= |h| + 1 && x.live
    ensures multiset(CancelFrom(h, id, k))[x] <= multiset(h)[x]
    decreases |h| - k
  {
    if k <= |h| {
      if At(h, k).id == id {
        PutBag(h, k, At(h, k).(live := false));
      } else {
        CancelBag(h, id, k + 1, x);
      }
    }
  }

  /** Cancelling takes the timer of the first entry with the number and of no other. */
  lemma {:induction false} CancelForm(h: seq<TimerRef>, id: nat, k: nat)
    requires 1 <= k <= |h| + 1
    ensures var r := CancelFrom(h, id, k);
            forall j :: 1 <= j <= |h| ==>
              At(r, j) == if j >= k && At(h, j).id == id && (forall i :: k <= i < j ==> At(h, i).id != id)
                          then At(h, j).(live := false) else At(h, j)
    decreases |h| - k
  {
    if k <= |h| && At(h, k).id != id { CancelForm(h, id, k + 1); }
  }

  // ---------- what a callback may do ----------

  datatype Act = Add(ref: TimerRef) | Drop(id: nat)

  function Apply(h: seq<TimerRef>, acts: seq<Act>): seq<TimerRef> {
    if acts == [] then h
    else
      var g := Apply(h, acts[..|acts| - 1]);
      match acts[|acts| - 1]
      case Add(x) => Insert(g, x)
      case Drop(id) => Cancel(g, id)
  }

  /** The entries added. */
  function Added(acts: seq<Act>): seq<TimerRef> {
    if acts == [] then []
    else Added(acts[..|acts| - 1]) + (if acts[|acts| - 1].Add? then [acts[|acts| - 1].ref] else [])
  }

  lemma {:induction false} BaresApply(h: seq<TimerRef>, acts: seq<Act>)
    ensures Bares(Apply(h, acts)) == InsertAll(Bares(h), Bares(Added(acts)))
  {
    hide Insert;
    hide CancelFrom;
    if acts != [] {
      var front, last := acts[..|acts| - 1], acts[|acts| - 1];
      var g := Apply(h, front);
      BaresApply(h, front);
      match last
      case Add(x) =>
        BaresInsert(g, x);
        assert Bares(Added(acts)) == Bares(Added(front)) + [Bare(x)];
        assert (Bares(Added(front)) + [Bare(x)])[..|Added(front)|] == Bares(Added(front));
      case Drop(id) =>
        BaresCancel(g, id, 1);
        assert Added(acts) == Added(front);
    }
  }

  lemma {:induction false} ApplyLive(h: seq<TimerRef>, acts: seq<Act>, x: TimerRef)
    requires x.live
    ensures multiset(Apply(h, acts))[x] <= multiset(h)[x] + multiset(Added(acts))[x]
  {
    hide Insert;
    hide CancelFrom;
    if acts != [] {
      var front, last := acts[..|acts| - 1], acts[|acts| - 1];
      var g := Apply(h, front);
      ApplyLive(h, front, x);
      match last
      case Add(y) => InsertBag(g, y);
      case Drop(id) => CancelBag(g, id, 1, x);
    }
  }

  predicate AddsNoneEarlier(acts: seq<Act>, tick: nat) { NoneEarlier(Bares(Added(acts)), tick) }

  /** No more entries with this timer are held or fired than there were or were added. */
  ghost predicate LiveBound(before: seq<TimerRef>, fired: seq<TimerRef>, added: seq<TimerRef>, h: seq<TimerRef>) {
    forall x: TimerRef :: x.live ==>
      multiset(h)[x] + multiset(fired)[x] <= multiset(before)[x] + multiset(added)[x]
  }

  /** The entry at the top keeps its place through a callback, and if it loses its timer there
      is one entry with that timer less. */
  lemma {:induction false} ApplyTop(h: seq<TimerRef>, acts: seq<Act>, x: TimerRef)
    requires h != [] && At(h, 1) == x && NoneEarlier(Bares(Added(acts)), x.expire)
    ensures var g := Apply(h, acts);
            && g != [] && Bare(At(g, 1)) == Bare(x)
            && (x.live && !At(g, 1).live ==> multiset(g)[x] < multiset(h)[x] + multiset(Added(acts))[x])
            && (!x.live ==> !At(g, 1).live)
  {
    if acts != [] {
      var front, last := acts[..|acts| - 1], acts[|acts| - 1];
      var g := Apply(h, front);
      AddedMore(acts);
      ApplyTop(h, front, x);
      match last
      case Add(y) =>
        InsertKeepsTop(g, y);
        InsertBag(g, y);
      case Drop(id) =>
        if x.live { CancelBag(g, id, 1, x); ApplyLive(h, front, x); }
        CancelTop(g, id);
    }
  }

  lemma AddedMore(acts: seq<Act>)
    requires acts != []
    ensures var front, last := acts[..|acts| - 1], acts[|acts| - 1];
            && Added(acts) == Added(front) + (if last.Add? then [last.ref] else [])
            && (forall e :: NoneEarlier(Bares(Added(acts)), e) ==> NoneEarlier(Bares(Added(front)), e))
            && (forall e :: last.Add? && NoneEarlier(Bares(Added(acts)), e) ==> last.ref.expire >= e)
  {
    var front, last := acts[..|acts| - 1], acts[|acts| - 1];
    var all, some := Bares(Added(acts)), Bares(Added(front));
    assert forall i :: 0 <= i < |some| ==> some[i] == all[i];
    if last.Add? { assert all[|all| - 1] == Bare(last.ref); }
  }

  lemma InsertKeepsTop(g: seq<TimerRef>, y: TimerRef)
    requires g != [] && y.expire >= At(g, 1).expire
    ensures Insert(g, y) != [] && At(Insert(g, y), 1) == At(g, 1)
  {
    assert At(g + [y], 1) == At(g, 1);
    SiftUpTop(g + [y], |g| + 1, y);
  }

  /** Cancelling changes the top only by taking its timer. */
  lemma CancelTop(g: seq<TimerRef>, id: nat)
    requires g != []
    ensures var r := Cancel(g, id); var x := At(g, 1);
            && r != [] && (At(r, 1) == x || At(r, 1) == x.(live := false))
            && (x.live && !At(r, 1).live ==> multiset(r)[x] < multiset(g)[x])
  {
    if id != 0 {
      var x := At(g, 1);
      if x.id == id {
        var dead := x.(live := false);
        PutBag(g, 1, dead);
        InBag(g, 1);
        assert Cancel(g, id) == Put(g, 1, dead);
        assert (multiset(g) - multiset{x} + multiset{dead})[x]
            == multiset(g)[x] - 1 + (if dead == x then 1 else 0);
      } else {
        CancelForm(g, id, 2);
        assert At(CancelFrom(g, id, 2), 1) == x;
      }
    }
  }

  lemma LiveStep(before: seq<TimerRef>, fired: seq<TimerRef>, added: seq<TimerRef>, h: seq<TimerRef>, acts: seq<Act>)
    requires LiveBound(before, fired, added, h) && h != [] && NoneEarlier(Bares(Added(acts)), At(h, 1).expire)
    ensures Apply(h, acts) != []
    ensures LiveBound(before, fired + [At(h, 1)], added + Added(acts), Pop(Apply(h, acts)))
  {
    var g, x := Apply(h, acts), At(h, 1);
    ApplyTop(h, acts, x);
    PopBag(g);
    InBag(g, 1);
    hide Pop;
    hide Apply;
    hide At;
    forall y: TimerRef | y.live
      ensures multiset(Pop(g))[y] + multiset(fired + [x])[y] <= multiset(before)[y] + multiset(added + Added(acts))[y]
    {
      ApplyLive(h, acts, y);
      assert multiset(fired + [x])[y] == multiset(fired)[y] + (if y == x then 1 else 0);
      assert multiset(added + Added(acts))[y] == multiset(added)[y] + multiset(Added(acts))[y];
      assert multiset(Pop(g))[y] == multiset(g)[y] - (if y == At(g, 1) then 1 else 0);
      assert y == x && At(g, 1).live ==> At(g, 1) == x;
    }
  }

  /** The state of the firing loop, without and with the timers. */
  ghost predicate Checks(before: seq<TimerRef>, tick: nat, fired: seq<TimerRef>, added: seq<TimerRef>,
                         h: seq<TimerRef>) {
    Fires(Bares(before), tick, Bares(fired), Bares(added), Bares(h)) && LiveBound(before, fired, added, h)
  }

  lemma ChecksStart(before: seq<TimerRef>, tick: nat)
    requires Ordered(before)
    ensures Checks(before, tick, [], [], before)
  {
    BaresOrdered(before);
    FiresStart(Bares(before), tick);
    assert Bares([]) == [];
  }

  lemma NoActs(tick: nat)
    ensures AddsNoneEarlier([], tick)
  {}

  lemma BaresConcat(a: seq<TimerRef>, b: seq<TimerRef>)
    ensures Bares(a + b) == Bares(a) + Bares(b)
  {}

  lemma BaresOne(x: TimerRef)
    ensures Bares([x]) == [Bare(x)]
  {}

  lemma BaresTop(h: seq<TimerRef>)
    requires h != []
    ensures Bares(h) != [] && At(Bares(h), 1) == Bare(At(h, 1))
  {}

  lemma {:induction false} ChecksStep(before: seq<TimerRef>, tick: nat, fired: seq<TimerRef>, added: seq<TimerRef>,
                                      h: seq<TimerRef>, acts: seq<Act>)
    requires Checks(before, tick, fired, added, h) && h != [] && At(h, 1).expire < tick && AddsNoneEarlier(acts, tick)
    ensures var g := Apply(h, acts);
            g != [] && Checks(before, tick, fired + [At(h, 1)], added + Added(acts), Pop(g))
  {
    hide LiveBound;
    hide Fires;
    hide Pop;
    hide Apply;
    hide InsertAll;
    hide Added;
    hide At;
    hide Bares;
    var g, x := Apply(h, acts), At(h, 1);
    BaresTop(h);
    BaresApply(h, acts);
    FireStep(Bares(before), tick, Bares(fired), Bares(added), Bares(h), Bares(Added(acts)));
    LaterStill(Bares(Added(acts)), tick, x.expire);
    LiveStep(before, fired, added, h, acts);
    BaresPop(g);
    BaresConcat(fired, [x]);
    BaresOne(x);
    BaresConcat(added, Added(acts));
  }

  lemma LaterStill(xs: seq<TimerRef>, tick: nat, expire: nat)
    requires NoneEarlier(xs, tick) && expire < tick
    ensures NoneEarlier(xs, expire)
  {}

  lemma ChecksBound(before: seq<TimerRef>, tick: nat, fired: seq<TimerRef>, added: seq<TimerRef>, h: seq<TimerRef>)
    requires Checks(before, tick, fired, added, h)
    ensures |fired| <= |before|
  {
    FiresBound(Bares(before), tick, Bares(fired), Bares(added), Bares(h));
  }

  lemma ChecksEnd(before: seq<TimerRef>, tick: nat, fired: seq<TimerRef>, added: seq<TimerRef>, h: seq<TimerRef>)
    requires Checks(before, tick, fired, added, h) && (h == [] || At(h, 1).expire >= tick)
    ensures Ordered(h) && Sorted(Bares(fired)) && LiveBound(before, fired, added, h)
    ensures ExactlyDue(multiset(Bares(fired)), multiset(Bares(before)), tick)
    ensures ExactlyLater(multiset(Bares(h)), multiset(Bares(before)), multiset(Bares(added)), tick)
  {
    if h != [] { BaresPut(h, 1, At(h, 1)); }
    FiresEnd(Bares(before), tick, Bares(fired), Bares(added), Bares(h));
    BaresOrdered(h);
  }

  // ---------- the loop as a function ----------

  /** What the k-th callback does, given the entry it fires for. */
  type Callback = (nat, TimerRef) -> seq<Act>

  /** New timers start from the current time, which is not before the tick. */
  ghost predicate LaterOnly(callback: Callback, tick: nat) {
    forall k, x :: AddsNoneEarlier(callback(k, x), tick)
  }

  /** An entry that has lost its timer runs no callback. */
  function ActsOf(callback: Callback, k: nat, x: TimerRef): seq<Act> { if x.live then callback(k, x) else [] }

  lemma ActsLater(callback: Callback, tick: nat, k: nat, x: TimerRef)
    requires LaterOnly(callback, tick)
    ensures AddsNoneEarlier(ActsOf(callback, k, x), tick)
  {
    NoActs(tick);
  }

  datatype Firing = Firing(fired: seq<TimerRef>, added: seq<TimerRef>, heap: seq<TimerRef>)

  /** While the top is due its callback acts on the heap and the top is then taken off. */
  function Fire(h: seq<TimerRef>, tick: nat, callback: Callback, k: nat, budget: nat): Firing
    decreases budget
  {
    if h == [] || At(h, 1).expire >= tick || budget == 0 then Firing([], [], h)
    else
      var x := At(h, 1);
      var acts := ActsOf(callback, k, x);
      var g := Apply(h, acts);
      if g == [] then Firing([x], Added(acts), g)
      else
        var r := Fire(Pop(g), tick, callback, k + 1, budget - 1);
        Firing([x] + r.fired, Added(acts) + r.added, r.heap)
  }

  function Before(fired: seq<TimerRef>, added: seq<TimerRef>, r: Firing): Firing {
    Firing(fired + r.fired, added + r.added, r.heap)
  }

  lemma FiringNothing(r: Firing)
    ensures Before([], [], r) == r
  {
    assert [] + r.fired == r.fired && [] + r.added == r.added;
  }

  lemma BeforeMore(fired: seq<TimerRef>, added: seq<TimerRef>, x: TimerRef, more: seq<TimerRef>, r: Firing)
    ensures Before(fired, added, Before([x], more, r)) == Before(fired + [x], added + more, r)
  {
    assert fired + ([x] + r.fired) == fired + [x] + r.fired;
    assert added + (more + r.added) == added + more + r.added;
  }

  lemma FireOneMore(h: seq<TimerRef>, tick: nat, callback: Callback, k: nat, budget: nat)
    requires h != [] && At(h, 1).expire < tick && budget > 0
    ensures var x := At(h, 1); var acts := ActsOf(callback, k, x); var g := Apply(h, acts);
            g != [] ==>
              Fire(h, tick, callback, k, budget)
              == Before([x], Added(acts), Fire(Pop(g), tick, callback, k + 1, budget - 1))
  {}

  lemma FireNoMore(h: seq<TimerRef>, tick: nat, callback: Callback, k: nat, budget: nat)
    requires h == [] || At(h, 1).expire >= tick
    ensures Fire(h, tick, callback, k, budget) == Firing([], [], h)
  {}

  /** The loop has fired so many, and what it will still do completes what it does in all. */
  ghost predicate InLoop(h0: seq<TimerRef>, tick: nat, callback: Callback,
                         fired: seq<TimerRef>, added: seq<TimerRef>, h: seq<TimerRef>) {
    && LaterOnly(callback, tick) && Checks(h0, tick, fired, added, h) && |fired| <= |h0|
    && Before(fired, added, Fire(h, tick, callback, |fired|, |h0| - |fired|)) == Fire(h0, tick, callback, 0, |h0|)
  }

  lemma LoopStart(h0: seq<TimerRef>, tick: nat, callback: Callback)
    requires Ordered(h0) && LaterOnly(callback, tick)
    ensures InLoop(h0, tick, callback, [], [], h0)
  {
    hide Fire;
    hide Checks;
    ChecksStart(h0, tick);
    FiringNothing(Fire(h0, tick, callback, 0, |h0|));
  }

  lemma LoopStep(h0: seq<TimerRef>, tick: nat, callback: Callback,
                 fired: seq<TimerRef>, added: seq<TimerRef>, h: seq<TimerRef>)
    requires InLoop(h0, tick, callback, fired, added, h) && h != [] && At(h, 1).expire < tick
    ensures var x := At(h, 1); var acts := ActsOf(callback, |fired|, x); var g := Apply(h, acts);
            && g != [] && |fired| < |h0|
            && InLoop(h0, tick, callback, fired + [x], added + Added(acts), Pop(g))
  {
    hide Checks;
    hide Pop;
    hide Apply;
    hide Added;
    hide At;
    hide Fire;
    var x := At(h, 1);
    var acts := ActsOf(callback, |fired|, x);
    ActsLater(callback, tick, |fired|, x);
    ChecksStep(h0, tick, fired, added, h, acts);
    var g := Apply(h, acts);
    ChecksBound(h0, tick, fired + [x], added + Added(acts), Pop(g));
    FireOneMore(h, tick, callback, |fired|, |h0| - |fired|);
    BeforeMore(fired, added, x, Added(acts), Fire(Pop(g), tick, callback, |fired| + 1, |h0| - |fired| - 1));
  }

  lemma LoopEnd(h0: seq<TimerRef>, tick: nat, callback: Callback,
                fired: seq<TimerRef>, added: seq<TimerRef>, h: seq<TimerRef>)
    requires InLoop(h0, tick, callback, fired, added, h) && (h == [] || At(h, 1).expire >= tick)
    ensures Firing(fired, added, h) == Fire(h0, tick, callback, 0, |h0|)
  {
    hide Fire;
    hide Checks;
    hide LaterOnly;
    FireNoMore(h, tick, callback, |fired|, |h0| - |fired|);
    assert fired + [] == fired && added + [] == added;
  }

  /** The budget of one pass for each entry is never used up, and the loop keeps its state. */
  lemma {:induction false} FireChecks(h0: seq<TimerRef>, tick: nat, callback: Callback,
                                      fired: seq<TimerRef>, added: seq<TimerRef>, h: seq<TimerRef>)
    requires LaterOnly(callback, tick) && Checks(h0, tick, fired, added, h) && |fired| <= |h0|
    ensures var r := Fire(h, tick, callback, |fired|, |h0| - |fired|);
            && Checks(h0, tick, fired + r.fired, added + r.added, r.heap)
            && (r.heap == [] || At(r.heap, 1).expire >= tick)
    decreases |h0| - |fired|
  {
    hide Checks;
    hide Pop;
    hide Apply;
    hide Added;
    hide At;
    hide Fire;
    if h == [] || At(h, 1).expire >= tick {
      FireNoMore(h, tick, callback, |fired|, |h0| - |fired|);
      assert fired + [] == fired && added + [] == added;
    } else {
      var x := At(h, 1);
      var acts := ActsOf(callback, |fired|, x);
      ActsLater(callback, tick, |fired|, x);
      ChecksStep(h0, tick, fired, added, h, acts);
      var g := Apply(h, acts);
      ChecksBound(h0, tick, fired + [x], added + Added(acts), Pop(g));
      FireOneMore(h, tick, callback, |fired|, |h0| - |fired|);
      var r := Fire(Pop(g), tick, callback, |fired| + 1, |h0| - |fired| - 1);
      FireChecks(h0, tick, callback, fired + [x], added + Added(acts), Pop(g));
      BeforeMore(fired, added, x, Added(acts), r);
    }
  }

  /** What the loop does, whatever its callbacks add for later and cancel: the entries taken
      off are exactly those due, in order; the others and the added stay; and there are no more
      entries with a timer, fired and held, than there were and were added. */
  lemma FireForm(h: seq<TimerRef>, tick: nat, callback: Callback)
    requires Ordered(h) && LaterOnly(callback, tick)
    ensures var r := Fire(h, tick, callback, 0, |h|);
            && Ordered(r.heap) && Sorted(Bares(r.fired))
            && ExactlyDue(multiset(Bares(r.fired)), multiset(Bares(h)), tick)
            && ExactlyLater(multiset(Bares(r.heap)), multiset(Bares(h)), multiset(Bares(r.added)), tick)
            && LiveBound(h, r.fired, r.added, r.heap)
  {
    hide Checks;
    hide Fire;
    hide At;
    hide LaterOnly;
    hide Ordered;
    hide Sorted;
    hide ExactlyDue;
    hide ExactlyLater;
    hide LiveBound;
    hide Bares;
    ChecksStart(h, tick);
    FireChecks(h, tick, callback, [], [], h);
    var r := Fire(h, tick, callback, 0, |h|);
    assert [] + r.fired == r.fired && [] + r.added == r.added;
    ChecksEnd(h, tick, r.fired, r.added, r.heap);
  }

  // ---------- whose callbacks run ----------

  /** What a callback does for an entry that has lost its timer plays no part. */
  lemma {:induction false} OnlyLiveCallbacks(h: seq<TimerRef>, tick: nat, one: Callback, other: Callback,
                                             k: nat, budget: nat)
    requires forall j: nat, x: TimerRef :: x.live ==> one(j, x) == other(j, x)
    ensures Fire(h, tick, one, k, budget) == Fire(h, tick, other, k, budget)
    decreases budget
  {
    hide Apply;
    hide Pop;
    hide At;
    hide Added;
    if h != [] && At(h, 1).expire < tick && budget > 0 {
      var g := Apply(h, ActsOf(one, k, At(h, 1)));
      if g != [] { OnlyLiveCallbacks(Pop(g), tick, one, other, k + 1, budget - 1); }
    }
  }

  /** What the callbacks of the entries that have a timer add, in the order of firing. */
  function LiveAdds(fired: seq<TimerRef>, callback: Callback, k: nat): seq<TimerRef> {
    if fired == [] then []
    else (if fired[0].live then Added(callback(k, fired[0])) else []) + LiveAdds(fired[1..], callback, k + 1)
  }

  /** The callback of every entry fired with a timer runs once, and no other does. */
  lemma {:induction false} AddedByLive(h: seq<TimerRef>, tick: nat, callback: Callback, k: nat, budget: nat)
    ensures var r := Fire(h, tick, callback, k, budget); r.added == LiveAdds(r.fired, callback, k)
    decreases budget
  {
    hide Apply;
    hide Pop;
    hide At;
    hide Added;
    if h != [] && At(h, 1).expire < tick && budget > 0 {
      var x := At(h, 1);
      AddedNone();
      var g := Apply(h, ActsOf(callback, k, x));
      if g != [] {
        var r := Fire(Pop(g), tick, callback, k + 1, budget - 1);
        AddedByLive(Pop(g), tick, callback, k + 1, budget - 1);
        assert ([x] + r.fired)[1..] == r.fired;
      } else {
        assert [x][1..] == [];
      }
    }
  }

  lemma AddedNone()
    ensures Added([]) == []
  {}

  // ---------- cancelled timers ----------

  /** No entry of the number has a timer. */
  predicate Dead(h: seq<TimerRef>, id: nat) { forall x <- h :: x.id == id ==> !x.live }

  predicate AddsNot(acts: seq<Act>, id: nat) { forall a <- acts :: a.Add? ==> a.ref.id != id }

  predicate AtMostOne(h: seq<TimerRef>, id: nat) {
    forall i, j :: 0 <= i < j < |h| ==> h[i].id != id || h[j].id != id
  }

  lemma DeadInsert(h: seq<TimerRef>, y: TimerRef, id: nat)
    requires Dead(h, id) && y.id != id
    ensures Dead(Insert(h, y), id)
  {
    InsertBag(h, y);
    forall x | x in Insert(h, y) ensures x.id == id ==> !x.live {
      assert x in multiset(Insert(h, y));
      assert x in multiset(h) || x == y;
    }
  }

  lemma DeadPop(h: seq<TimerRef>, id: nat)
    requires h != [] && Dead(h, id)
    ensures Dead(Pop(h), id)
  {
    PopBag(h);
    forall x | x in Pop(h) ensures x.id == id ==> !x.live {
      assert x in multiset(Pop(h));
      assert x in multiset(h);
    }
  }

  lemma DeadCancel(h: seq<TimerRef>, n: nat, id: nat)
    requires Dead(h, id)
    ensures Dead(Cancel(h, n), id)
  {
    if n != 0 {
      CancelForm(h, n, 1);
      forall x | x in Cancel(h, n) ensures x.id == id ==> !x.live {
        var k :| 0 <= k < |h| && Cancel(h, n)[k] == x;
        assert At(Cancel(h, n), k + 1) == x && At(h, k + 1) in h;
      }
    }
  }

  lemma {:induction false} DeadApply(h: seq<TimerRef>, acts: seq<Act>, id: nat)
    requires Dead(h, id) && AddsNot(acts, id)
    ensures Dead(Apply(h, acts), id)
  {
    if acts != [] {
      var front, last := acts[..|acts| - 1], acts[|acts| - 1];
      assert last in acts && forall a <- front :: a in acts;
      hide Dead;
      hide Insert;
      hide Cancel;
      DeadApply(h, front, id);
      match last
      case Add(y) => DeadInsert(Apply(h, front), y, id);
      case Drop(n) => DeadCancel(Apply(h, front), n, id);
    }
  }

  /** Where a number is on one entry only, cancelling it leaves no timer of that number. */
  lemma DropKills(h: seq<TimerRef>, id: nat)
    requires id != 0 && AtMostOne(h, id)
    ensures Dead(Cancel(h, id), id)
  {
    CancelForm(h, id, 1);
    forall x | x in Cancel(h, id) && x.id == id ensures !x.live {
      var k :| 0 <= k < |h| && Cancel(h, id)[k] == x;
      assert At(Cancel(h, id), k + 1) == x;
      assert forall i :: 1 <= i < k + 1 ==> At(h, i) == h[i - 1];
      assert At(h, k + 1) == h[k];
    }
  }

  lemma {:induction false} ApplyConcat(h: seq<TimerRef>, a: seq<Act>, b: seq<Act>)
    ensures Apply(h, a + b) == Apply(Apply(h, a), b)
  {
    hide Insert;
    hide Cancel;
    if b == [] {
      assert a + b == a;
    } else {
      assert (a + b)[..|a + b| - 1] == a + b[..|b| - 1];
      ApplyConcat(h, a, b[..|b| - 1]);
    }
  }

  /** The i-th act of a callback cancels, and none after it adds the number again. */
  lemma DropInActs(h: seq<TimerRef>, acts: seq<Act>, i: nat, id: nat)
    requires i < |acts| && acts[i] == Drop(id) && id != 0
    requires AtMostOne(Apply(h, acts[..i]), id) && AddsNot(acts[i + 1..], id)
    ensures Dead(Apply(h, acts), id)
  {
    assert acts[..i + 1][..i] == acts[..i];
    assert Apply(h, acts[..i + 1]) == Cancel(Apply(h, acts[..i]), id);
    hide Apply;
    hide Dead;
    hide Cancel;
    DropKills(Apply(h, acts[..i]), id);
    DeadApply(Apply(h, acts[..i + 1]), acts[i + 1..], id);
    ApplyConcat(h, acts[..i + 1], acts[i + 1..]);
    assert acts == acts[..i + 1] + acts[i + 1..];
  }

  ghost predicate NeverAdds(callback: Callback, from: nat, id: nat) {
    forall k: nat, x :: k >= from ==> AddsNot(callback(k, x), id)
  }

  /** What has lost its timer stays so for as long as the number is not added again. */
  lemma {:induction false} DeadNeverRuns(h: seq<TimerRef>, tick: nat, callback: Callback, k: nat, budget: nat, id: nat)
    requires Dead(h, id) && NeverAdds(callback, k, id)
    ensures Dead(Fire(h, tick, callback, k, budget).fired, id)
    decreases budget
  {
    if h != [] && At(h, 1).expire < tick && budget > 0 {
      var x := At(h, 1);
      assert x in h;
      var acts := ActsOf(callback, k, x);
      var g := Apply(h, acts);
      DeadApply(h, acts, id);
      if g != [] {
        DeadPop(g, id);
        DeadNeverRuns(Pop(g), tick, callback, k + 1, budget - 1, id);
        assert forall y <- Fire(h, tick, callback, k, budget).fired ::
            y == x || y in Fire(Pop(g), tick, callback, k + 1, budget - 1).fired;
      }
    }
  }

  /** The heap when the first firing is over. */
  function Next(h: seq<TimerRef>, callback: Callback, k: nat): seq<TimerRef>
    requires h != []
  {
    var g := Apply(h, ActsOf(callback, k, At(h, 1)));
    if g == [] then [] else Pop(g)
  }

  lemma FiredFirst(h: seq<TimerRef>, tick: nat, callback: Callback, k: nat, budget: nat)
    requires Fire(h, tick, callback, k, budget).fired != []
    ensures h != [] && budget > 0
    ensures Fire(h, tick, callback, k, budget).fired
         == [At(h, 1)] + Fire(Next(h, callback, k), tick, callback, k + 1, budget - 1).fired
  {}

  /** The heap before the i-th firing. */
  function HeapAt(h: seq<TimerRef>, tick: nat, callback: Callback, k: nat, budget: nat, i: nat): seq<TimerRef>
    requires i < |Fire(h, tick, callback, k, budget).fired|
    decreases i
  {
    if i == 0 then h
    else
      FiredFirst(h, tick, callback, k, budget);
      HeapAt(Next(h, callback, k), tick, callback, k + 1, budget - 1, i - 1)
  }

  /** A timer that a callback cancels does not run later in the same tick: its number being on
      one entry only when its turn to be cancelled comes, and not given out again, no entry of
      that number fired after it has a timer. */
  lemma {:induction false} CancelledNeverRuns(h: seq<TimerRef>, tick: nat, callback: Callback, k: nat, budget: nat,
                                              i: nat, j: nat, a: nat, id: nat)
    requires var fired := Fire(h, tick, callback, k, budget).fired;
             && i < j < |fired| && fired[i].live
             && var acts := callback(k + i, fired[i]);
             && a < |acts| && acts[a] == Drop(id) && id != 0
             && AtMostOne(Apply(HeapAt(h, tick, callback, k, budget, i), acts[..a]), id)
             && AddsNot(acts[a + 1..], id)
    requires NeverAdds(callback, k + i + 1, id)
    ensures var x := Fire(h, tick, callback, k, budget).fired[j]; x.id == id ==> !x.live
    decreases i
  {
    hide Fire;
    hide Next;
    hide At;
    hide AtMostOne;
    FiredFirst(h, tick, callback, k, budget);
    var x, n := At(h, 1), Next(h, callback, k);
    var r := Fire(n, tick, callback, k + 1, budget - 1);
    if i == 0 {
      DropThenNext(h, callback, k, a, id);
      DeadNeverRuns(n, tick, callback, k + 1, budget - 1, id);
      assert ([x] + r.fired)[j] == r.fired[j - 1] && r.fired[j - 1] in r.fired;
    } else {
      CancelledNeverRuns(n, tick, callback, k + 1, budget - 1, i - 1, j - 1, a, id);
    }
  }

  lemma DropThenNext(h: seq<TimerRef>, callback: Callback, k: nat, a: nat, id: nat)
    requires h != [] && At(h, 1).live
    requires var acts := callback(k, At(h, 1));
             && a < |acts| && acts[a] == Drop(id) && id != 0
             && AtMostOne(Apply(h, acts[..a]), id) && AddsNot(acts[a + 1..], id)
    ensures Dead(Next(h, callback, k), id)
  {
    hide Dead;
    hide Apply;
    hide Pop;
    hide AtMostOne;
    var acts := callback(k, At(h, 1));
    DropInActs(h, acts, a, id);
    if Apply(h, acts) != [] { DeadPop(Apply(h, acts), id); } else { DeadNothing(id); }
  }

  lemma DeadNothing(id: nat)
    ensures Dead([], id)
  {}

  ghost predicate NeverDrops(callback: Callback) { forall k, x, a :: a in callback(k, x) ==> a.Add? }

  lemma {:induction false} AddsExactly(h: seq<TimerRef>, acts: seq<Act>)
    requires forall a <- acts :: a.Add?
    ensures multiset(Apply(h, acts)) == multiset(h) + multiset(Added(acts))
  {
    hide Insert;
    if acts != [] {
      var front, last := acts[..|acts| - 1], acts[|acts| - 1];
      assert last in acts && forall a <- front :: a in acts;
      AddsExactly(h, front);
      InsertBag(Apply(h, front), last.ref);
      assert multiset(Added(acts)) == multiset(Added(front)) + multiset{last.ref};
    }
  }

  lemma {:induction false} AddsKeepTop(h: seq<TimerRef>, acts: seq<Act>)
    requires h != [] && (forall a <- acts :: a.Add?) && NoneEarlier(Bares(Added(acts)), At(h, 1).expire)
    ensures Apply(h, acts) != [] && At(Apply(h, acts), 1) == At(h, 1)
  {
    if acts != [] {
      hide Insert;
      var front, last := acts[..|acts| - 1], acts[|acts| - 1];
      assert last in acts && forall a <- front :: a in acts;
      AddedMore(acts);
      AddsKeepTop(h, front);
      InsertKeepsTop(Apply(h, front), last.ref);
    }
  }

  lemma ConserveStep(h: Bag, more: Bag, g: Bag, x: TimerRef, added: Bag, heap: Bag, fired: Bag)
    requires g == h + more && x in g && g - multiset{x} + added == heap + fired
    ensures h + (more + added) == heap + (multiset{x} + fired)
  {
    var one := multiset{x};
    forall e ensures (h + (more + added))[e] == (heap + (one + fired))[e] {
      assert (g - one + added)[e] == (heap + fired)[e];
      assert (g - one)[e] == g[e] - one[e];
    }
  }

  /** With callbacks that cancel nothing, entries and timers alike are conserved: every timer
      due runs. */
  lemma {:induction false} NoDropsConserve(h: seq<TimerRef>, tick: nat, callback: Callback, k: nat, budget: nat)
    requires NeverDrops(callback) && LaterOnly(callback, tick)
    ensures var r := Fire(h, tick, callback, k, budget);
            multiset(h) + multiset(r.added) == multiset(r.heap) + multiset(r.fired)
    decreases budget
  {
    if h != [] && At(h, 1).expire < tick && budget > 0 {
      hide Pop;
      hide Apply;
      hide Added;
      hide Bares;
      var x := At(h, 1);
      var acts := ActsOf(callback, k, x);
      ActsLater(callback, tick, k, x);
      LaterStill(Bares(Added(acts)), tick, x.expire);
      AddsExactly(h, acts);
      AddsKeepTop(h, acts);
      var g := Apply(h, acts);
      InBag(g, 1);
      PopBag(g);
      FireOneMore(h, tick, callback, k, budget);
      NoDropsConserve(Pop(g), tick, callback, k + 1, budget - 1);
      var r := Fire(Pop(g), tick, callback, k + 1, budget - 1);
      ConserveStep(multiset(h), multiset(Added(acts)), multiset(g), x,
                   multiset(r.added), multiset(r.heap), multiset(r.fired));
      assert multiset([x] + r.fired) == multiset{x} + multiset(r.fired);
      assert multiset(Added(acts) + r.added) == multiset(Added(acts)) + multiset(r.added);
    }
  }

  // ---------- the array ----------

  lemma SiftUpHole(h: seq<TimerRef>, i: nat, x: TimerRef, y: TimerRef)
    requires 1 <= i <= |h|
    ensures SiftUp(Put(h, i, y), i, x) == SiftUp(h, i, x)
  {
    if i > 1 { assert Put(Put(h, i, y), i, At(h, i / 2)) == Put(h, i, At(h, i / 2)); }
    assert Put(Put(h, i, y), i, x) == Put(h, i, x);
  }

  method SiftUpInPlace(a: array<TimerRef>, n: nat, x: TimerRef)
    requires 1 <= n < a.Length
    modifies a
    ensures a[1..n + 1] == SiftUp(old(a[1..n + 1]), n, x)
  {
    var i := n;
    while i > 1 && a[i / 2].expire > x.expire
      invariant 1 <= i <= n
      invariant SiftUp(a[1..n + 1], i, x) == SiftUp(old(a[1..n + 1]), n, x)
    {
      ghost var before := a[1..n + 1];
      a[i] := a[i / 2];
      assert a[1..n + 1] == Put(before, i, At(before, i / 2));
      i := i / 2;
    }
    ghost var before := a[1..n + 1];
    a[i] := x;
    assert a[1..n + 1] == Put(before, i, x);
  }

  /** Sinks the element after the n-th, which stays where it is, from the top. */
  method SiftDownInPlace(a: array<TimerRef>, n: nat)
    requires 1 <= n && n + 1 < a.Length
    modifies a
    ensures a[1..n + 1] == SiftDown(old(a[1..n + 1]), 1, old(a[n + 1]))
  {
    var i: nat := 1;
    ghost var goal := SiftDown(a[1..n + 1], 1, a[n + 1]);
    ghost var x := a[n + 1];
    hide Ordered;
    while i * 2 <= n
      invariant 1 <= i <= n && a[n + 1] == x
      invariant SiftDown(a[1..n + 1], i, x) == goal
    {
      ghost var before := a[1..n + 1];
      var child := 2 * i;
      if child != n && a[child + 1].expire < a[child].expire { child := child + 1; }
      assert child == SmallerChild(before, i);
      assert At(before, child) == a[child];
      if !(a[n + 1].expire > a[child].expire) { break; }
      a[i] := a[child];
      assert a[1..n + 1] == Put(before, i, At(before, child));
      i := child;
    }
    ghost var before := a[1..n + 1];
    assert SiftDown(before, i, x) == Put(before, i, x);
    a[i] := a[n + 1];
    assert a[1..n + 1] == Put(before, i, x);
  }

  method CopyCells(from: array<TimerRef>, to: array<TimerRef>, n: nat)
    requires n <= from.Length && n <= to.Length && from != to
    modifies to
    ensures to[..n] == from[..n]
  {
    for k := 0 to n
      invariant to[..k] == from[..k]
    {
      to[k] := from[k];
    }
  }

  class Heap {
    /** Grows by one at a time, so it lags behind the allocated length. */
    var size: nat
    var n: nat
    var top: array<TimerRef>

    ghost predicate Valid()
      reads this
    {
      n <= size <= top.Length && (top.Length > 0 ==> n < top.Length)
    }

    ghost function Live(): seq<TimerRef>
      reads this, top
      requires Valid()
    {
      if n == 0 then [] else top[1..n + 1]
    }

    constructor ()
      ensures Valid() && Live() == [] && fresh(top)
    {
      size, n := 0, 0;
      top := new TimerRef[0];
    }

    /** Room for one more. The copy reads as many cells as there will be live ones. */
    method Grow()
      requires Valid()
      modifies this
      ensures 1 <= n == old(n) + 1 && n <= size <= top.Length && n < top.Length
      ensures top == old(top) || fresh(top)
      ensures top[1..n] == old(Live())
    {
      n := n + 1;
      if n >= size {
        var newTop := new TimerRef[n + 1](_ => TimerRef(0, 0, false));
        if top.Length > 0 {
          CopyCells(top, newTop, n);
          assert newTop[1..n] == newTop[..n][1..] == top[..n][1..] == top[1..n];
        }
        top := newTop;
        size := size + 1;
      }
    }

    method InsertRef(x: TimerRef)
      requires Valid()
      modifies this, top
      ensures Valid() && (top == old(top) || fresh(top))
      ensures Live() == Insert(old(Live()), x)
    {
      ghost var h := Live();
      Grow();
      if n == 1 {
        top[1] := x;
        return;
      }
      SiftUpHole(h + [x], n, x, top[n]);
      assert top[1..n + 1] == Put(h + [x], n, top[n]);
      SiftUpInPlace(top, n, x);
    }

    method Peek() returns (ok: bool, first: TimerRef)
      requires Valid()
      modifies this`n, top
      ensures Valid()
      ensures ok <==> old(Live()) != []
      ensures !ok ==> Live() == []
      ensures ok ==> first == At(old(Live()), 1) && Live() == Pop(old(Live()))
    {
      ok, first := n > 0, TimerRef(0, 0, false);
      if !ok { return; }
      ghost var h := Live();
      first := top[1];
      n := n - 1;
      if n > 0 {
        assert top[1..n + 1] == h[..|h| - 1];
        SiftDownInPlace(top, n);
      }
    }

    method First() returns (ok: bool, ref: TimerRef)
      requires Valid()
      ensures ok <==> Live() != []
      ensures ok ==> ref == At(Live(), 1)
    {
      ok, ref := n > 0, TimerRef(0, 0, false);
      if ok { ref := top[1]; }
    }

    method CancelRef(id: nat)
      requires Valid()
      modifies top
      ensures Valid() && Live() == Cancel(old(Live()), id)
    {
      if id == 0 { return; }
      var i := 1;
      while i <= n
        invariant 1 <= i <= n + 1 && Valid() && Live() == old(Live())
        invariant CancelFrom(Live(), id, i) == CancelFrom(old(Live()), id, 1)
      {
        if top[i].id == id {
          ghost var h := Live();
          top[i] := top[i].(live := false);
          assert Live() == Put(h, i, At(h, i).(live := false));
          return;
        }
        i := i + 1;
      }
    }

    method ApplyActs(acts: seq<Act>)
      requires Valid()
      modifies this, top
      ensures Valid() && (top == old(top) || fresh(top))
      ensures Live() == Apply(old(Live()), acts)
    {
      hide Insert;
      hide CancelFrom;
      for k := 0 to |acts|
        invariant Valid() && (top == old(top) || fresh(top))
        invariant Live() == Apply(old(Live()), acts[..k])
      {
        match acts[k] {
          case Add(x) => InsertRef(x);
          case Drop(id) => CancelRef(id);
        }
        assert acts[..k + 1][..k] == acts[..k];
      }
      assert acts[..|acts|] == acts;
    }

    /** The loop that fires what is due: `fired` are the entries as they stand when their turn
        comes, `added` what the callbacks added. The original has no bound; under its clock none
        is needed. */
    method CheckTimers(tick: nat, callback: Callback) returns (fired: seq<TimerRef>, ghost added: seq<TimerRef>)
      requires Valid() && Ordered(Live()) && LaterOnly(callback, tick)
      modifies this, top
      ensures Valid()
      ensures Firing(fired, added, Live()) == Fire(old(Live()), tick, callback, 0, |old(Live())|)
    {
      hide InLoop;
      hide Pop;
      hide Apply;
      hide Added;
      hide At;
      hide Fire;
      fired, added := [], [];
      ghost var h0 := Live();
      LoopStart(h0, tick, callback);
      var due, ref := First();
      while due && ref.expire < tick
        invariant Valid() && (top == old(top) || fresh(top))
        invariant InLoop(h0, tick, callback, fired, added, Live()) && |fired| <= |h0|
        invariant (due <==> Live() != []) && (due ==> ref == At(Live(), 1))
        decreases |h0| - |fired|
      {
        var acts := [];
        if ref.live { acts := callback(|fired|, ref); }
        LoopStep(h0, tick, callback, fired, added, Live());
        ApplyActs(acts);
        var _, _ := Peek();
        fired, added := fired + [ref], added + Added(acts);
        due, ref := First();
      }
      LoopEnd(h0, tick, callback, fired, added, Live());
    }
  }
}
