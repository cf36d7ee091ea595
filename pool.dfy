/** The slot-pool state machine of fastpub, as values. Each function is one
    operation that runs under the header mutex; FastPub.Segment performs the
    same steps in place and is proved to match these functions. */
module SlotPool {
  import opened Word
  import opened Layout
  import opened Counting

  /** The metadata that fastpub's operations rearrange: each slot's refcount
      and free-list link, the header words next, current and slack, and the
      header word buffer_size at offset 0. Until the first publish, `current`
      designates offset 0, so buffer_size is the word it counts on. */
  datatype Pool = Pool(
    refcount: seq<nat>,
    link: seq<Ref>,
    next: Ref,
    current: Ref,
    slack: Ref,
    sizeWord: nat)

  /** The reference a list of slot indices starts with; offset 0 for none. */
  function HeadOf(s: seq<nat>): Ref
  {
    if s == [] then Header else Slot(s[0])
  }

  /** The reference that follows the `k`th slot of a list; offset 0 after
      the last. */
  function LinkAfter(s: seq<nat>, k: nat): Ref
  {
    if k + 1 < |s| then Slot(s[k + 1]) else Header
  }

  /** `slack` and the links thread exactly the slots of `free`, in order,
      each once, and the last link is offset 0. */
  predicate Threads(p: Pool, free: seq<nat>)
  {
    && NoDup(free)
    && (forall k :: 0 <= k < |free| ==> free[k] < |p.link|)
    && p.slack == HeadOf(free)
    && (forall k {:trigger p.link[free[k]]} :: 0 <= k < |free| ==> p.link[free[k]] == LinkAfter(free, k))
  }

  /** The pool invariant, stated with the ghost bookkeeping `free` (the free
      list, head first) and `held` (the references subscribers hold on each
      slot). A slot's refcount counts its subscribers plus one for the
      `current` role, and a slot is on the free list exactly when its
      refcount is zero and it is not `next`. */
  predicate Inv(g: Geometry, p: Pool, free: seq<nat>, held: seq<nat>)
  {
    && ValidGeometry(g)
    && |p.refcount| == SlotCount(g)
    && |p.link| == SlotCount(g)
    && |held| == SlotCount(g)
    && p.sizeWord < LIMIT
    && Threads(p, free)
    && p.next.Slot? && p.next.index < SlotCount(g) && p.refcount[p.next.index] == 0
    && (p.current.Slot? ==> p.current.index < SlotCount(g) && p.current != p.next)
    && (forall i :: 0 <= i < SlotCount(g) ==> p.refcount[i] < LIMIT)
    && (forall i :: 0 <= i < SlotCount(g) ==>
          p.refcount[i] == held[i] + if p.current == Slot(i) then 1 else 0)
    && (forall i :: 0 <= i < SlotCount(g) ==>
          (i in free <==> p.refcount[i] == 0 && p.next != Slot(i)))
  }

  /** The word at offset 0 is buffer_size, moved by every header-relative
      reference subscribers still hold (taken by fastpub_current before the
      first publish) and, once `current` is a slot, by the first publish's
      decrement. */
  predicate HeaderCount(g: Geometry, p: Pool, headerHeld: nat)
  {
    p.sizeWord == (g.bufferSize + headerHeld - if p.current.Slot? then 1 else 0) % LIMIT
  }

  // ---------------------------------------------------------------- layout

  /** `n` zero words. */
  function Zeros(n: nat): seq<nat>
  {
    seq(n, _ => 0)
  }

  function InitialLinks(n: nat): seq<Ref>
  {
    seq(n, j => if 1 <= j && j + 1 < n then Slot(j + 1) else Header)
  }

  /** fastpub_pubopen's layout on a zero-filled object: slot 0 is `next`,
      `current` stays at offset 0, every other slot is on the free list. */
  function Initial(g: Geometry): Pool
  {
    Pool(Zeros(SlotCount(g)), InitialLinks(SlotCount(g)), Slot(0), Header, Slot(1), g.bufferSize)
  }

  /** Slots 1 .. maxSubscribers+1, in ascending order. */
  function InitialFree(g: Geometry): seq<nat>
  {
    seq(g.maxSubscribers + 1, k => k + 1)
  }

  // ------------------------------------------------------------- free list

  /** _push_slack: link slot `i` to the old head and make it the head. */
  function PushSlack(p: Pool, i: nat): Pool
    requires i < |p.link|
  {
    p.(link := p.link[i := p.slack], slack := Slot(i))
  }

  /** _pop_slack: the head's link becomes the head. The popped slot, which
      _pop_slack returns, is the old `slack`. */
  function PopSlack(p: Pool): Pool
    requires p.slack.Slot? && p.slack.index < |p.link|
  {
    p.(slack := p.link[p.slack.index])
  }

  // ------------------------------------------------------------ refcounts

  /** What `Unref` needs: a slot in bounds, or the header word not at 1
      (where the source would push offset 0 onto the free list). */
  predicate CanUnref(p: Pool, r: Ref)
  {
    && |p.refcount| == |p.link|
    && p.sizeWord < LIMIT
    && (r.Slot? ==> r.index < |p.refcount| && p.refcount[r.index] < LIMIT)
    && (r.Header? ==> p.sizeWord != 1)
  }

  /** Decrement the count word `r` designates, and push its slot onto the
      free list when the count reaches zero. */
  function Unref(p: Pool, r: Ref): Pool
    requires CanUnref(p, r)
  {
    if r.Header? then p.(sizeWord := Dec(p.sizeWord))
    else
      var c := Dec(p.refcount[r.index]);
      var q := p.(refcount := p.refcount[r.index := c]);
      if c == 0 then PushSlack(q, r.index) else q
  }

  /** The free list after `Unref(p, r)`: `r` is pushed exactly when its
      count drops from one to zero. */
  function AfterUnref(p: Pool, free: seq<nat>, r: Ref): seq<nat>
  {
    if r.Slot? && r.index < |p.refcount| && p.refcount[r.index] == 1 then [r.index] + free else free
  }

  // ------------------------------------------------------------ operations

  /** The conditions under which fastpub_publish's steps are defined: the
      old current can be released and the pop finds a slot. */
  predicate CanPublish(p: Pool)
  {
    && CanUnref(p, p.current)
    && p.next.Slot? && p.next.index < |p.refcount|
    && var q := Unref(p, p.current);
       q.slack.Slot? && q.slack.index < |q.link|
  }

  /** fastpub_publish: drop the `current` role's reference on the old
      current, promote `next` to `current` with refcount 1, and pop the new
      `next`. */
  function Publish(p: Pool): Pool
    requires CanPublish(p)
  {
    var q := Unref(p, p.current);
    var q := q.(refcount := q.refcount[p.next.index := 1], current := p.next);
    PopSlack(q).(next := q.slack)
  }

  predicate CanTakeCurrent(p: Pool)
  {
    && p.sizeWord < LIMIT
    && (p.current.Slot? ==> p.current.index < |p.refcount| && p.refcount[p.current.index] < LIMIT)
  }

  /** fastpub_current (and fastpub_next_update once woken): `refcount++` on
      the word `current` designates. The address returned is
      `Payload(g, p.current)`. */
  function Current(p: Pool): Pool
    requires CanTakeCurrent(p)
  {
    match p.current
    case Header => p.(sizeWord := Inc(p.sizeWord))
    case Slot(i) => p.(refcount := p.refcount[i := Inc(p.refcount[i])])
  }

  /** fastpub_release: step back from the payload address to its slot and
      drop the reference. */
  function Release(g: Geometry, p: Pool, addr: nat): Pool
    requires IsPayload(g, addr) && CanUnref(p, SlotOfPayload(g, addr))
  {
    Unref(p, SlotOfPayload(g, addr))
  }

  // ---------------------------------------------------------------- lemmas

  /** Pushing a slot that is not on the list makes it the head and keeps
      the rest of the list threaded. */
  lemma ThreadsPush(p: Pool, free: seq<nat>, i: nat)
    requires Threads(p, free) && i < |p.link| && i !in free
    ensures Threads(PushSlack(p, i), [i] + free)
  {
    LinksAfterPush(p, free, i);
    NoDupPrepend(i, free);
  }

  lemma LinksAfterPush(p: Pool, free: seq<nat>, i: nat)
    requires Threads(p, free) && i < |p.link| && i !in free
    ensures forall k :: 0 <= k < |[i] + free| ==>
              PushSlack(p, i).link[([i] + free)[k]] == LinkAfter([i] + free, k)
  {
    var q, f := PushSlack(p, i), [i] + free;
    forall k | 0 <= k < |f|
      ensures q.link[f[k]] == LinkAfter(f, k)
    {
      if k == 0 {
        assert f[0] == i && LinkAfter(f, 0) == HeadOf(free);
      } else {
        assert f[k] == free[k - 1] && LinkAfter(f, k) == LinkAfter(free, k - 1);
        assert q.link[free[k - 1]] == p.link[free[k - 1]];
      }
    }
  }

  /** Popping a non-empty list returns its head and leaves its tail. */
  lemma ThreadsPop(p: Pool, free: seq<nat>)
    requires Threads(p, free) && free != []
    ensures p.slack == Slot(free[0]) && p.slack.index < |p.link|
    ensures Threads(PopSlack(p), free[1..])
  {
    var q, f := PopSlack(p), free[1..];
    assert p.link[free[0]] == LinkAfter(free, 0);
    assert q.slack == HeadOf(f);
    forall k | 0 <= k < |f|
      ensures q.link[f[k]] == LinkAfter(f, k)
    {
      assert f[k] == free[k + 1];
      assert p.link[free[k + 1]] == LinkAfter(free, k + 1);
    }
    NoDupTail(free);
  }

  /** A pop right after a push returns the pushed slot and restores the old
      head; only the pushed slot's link keeps what the push wrote. */
  lemma PushThenPop(p: Pool, i: nat)
    requires i < |p.link|
    ensures PushSlack(p, i).slack == Slot(i)
    ensures PopSlack(PushSlack(p, i)) == p.(link := p.link[i := p.slack])
  {
  }

  /** Dropping a reference keeps the list threaded, with the slot pushed
      exactly when its count reached zero. */
  lemma ThreadsUnref(p: Pool, free: seq<nat>, r: Ref)
    requires Threads(p, free) && CanUnref(p, r)
    requires r.Slot? ==> r.index !in free
    ensures Threads(Unref(p, r), AfterUnref(p, free, r))
  {
    if r.Slot? {
      var c := Dec(p.refcount[r.index]);
      var q := p.(refcount := p.refcount[r.index := c]);
      assert q.link == p.link && q.slack == p.slack;
      if c == 0 {
        ThreadsPush(q, free, r.index);
      } else {
        assert Unref(p, r) == q && AfterUnref(p, free, r) == free;
      }
    } else {
      assert Unref(p, r).link == p.link && Unref(p, r).slack == p.slack;
    }
  }

  /** Dropping a reference changes one count word and nothing but the free
      list besides. */
  lemma UnrefWords(p: Pool, r: Ref)
    requires CanUnref(p, r)
    ensures Unref(p, r).refcount ==
              if r.Slot? then p.refcount[r.index := Dec(p.refcount[r.index])] else p.refcount
    ensures Unref(p, r).sizeWord == if r.Header? then Dec(p.sizeWord) else p.sizeWord
    ensures Unref(p, r).next == p.next && Unref(p, r).current == p.current
  {
  }

  lemma InTail(f: seq<nat>, i: nat)
    requires NoDup(f) && f != []
    ensures i in f[1..] <==> i in f && i != f[0]
  {
    NoDupTail(f);
    assert f == [f[0]] + f[1..];
  }

  /** The invariant's consequences for the free list: every slot on it has
      refcount zero, and neither `next` nor `current` is on it. */
  lemma FreeSlotsUnused(g: Geometry, p: Pool, free: seq<nat>, held: seq<nat>)
    requires Inv(g, p, free, held)
    ensures forall k :: 0 <= k < |free| ==> p.refcount[free[k]] == 0
    ensures p.next.index !in free
    ensures p.current.Slot? ==> p.current.index !in free
  {
    forall k | 0 <= k < |free| ensures p.refcount[free[k]] == 0 {
      assert free[k] in free;
    }
  }

  /** fastpub_pubopen establishes the invariant, with the free list holding
      slots 1 .. maxSubscribers+1 in ascending address order. */
  lemma InitialInv(g: Geometry)
    requires ValidGeometry(g)
    ensures Inv(g, Initial(g), InitialFree(g), Zeros(SlotCount(g)))
    ensures forall k :: 0 <= k && k + 1 < |InitialFree(g)| ==>
              Offset(g, Slot(InitialFree(g)[k])) < Offset(g, Slot(InitialFree(g)[k + 1]))
  {
    var p, free := Initial(g), InitialFree(g);
    var n := SlotCount(g);
    forall i | 0 <= i < n ensures (i in free <==> p.refcount[i] == 0 && p.next != Slot(i)) {
      if 1 <= i {
        assert free[i - 1] == i;
      }
    }
    forall k | 0 <= k && k + 1 < |free|
      ensures Offset(g, Slot(free[k])) < Offset(g, Slot(free[k + 1]))
    {
      SlotsTileSegment(g, k + 1);
    }
  }

  /** Capacity: once the `current` role's reference is dropped, the free
      list is as long as the pool minus `next` minus the slots subscribers
      hold. With maxSubscribers + 2 slots, the pop in fastpub_publish finds
      a slot exactly when subscribers hold at most maxSubscribers distinct
      slots. */
  lemma RoomAtPublish(g: Geometry, p: Pool, free: seq<nat>, held: seq<nat>)
    requires Inv(g, p, free, held)
    ensures |AfterUnref(p, free, p.current)| + |Holders(held)| + 1 == SlotCount(g)
    ensures AfterUnref(p, free, p.current) != [] <==> |Holders(held)| <= g.maxSubscribers
  {
    var n := p.next.index;
    var f := AfterUnref(p, free, p.current);
    FreeSlotsUnused(g, p, free, held);
    if f != free {
      NoDupPrepend(p.current.index, free);
    }
    forall i: nat
      ensures i in f <==> i < |held| && held[i] == 0 && i != n
    {
    }
    FreeCount(f, held, n);
  }

  /** fastpub_publish keeps the invariant under the capacity contract. The
      new `current` is the old `next` with refcount 1; the old current lost
      one reference and was pushed exactly when that was its last; the new
      `next` is the head of the resulting list, which loses it; subscribers'
      references are untouched. */
  lemma PublishKeepsInv(g: Geometry, p: Pool, free: seq<nat>, held: seq<nat>)
    requires Inv(g, p, free, held)
    requires |Holders(held)| <= g.maxSubscribers
    requires p.current.Header? ==> p.sizeWord != 1
    ensures CanPublish(p)
    ensures var f := AfterUnref(p, free, p.current);
            f != [] && Inv(g, Publish(p), f[1..], held) && Publish(p).next == Slot(f[0])
    ensures Publish(p).current == p.next && Publish(p).refcount[p.next.index] == 1
    ensures p.current.Slot? ==>
              Publish(p).refcount[p.current.index] == p.refcount[p.current.index] - 1
    ensures forall i :: 0 <= i < SlotCount(g) && Slot(i) != p.current && Slot(i) != p.next ==>
              Publish(p).refcount[i] == p.refcount[i]
  {
    var f := AfterUnref(p, free, p.current);
    PublishThreads(g, p, free, held);
    PublishCounts(g, p, free, held);
    var q := Publish(p);
    forall i | 0 <= i < SlotCount(g)
      ensures i in f[1..] <==> q.refcount[i] == 0 && q.next != Slot(i)
    {
      InTail(f, i);
    }
  }

  /** Publish leaves the list threaded from the old list, with the old
      current pushed exactly at its last reference and the head popped as
      the new `next`. */
  lemma PublishThreads(g: Geometry, p: Pool, free: seq<nat>, held: seq<nat>)
    requires Inv(g, p, free, held)
    requires |Holders(held)| <= g.maxSubscribers
    requires p.current.Header? ==> p.sizeWord != 1
    ensures CanPublish(p)
    ensures var f := AfterUnref(p, free, p.current);
            f != [] && Threads(Publish(p), f[1..]) && Publish(p).next == Slot(f[0])
  {
    var c, n := p.current, p.next.index;
    var f := AfterUnref(p, free, c);
    FreeSlotsUnused(g, p, free, held);
    RoomAtPublish(g, p, free, held);
    ThreadsUnref(p, free, c);
    var q1 := Unref(p, c);
    var q2 := q1.(refcount := q1.refcount[n := 1], current := p.next);
    assert Threads(q2, f);
    ThreadsPop(q2, f);
    assert Publish(p) == PopSlack(q2).(next := q2.slack);
  }

  /** Publish's refcount changes: the old current loses one reference, the
      new current (old `next`) has exactly one, nothing else moves, and
      each count still matches subscribers plus the `current` role. */
  lemma PublishCounts(g: Geometry, p: Pool, free: seq<nat>, held: seq<nat>)
    requires Inv(g, p, free, held) && CanPublish(p)
    ensures Publish(p).current == p.next && Publish(p).refcount[p.next.index] == 1
    ensures p.current.Slot? ==>
              Publish(p).refcount[p.current.index] == p.refcount[p.current.index] - 1
    ensures forall i :: 0 <= i < SlotCount(g) && Slot(i) != p.current && Slot(i) != p.next ==>
              Publish(p).refcount[i] == p.refcount[i]
    ensures forall i :: 0 <= i < SlotCount(g) ==>
              && Publish(p).refcount[i] == held[i] + (if Publish(p).current == Slot(i) then 1 else 0)
              && Publish(p).refcount[i] < LIMIT
  {
    var c, n := p.current, p.next.index;
    UnrefWords(p, c);
    var q := Publish(p);
    var rc := if c.Slot? then p.refcount[c.index := p.refcount[c.index] - 1] else p.refcount;
    assert q.refcount == rc[n := 1];
  }

  /** The first publish after set-up: slot 0 becomes `current` with refcount
      1, slot 1 becomes `next`, slot 2 (or offset 0 when there are only two
      slots) heads the free list, and, because `current` still designated
      offset 0, the header's buffer_size word has been decremented. */
  lemma FirstPublish(g: Geometry)
    requires ValidGeometry(g) && g.bufferSize != 1
    ensures CanPublish(Initial(g))
    ensures var q := Publish(Initial(g));
            && q.current == Slot(0) && q.next == Slot(1)
            && q.slack == (if g.maxSubscribers == 0 then Header else Slot(2))
            && q.refcount == Zeros(SlotCount(g))[0 := 1]
            && q.sizeWord == Dec(g.bufferSize)
            && q.link == Initial(g).link
  {
    var p, h := Initial(g), Zeros(SlotCount(g));
    InitialInv(g);
    assert Holders(h) == {};
    PublishKeepsInv(g, p, InitialFree(g), h);
    assert p.link[1] == if g.maxSubscribers == 0 then Header else Slot(2);
  }

  /** At set-up no header-relative reference exists and the word at offset
      0 is buffer_size itself. */
  lemma InitialHeaderCount(g: Geometry)
    requires ValidGeometry(g)
    ensures HeaderCount(g, Initial(g), 0)
  {
    SlotsTileSegment(g, 0);
  }

  /** Publish keeps the header word's account: the first publish decrements
      the word and turns `current` into a slot; later ones leave it alone. */
  lemma PublishHeaderCount(g: Geometry, p: Pool, headerHeld: nat)
    requires CanPublish(p) && HeaderCount(g, p, headerHeld)
    ensures HeaderCount(g, Publish(p), headerHeld)
  {
    UnrefWords(p, p.current);
    if p.current.Header? {
      DecMod(g.bufferSize + headerHeld);
    }
  }

  /** A reference taken on the header word raises both sides of its
      account by one; one taken on a slot leaves them alone. */
  lemma CurrentHeaderCount(g: Geometry, p: Pool, headerHeld: nat)
    requires CanTakeCurrent(p) && HeaderCount(g, p, headerHeld)
    ensures HeaderCount(g, Current(p), headerHeld + if p.current.Header? then 1 else 0)
  {
    if p.current.Header? {
      IncMod(g.bufferSize + headerHeld);
    }
  }

  /** Releasing a header-relative reference lowers both sides of the header
      word's account by one; releasing a slot leaves them alone. */
  lemma UnrefHeaderCount(g: Geometry, p: Pool, headerHeld: nat, r: Ref)
    requires CanUnref(p, r) && HeaderCount(g, p, headerHeld)
    requires r.Header? ==> headerHeld > 0
    ensures HeaderCount(g, Unref(p, r), headerHeld - if r.Header? then 1 else 0)
  {
    UnrefWords(p, r);
    if r.Header? {
      DecMod(g.bufferSize + headerHeld - if p.current.Slot? then 1 else 0);
    }
  }

  /** The same, for the reference fastpub_release steps back to. */
  lemma ReleaseHeaderCount(g: Geometry, p: Pool, headerHeld: nat, addr: nat)
    requires IsPayload(g, addr) && CanUnref(p, SlotOfPayload(g, addr))
    requires HeaderCount(g, p, headerHeld)
    requires SlotOfPayload(g, addr).Header? ==> headerHeld > 0
    ensures HeaderCount(g, Release(g, p, addr),
                        headerHeld - if SlotOfPayload(g, addr).Header? then 1 else 0)
  {
    UnrefHeaderCount(g, p, headerHeld, SlotOfPayload(g, addr));
  }

  /** Taking a reference on `current` keeps the invariant: one more
      subscriber reference on the current slot, the free list untouched. */
  lemma CurrentKeepsInv(g: Geometry, p: Pool, free: seq<nat>, held: seq<nat>)
    requires Inv(g, p, free, held)
    requires p.current.Slot? ==> p.refcount[p.current.index] < LIMIT - 1
    ensures CanTakeCurrent(p)
    ensures Inv(g, Current(p), free,
                if p.current.Slot? then held[p.current.index := held[p.current.index] + 1] else held)
    ensures Current(p).link == p.link && Current(p).slack == p.slack
    ensures Current(p).next == p.next && Current(p).current == p.current
    ensures p.current.Slot? ==>
              Current(p).refcount == p.refcount[p.current.index := p.refcount[p.current.index] + 1]
  {
    if p.current.Slot? {
      var c := p.current.index;
      var q, h := Current(p), held[c := held[c] + 1];
      assert Threads(q, free);
      forall i | 0 <= i < SlotCount(g)
        ensures q.refcount[i] == h[i] + if q.current == Slot(i) then 1 else 0
        ensures (i in free <==> q.refcount[i] == 0 && q.next != Slot(i))
      {
      }
    }
  }

  /** The references a subscriber may hand back: an address fastpub_current
      returned, on which a reference is still held. */
  predicate Releasable(g: Geometry, p: Pool, held: seq<nat>, addr: nat)
  {
    && IsPayload(g, addr)
    && var r := SlotOfPayload(g, addr);
       if r.Slot? then r.index < |held| && held[r.index] > 0 else p.sizeWord != 1
  }

  /** Dropping a subscriber's reference on `r` keeps the invariant: one
      reference fewer on the slot, which is pushed exactly when that was its
      last reference. */
  lemma UnrefKeepsInv(g: Geometry, p: Pool, free: seq<nat>, held: seq<nat>, r: Ref)
    requires Inv(g, p, free, held)
    requires r.Slot? ==> r.index < |held| && held[r.index] > 0
    requires r.Header? ==> p.sizeWord != 1
    ensures CanUnref(p, r)
    ensures var h := if r.Slot? then held[r.index := held[r.index] - 1] else held;
            Inv(g, Unref(p, r), AfterUnref(p, free, r), h)
    ensures r.Slot? ==> Unref(p, r).refcount[r.index] == p.refcount[r.index] - 1
  {
    FreeSlotsUnused(g, p, free, held);
    ThreadsUnref(p, free, r);
    if r.Slot? {
      var f, h, q := AfterUnref(p, free, r), held[r.index := held[r.index] - 1], Unref(p, r);
      forall i | 0 <= i < SlotCount(g)
        ensures q.refcount[i] == h[i] + if q.current == Slot(i) then 1 else 0
        ensures (i in f <==> q.refcount[i] == 0 && q.next != Slot(i))
      {
      }
    }
  }

  /** The same, for the reference fastpub_release steps back to from the
      payload address. */
  lemma ReleaseKeepsInv(g: Geometry, p: Pool, free: seq<nat>, held: seq<nat>, addr: nat)
    requires Inv(g, p, free, held) && Releasable(g, p, held, addr)
    ensures CanUnref(p, SlotOfPayload(g, addr))
    ensures var r := SlotOfPayload(g, addr);
            var h := if r.Slot? then held[r.index := held[r.index] - 1] else held;
            Inv(g, Release(g, p, addr), AfterUnref(p, free, r), h)
    ensures var r := SlotOfPayload(g, addr);
            r.Slot? ==> Release(g, p, addr).refcount[r.index] == p.refcount[r.index] - 1
  {
    UnrefKeepsInv(g, p, free, held, SlotOfPayload(g, addr));
  }

  /** A release of the address fastpub_current returned, with no publish
      between, restores every word of the pool. */
  lemma CurrentThenRelease(g: Geometry, p: Pool, free: seq<nat>, held: seq<nat>)
    requires Inv(g, p, free, held)
    requires p.current.Header? ==> p.sizeWord != 0
    ensures CanTakeCurrent(p)
    ensures IsPayload(g, Payload(g, p.current))
    ensures CanUnref(Current(p), SlotOfPayload(g, Payload(g, p.current)))
    ensures Release(g, Current(p), Payload(g, p.current)) == p
  {
    PayloadRoundTrip(g, p.current);
    if p.current.Header? {
      DecInc(p.sizeWord);
    } else {
      var c := p.current.index;
      assert Release(g, Current(p), Payload(g, p.current)).refcount == p.refcount[c := Dec(Inc(p.refcount[c]))];
      DecInc(p.refcount[c]);
    }
  }
}
