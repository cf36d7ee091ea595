/** The publisher's and subscribers' operations on a fastpub segment, done in
    place. Every operation runs under the header's process-shared mutex, so
    each method is one atomic step on the segment's metadata. Each method
    that changes the words is proved to perform exactly the step the
    matching SlotPool function describes. The public operations (PubOpen,
    Publish, Current, NextUpdate, Release), and CreateLayout and Drop which
    they delegate to, also establish or keep Valid(), and with it
    SlotPool.Inv. NextBuf only reads. */
module FastPub {
  import opened Word
  import opened Layout
  import opened Counting
  import opened SlotPool

  class Segment {
    /** The sizes the segment was created with. */
    const geo: Geometry
    /** The handle's shm_size. */
    const shmSize: nat
    /** The header word buffer_count. */
    const bufferCount: nat

    /** The header word buffer_size, at offset 0. */
    var sizeWord: nat
    /** The header word ready. */
    var ready: nat
    /** The header word next: the slot the publisher writes into. */
    var next: Ref
    /** The header word current: the slot last published. */
    var current: Ref
    /** The header word slack: head of the LIFO free list. */
    var slack: Ref

    /** Each slot's refcount word. */
    const refcount: array<nat>
    /** Each slot's next word, the free-list link. */
    const link: array<Ref>

    /** The free list, head first, as slot indices. */
    ghost var Free: seq<nat>
    /** The references subscribers hold on each slot. */
    ghost var Held: seq<nat>
    /** The references subscribers took on the header word before the first
        publish. */
    ghost var HeaderHeld: nat

    /** The segment's metadata words, as a value. */
    ghost function Words(): Pool
      reads this, refcount, link
    {
      Pool(refcount[..], link[..], next, current, slack, sizeWord)
    }

    ghost predicate Valid()
      reads this, refcount, link
    {
      && bufferCount == SlotCount(geo)
      && shmSize == SegmentSize(geo)
      && ready == READY
      && refcount.Length == bufferCount
      && link.Length == bufferCount
      && Inv(geo, Words(), Free, Held)
      && HeaderCount(geo, Words(), HeaderHeld)
    }

    /** fastpub_pubopen, from the sizing of the shared object to the
        readiness sentinel, on a freshly created (zero-filled) object. */
    constructor PubOpen(infoSize: nat, bufferSize: nat, maxSubscribers: nat)
      requires ValidGeometry(Geometry(infoSize, bufferSize, maxSubscribers))
      ensures Valid()
      ensures geo == Geometry(infoSize, bufferSize, maxSubscribers)
      ensures shmSize == infoSize + (SLOT_HEADER + bufferSize) * (maxSubscribers + 2)
      ensures bufferCount == maxSubscribers + 2
      ensures ready == READY
      ensures Words() == Initial(geo)
      ensures Free == InitialFree(geo)
      ensures Held == Zeros(maxSubscribers + 2) && HeaderHeld == 0
      ensures fresh(refcount) && fresh(link)
    {
      geo := Geometry(infoSize, bufferSize, maxSubscribers);
      shmSize := infoSize + (SLOT_HEADER + bufferSize) * (maxSubscribers + 2);
      bufferCount := maxSubscribers + 2;
      // A newly sized shared object reads as zeros: every refcount and link
      // is 0, and so is current, which is never written here.
      refcount := new nat[maxSubscribers + 2](_ => 0);
      link := new Ref[maxSubscribers + 2](_ => Header);
      current := Header;
      new;
      CreateLayout();
    }

    /** fastpub_pubopen's writes into the freshly sized object: the header
        words, the set-up loop, and the readiness sentinel last. */
    method CreateLayout()
      requires ValidGeometry(geo) && bufferCount == SlotCount(geo) && shmSize == SegmentSize(geo)
      requires refcount.Length == bufferCount && link.Length == bufferCount
      requires refcount[0] == 0 && link[0] == Header && current == Header
      modifies this, refcount, link
      ensures Valid()
      ensures ready == READY
      ensures Words() == Initial(geo)
      ensures Free == InitialFree(geo)
      ensures Held == Zeros(bufferCount) && HeaderHeld == 0
    {
      ready := 0;
      sizeWord := geo.bufferSize;
      next := Slot(0);
      slack := Slot(1);
      ThreadSlots();
      assert refcount[..] == Zeros(bufferCount);
      assert link[..] == InitialLinks(bufferCount);
      Free := InitialFree(geo);
      Held := Zeros(bufferCount);
      HeaderHeld := 0;
      ready := READY;
      InitialInv(geo);
      InitialHeaderCount(geo);
    }

    /** The set-up loop of fastpub_pubopen: every slot but the first gets a
        zero refcount and is linked to the next one, the last to offset 0.
        Slot 0's words are not touched. */
    method ThreadSlots()
      requires refcount.Length == bufferCount && link.Length == bufferCount
      requires bufferCount >= 2
      modifies refcount, link
      ensures refcount[0] == old(refcount[0]) && link[0] == old(link[0])
      ensures forall j :: 1 <= j < bufferCount ==> refcount[j] == 0
      ensures forall j :: 1 <= j < bufferCount ==> link[j] == InitialLinks(bufferCount)[j]
    {
      for i := 0 to bufferCount - 1
        invariant refcount[0] == old(refcount[0]) && link[0] == old(link[0])
        invariant forall j :: 1 <= j <= i ==> refcount[j] == 0
        invariant forall j :: 1 <= j <= i ==>
                    link[j] == if j + 1 < bufferCount then Slot(j + 1) else Header
      {
        refcount[i + 1] := 0;
        if i + 2 < bufferCount {
          link[i + 1] := Slot(i + 2);
        } else {
          link[i + 1] := Header;
        }
      }
    }

    /** With a buffer_size of at least 2, and fewer than 2^32 - buffer_size
        header-relative references outstanding, the word at offset 0 never
        reaches 1, so neither fastpub_publish nor fastpub_release can drop it
        to 0 and push offset 0 onto the free list. */
    lemma HeaderWordAboveOne()
      requires Valid()
      requires geo.bufferSize >= 2 && geo.bufferSize + HeaderHeld < LIMIT
      ensures current.Header? ==> sizeWord >= 2
      ensures HeaderHeld > 0 ==> sizeWord >= 2
    {
    }

    /** fastpub_nextbuf: the payload of `next`; no state changes. */
    method NextBuf() returns (p: nat)
      requires Valid()
      ensures p == Payload(geo, next)
      ensures IsPayload(geo, p) && SlotOfPayload(geo, p) == next
    {
      p := Offset(geo, next) + SLOT_HEADER;
      PayloadRoundTrip(geo, next);
    }

    /** _push_slack. */
    method PushSlack(i: nat)
      requires i < link.Length
      modifies this`slack, link
      ensures Words() == SlotPool.PushSlack(old(Words()), i)
    {
      link[i] := slack;
      slack := Slot(i);
    }

    /** _pop_slack: returns the old head. */
    method PopSlack() returns (r: Ref)
      requires slack.Slot? && slack.index < link.Length
      modifies this`slack
      ensures r == old(slack)
      ensures Words() == SlotPool.PopSlack(old(Words()))
    {
      r := slack;
      slack := link[slack.index];
    }

    /** Decrement the count word `r` designates and push its slot onto the
        free list when the count reaches zero: the step fastpub_publish and
        fastpub_release share. */
    method Unref(r: Ref)
      requires CanUnref(Words(), r)
      modifies this`sizeWord, this`slack, refcount, link
      ensures Words() == SlotPool.Unref(old(Words()), r)
    {
      var freed: bool;
      if r.Header? {
        sizeWord := Dec(sizeWord);
        freed := sizeWord == 0;
      } else {
        refcount[r.index] := Dec(refcount[r.index]);
        freed := refcount[r.index] == 0;
      }
      if freed {
        PushSlack(r.index);
      }
    }

    /** fastpub_publish, under the capacity contract (subscribers hold at
        most maxSubscribers distinct slots) and excluding a first publish
        that would bring the header's buffer_size word to zero. */
    method Publish()
      requires Valid()
      requires |Holders(Held)| <= geo.maxSubscribers
      requires current.Header? ==> sizeWord != 1
      modifies this, refcount, link
      ensures Valid()
      ensures CanPublish(old(Words())) && Words() == SlotPool.Publish(old(Words()))
      ensures old(AfterUnref(Words(), Free, current)) != []
      ensures Free == old(AfterUnref(Words(), Free, current))[1..]
      ensures Held == old(Held) && HeaderHeld == old(HeaderHeld)
    {
      ghost var w := Words();
      PublishKeepsInv(geo, w, Free, Held);
      PublishHeaderCount(geo, w, HeaderHeld);
      Rotate();
      Free := AfterUnref(w, Free, w.current)[1..];
    }

    /** The in-place steps of fastpub_publish under the mutex: drop the
        `current` role's reference, promote `next` with refcount 1, and pop
        the new `next`. */
    method Rotate()
      requires refcount.Length == link.Length && CanPublish(Words())
      modifies this`sizeWord, this`slack, this`current, this`next, refcount, link
      ensures Words() == SlotPool.Publish(old(Words()))
    {
      Unref(current);
      refcount[next.index] := 1;
      current := next;
      next := PopSlack();
    }

    /** fastpub_current: take a reference on `current` and return its
        payload. The requires rules out a 32-bit wrap of the refcount. */
    method Current() returns (p: nat)
      requires Valid()
      requires current.Slot? ==> refcount[current.index] < LIMIT - 1
      modifies this`sizeWord, this`Held, this`HeaderHeld, refcount
      ensures Valid()
      ensures CanTakeCurrent(old(Words())) && Words() == SlotPool.Current(old(Words()))
      ensures p == Payload(geo, current)
      ensures IsPayload(geo, p) && SlotOfPayload(geo, p) == current
      ensures current.Slot? ==>
                Held == old(Held)[current.index := old(Held[current.index]) + 1]
                && HeaderHeld == old(HeaderHeld)
      ensures current.Header? ==> Held == old(Held) && HeaderHeld == old(HeaderHeld) + 1
    {
      ghost var w := Words();
      CurrentKeepsInv(geo, w, Free, Held);
      CurrentHeaderCount(geo, w, HeaderHeld);
      p := TakeCurrent();
      Held := if w.current.Slot? then Held[w.current.index := Held[w.current.index] + 1] else Held;
      HeaderHeld := HeaderHeld + if w.current.Header? then 1 else 0;
      PayloadRoundTrip(geo, current);
    }

    /** The in-place step of fastpub_current under the mutex: `refcount++`
        on the word `current` designates, returning the address just past
        its slot header. */
    method TakeCurrent() returns (p: nat)
      requires refcount.Length == link.Length && CanTakeCurrent(Words())
      modifies this`sizeWord, refcount
      ensures Words() == SlotPool.Current(old(Words()))
      ensures p == Payload(geo, current)
    {
      if current.Header? {
        sizeWord := Inc(sizeWord);
      } else {
        refcount[current.index] := Inc(refcount[current.index]);
      }
      p := Offset(geo, current) + SLOT_HEADER;
    }

    /** fastpub_next_update once the wait on update_cond has returned: the
        same step as fastpub_current. */
    method NextUpdate() returns (p: nat)
      requires Valid()
      requires current.Slot? ==> refcount[current.index] < LIMIT - 1
      modifies this`sizeWord, this`Held, this`HeaderHeld, refcount
      ensures Valid()
      ensures CanTakeCurrent(old(Words())) && Words() == SlotPool.Current(old(Words()))
      ensures p == Payload(geo, current)
      ensures IsPayload(geo, p) && SlotOfPayload(geo, p) == current
      ensures current.Slot? ==>
                Held == old(Held)[current.index := old(Held[current.index]) + 1]
                && HeaderHeld == old(HeaderHeld)
      ensures current.Header? ==> Held == old(Held) && HeaderHeld == old(HeaderHeld) + 1
    {
      p := Current();
    }

    /** fastpub_release: hand back an address fastpub_current or
        fastpub_next_update returned, on which a reference is still held. */
    method Release(addr: nat)
      requires Valid() && Releasable(geo, Words(), Held, addr)
      requires SlotOfPayload(geo, addr).Header? ==> HeaderHeld > 0
      modifies this`sizeWord, this`slack, this`Free, this`Held, this`HeaderHeld, refcount, link
      ensures Valid()
      ensures CanUnref(old(Words()), SlotOfPayload(geo, addr))
      ensures Words() == SlotPool.Release(geo, old(Words()), addr)
      ensures Free == old(AfterUnref(Words(), Free, SlotOfPayload(geo, addr)))
      ensures var r := SlotOfPayload(geo, addr);
              r.Slot? ==> Held == old(Held)[r.index := old(Held[r.index]) - 1]
                          && HeaderHeld == old(HeaderHeld)
      ensures var r := SlotOfPayload(geo, addr);
              r.Header? ==> Held == old(Held) && HeaderHeld == old(HeaderHeld) - 1
    {
      var r := SlotOfPayload(geo, addr);
      Drop(r);
    }

    /** fastpub_release once the address is turned back into the reference
        `r`: the subscriber's reference on `r` is given up. */
    method Drop(r: Ref)
      requires Valid()
      requires r.Slot? ==> r.index < |Held| && Held[r.index] > 0
      requires r.Header? ==> HeaderHeld > 0 && sizeWord != 1
      modifies this`sizeWord, this`slack, this`Free, this`Held, this`HeaderHeld, refcount, link
      ensures Valid()
      ensures CanUnref(old(Words()), r)
      ensures Words() == SlotPool.Unref(old(Words()), r)
      ensures Free == old(AfterUnref(Words(), Free, r))
      ensures Held == old(if r.Slot? then Held[r.index := Held[r.index] - 1] else Held)
      ensures HeaderHeld == old(HeaderHeld) - if r.Header? then 1 else 0
    {
      ghost var w := Words();
      ghost var f := AfterUnref(w, Free, r);
      ghost var h := if r.Slot? then Held[r.index := Held[r.index] - 1] else Held;
      ghost var hh := HeaderHeld - if r.Header? then 1 else 0;
      UnrefKeepsInv(geo, w, Free, Held, r);
      UnrefHeaderCount(geo, w, HeaderHeld, r);
      Unref(r);
      Free, Held, HeaderHeld := f, h, hh;
    }
  }
}
