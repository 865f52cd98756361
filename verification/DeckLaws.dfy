/** The deck conflicts bit by bit, and the order of discovery, without the
    masks and accumulators of deck_info.c. */
module DeckLaws {
  import opened Options
  import opened DeckInfo

  predicate Odd(p: bv32) { p & 1 == 1 }

  function Half(p: bv32): bv32 { p >> 1 }

  // bit k of p is set
  predicate Uses(p: bv32, k: nat)
    decreases k
  {
    if k == 0 then Odd(p) else Uses(Half(p), k - 1)
  }

  // ---------- bits of a conjunction ----------

  // the bits of p without those of q
  function But(p: bv32, q: bv32): bv32 { p & !q }

  lemma AndBit(p: bv32, q: bv32)
    ensures Odd(And(p, q)) <==> Odd(p) && Odd(q)
  {
  }

  lemma AndHalf(p: bv32, q: bv32)
    ensures Half(And(p, q)) == And(Half(p), Half(q))
  {
  }

  lemma {:induction false} UsesAnd(p: bv32, q: bv32, k: nat)
    ensures Uses(And(p, q), k) <==> Uses(p, k) && Uses(q, k)
    decreases k
  {
    hide And, Half, Odd;
    if k == 0 {
      AndBit(p, q);
    } else {
      AndHalf(p, q);
      UsesAnd(Half(p), Half(q), k - 1);
    }
  }

  lemma ButBit(p: bv32, q: bv32)
    ensures Odd(But(p, q)) <==> Odd(p) && !Odd(q)
  {
  }

  lemma ButHalf(p: bv32, q: bv32)
    ensures Half(But(p, q)) == But(Half(p), Half(q))
  {
  }

  lemma {:induction false} UsesBut(p: bv32, q: bv32, k: nat)
    ensures Uses(But(p, q), k) <==> Uses(p, k) && !Uses(q, k)
    decreases k
  {
    hide But, Half, Odd;
    if k == 0 {
      ButBit(p, q);
    } else {
      ButHalf(p, q);
      UsesBut(Half(p), Half(q), k - 1);
    }
  }

  lemma HalfZero()
    ensures Half(0) == 0 && !Odd(0)
  {
  }

  lemma {:induction false} UsesZero(k: nat)
    ensures !Uses(0, k)
  {
    HalfZero();
    hide Half, Odd;
    if k > 0 {
      UsesZero(k - 1);
    }
  }

  lemma Halved(p: bv32)
    requires p != 0 && !Odd(p)
    ensures Half(p) != 0 && Half(p) < p
  {
  }

  lemma {:induction false} UsesSome(p: bv32) returns (k: nat)
    requires p != 0
    ensures Uses(p, k)
    decreases p
  {
    hide Half, Odd;
    if Odd(p) {
      k := 0;
    } else {
      Halved(p);
      var j := UsesSome(Half(p));
      k := j + 1;
    }
  }

  // ---------- the pins of the buses ----------

  lemma Step(p: bv32, q: bv32, k: nat)
    requires q == Half(p)
    ensures Uses(p, k) <==> if k == 0 then Odd(p) else Uses(q, k - 1)
  {
  }

  // PB7, PB6, PA5, PA6 and PA7
  lemma BusPins(k: nat)
    ensures Uses(DECK_USING_I2C | DECK_USING_SPI, k) <==> k in {2, 3, 10, 11, 12}
  {
    assert DECK_USING_I2C | DECK_USING_SPI == 0x1C0C;
    UsesZero(if k >= 13 then k - 13 else 0);
    LowPins(k);
    if k >= 7 {
      HighPins(k - 7);
    }
  }

  lemma LowPins(k: nat)
    ensures Uses(0x1C0C, k) <==> if k >= 7 then Uses(0x38, k - 7) else k in {2, 3}
  {
    Step(0x1C0C, 0xE06, k);
    if k >= 1 { Step(0xE06, 0x703, k - 1); }
    if k >= 2 { Step(0x703, 0x381, k - 2); }
    if k >= 3 { Step(0x381, 0x1C0, k - 3); }
    if k >= 4 { Step(0x1C0, 0xE0, k - 4); }
    if k >= 5 { Step(0xE0, 0x70, k - 5); }
    if k >= 6 { Step(0x70, 0x38, k - 6); }
  }

  lemma HighPins(k: nat)
    ensures Uses(0x38, k) <==> if k >= 6 then Uses(0, k - 6) else k in {3, 4, 5}
  {
    Step(0x38, 0x1C, k);
    if k >= 1 { Step(0x1C, 0xE, k - 1); }
    if k >= 2 { Step(0xE, 7, k - 2); }
    if k >= 3 { Step(7, 3, k - 3); }
    if k >= 4 { Step(3, 1, k - 4); }
    if k >= 5 { Step(1, 0, k - 5); }
  }

  lemma NonBusIs(p: bv32)
    ensures NonBus(p) == But(p, DECK_USING_I2C | DECK_USING_SPI)
  {
  }

  lemma NonBusPins(p: bv32, q: bv32, k: nat)
    ensures Uses(NonBus(And(p, q)), k) <==> Uses(p, k) && Uses(q, k) && k !in {2, 3, 10, 11, 12}
  {
    BusPins(k);
    NonBusIs(And(p, q));
    hide And, But, NonBus, Half, Odd;
    UsesBut(And(p, q), DECK_USING_I2C | DECK_USING_SPI, k);
    UsesAnd(p, q, k);
  }

  // ---------- conflicts ----------

  // both use GPIO k, or both use k for a peripheral other than the two buses
  predicate Share(a: Driver, b: Driver, k: nat) {
    || (Uses(a.usedGpio, k) && Uses(b.usedGpio, k))
    || (Uses(a.usedPeriph, k) && Uses(b.usedPeriph, k) && k !in {2, 3, 10, 11, 12})
  }

  lemma ConflictExact(a: Driver, b: Driver)
    ensures Conflict(a, b) <==> exists k :: Share(a, b, k)
  {
    hide NonBus, Uses, And;
    if GpioClash(a.usedGpio, b.usedGpio) {
      var k := UsesSome(And(a.usedGpio, b.usedGpio));
      UsesAnd(a.usedGpio, b.usedGpio, k);
      assert Share(a, b, k);
    } else if PeriphClash(a.usedPeriph, b.usedPeriph) {
      var k := UsesSome(NonBus(And(a.usedPeriph, b.usedPeriph)));
      NonBusPins(a.usedPeriph, b.usedPeriph, k);
      assert Share(a, b, k);
    } else if k :| Share(a, b, k) {
      UsesAnd(a.usedGpio, b.usedGpio, k);
      NonBusPins(a.usedPeriph, b.usedPeriph, k);
      UsesZero(k);
    }
  }

  // What the start-up check accepts: no two decks share anything but a bus
  lemma AcceptedExactly(ds: seq<Driver>)
    ensures NoConflicts(ds) <==> forall i, j, k :: 0 <= i < j < |ds| ==> !Share(ds[i], ds[j], k)
  {
    hide Conflict, Share;
    forall i, j | 0 <= i < j < |ds|
      ensures Conflict(ds[i], ds[j]) <==> exists k :: Share(ds[i], ds[j], k)
    {
      ConflictExact(ds[i], ds[j]);
    }
  }

  // ---------- discovery ----------

  lemma {:induction false} DiscoveredAppend(a: seq<Backend>, b: seq<Backend>)
    ensures Discovered(a + b) == Discovered(a) + Discovered(b)
  {
    hide DriversOf;
    if a == [] {
      assert a + b == b && Discovered(a) == [];
      assert [] + Discovered(b) == Discovered(b);
    } else {
      assert (a + b)[1..] == a[1..] + b;
      DiscoveredAppend(a[1..], b);
      var own := if a[0].usable then DriversOf(a[0].decks) else [];
      assert Discovered(a) == own + Discovered(a[1..]) && Discovered(a + b) == own + Discovered(a[1..] + b);
      hide Discovered;
      assert own + (Discovered(a[1..]) + Discovered(b)) == own + Discovered(a[1..]) + Discovered(b);
    }
  }

  // Backends are asked one after the other; one that is missing or fails gives
  // nothing, any other gives its decks in order
  lemma DiscoveredOrder(a: seq<Backend>, b: Backend, c: seq<Backend>)
    ensures var own := Discovered([b]);
      && Discovered(a + [b] + c) == Discovered(a) + own + Discovered(c)
      && |own| == (if b.usable then |b.decks| else 0)
      && forall k :: 0 <= k < |own| ==>
           own[k] == if b.decks[k].Some? then b.decks[k].value else Driver(0, 0, AutoSelect, false, false)
  {
    hide *;
    DiscoveredAppend(a + [b], c);
    DiscoveredAppend(a, [b]);
    OwnDecks(b);
    DriversEach(b);
  }

  lemma OwnDecks(b: Backend)
    ensures Discovered([b]) == if b.usable then DriversOf(b.decks) else []
  {
    assert [b][1..] == [];
    assert Discovered([b]) == (if b.usable then DriversOf(b.decks) else []) + Discovered([]);
  }

  lemma DriversEach(b: Backend)
    ensures |DriversOf(b.decks)| == |b.decks|
    ensures forall k :: 0 <= k < |b.decks| ==>
      DriversOf(b.decks)[k] == if b.decks[k].Some? then b.decks[k].value else Driver(0, 0, AutoSelect, false, false)
  {
  }

  // At most four are used, the first ones
  lemma FirstFour(s: seq<Driver>)
    ensures FirstFew(s) <= s && |FirstFew(s)| == if |s| < 4 then |s| else 4
  {
  }
}
