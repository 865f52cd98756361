/** Which decks are accepted at start-up (deck_info.c). */
module DeckInfo {
  import opened Options

  const DECK_MAX_COUNT: nat := 4

  // the pins of the two buses, PB7 PB6 and PA5 PA6 PA7
  const DECK_USING_I2C: bv32 := 0xC
  const DECK_USING_SPI: bv32 := 0x1C00

  datatype Estimator = AutoSelect | Estimator(id: nat)

  datatype Driver = Driver(usedPeriph: bv32, usedGpio: bv32, requiredEstimator: Estimator,
                           lowInterference: bool, attitudeReversionOff: bool)

  const DUMMY_DRIVER := Driver(0, 0, AutoSelect, false, false)

  // A backend is skipped if it is missing or does not initialise. It then
  // gives one deck after the other, each with the driver looked up for it.
  datatype Backend = Backend(usable: bool, decks: seq<Option<Driver>>)

  function DriverOf(found: Option<Driver>): Driver {
    if found.Some? then found.value else DUMMY_DRIVER
  }

  function DriversOf(decks: seq<Option<Driver>>): (s: seq<Driver>)
    ensures |s| == |decks|
  {
    seq(|decks|, i requires 0 <= i < |decks| => DriverOf(decks[i]))
  }

  // every deck there is, in the order of discovery
  function Discovered(backends: seq<Backend>): seq<Driver> {
    if backends == [] then []
    else (if backends[0].usable then DriversOf(backends[0].decks) else []) + Discovered(backends[1..])
  }

  function FirstFew(s: seq<Driver>): seq<Driver> {
    if |s| <= DECK_MAX_COUNT then s else s[..DECK_MAX_COUNT]
  }

  // ---------- pairwise conflicts ----------

  // the two share a pin that is not a bus, or a GPIO
  predicate Conflict(a: Driver, b: Driver) {
    PeriphClash(a.usedPeriph, b.usedPeriph) || GpioClash(a.usedGpio, b.usedGpio)
  }

  // & and | of C, as functions so that a proof can leave their bits alone
  function And(p: bv32, q: bv32): bv32 { p & q }
  function Or(p: bv32, q: bv32): bv32 { p | q }

  function NonBus(p: bv32): bv32 { p & !(DECK_USING_I2C | DECK_USING_SPI) }

  predicate PeriphClash(p: bv32, q: bv32) { NonBus(And(p, q)) != 0 }

  predicate GpioClash(p: bv32, q: bv32) { And(p, q) != 0 }

  predicate NoConflicts(ds: seq<Driver>) {
    forall i, j :: 0 <= i < j < |ds| ==> !Conflict(ds[i], ds[j])
  }

  function Periphs(ds: seq<Driver>): bv32 {
    if ds == [] then 0 else Or(Periphs(ds[..|ds| - 1]), ds[|ds| - 1].usedPeriph)
  }

  function Gpios(ds: seq<Driver>): bv32 {
    if ds == [] then 0 else Or(Gpios(ds[..|ds| - 1]), ds[|ds| - 1].usedGpio)
  }

  lemma Distribute(a: bv32, b: bv32, m: bv32)
    ensures And(Or(a, b), m) == Or(And(a, m), And(b, m))
  {
  }

  lemma NonBusOr(x: bv32, y: bv32)
    ensures NonBus(Or(x, y)) == Or(NonBus(x), NonBus(y))
  {
    Distribute(x, y, !(DECK_USING_I2C | DECK_USING_SPI));
  }

  lemma OrZero(x: bv32, y: bv32)
    ensures Or(x, y) == 0 <==> x == 0 && y == 0
  {
    if Or(x, y) == 0 {
      OrZeroLeft(x, y);
      OrZeroRight(x, y);
    }
  }

  lemma OrZeroLeft(x: bv32, y: bv32)
    requires x | y == 0
    ensures x == 0
  {
  }

  lemma OrZeroRight(x: bv32, y: bv32)
    requires x | y == 0
    ensures y == 0
  {
  }

  lemma GpioClashOr(p: bv32, q: bv32, m: bv32)
    ensures GpioClash(Or(p, q), m) <==> GpioClash(p, m) || GpioClash(q, m)
  {
    Distribute(p, q, m);
    OrZero(And(p, m), And(q, m));
    hide And, Or;
  }

  lemma PeriphClashOr(p: bv32, q: bv32, m: bv32)
    ensures PeriphClash(Or(p, q), m) <==> PeriphClash(p, m) || PeriphClash(q, m)
  {
    hide And, Or, NonBus;
    Distribute(p, q, m);
    NonBusOr(And(p, m), And(q, m));
    OrZero(NonBus(And(p, m)), NonBus(And(q, m)));
  }

  lemma NoClash(m: bv32)
    ensures !PeriphClash(0, m) && !GpioClash(0, m)
  {
    hide And, NonBus;
    AndZero(m);
    NonBusZero();
  }

  lemma NonBusZero()
    ensures NonBus(0) == 0
  {
    AndZero(!(DECK_USING_I2C | DECK_USING_SPI));
  }

  lemma AndZero(m: bv32)
    ensures And(0, m) == 0
  {
  }

  predicate SomeConflict(ds: seq<Driver>, d: Driver) { exists e :: e in ds && Conflict(e, d) }

  lemma SomeConflictNext(ds: seq<Driver>, e: Driver, d: Driver)
    ensures SomeConflict(ds + [e], d) <==> SomeConflict(ds, d) || Conflict(e, d)
  {
    hide Conflict;
    if f :| f in ds && Conflict(f, d) {
      assert f in ds + [e];
    }
    if f :| f in ds + [e] && Conflict(f, d) {
      assert f in ds || f == e;
    }
    assert e in ds + [e];
  }

  // meeting the accumulated masks is meeting one of the decks before
  lemma {:induction false} MasksConflict(ds: seq<Driver>, d: Driver)
    ensures PeriphClash(Periphs(ds), d.usedPeriph) || GpioClash(Gpios(ds), d.usedGpio) <==>
            SomeConflict(ds, d)
  {
    NoClash(d.usedPeriph);
    NoClash(d.usedGpio);
    hide PeriphClash, GpioClash, Or;
    if ds != [] {
      var front, last := ds[..|ds| - 1], ds[|ds| - 1];
      MasksConflict(front, d);
      PeriphClashOr(Periphs(front), last.usedPeriph, d.usedPeriph);
      GpioClashOr(Gpios(front), last.usedGpio, d.usedGpio);
      assert Periphs(ds) == Or(Periphs(front), last.usedPeriph) && Gpios(ds) == Or(Gpios(front), last.usedGpio);
      assert ds == front + [last];
      SomeConflictNext(front, last, d);
    } else {
      assert Periphs(ds) == 0 && Gpios(ds) == 0;
    }
  }

  // ---------- estimators ----------

  predicate Agree(ds: seq<Driver>) {
    forall i, j ::
      0 <= i < |ds| && 0 <= j < |ds| && ds[i].requiredEstimator.Estimator? && ds[j].requiredEstimator.Estimator?
      ==> ds[i].requiredEstimator == ds[j].requiredEstimator
  }

  predicate AllAuto(ds: seq<Driver>) { forall i :: 0 <= i < |ds| ==> ds[i].requiredEstimator == AutoSelect }

  // r is the first estimator that is asked for, if any is
  predicate IsFirst(r: Estimator, ds: seq<Driver>) {
    if r == AutoSelect then AllAuto(ds)
    else exists i :: 0 <= i < |ds| && ds[i].requiredEstimator == r && AllAuto(ds[..i])
  }

  // decks that are kept all get the estimator they ask for
  lemma AgreeMeans(r: Estimator, ds: seq<Driver>)
    requires IsFirst(r, ds)
    ensures Agree(ds) <==> forall i :: 0 <= i < |ds| ==> ds[i].requiredEstimator in {AutoSelect, r}
  {
  }

  lemma AgreeNext(r: Estimator, ds: seq<Driver>, d: Driver)
    requires IsFirst(r, ds)
    ensures IsFirst(if r == AutoSelect then d.requiredEstimator else r, ds + [d])
    ensures Agree(ds + [d]) <==> Agree(ds) && (r == AutoSelect || d.requiredEstimator in {AutoSelect, r})
  {
    var e := ds + [d];
    assert e[..|ds|] == ds && e[|ds|] == d;
    var r' := if r == AutoSelect then d.requiredEstimator else r;
    FirstNext(r, ds, d);
    AgreeMeans(r, ds);
    AgreeMeans(r', e);
    hide IsFirst, Agree;
    forall i | 0 <= i < |ds|
      ensures e[i] == ds[i]
    {
    }
    if r == AutoSelect {
      assert forall i :: 0 <= i < |ds| ==> ds[i].requiredEstimator in {AutoSelect, r'};
    }
  }

  lemma FirstNext(r: Estimator, ds: seq<Driver>, d: Driver)
    requires IsFirst(r, ds)
    ensures IsFirst(if r == AutoSelect then d.requiredEstimator else r, ds + [d])
  {
    var e := ds + [d];
    if r != AutoSelect {
      var i :| 0 <= i < |ds| && ds[i].requiredEstimator == r && AllAuto(ds[..i]);
      assert e[..i] == ds[..i] && e[i].requiredEstimator == r;
    } else if d.requiredEstimator != AutoSelect {
      assert e[..|ds|] == ds && e[|ds|].requiredEstimator == d.requiredEstimator;
    }
  }

  predicate AnyLow(ds: seq<Driver>) { exists i :: 0 <= i < |ds| && ds[i].lowInterference }
  predicate AnyOff(ds: seq<Driver>) { exists i :: 0 <= i < |ds| && ds[i].attitudeReversionOff }

  class Decks {
    var count: nat
    const deckInfos: array<Driver>
    var requiredEstimator: Estimator
    var lowInterference: bool
    var attitudeReversionOff: bool
    var isInit: bool

    ghost predicate Valid()
      reads this
    {
      deckInfos.Length == DECK_MAX_COUNT && count <= DECK_MAX_COUNT
    }

    // the decks a caller can see
    ghost function Kept(): seq<Driver>
      reads this, deckInfos
      requires Valid()
    {
      deckInfos[..count]
    }

    constructor ()
      ensures Valid() && count == 0 && fresh(deckInfos) && !isInit
      ensures requiredEstimator == AutoSelect && !lowInterference && !attitudeReversionOff
    {
      deckInfos := new Driver[DECK_MAX_COUNT](_ => DUMMY_DRIVER);
      count, requiredEstimator, lowInterference, attitudeReversionOff, isInit := 0, AutoSelect, false, false, false;
    }

    method EnumerateDecks(backends: seq<Backend>)
      requires Valid()
      modifies this`count, deckInfos
      ensures Valid() && Kept() == FirstFew(Discovered(backends))
    {
      hide DriversOf, FirstFew, Discovered;
      FewOfFew([], Discovered(backends));
      assert backends[0..] == backends;
      var nDecks: nat := 0;
      var b := 0;
      FewOfFew([], []);
      while b < |backends|
        invariant Valid() && b <= |backends| && nDecks <= DECK_MAX_COUNT
        invariant FirstFew(deckInfos[..nDecks] + Discovered(backends[b..])) == FirstFew(Discovered(backends))
      {
        DiscoveredStep(backends, b);
        ghost var before, rest := deckInfos[..nDecks], Discovered(backends[b + 1..]);
        if backends[b].usable {
          nDecks := AddDecks(backends[b].decks, nDecks);
          FewOfFew(before + DriversOf(backends[b].decks), rest);
          assert before + DriversOf(backends[b].decks) + rest == before + Discovered(backends[b..]);
        }
        if nDecks >= DECK_MAX_COUNT {
          FewOfMore(deckInfos[..nDecks], rest);
          FewOfMore(deckInfos[..nDecks], []);
          break;
        }
        b := b + 1;
      }
      count := nDecks;
      FewEnough(deckInfos[..nDecks]);
      if b == |backends| {
        NoneDiscovered(backends[b..]);
        assert deckInfos[..nDecks] + [] == deckInfos[..nDecks];
      }
    }

    // the decks of one backend
    method AddDecks(decks: seq<Option<Driver>>, n: nat) returns (nDecks: nat)
      requires Valid() && n <= DECK_MAX_COUNT
      modifies deckInfos
      ensures Valid() && n <= nDecks <= DECK_MAX_COUNT
      ensures deckInfos[..nDecks] == FirstFew(old(deckInfos[..n]) + DriversOf(decks))
    {
      hide FirstFew, DriversOf;
      ghost var before := deckInfos[..n];
      nDecks := n;
      FewEnough(before);
      DriversNone();
      assert before + [] == before;
      var k := 0;
      while k < |decks|
        invariant k <= |decks| && n <= nDecks <= DECK_MAX_COUNT
        invariant deckInfos[..nDecks] == FirstFew(before + DriversOf(decks[..k]))
        invariant nDecks == DECK_MAX_COUNT || |before + DriversOf(decks[..k])| == nDecks
      {
        DriversNext(decks, k);
        if nDecks >= DECK_MAX_COUNT {
          FewOfFew(before + DriversOf(decks[..k]), DriversOf(decks[k..]));
          FewOfMore(deckInfos[..nDecks], DriversOf(decks[k..]));
          FewEnough(deckInfos[..nDecks]);
          assert before + DriversOf(decks) == before + DriversOf(decks[..k]) + DriversOf(decks[k..]);
          return;
        }
        FewEnough(before + DriversOf(decks[..k]));
        assert before + DriversOf(decks[..k + 1]) == before + DriversOf(decks[..k]) + [DriverOf(decks[k])];
        FewEnough(before + DriversOf(decks[..k + 1]));
        deckInfos[nDecks] := DriverOf(decks[k]);
        nDecks := nDecks + 1;
        k := k + 1;
      }
      assert decks[..k] == decks;
    }

    method CheckPeriphAndGpioConflicts()
      requires Valid()
      modifies this`count
      ensures Valid() && Kept() == if NoConflicts(old(Kept())) then old(Kept()) else []
    {
      hide PeriphClash, GpioClash, Conflict, NoConflicts, Or;
      ConflictsNone();
      var noError := true;
      var usedPeriph: bv32, usedGpio: bv32 := 0, 0;
      for i := 0 to count
        invariant count == old(count)
        invariant usedPeriph == Periphs(deckInfos[..i]) && usedGpio == Gpios(deckInfos[..i])
        invariant noError <==> NoConflicts(deckInfos[..i])
      {
        var d := deckInfos[i];
        ghost var ok := noError;
        noError := CheckDeck(usedPeriph, usedGpio, d, noError);
        MasksConflict(deckInfos[..i], d);
        ConflictsNext(deckInfos[..i], d);
        assert deckInfos[..i + 1] == deckInfos[..i] + [d];
        assert deckInfos[..i + 1][..i] == deckInfos[..i];
        usedPeriph := Or(usedPeriph, d.usedPeriph);
        usedGpio := Or(usedGpio, d.usedGpio);
      }
      if !noError {
        count := 0;
      }
    }

    // one deck against what the decks before it use
    method CheckDeck(usedPeriph: bv32, usedGpio: bv32, d: Driver, noError: bool) returns (ok: bool)
      ensures ok <==> noError && !PeriphClash(usedPeriph, d.usedPeriph) && !GpioClash(usedGpio, d.usedGpio)
    {
      NonBusZero();
      hide And, NonBus;
      ok := noError;
      var matchPeriph := And(usedPeriph, d.usedPeriph);
      if matchPeriph != 0 {
        if NonBus(matchPeriph) != 0 {
          ok := false;
        }
      }
      if And(usedGpio, d.usedGpio) != 0 {
        ok := false;
      }
    }

    // true means error
    method RegisterRequiredEstimator(estimator: Estimator) returns (isError: bool)
      modifies this`requiredEstimator
      ensures requiredEstimator == if old(requiredEstimator) == AutoSelect then estimator else old(requiredEstimator)
      ensures isError <==> estimator !in {AutoSelect, requiredEstimator}
    {
      isError := false;
      if estimator != AutoSelect {
        if requiredEstimator == AutoSelect {
          requiredEstimator := estimator;
        } else if requiredEstimator != estimator {
          isError := true;
        }
      }
    }

    // Once two decks disagree nothing more is registered, so that the first
    // requirement stays recorded although no deck is kept
    method ScanRequiredSystemProperties()
      requires Valid() && requiredEstimator == AutoSelect && !lowInterference && !attitudeReversionOff
      modifies this`count, this`requiredEstimator, this`lowInterference, this`attitudeReversionOff
      ensures Valid() && Kept() == if Agree(old(Kept())) then old(Kept()) else []
      ensures IsFirst(requiredEstimator, old(Kept()))
      ensures lowInterference == AnyLow(old(Kept())) && attitudeReversionOff == AnyOff(old(Kept()))
    {
      var isError := false;
      for i := 0 to count
        invariant count == old(count)
        invariant !isError <==> Agree(deckInfos[..i])
        invariant IsFirst(requiredEstimator, deckInfos[..i])
        invariant lowInterference == AnyLow(deckInfos[..i]) && attitudeReversionOff == AnyOff(deckInfos[..i])
      {
        var d := deckInfos[i];
        assert deckInfos[..i + 1] == deckInfos[..i] + [d];
        AgreeNext(requiredEstimator, deckInfos[..i], d);
        StillFirst(requiredEstimator, deckInfos[..i], d);
        AnyNext(deckInfos[..i], d);
        if !isError {
          isError := RegisterRequiredEstimator(d.requiredEstimator);
        }
        lowInterference := lowInterference || d.lowInterference;
        attitudeReversionOff := attitudeReversionOff || d.attitudeReversionOff;
      }
      if isError {
        count := 0;
      }
    }

    // All discovered decks are kept, or none
    method DeckInfoInit(backends: seq<Backend>)
      requires Valid()
      requires !isInit ==> requiredEstimator == AutoSelect && !lowInterference && !attitudeReversionOff
      modifies this, deckInfos
      ensures Valid() && isInit
      ensures old(isInit) ==> Kept() == old(Kept()) && requiredEstimator == old(requiredEstimator)
      ensures !old(isInit) ==>
        var found := FirstFew(Discovered(backends));
        && Kept() == (if NoConflicts(found) && Agree(found) then found else [])
        && IsFirst(requiredEstimator, if NoConflicts(found) then found else [])
    {
      if isInit {
        return;
      }
      EnumerateDecks(backends);
      CheckPeriphAndGpioConflicts();
      ScanRequiredSystemProperties();
      isInit := true;
    }
  }

  lemma FewOfMore(a: seq<Driver>, b: seq<Driver>)
    requires |a| == DECK_MAX_COUNT
    ensures FirstFew(a + b) == a
  {
  }

  lemma FewEnough(a: seq<Driver>)
    ensures |a| <= DECK_MAX_COUNT ==> FirstFew(a) == a
  {
  }

  lemma FewOfFew(a: seq<Driver>, b: seq<Driver>)
    ensures FirstFew(FirstFew(a) + b) == FirstFew(a + b)
    ensures [] + b == b
  {
  }

  lemma DriversNone()
    ensures forall d: seq<Option<Driver>> :: |d| == 0 ==> DriversOf(d) == []
  {
  }

  lemma DriversNext(decks: seq<Option<Driver>>, k: nat)
    requires k < |decks|
    ensures DriversOf(decks[..k + 1]) == DriversOf(decks[..k]) + [DriverOf(decks[k])]
    ensures DriversOf(decks) == DriversOf(decks[..k]) + DriversOf(decks[k..])
  {
  }

  lemma DiscoveredStep(backends: seq<Backend>, b: nat)
    requires b < |backends|
    ensures Discovered(backends[b..]) ==
            (if backends[b].usable then DriversOf(backends[b].decks) else []) + Discovered(backends[b + 1..])
    ensures !backends[b].usable ==> Discovered(backends[b..]) == Discovered(backends[b + 1..])
  {
    assert backends[b..][0] == backends[b] && backends[b..][1..] == backends[b + 1..];
  }

  lemma NoneDiscovered(backends: seq<Backend>)
    requires backends == []
    ensures Discovered(backends) == []
  {
  }

  lemma ConflictsNone()
    ensures forall ds | |ds| == 0 :: NoConflicts(ds)
  {
  }

  lemma ConflictsNext(ds: seq<Driver>, d: Driver)
    ensures NoConflicts(ds + [d]) <==> NoConflicts(ds) && !SomeConflict(ds, d)
  {
    hide Conflict;
    var all := ds + [d];
    assert all[|ds|] == d;
    forall i | 0 <= i < |ds|
      ensures all[i] == ds[i]
    {
    }
    if NoConflicts(all) {
      forall i, j | 0 <= i < j < |ds|
        ensures !Conflict(ds[i], ds[j])
      {
        assert !Conflict(all[i], all[j]);
      }
      forall e | e in ds
        ensures !Conflict(e, d)
      {
        var i :| 0 <= i < |ds| && ds[i] == e;
        assert !Conflict(all[i], all[|ds|]);
      }
    }
  }

  // after a disagreement the first requirement is there already
  lemma StillFirst(r: Estimator, ds: seq<Driver>, d: Driver)
    requires IsFirst(r, ds)
    ensures !Agree(ds) ==> r != AutoSelect
  {
  }

  lemma AnyNext(ds: seq<Driver>, d: Driver)
    ensures AnyLow(ds + [d]) <==> AnyLow(ds) || d.lowInterference
    ensures AnyOff(ds + [d]) <==> AnyOff(ds) || d.attitudeReversionOff
  {
    var e := ds + [d];
    assert e[|ds|] == d;
    forall i | 0 <= i < |ds|
      ensures e[i] == ds[i]
    {
    }
    if i :| 0 <= i < |ds| && ds[i].lowInterference {
      assert e[i].lowInterference;
    }
    if i :| 0 <= i < |ds| && ds[i].attitudeReversionOff {
      assert e[i].attitudeReversionOff;
    }
  }
}
