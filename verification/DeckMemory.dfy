/** The deck memory map (deck_memory.c): one info section, then one section for
    each of the two memories of every deck. */
module DeckMemory {
  import opened Options

  const DECK_MEM_MAX_SIZE: nat := 0x10000000
  const DECK_MEMORY_INFO_SIZE: nat := 0x20
  const VERSION: byte := 3
  const NAME_LEN_EX_ZERO_TERM: nat := 17
  const OFFS_NAME: nat := 0x0E

  type byte = b: int | 0 <= b < 0x100
  type uint32 = n: int | 0 <= n < 0x1_0000_0000

  // supported reads and so on stand for the callbacks that are not null
  datatype MemDef = MemDef(properties: byte, read: bool, write: bool, supportsUpgrade: bool,
                           requiredHash: uint32, requiredSize: uint32, id: Option<seq<byte>>,
                           resetToFw: bool, resetToBootloader: bool)

  datatype Deck = Deck(name: seq<byte>, mem: Option<MemDef>, secondary: Option<MemDef>)

  // The name, with :id, has to fit its field. A long name without id is cut.
  predicate Fits(name: seq<byte>, d: MemDef) {
    d.id.Some? ==> |name| + 1 + |d.id.value| <= NAME_LEN_EX_ZERO_TERM + 1
  }

  predicate DeckFits(deck: Deck) {
    && (deck.mem.Some? ==> Fits(deck.name, deck.mem.value))
    && (deck.secondary.Some? ==> Fits(deck.name, deck.secondary.value))
  }

  // ---------- the image the info section shows ----------

  predicate HasBit(b: byte, mask: int)
    requires mask > 0
  {
    b / mask % 2 == 1
  }

  function Bit(on: bool, mask: nat): (r: nat)
    ensures r == 0 || r == mask
  {
    if on then mask else 0
  }

  function Flags1(d: MemDef): byte {
    1 + Bit(HasBit(d.properties, 1), 2) + Bit(d.read, 4) + Bit(d.write, 8)
    + Bit(d.supportsUpgrade, 16) + Bit(HasBit(d.properties, 2), 32) + Bit(HasBit(d.properties, 4), 64)
  }

  function Flags2(d: MemDef): byte {
    Bit(d.resetToFw, 1) + Bit(d.resetToBootloader, 2)
  }

  // a uint32 as it lies in memory
  function Little(n: uint32): (s: seq<byte>)
    ensures |s| == 4
  {
    [n % 0x100, n / 0x100 % 0x100, n / 0x10000 % 0x100, n / 0x1000000]
  }

  function FromLittle(s: seq<byte>): (n: uint32)
    requires |s| == 4
  {
    s[0] as int + 0x100 * (s[1] as int) + 0x10000 * (s[2] as int) + 0x1000000 * (s[3] as int)
  }

  function Zeros(n: nat): (s: seq<byte>)
    ensures |s| == n
  {
    seq(n, i => 0)
  }

  function Cut(name: seq<byte>): (s: seq<byte>)
    ensures |s| <= NAME_LEN_EX_ZERO_TERM
  {
    if |name| <= NAME_LEN_EX_ZERO_TERM then name else name[..NAME_LEN_EX_ZERO_TERM]
  }

  const COLON: byte := 58

  function Label(name: seq<byte>, d: MemDef): seq<byte> {
    if d.id.Some? then name + [COLON] + d.id.value else Cut(name)
  }

  function Block(name: seq<byte>, d: MemDef, base: uint32): (s: seq<byte>)
    requires Fits(name, d)
    ensures |s| == DECK_MEMORY_INFO_SIZE
  {
    var shown := Label(name, d);
    [Flags1(d), Flags2(d)] + Little(d.requiredHash) + Little(d.requiredSize) + Little(base)
    + shown + Zeros(NAME_LEN_EX_ZERO_TERM + 1 - |shown|)
  }

  datatype Selector = Primary | Secondary {
    function Index(): nat { if this == Primary then 0 else 1 }
  }

  // computed in uint32
  function BaseAddress(deckNr: nat, sel: Selector): uint32 {
    (2 * deckNr + 1 + sel.Index()) * DECK_MEM_MAX_SIZE % 0x1_0000_0000
  }

  function MemOf(deck: Deck, sel: Selector): Option<MemDef> {
    if sel == Primary then deck.mem else deck.secondary
  }

  function HalfRecord(deck: Deck, deckNr: nat, sel: Selector): (s: seq<byte>)
    requires DeckFits(deck)
    ensures |s| == DECK_MEMORY_INFO_SIZE
  {
    match MemOf(deck, sel)
    case None => Zeros(DECK_MEMORY_INFO_SIZE)
    case Some(d) => Block(deck.name, d, BaseAddress(deckNr, sel))
  }

  function Record(deck: Deck, deckNr: nat): (s: seq<byte>)
    requires DeckFits(deck)
    ensures |s| == 2 * DECK_MEMORY_INFO_SIZE
  {
    HalfRecord(deck, deckNr, Primary) + HalfRecord(deck, deckNr, Secondary)
  }

  predicate AllFit(decks: seq<Deck>) { forall i :: 0 <= i < |decks| ==> DeckFits(decks[i]) }

  // The version, one record for each deck, then zeros
  function Image(decks: seq<Deck>, addr: nat): byte
    requires AllFit(decks)
  {
    if addr == 0 then VERSION
    else
      var deckNr, k := (addr - 1) / (2 * DECK_MEMORY_INFO_SIZE), (addr - 1) % (2 * DECK_MEMORY_INFO_SIZE);
      if deckNr < |decks| then Record(decks[deckNr], deckNr)[k] else 0
  }

  function Slice(decks: seq<Deck>, addr: nat, n: nat): (s: seq<byte>)
    requires AllFit(decks)
    ensures |s| == n
  {
    if n == 0 then [] else Slice(decks, addr, n - 1) + [Image(decks, addr + n - 1)]
  }

  lemma {:induction false} SliceAt(decks: seq<Deck>, addr: nat, n: nat, i: nat)
    requires AllFit(decks) && i < n
    ensures Slice(decks, addr, n)[i] == Image(decks, addr + i)
  {
    hide Image;
    if i < n - 1 {
      SliceAt(decks, addr, n - 1, i);
    }
  }

  // two adjacent reads show what one read shows
  lemma {:induction false} AdjacentReads(decks: seq<Deck>, addr: nat, n: nat, m: nat)
    requires AllFit(decks)
    ensures Slice(decks, addr, n) + Slice(decks, addr + n, m) == Slice(decks, addr, n + m)
  {
    hide Image;
    if m > 0 {
      AdjacentReads(decks, addr, n, m - 1);
    }
  }

  // ---------- filling the buffer ----------

  // result |= mask
  function SetBit(b: byte, mask: nat): byte
    requires 0 < mask <= 128
    requires HasBit(b, mask) || b + mask < 0x100
  {
    if HasBit(b, mask) then b else b + mask
  }

  method PopulateBitfield1(d: MemDef) returns (result: byte)
    ensures result == Flags1(d)
  {
    result := 1;
    if HasBit(d.properties, 1) { result := SetBit(result, 2); }
    if HasBit(d.properties, 2) { result := SetBit(result, 32); }
    if HasBit(d.properties, 4) { result := SetBit(result, 64); }
    if d.read { result := SetBit(result, 4); }
    if d.write { result := SetBit(result, 8); }
    if d.supportsUpgrade { result := SetBit(result, 16); }
  }

  method PopulateBitfield2(d: MemDef) returns (result: byte)
    ensures result == Flags2(d)
  {
    result := 0;
    if d.resetToFw { result := SetBit(result, 1); }
    if d.resetToBootloader { result := SetBit(result, 2); }
  }

  // s with data at offset at
  function Patched(s: seq<byte>, at: nat, data: seq<byte>): (r: seq<byte>)
    requires at + |data| <= |s|
    ensures |r| == |s|
  {
    s[..at] + data + s[at + |data|..]
  }

  lemma PatchNext(s: seq<byte>, at: nat, a: seq<byte>, b: seq<byte>)
    requires at + |a| + |b| <= |s|
    ensures Patched(Patched(s, at, a), at + |a|, b) == Patched(s, at, a + b)
  {
  }

  lemma PatchInside(s: seq<byte>, at: nat, a: seq<byte>, k: nat, b: seq<byte>)
    requires at + |a| <= |s| && k + |b| <= |a|
    ensures Patched(Patched(s, at, a), at + k, b) == Patched(s, at, Patched(a, k, b))
  {
  }

  // memcpy
  method Copy(buffer: array<byte>, at: nat, data: seq<byte>)
    requires at + |data| <= buffer.Length
    modifies buffer
    ensures buffer[..] == Patched(old(buffer[..]), at, data)
  {
    forall i | 0 <= i < |data| {
      buffer[at + i] := data[i];
    }
  }

  method PopulateDeckMemoryInfoBuffer(d: MemDef, name: seq<byte>, base: uint32, buffer: array<byte>, at: nat)
    requires Fits(name, d)
    requires at + DECK_MEMORY_INFO_SIZE <= buffer.Length
    requires buffer[at..at + DECK_MEMORY_INFO_SIZE] == Zeros(DECK_MEMORY_INFO_SIZE)
    modifies buffer
    ensures buffer[..] == Patched(old(buffer[..]), at, Block(name, d, base))
  {
    hide Flags1, Flags2, Little, Patched, Zeros;
    ghost var was := buffer[..];
    var b1 := PopulateBitfield1(d);
    var b2 := PopulateBitfield2(d);
    Copy(buffer, at, [b1, b2]);
    Copy(buffer, at + 2, Little(d.requiredHash));
    PatchNext(was, at, [b1, b2], Little(d.requiredHash));
    ghost var head := [b1, b2] + Little(d.requiredHash);
    Copy(buffer, at + 6, Little(d.requiredSize));
    PatchNext(was, at, head, Little(d.requiredSize));
    head := head + Little(d.requiredSize);
    Copy(buffer, at + 10, Little(base));
    PatchNext(was, at, head, Little(base));
    head := head + Little(base);
    // strncpy: cut, and padded with zeros
    var cut := Cut(name);
    var padded := cut + Zeros(NAME_LEN_EX_ZERO_TERM - |cut|);
    Copy(buffer, at + OFFS_NAME, padded);
    PatchNext(was, at, head, padded);
    LastZero(was, at, head + padded);
    if d.id.Some? {
      Copy(buffer, at + OFFS_NAME + |name|, [COLON]);
      Copy(buffer, at + OFFS_NAME + |name| + 1, d.id.value);
      PatchId(was, at, head, name, d.id.value);
    } else {
      Padding(head, cut);
    }
  }

  // the byte after the name is still zero
  lemma LastZero(s: seq<byte>, at: nat, data: seq<byte>)
    requires |data| == DECK_MEMORY_INFO_SIZE - 1 && at + DECK_MEMORY_INFO_SIZE <= |s|
    requires s[at..at + DECK_MEMORY_INFO_SIZE] == Zeros(DECK_MEMORY_INFO_SIZE)
    ensures Patched(s, at, data) == Patched(s, at, data + [0])
  {
    assert s[at + |data|] == s[at..at + DECK_MEMORY_INFO_SIZE][|data|] == 0;
  }

  lemma Padding(head: seq<byte>, cut: seq<byte>)
    requires |cut| <= NAME_LEN_EX_ZERO_TERM
    ensures head + (cut + Zeros(NAME_LEN_EX_ZERO_TERM - |cut|)) + [0]
        == head + cut + Zeros(NAME_LEN_EX_ZERO_TERM + 1 - |cut|)
  {
  }

  lemma PatchId(s: seq<byte>, at: nat, head: seq<byte>, name: seq<byte>, id: seq<byte>)
    requires |head| == OFFS_NAME && |name| + 1 + |id| <= NAME_LEN_EX_ZERO_TERM + 1
    requires at + DECK_MEMORY_INFO_SIZE <= |s|
    ensures var all := head + (Cut(name) + Zeros(NAME_LEN_EX_ZERO_TERM - |name|)) + [0];
      Patched(Patched(Patched(s, at, all), at + OFFS_NAME + |name|, [COLON]), at + OFFS_NAME + |name| + 1, id)
      == Patched(s, at, head + (name + [COLON] + id) + Zeros(NAME_LEN_EX_ZERO_TERM + 1 - (|name| + 1 + |id|)))
  {
    var all := head + (Cut(name) + Zeros(NAME_LEN_EX_ZERO_TERM - |name|)) + [0];
    var k := OFFS_NAME + |name|;
    hide Zeros, Cut;
    PatchInside(s, at, all, k, [COLON]);
    PatchInside(s, at, Patched(all, k, [COLON]), k + 1, id);
    hide Patched;
    NamePatched(head, name, id);
  }

  lemma NamePatched(head: seq<byte>, name: seq<byte>, id: seq<byte>)
    requires |head| == OFFS_NAME && |name| + 1 + |id| <= NAME_LEN_EX_ZERO_TERM + 1
    ensures var all := head + (Cut(name) + Zeros(NAME_LEN_EX_ZERO_TERM - |name|)) + [0];
      var k := OFFS_NAME + |name|;
      Patched(Patched(all, k, [COLON]), k + 1, id)
      == head + (name + [COLON] + id) + Zeros(NAME_LEN_EX_ZERO_TERM + 1 - (|name| + 1 + |id|))
  {
    hide Patched, Zeros, Cut;
    var n := NAME_LEN_EX_ZERO_TERM - |name|;
    PaddedSplit(head, name, n);
    PatchHere(head + name, [0], Zeros(n), [COLON]);
    var front := head + name + [COLON];
    ZerosSplit(|id|, n - |id|);
    PatchHere(front, Zeros(|id|), Zeros(n - |id|), id);
    assert front + id == head + (name + [COLON] + id);
  }

  // the zeros after the name, with the first of them apart
  lemma PaddedSplit(head: seq<byte>, name: seq<byte>, n: nat)
    requires |name| + n == NAME_LEN_EX_ZERO_TERM
    ensures head + (Cut(name) + Zeros(n)) + [0] == head + name + [0] + Zeros(n)
  {
    assert Zeros(n) + [0] == [0] + Zeros(n);
    var z := Zeros(n);
    hide Zeros;
    assert head + (name + z) + [0] == head + name + (z + [0]);
    assert head + name + ([0] + z) == head + name + [0] + z;
  }

  lemma ZerosSplit(n: nat, m: nat)
    ensures Zeros(n) + Zeros(m) == Zeros(n + m)
  {
  }

  lemma PatchHere(a: seq<byte>, b: seq<byte>, c: seq<byte>, data: seq<byte>)
    requires |data| == |b|
    ensures Patched(a + b + c, |a|, data) == a + data + c
    ensures a + b + c == a + (b + c)
  {
    assert (a + b + c)[..|a|] == a && (a + b + c)[|a| + |b|..] == c;
  }

  method PopulateDeckMemoryInfos(buffer: array<byte>, deckNr: nat, decks: seq<Deck>)
    requires deckNr < |decks| && DeckFits(decks[deckNr]) && buffer.Length == 2 * DECK_MEMORY_INFO_SIZE
    modifies buffer
    ensures buffer[..] == Record(decks[deckNr], deckNr)
  {
    hide Block, Fits;
    var deck := decks[deckNr];
    forall i | 0 <= i < buffer.Length {
      buffer[i] := 0;
    }
    assert buffer[..] == Zeros(DECK_MEMORY_INFO_SIZE) + Zeros(DECK_MEMORY_INFO_SIZE);
    if deck.mem.Some? {
      PopulateDeckMemoryInfoBuffer(deck.mem.value, deck.name, BaseAddress(deckNr, Primary), buffer, 0);
    }
    assert buffer[..] == HalfRecord(deck, deckNr, Primary) + Zeros(DECK_MEMORY_INFO_SIZE);
    if deck.secondary.Some? {
      assert buffer[32..64] == buffer[..][32..64] == Zeros(DECK_MEMORY_INFO_SIZE);
      PopulateDeckMemoryInfoBuffer(deck.secondary.value, deck.name, BaseAddress(deckNr, Secondary), buffer,
          DECK_MEMORY_INFO_SIZE);
    }
    assert buffer[..] == HalfRecord(deck, deckNr, Primary) + HalfRecord(deck, deckNr, Secondary);
  }

  method HandleInfoSectionRead(memAddr: uint32, readLen: byte, buffer: array<byte>, decks: seq<Deck>)
    requires memAddr < DECK_MEM_MAX_SIZE && readLen <= buffer.Length && AllFit(decks)
    modifies buffer
    ensures buffer[..] == Patched(old(buffer[..]), 0, Slice(decks, memAddr, readLen))
  {
    hide Record, Image, Slice, Patched, Zeros;
    ghost var was := buffer[..];
    var index: nat := 0;
    var bytesLeft: byte := readLen;
    Copy(buffer, 0, Zeros(readLen));
    StartSlice(decks, memAddr, was, readLen);
    if memAddr + index == 0 && bytesLeft > 0 {
      Copy(buffer, index, [VERSION]);
      FirstByte(decks);
      PatchSlice(decks, was, 0, 0, 1, readLen);
      index := index + 1;
      bytesLeft := bytesLeft - 1;
    }
    while bytesLeft > 0
      invariant index + bytesLeft == readLen
      invariant bytesLeft > 0 ==> memAddr + index > 0
      invariant buffer[..] == Patched(was, 0, Slice(decks, memAddr, index) + Zeros(bytesLeft))
      decreases bytesLeft
    {
      var deckNr := (memAddr + index - 1) / (2 * DECK_MEMORY_INFO_SIZE);
      if deckNr >= |decks| {
        AfterDecks(decks, memAddr + index, bytesLeft);
        AdjacentReads(decks, memAddr, index, bytesLeft);
        return;
      }
      var bytesToUse := CopyRecord(memAddr + index, bytesLeft, buffer, index, deckNr, decks);
      PatchSlice(decks, was, memAddr, index, bytesToUse, readLen);
      bytesLeft := bytesLeft - bytesToUse;
      index := index + bytesToUse;
    }
    Whole(decks, memAddr, readLen);
  }

  // what one deck contributes to the read
  method CopyRecord(addr: nat, bytesLeft: byte, buffer: array<byte>, index: nat, deckNr: nat, decks: seq<Deck>)
    returns (bytesToUse: nat)
    requires AllFit(decks) && deckNr < |decks| && addr > 0 && deckNr == (addr - 1) / (2 * DECK_MEMORY_INFO_SIZE)
    requires 0 < bytesLeft && index + bytesLeft <= buffer.Length
    modifies buffer
    ensures 0 < bytesToUse <= bytesLeft
    ensures buffer[..] == Patched(old(buffer[..]), index, Slice(decks, addr, bytesToUse))
  {
    hide Record, Image, Slice, Patched, Zeros;
    var deckMemoryInfo := new byte[2 * DECK_MEMORY_INFO_SIZE];
    PopulateDeckMemoryInfos(deckMemoryInfo, deckNr, decks);
    var startAddrOfThisInfo := deckNr * (2 * DECK_MEMORY_INFO_SIZE) + 1;
    var firstByteToUse := addr - startAddrOfThisInfo;
    bytesToUse := 2 * DECK_MEMORY_INFO_SIZE - firstByteToUse;
    if bytesLeft < bytesToUse {
      bytesToUse := bytesLeft;
    }
    var data := deckMemoryInfo[firstByteToUse..firstByteToUse + bytesToUse];
    RecordSlice(decks, deckNr, firstByteToUse, bytesToUse);
    assert data == Record(decks[deckNr], deckNr)[firstByteToUse..firstByteToUse + bytesToUse];
    Copy(buffer, index, data);
  }

  lemma Whole(decks: seq<Deck>, addr: nat, n: nat)
    requires AllFit(decks)
    ensures Slice(decks, addr, n) + Zeros(0) == Slice(decks, addr, n)
  {
  }

  lemma StartSlice(decks: seq<Deck>, addr: nat, was: seq<byte>, n: nat)
    requires AllFit(decks) && n <= |was|
    ensures Patched(was, 0, Zeros(n)) == Patched(was, 0, Slice(decks, addr, 0) + Zeros(n))
  {
    assert Slice(decks, addr, 0) + Zeros(n) == Zeros(n);
  }

  lemma FirstByte(decks: seq<Deck>)
    requires AllFit(decks)
    ensures [VERSION] == Slice(decks, 0, 1) == [3]
  {
  }

  // writing the next part of the image moves the zeros further back
  lemma PatchSlice(decks: seq<Deck>, was: seq<byte>, addr: nat, index: nat, more: nat, n: nat)
    requires AllFit(decks) && index + more <= n <= |was|
    ensures var before := Patched(was, 0, Slice(decks, addr, index) + Zeros(n - index));
      Patched(before, index, Slice(decks, addr + index, more))
      == Patched(was, 0, Slice(decks, addr, index + more) + Zeros(n - index - more))
  {
    var a, b := Slice(decks, addr, index), Slice(decks, addr + index, more);
    hide *;
    PatchInside(was, 0, a + Zeros(n - index), index, b);
    AdjacentReads(decks, addr, index, more);
    ZerosSplit(more, n - index - more);
    PatchHere(a, Zeros(more), Zeros(n - index - more), b);
  }

  lemma {:induction false} RecordSlice(decks: seq<Deck>, deckNr: nat, first: nat, n: nat)
    requires AllFit(decks) && deckNr < |decks| && first + n <= 2 * DECK_MEMORY_INFO_SIZE
    ensures Record(decks[deckNr], deckNr)[first..first + n]
            == Slice(decks, deckNr * (2 * DECK_MEMORY_INFO_SIZE) + 1 + first, n)
  {
    hide Record, Image;
    if n > 0 {
      RecordSlice(decks, deckNr, first, n - 1);
      InRecord(decks, deckNr, first + n - 1);
      var r, addr := Record(decks[deckNr], deckNr), deckNr * (2 * DECK_MEMORY_INFO_SIZE) + 1 + first;
      assert r[first..first + n] == r[first..first + n - 1] + [r[first + n - 1]];
      assert Slice(decks, addr, n) == Slice(decks, addr, n - 1) + [Image(decks, addr + n - 1)];
    }
  }

  lemma InRecord(decks: seq<Deck>, deckNr: nat, k: nat)
    requires AllFit(decks) && deckNr < |decks| && k < 2 * DECK_MEMORY_INFO_SIZE
    ensures Image(decks, deckNr * (2 * DECK_MEMORY_INFO_SIZE) + 1 + k) == Record(decks[deckNr], deckNr)[k]
  {
    assert (deckNr * 64 + k) / 64 == deckNr && (deckNr * 64 + k) % 64 == k;
  }

  lemma {:induction false} AfterDecks(decks: seq<Deck>, addr: nat, n: nat)
    requires AllFit(decks) && addr > 0 && (addr - 1) / (2 * DECK_MEMORY_INFO_SIZE) >= |decks|
    ensures Slice(decks, addr, n) == Zeros(n)
  {
    hide Image, AllFit;
    if n > 0 {
      AfterDecks(decks, addr, n - 1);
      ImageAfter(decks, addr + n - 1);
      ZerosSplit(n - 1, 1);
      assert Zeros(1) == [0];
    }
  }

  lemma ImageAfter(decks: seq<Deck>, addr: nat)
    requires AllFit(decks) && addr > 0 && (addr - 1) / (2 * DECK_MEMORY_INFO_SIZE) >= |decks|
    ensures Image(decks, addr) == 0
  {
  }

  // ---------- what a client reads ----------

  datatype Info = Info(valid: bool, started: bool, read: bool, write: bool, upgrade: bool, required: bool,
                       bootloader: bool, toFw: bool, toBootloader: bool, hash: uint32, size: uint32,
                       base: uint32, shown: seq<byte>)

  // the bytes up to the first zero
  function CStr(s: seq<byte>): seq<byte> {
    if s == [] || s[0] == 0 then [] else [s[0]] + CStr(s[1..])
  }

  // a deck memory info, by the documented layout
  function Parse(s: seq<byte>): Info
    requires |s| == DECK_MEMORY_INFO_SIZE
  {
    Info(HasBit(s[0], 1), HasBit(s[0], 2), HasBit(s[0], 4), HasBit(s[0], 8), HasBit(s[0], 16),
         HasBit(s[0], 32), HasBit(s[0], 64), HasBit(s[1], 1), HasBit(s[1], 2),
         FromLittle(s[2..6]), FromLittle(s[6..10]), FromLittle(s[10..14]), CStr(s[14..]))
  }

  // what a client should learn
  function InfoOf(name: seq<byte>, d: MemDef, base: uint32): Info {
    Info(true, HasBit(d.properties, 1), d.read, d.write, d.supportsUpgrade, HasBit(d.properties, 2),
         HasBit(d.properties, 4), d.resetToFw, d.resetToBootloader, d.requiredHash, d.requiredSize,
         base, Label(name, d))
  }

  lemma FlagsRead(d: MemDef)
    ensures var f := Flags1(d);
      && HasBit(f, 1) && HasBit(f, 2) == HasBit(d.properties, 1) && HasBit(f, 4) == d.read
      && HasBit(f, 8) == d.write && HasBit(f, 16) == d.supportsUpgrade
      && HasBit(f, 32) == HasBit(d.properties, 2) && HasBit(f, 64) == HasBit(d.properties, 4)
    ensures HasBit(Flags2(d), 1) == d.resetToFw && HasBit(Flags2(d), 2) == d.resetToBootloader
  {
    var a, b, c := HasBit(d.properties, 1), HasBit(d.properties, 2), HasBit(d.properties, 4);
    hide HasBit;
    FlagBits(a, d.read, d.write, d.supportsUpgrade, b, c);
    FlagBits(d.resetToBootloader, false, false, false, false, false);
    HasBitIs(Flags1(d));
    HasBitIs(Flags2(d));
  }

  lemma HasBitIs(b: byte)
    ensures forall m | m > 0 :: HasBit(b, m) == (b / m % 2 == 1)
  {
  }

  lemma FlagBits(a: bool, b: bool, c: bool, d: bool, e: bool, f: bool)
    ensures var n := Bit(a, 2) + Bit(b, 4) + Bit(c, 8) + Bit(d, 16) + Bit(e, 32) + Bit(f, 64);
      && (1 + n) % 2 == 1 && n % 2 == 0
      && ((1 + n) / 2 % 2 == 1) == a && (n / 2 % 2 == 1) == a
      && ((1 + n) / 4 % 2 == 1) == b && ((1 + n) / 8 % 2 == 1) == c && ((1 + n) / 16 % 2 == 1) == d
      && ((1 + n) / 32 % 2 == 1) == e && ((1 + n) / 64 % 2 == 1) == f
  {
    var n6 := Bit(f, 1);
    var n5 := Bit(e, 1) + 2 * n6;
    var n4 := Bit(d, 1) + 2 * n5;
    var n3 := Bit(c, 1) + 2 * n4;
    var n2 := Bit(b, 1) + 2 * n3;
    var n1 := Bit(a, 1) + 2 * n2;
    var n := 2 * n1;
    assert n == Bit(a, 2) + Bit(b, 4) + Bit(c, 8) + Bit(d, 16) + Bit(e, 32) + Bit(f, 64);
    assert (1 + n) / 2 == n / 2 == n1;
    assert (1 + n) / 4 == n1 / 2 == n2;
    assert (1 + n) / 8 == n2 / 2 == n3;
    assert (1 + n) / 16 == n3 / 2 == n4;
    assert (1 + n) / 32 == n4 / 2 == n5;
    assert (1 + n) / 64 == n5 / 2 == n6;
  }

  lemma LittleInverse(n: uint32)
    ensures FromLittle(Little(n)) == n
  {
    assert n / 0x10000 == n / 0x100 / 0x100;
    assert n / 0x1000000 == n / 0x100 / 0x100 / 0x100;
  }

  lemma {:induction false} CStrPadded(s: seq<byte>, n: nat)
    requires 0 !in s
    ensures CStr(s + Zeros(n)) == s
  {
    if s != [] {
      assert (s + Zeros(n))[1..] == s[1..] + Zeros(n);
      CStrPadded(s[1..], n);
    }
  }

  // Every field of a memory definition can be read back
  lemma BlockParsed(name: seq<byte>, d: MemDef, base: uint32)
    requires Fits(name, d) && 0 !in name && (d.id.Some? ==> 0 !in d.id.value)
    ensures Parse(Block(name, d, base)) == InfoOf(name, d, base)
  {
    FlagsRead(d);
    LittleInverse(d.requiredHash);
    LittleInverse(d.requiredSize);
    LittleInverse(base);
    var shown := Label(name, d);
    CStrPadded(shown, NAME_LEN_EX_ZERO_TERM + 1 - |shown|);
    hide HasBit, Flags1, Flags2, Little, FromLittle, Label, CStr, Zeros;
    Fields(Block(name, d, base), Flags1(d), Flags2(d), Little(d.requiredHash), Little(d.requiredSize), Little(base),
           shown, Zeros(NAME_LEN_EX_ZERO_TERM + 1 - |shown|));
  }

  lemma Fields(s: seq<byte>, b1: byte, b2: byte, hash: seq<byte>, size: seq<byte>, base: seq<byte>, name: seq<byte>,
               rest: seq<byte>)
    requires |hash| == |size| == |base| == 4 && |name| + |rest| == 18
    requires s == [b1, b2] + hash + size + base + name + rest
    ensures s[0] == b1 && s[1] == b2 && s[2..6] == hash && s[6..10] == size && s[10..14] == base
    ensures s[14..] == name + rest
  {
    assert s == [b1, b2] + (hash + (size + base + name + rest));
    assert s == [b1, b2] + hash + (size + (base + name + rest));
    assert s == [b1, b2] + hash + size + (base + (name + rest));
    assert s == [b1, b2] + hash + size + base + (name + rest);
    Parts([b1, b2], hash, size + base + name + rest, s);
    Parts([b1, b2] + hash, size, base + name + rest, s);
    Parts([b1, b2] + hash + size, base, name + rest, s);
    Parts([b1, b2] + hash + size + base, name, rest, s);
  }

  lemma Parts(a: seq<byte>, b: seq<byte>, c: seq<byte>, s: seq<byte>)
    ensures s == a + (b + c) ==> |a| + |b| <= |s| && s[|a|..|a| + |b|] == b && s[|a|..] == b + c
  {
  }

  // For every deck, reading its two records at the documented addresses gives
  // back both memory definitions, or a record that is not valid
  lemma DeckParsed(decks: seq<Deck>, deckNr: nat, sel: Selector)
    requires AllFit(decks) && deckNr < |decks| && 0 !in decks[deckNr].name
    requires var m := MemOf(decks[deckNr], sel); m.Some? && m.value.id.Some? ==> 0 !in m.value.id.value
    ensures var info := Parse(Slice(decks, 1 + 0x40 * deckNr + 0x20 * sel.Index(), 0x20));
      match MemOf(decks[deckNr], sel)
      case None => !info.valid
      case Some(d) => info == InfoOf(decks[deckNr].name, d, BaseAddress(deckNr, sel))
  {
    var deck := decks[deckNr];
    HalfSlice(decks, deckNr, sel);
    NotValid();
    hide Slice, Parse, Block, BaseAddress, InfoOf;
    match MemOf(deck, sel)
    case None =>
    case Some(d) => BlockParsed(deck.name, d, BaseAddress(deckNr, sel));
  }

  lemma HalfSlice(decks: seq<Deck>, deckNr: nat, sel: Selector)
    requires AllFit(decks) && deckNr < |decks|
    ensures Slice(decks, 1 + 0x40 * deckNr + 0x20 * sel.Index(), 0x20) == HalfRecord(decks[deckNr], deckNr, sel)
  {
    hide HalfRecord, Slice;
    var first := 0x20 * sel.Index();
    RecordSlice(decks, deckNr, first, 0x20);
    var a, b := HalfRecord(decks[deckNr], deckNr, Primary), HalfRecord(decks[deckNr], deckNr, Secondary);
    assert (a + b)[0..0x20] == a && (a + b)[0x20..0x40] == b;
    assert Record(decks[deckNr], deckNr)[first..first + 0x20] == if sel == Primary then a else b;
  }

  lemma NotValid()
    ensures !Parse(Zeros(DECK_MEMORY_INFO_SIZE)).valid
  {
    hide CStr, FromLittle;
  }

  // a flag at its place in a byte
  function If(on: bool, value: nat): nat { if on then value else 0 }

  predicate LittleAt(s: seq<byte>, at: nat, n: uint32)
    requires at + 4 <= |s|
  {
    n == s[at] as int + 0x100 * s[at + 1] as int + 0x10000 * s[at + 2] as int + 0x1000000 * s[at + 3] as int
  }

  // What a client reads for one memory of a deck, byte by byte
  lemma ImageLayout(decks: seq<Deck>, deckNr: nat, second: bool)
    requires AllFit(decks) && deckNr < |decks|
    ensures Slice(decks, 0, 1) == [3]
    ensures var s := Slice(decks, 1 + 0x40 * deckNr + (if second then 0x20 else 0), 0x20);
      match if second then decks[deckNr].secondary else decks[deckNr].mem
      case None => s == Zeros(32)
      case Some(d) => DescribesMemory(s, decks[deckNr].name, d,
                                      0x10000000 * (2 * deckNr + if second then 2 else 1) % 0x1_0000_0000)
  {
    hide *;
    FirstByte(decks);
    HalfSlice(decks, deckNr, if second then Secondary else Primary);
    HalfDescribed(decks, deckNr, second);
  }

  lemma HalfDescribed(decks: seq<Deck>, deckNr: nat, second: bool)
    requires AllFit(decks) && deckNr < |decks|
    ensures var sel := if second then Secondary else Primary; var s := HalfRecord(decks[deckNr], deckNr, sel);
      && sel.Index() == (if second then 1 else 0)
      && match if second then decks[deckNr].secondary else decks[deckNr].mem
         case None => s == Zeros(32)
         case Some(d) => DescribesMemory(s, decks[deckNr].name, d,
                                         0x10000000 * (2 * deckNr + if second then 2 else 1) % 0x1_0000_0000)
  {
    var sel := if second then Secondary else Primary;
    var deck := decks[deckNr];
    hide Block, DescribesMemory, Zeros, Fits;
    match MemOf(deck, sel)
    case None =>
    case Some(d) => BlockBytes(deck.name, d, BaseAddress(deckNr, sel));
  }

  predicate DescribesMemory(s: seq<byte>, name: seq<byte>, d: MemDef, base: uint32) {
    var text := if d.id.Some? then name + [58] + d.id.value else if |name| <= 17 then name else name[..17];
    && |s| == 32
    && s[0] as int == 1 + If(d.properties % 2 == 1, 2) + If(d.read, 4) + If(d.write, 8)
         + If(d.supportsUpgrade, 16) + If(d.properties / 2 % 2 == 1, 32) + If(d.properties / 4 % 2 == 1, 64)
    && s[1] as int == If(d.resetToFw, 1) + If(d.resetToBootloader, 2)
    && LittleAt(s, 2, d.requiredHash) && LittleAt(s, 6, d.requiredSize) && LittleAt(s, 10, base)
    && forall k :: 14 <= k < 32 ==> s[k] == if k - 14 < |text| then text[k - 14] else 0
  }

  lemma BlockBytes(name: seq<byte>, d: MemDef, base: uint32)
    requires Fits(name, d)
    ensures DescribesMemory(Block(name, d, base), name, d, base)
  {
    var s, shown := Block(name, d, base), Label(name, d);
    var rest := Zeros(18 - |shown|);
    Fields(s, Flags1(d), Flags2(d), Little(d.requiredHash), Little(d.requiredSize), Little(base), shown, rest);
    LittleBytes(s, 2, d.requiredHash);
    LittleBytes(s, 6, d.requiredSize);
    LittleBytes(s, 10, base);
    hide Little, Block, LittleAt;
    assert forall k :: 14 <= k < 32 ==> s[k] == s[14..][k - 14];
  }

  lemma LittleBytes(s: seq<byte>, at: nat, n: uint32)
    requires at + 4 <= |s| && s[at..at + 4] == Little(n)
    ensures LittleAt(s, at, n)
  {
    LittleInverse(n);
    var t := s[at..at + 4];
    assert s[at] == t[0] && s[at + 1] == t[1] && s[at + 2] == t[2] && s[at + 3] == t[3];
    assert s[at] == Little(n)[0] && s[at + 1] == Little(n)[1] && s[at + 2] == Little(n)[2] && s[at + 3] == Little(n)[3];
    hide Little;
  }

  // ---------- routing ----------

  datatype Routed = InfoSection | DeckSection(deckNr: nat, sel: Selector) | Nowhere

  // the section decoding of handleMemRead and handleMemWrite
  function Route(memAddr: uint32, nrOfDecks: nat): Routed {
    var section := memAddr / DECK_MEM_MAX_SIZE;
    if section == 0 then InfoSection
    else
      var deckNr := (section - 1) / 2;
      if deckNr < nrOfDecks * 2 then DeckSection(deckNr, if (section - 1) % 2 == 0 then Primary else Secondary)
      else Nowhere
  }

  // the address handed to the deck, computed in uint32
  function DeckAddress(memAddr: uint32, deckNr: nat, sel: Selector): uint32 {
    (memAddr - BaseAddress(deckNr, sel)) % 0x1_0000_0000
  }

  // Adding any offset to an advertised base address leads to the same memory
  // of the same deck at that offset, as long as the base does not wrap
  lemma BaseRoutes(deckNr: nat, sel: Selector, offset: nat, nrOfDecks: nat)
    requires deckNr < nrOfDecks && offset < DECK_MEM_MAX_SIZE && 2 * deckNr + 1 + sel.Index() < 16
    ensures BaseAddress(deckNr, sel) == 0x10000000 * (2 * deckNr + if sel == Primary then 1 else 2)
    ensures BaseAddress(deckNr, sel) + offset < 0x1_0000_0000
    ensures var addr := BaseAddress(deckNr, sel) + offset;
      Route(addr, nrOfDecks) == DeckSection(deckNr, sel) && DeckAddress(addr, deckNr, sel) == offset
  {
    var k := 2 * deckNr + 1 + sel.Index();
    assert BaseAddress(deckNr, sel) == k * DECK_MEM_MAX_SIZE;
  }

  // Conversely a routed address is one of that memory and no other
  lemma RouteIsBase(memAddr: uint32, nrOfDecks: nat, deckNr: nat, sel: Selector)
    ensures Route(memAddr, nrOfDecks) == DeckSection(deckNr, sel) <==>
      && deckNr < 2 * nrOfDecks && 2 * deckNr + 1 + sel.Index() < 16
      && BaseAddress(deckNr, sel) <= memAddr < BaseAddress(deckNr, sel) + DECK_MEM_MAX_SIZE
  {
    var k := 2 * deckNr + 1 + sel.Index();
    if k < 16 {
      assert BaseAddress(deckNr, sel) == k * DECK_MEM_MAX_SIZE;
    }
  }

  // The guard lets an address through that belongs to no deck exactly when it
  // lies in the second half of the decks the guard counts
  lemma GuardTooWide(memAddr: uint32, nrOfDecks: nat)
    ensures (exists nr: nat, sel | nr >= nrOfDecks :: Route(memAddr, nrOfDecks) == DeckSection(nr, sel)) <==>
            (2 * nrOfDecks + 1) * DECK_MEM_MAX_SIZE <= memAddr < (4 * nrOfDecks + 1) * DECK_MEM_MAX_SIZE
  {
    var section := memAddr / DECK_MEM_MAX_SIZE;
    if (2 * nrOfDecks + 1) * DECK_MEM_MAX_SIZE <= memAddr < (4 * nrOfDecks + 1) * DECK_MEM_MAX_SIZE {
      assert 2 * nrOfDecks + 1 <= section < 4 * nrOfDecks + 1;
      var nr, sel := (section - 1) / 2, if (section - 1) % 2 == 0 then Primary else Secondary;
      assert Route(memAddr, nrOfDecks) == DeckSection(nr, sel);
    }
  }

  // what happened on a read: the deck's own read function may have been called
  datatype ReadDone = InfoRead | DeckRead(deckNr: nat, sel: Selector, address: uint32) | Refused

  // address a of the readable memory sel of deck nr is at memAddr
  predicate Reaches(memAddr: uint32, decks: seq<Deck>, nr: nat, sel: Selector, a: uint32) {
    && nr < |decks| && 2 * nr + 1 + sel.Index() < 16
    && MemOf(decks[nr], sel).Some? && MemOf(decks[nr], sel).value.read
    && a < DECK_MEM_MAX_SIZE && memAddr == BaseAddress(nr, sel) + a
  }

  lemma ReachesRouted(memAddr: uint32, decks: seq<Deck>, nr: nat, sel: Selector, a: uint32)
    ensures Reaches(memAddr, decks, nr, sel, a) <==>
      && Route(memAddr, |decks|) == DeckSection(nr, sel) && nr < |decks|
      && MemOf(decks[nr], sel).Some? && MemOf(decks[nr], sel).value.read
      && a == DeckAddress(memAddr, nr, sel)
  {
    RouteIsBase(memAddr, |decks|, nr, sel);
    if nr < |decks| && 2 * nr + 1 + sel.Index() < 16 && a < DECK_MEM_MAX_SIZE {
      BaseRoutes(nr, sel, a, |decks|);
    }
  }

  lemma PatchNone(s: seq<byte>)
    ensures Patched(s, 0, []) == s
  {
  }

  method HandleMemRead(memAddr: uint32, readLen: byte, buffer: array<byte>, decks: seq<Deck>) returns (done: ReadDone)
    requires readLen <= buffer.Length && AllFit(decks)
    // the addresses of no deck that the guard lets through
    requires !((2 * |decks| + 1) * DECK_MEM_MAX_SIZE <= memAddr < (4 * |decks| + 1) * DECK_MEM_MAX_SIZE)
    modifies buffer
    ensures done == InfoRead <==> memAddr < DECK_MEM_MAX_SIZE
    ensures buffer[..] == Patched(old(buffer[..]), 0, if done == InfoRead then Slice(decks, memAddr, readLen) else [])
    ensures forall nr: nat, sel, a: uint32 :: done == DeckRead(nr, sel, a) <==> Reaches(memAddr, decks, nr, sel, a)
  {
    forall nr: nat, sel, a: uint32
      ensures Reaches(memAddr, decks, nr, sel, a) <==>
        && Route(memAddr, |decks|) == DeckSection(nr, sel) && nr < |decks|
        && MemOf(decks[nr], sel).Some? && MemOf(decks[nr], sel).value.read
        && a == DeckAddress(memAddr, nr, sel)
    {
      ReachesRouted(memAddr, decks, nr, sel, a);
    }
    PatchNone(buffer[..]);
    GuardTooWide(memAddr, |decks|);
    hide Slice, AllFit, Patched, Reaches, DeckAddress, BaseAddress;
    var section := memAddr / DECK_MEM_MAX_SIZE;
    if section == 0 {
      HandleInfoSectionRead(memAddr, readLen, buffer, decks);
      done := InfoRead;
    } else {
      var sel := if (section - 1) % 2 == 0 then Primary else Secondary;
      var deckNr := (section - 1) / 2;
      done := Refused;
      if deckNr < |decks| * 2 {
        assert Route(memAddr, |decks|) == DeckSection(deckNr, sel);
        done := HandleDeckSectionRead(memAddr, deckNr, sel, decks);
      } else {
        assert Route(memAddr, |decks|) == Nowhere;
      }
    }
  }

  lemma BaseIs(deckNr: nat, sel: Selector)
    ensures BaseAddress(deckNr, sel)
         == ((2 * deckNr + 1) * DECK_MEM_MAX_SIZE + sel.Index() * DECK_MEM_MAX_SIZE) % 0x1_0000_0000
  {
    assert (2 * deckNr + 1 + sel.Index()) * DECK_MEM_MAX_SIZE
        == (2 * deckNr + 1) * DECK_MEM_MAX_SIZE + sel.Index() * DECK_MEM_MAX_SIZE;
  }

  method HandleDeckSectionRead(memAddr: uint32, deckNr: nat, sel: Selector, decks: seq<Deck>) returns (done: ReadDone)
    requires deckNr < |decks|
    ensures done == match MemOf(decks[deckNr], sel)
                    case Some(d) => if d.read then DeckRead(deckNr, sel, DeckAddress(memAddr, deckNr, sel)) else Refused
                    case None => Refused
  {
    var memDef := decks[deckNr].mem;
    if sel == Secondary {
      memDef := decks[deckNr].secondary;
    }
    done := Refused;
    BaseIs(deckNr, sel);
    hide BaseAddress;
    if memDef.Some? && memDef.value.read {
      var baseAddress := ((2 * deckNr + 1) * DECK_MEM_MAX_SIZE + sel.Index() * DECK_MEM_MAX_SIZE) % 0x1_0000_0000;
      done := DeckRead(deckNr, sel, (memAddr - baseAddress) % 0x1_0000_0000);
    }
  }
}
