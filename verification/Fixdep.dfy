/** Finding the configuration symbols a source file uses
    (parse_config_file, use_config, is_defined_config, define_config). */
module Fixdep {
  import opened SymbolPrefix

  // ---------- what is to be found, byte by byte ----------

  const MODULE := "_MODULE"

  // isalnum or underscore
  predicate IdentChar(c: char) {
    'a' <= c <= 'z' || 'A' <= c <= 'Z' || '0' <= c <= '9' || c == '_'
  }

  const LOWER := "abcdefghijklm" + "nopqrstuvwxyz"
  const UPPER := "ABCDEFGHIJKLM" + "NOPQRSTUVWXYZ"

  // the characters of a name, one by one
  lemma IdentCharExact(c: char)
    ensures IdentChar(c) <==> c in LOWER || c in UPPER || c in "0123456789" || c == '_'
  {
    LowerToM(c);
    LowerFromN(c);
    UpperToM(c);
    UpperFromN(c);
    Figures(c);
  }

  lemma LowerToM(c: char)
    ensures c in "abcdefghijklm" <==> 'a' <= c <= 'm'
  {
    if 'a' <= c <= 'm' {
      assert "abcdefghijklm"[c as int - 'a' as int] == c;
    }
  }

  lemma LowerFromN(c: char)
    ensures c in "nopqrstuvwxyz" <==> 'n' <= c <= 'z'
  {
    if 'n' <= c <= 'z' {
      assert "nopqrstuvwxyz"[c as int - 'n' as int] == c;
    }
  }

  lemma UpperToM(c: char)
    ensures c in "ABCDEFGHIJKLM" <==> 'A' <= c <= 'M'
  {
    if 'A' <= c <= 'M' {
      assert "ABCDEFGHIJKLM"[c as int - 'A' as int] == c;
    }
  }

  lemma UpperFromN(c: char)
    ensures c in "NOPQRSTUVWXYZ" <==> 'N' <= c <= 'Z'
  {
    if 'N' <= c <= 'Z' {
      assert "NOPQRSTUVWXYZ"[c as int - 'N' as int] == c;
    }
  }

  lemma Figures(c: char)
    ensures c in "0123456789" <==> '0' <= c <= '9'
  {
    if '0' <= c <= '9' {
      assert "0123456789"[c as int - '0' as int] == c;
    }
  }

  // the end of the identifier at i, or the length if the file ends first
  function IdentEnd(text: string, i: nat): (e: nat)
    requires i <= |text|
    ensures i <= e <= |text|
    ensures forall k :: i <= k < e ==> IdentChar(text[k])
    ensures e < |text| ==> !IdentChar(text[e])
    decreases |text| - i
  {
    if i == |text| || !IdentChar(text[i]) then i else IdentEnd(text, i + 1)
  }

  predicate At(text: string, o: nat, s: string) { o + |s| <= |text| && text[o..o + |s|] == s }

  // The name used at offset o: what follows CONFIG_ there, without a trailing
  // _MODULE. Nothing counts if the file ends inside the identifier, or if the
  // underscore of _MODULE is the one of CONFIG_.
  function Hit(text: string, o: nat): (hit: seq<string>)
    ensures |hit| <= 1
  {
    if !At(text, o, CONFIG) then []
    else
      var e := IdentEnd(text, o + 7);
      if e == |text| then []
      else if !At(text, e - 7, MODULE) then [text[o + 7..e]]
      else if e - 7 < o + 7 then []
      else [text[o + 7..e - 7]]
  }

  // The same without indices: at o the file holds CONFIG_, an identifier body,
  // and then a byte that ends it
  predicate Uses(text: string, o: nat, body: string) {
    && At(text, o, CONFIG + body)
    && o + 7 + |body| < |text|
    && (forall k :: 0 <= k < |body| ==> IdentChar(body[k]))
    && !IdentChar(text[o + 7 + |body|])
  }

  predicate EndsIn(s: string, t: string) { |s| >= |t| && s[|s| - |t|..] == t }

  function Stripped(body: string): string {
    if EndsIn(body, MODULE) then body[..|body| - 7] else body
  }

  // a name with or without the suffix
  lemma StrippedExact(body: string, name: string)
    ensures body == name + "_MODULE" ==> Stripped(body) == name
    ensures (forall n :: body != n + "_MODULE") ==> Stripped(body) == body
  {
    assert (name + MODULE)[|name|..] == MODULE && (name + MODULE)[..|name|] == name;
    if EndsIn(body, MODULE) {
      assert body == body[..|body| - 7] + "_MODULE";
    }
  }

  // all names used from offset o on
  function Hits(text: string, o: nat): seq<string>
    decreases |text| - o
  {
    if o >= |text| then [] else Hit(text, o) + Hits(text, o + 1)
  }

  // names in the order of their first occurrence, without those already seen
  function Firsts(names: seq<string>, seen: set<string>): seq<string> {
    if names == [] then []
    else if names[0] in seen then Firsts(names[1..], seen)
    else [names[0]] + Firsts(names[1..], seen + {names[0]})
  }

  lemma {:induction false} IdentEndIs(text: string, i: nat, e: nat)
    requires i <= e < |text| && !IdentChar(text[e]) && forall k :: i <= k < e ==> IdentChar(text[k])
    ensures IdentEnd(text, i) == e
    decreases e - i
  {
    if i < e {
      IdentEndIs(text, i + 1, e);
    }
  }

  lemma UsesBody(text: string, o: nat, body: string)
    requires Uses(text, o, body)
    ensures At(text, o, CONFIG)
    ensures var e := IdentEnd(text, o + 7); e < |text| && e == o + 7 + |body| && body == text[o + 7..e]
  {
    var e := o + 7 + |body|;
    var s := text[o..e];
    assert s == CONFIG + body;
    assert text[o..o + 7] == s[..7] == CONFIG;
    assert text[o + 7..e] == s[7..] == body;
    forall k | o + 7 <= k < e
      ensures IdentChar(text[k])
    {
      assert text[k] == text[o + 7..e][k - o - 7];
    }
    IdentEndIs(text, o + 7, e);
  }

  lemma BodyUses(text: string, o: nat)
    requires At(text, o, CONFIG) && IdentEnd(text, o + 7) < |text|
    ensures Uses(text, o, text[o + 7..IdentEnd(text, o + 7)])
  {
    var e := IdentEnd(text, o + 7);
    assert text[o..e] == text[o..o + 7] + text[o + 7..e];
  }

  lemma Suffix(text: string, o: nat, body: string)
    requires Uses(text, o, body)
    ensures var e := o + 7 + |body|; At(text, e - 7, MODULE) <==> body == "MODULE" || EndsIn(body, MODULE)
  {
    var e := o + 7 + |body|;
    var s := text[o..e];
    assert s == CONFIG + body;
    assert text[e - 7..e] == s[|body|..];
    hide Uses, At, IdentChar, IdentEnd;
    if |body| >= 7 {
      assert s[|body|..] == body[|body| - 7..];
    } else {
      ShortSuffix(body);
    }
  }

  // MODULE is the only short body whose last seven bytes, with the prefix, read _MODULE
  lemma ShortSuffix(body: string)
    requires |body| < 7
    ensures (CONFIG + body)[|body|..] == MODULE <==> body == "MODULE"
  {
    var s := (CONFIG + body)[|body|..];
    assert s == CONFIG[|body|..] + body;
    assert s[6 - |body|] == CONFIG[6] == '_';
    if s == MODULE {
      assert MODULE[6 - |body|] == '_';
      assert body == s[1..] == MODULE[1..];
    }
  }

  lemma HitExact(text: string, o: nat, name: string)
    ensures name in Hit(text, o) <==>
            exists body :: Uses(text, o, body) && body != "MODULE" && name == Stripped(body)
  {
    if At(text, o, CONFIG) && IdentEnd(text, o + 7) < |text| {
      var body := text[o + 7..IdentEnd(text, o + 7)];
      BodyUses(text, o);
      Suffix(text, o, body);
      forall b | Uses(text, o, b)
        ensures b == body
      {
        UsesBody(text, o, b);
      }
      var e := o + 7 + |body|;
      if EndsIn(body, MODULE) {
        assert body[..|body| - 7] == text[o + 7..e - 7];
      }
      assert Hit(text, o) == if body == "MODULE" then [] else [Stripped(body)];
    } else {
      forall b | Uses(text, o, b)
        ensures false
      {
        UsesBody(text, o, b);
      }
    }
  }

  // A name is found exactly when some offset uses it. The one body that is
  // never found is MODULE: the suffix test reads back into the prefix.
  lemma {:induction false} HitsExact(text: string, o: nat, name: string)
    ensures name in Hits(text, o) <==>
            exists p: nat, body: string | o <= p :: Uses(text, p, body) && body != "MODULE" && name == Stripped(body)
    decreases |text| - o
  {
    UsesWithin(text);
    hide Uses, Hit, Stripped;
    if o < |text| {
      HitsStep(text, o);
      HitsExact(text, o + 1, name);
      HitExact(text, o, name);
    }
  }

  lemma UsesWithin(text: string)
    ensures forall p: nat, body: string :: Uses(text, p, body) ==> p < |text|
  {
  }

  function AllHits(files: seq<string>): seq<string> {
    if files == [] then [] else Hits(files[0], 1) + AllHits(files[1..])
  }

  lemma AllHitsStep(files: seq<string>, k: nat)
    requires k < |files|
    ensures AllHits(files[k..]) == Hits(files[k], 1) + AllHits(files[k + 1..])
  {
    assert files[k..][0] == files[k] && files[k..][1..] == files[k + 1..];
  }

  lemma AllHitsNone(files: seq<string>)
    requires files == []
    ensures AllHits(files) == []
  {
  }

  lemma {:induction false} FirstsSplit(a: seq<string>, b: seq<string>, seen: set<string>)
    ensures Firsts(a + b, seen) == Firsts(a, seen) + Firsts(b, seen + set s | s in a)
  {
    if a == [] {
      assert a + b == b && seen + (set s | s in a) == seen;
    } else {
      assert (a + b)[1..] == a[1..] + b;
      var seen' := seen + {a[0]};
      FirstsSplit(a[1..], b, seen');
      assert seen' + (set s | s in a[1..]) == seen + set s | s in a;
      if a[0] in seen {
        assert seen' == seen;
      }
    }
  }

  lemma FirstsNone(seen: set<string>)
    ensures Firsts([], seen) == []
  {
  }

  // every name is listed once, and exactly the names not seen before
  lemma {:induction false} FirstsDistinct(names: seq<string>, seen: set<string>)
    ensures var f := Firsts(names, seen);
      && (forall i, j :: 0 <= i < j < |f| ==> f[i] != f[j])
      && (forall s :: s in f <==> s in names && s !in seen)
  {
    if names != [] {
      FirstsDistinct(names[1..], if names[0] in seen then seen else seen + {names[0]});
    }
  }

  // A name is listed before another one exactly if it occurs first: when it
  // does, the other has not been met
  lemma {:induction false} FirstsOrdered(names: seq<string>, seen: set<string>, i: nat, j: nat) returns (k: nat)
    requires i < j < |Firsts(names, seen)|
    ensures k < |names| && names[k] == Firsts(names, seen)[i] && Firsts(names, seen)[j] !in names[..k + 1]
  {
    FirstsDistinct(names, seen);
    var f := Firsts(names, seen);
    assert f[i] != f[j] && f[j] in f;
    if names[0] in seen {
      k := FirstsOrdered(names[1..], seen, i, j);
      assert names[..k + 2] == [names[0]] + names[1..][..k + 1];
      k := k + 1;
    } else if i == 0 {
      k := 0;
      assert names[..1] == [names[0]];
    } else {
      assert f[0] == names[0] && f[0] != f[j];
      k := FirstsOrdered(names[1..], seen + {names[0]}, i - 1, j - 1);
      assert names[..k + 2] == [names[0]] + names[1..][..k + 1];
      k := k + 1;
    }
  }

  // names come in the order of their offsets
  lemma {:induction false} HitsOrdered(text: string, o: nat, i: nat, j: nat) returns (p: nat, q: nat)
    requires i < j < |Hits(text, o)|
    ensures o <= p < q && Hit(text, p) == [Hits(text, o)[i]] && Hit(text, q) == [Hits(text, o)[j]]
    decreases |text| - o
  {
    hide Hit;
    var n := |Hit(text, o)|;
    if i >= n {
      p, q := HitsOrdered(text, o + 1, i - n, j - n);
    } else {
      p := o;
      q := HitAt(text, o + 1, j - 1);
    }
  }

  lemma {:induction false} HitAt(text: string, o: nat, j: nat) returns (q: nat)
    requires j < |Hits(text, o)|
    ensures o <= q && Hit(text, q) == [Hits(text, o)[j]]
    decreases |text| - o
  {
    hide Hit;
    var n := |Hit(text, o)|;
    if j < n {
      q := o;
    } else {
      q := HitAt(text, o + 1, j - n);
    }
  }

  // and files one after the other
  lemma {:induction false} AllHitsOrdered(a: seq<string>, text: string, b: seq<string>)
    ensures AllHits(a + [text] + b) == AllHits(a) + Hits(text, 1) + AllHits(b)
  {
    hide Hits;
    if a == [] {
      assert (a + [text] + b)[1..] == b;
    } else {
      var own, mid := Hits(a[0], 1), Hits(text, 1);
      assert (a + [text] + b)[1..] == a[1..] + [text] + b;
      assert AllHits(a) == own + AllHits(a[1..]) && AllHits(a + [text] + b) == own + AllHits(a[1..] + [text] + b);
      AllHitsOrdered(a[1..], text, b);
      hide AllHits;
      assert own + (AllHits(a[1..]) + mid + AllHits(b)) == own + AllHits(a[1..]) + mid + AllHits(b);
    }
  }

  // Over a run, exactly the names some file uses are reported, each once
  lemma {:induction false} ScanExact(files: seq<string>, name: string)
    ensures var out := Firsts(AllHits(files), {});
      && (forall i, j :: 0 <= i < j < |out| ==> out[i] != out[j])
      && (name in out <==> exists i: nat | i < |files| :: name in Hits(files[i], 1))
  {
    hide Hits, Firsts;
    FirstsDistinct(AllHits(files), {});
    AllHitsExact(files, name);
  }

  lemma {:induction false} AllHitsExact(files: seq<string>, name: string)
    ensures name in AllHits(files) <==> exists i: nat | i < |files| :: name in Hits(files[i], 1)
  {
    hide Hits;
    if files != [] {
      AllHitsExact(files[1..], name);
      forall i: nat | i < |files| - 1
        ensures files[1..][i] == files[i + 1]
      {
      }
      if name in AllHits(files[1..]) {
        var i: nat :| i < |files| - 1 && name in Hits(files[1..][i], 1);
        assert name in Hits(files[i + 1], 1);
      }
      forall i: nat | i < |files| && name in Hits(files[i], 1)
        ensures name in AllHits(files)
      {
        if i > 0 {
          assert files[1..][i - 1] == files[i];
        }
      }
    }
  }

  // ---------- the aligned scan meets every occurrence once ----------

  // the mapping is filled up with zeros
  function ByteAt(text: string, i: nat): char { if i < |text| then text[i] else '\0' }

  // the 4-byte word at m
  function Word(text: string, m: nat): string {
    [ByteAt(text, m), ByteAt(text, m + 1), ByteAt(text, m + 2), ByteAt(text, m + 3)]
  }

  // the offset a word gives away, if it is one of the four
  function Back(w: string): (k: int)
    ensures -1 <= k <= 3
  {
    if w == "CONF" then 0 else if w == "ONFI" then 1 else if w == "NFIG" then 2 else if w == "FIG_" then 3 else -1
  }

  lemma WordFor(text: string, m: nat, k: nat)
    requires k <= 3 && k <= m && At(text, m - k, CONFIG)
    ensures Back(Word(text, m)) == k
  {
    var t := text[m - k..m - k + 7];
    assert t == CONFIG;
    assert forall i :: 0 <= i < 7 ==> text[m - k + i] == t[i];
    assert Word(text, m) == t[k..k + 4];
    assert CONFIG[0..4] == "CONF" && CONFIG[1..5] == "ONFI" && CONFIG[2..6] == "NFIG" && CONFIG[3..7] == "FIG_";
  }

  lemma NoneAt(text: string, m: nat, k: nat)
    requires k <= 3 && k <= m && Back(Word(text, m)) != k
    ensures Hit(text, m - k) == []
  {
    hide Back, Word;
    if At(text, m - k, CONFIG) {
      WordFor(text, m, k);
    }
  }

  // The four offsets a word answers for hold at most one occurrence, and the
  // word tells which
  lemma WordHits(text: string, m: nat)
    requires 4 <= m < |text|
    ensures var k := Back(Word(text, m));
      Hits(text, m - 3) == (if k >= 0 then Hit(text, m - k) else []) + Hits(text, m + 1)
  {
    hide Back, Word, Hit, Hits;
    var k := Back(Word(text, m));
    if k != 0 { NoneAt(text, m, 0); }
    if k != 1 { NoneAt(text, m, 1); }
    if k != 2 { NoneAt(text, m, 2); }
    if k != 3 { NoneAt(text, m, 3); }
    HitsStep(text, m - 3);
    HitsStep(text, m - 2);
    HitsStep(text, m - 1);
    HitsStep(text, m);
    OneOfFour(Hit(text, m - 3), Hit(text, m - 2), Hit(text, m - 1), Hit(text, m), Hits(text, m + 1));
  }

  lemma OneOfFour(a: seq<string>, b: seq<string>, c: seq<string>, d: seq<string>, rest: seq<string>)
    ensures [] + rest == rest
    ensures b == c == d == [] ==> a + (b + (c + (d + rest))) == a + rest
    ensures a == c == d == [] ==> a + (b + (c + (d + rest))) == b + rest
    ensures a == b == d == [] ==> a + (b + (c + (d + rest))) == c + rest
    ensures a == b == c == [] ==> a + (b + (c + (d + rest))) == d + rest
  {
  }

  lemma HitsStep(text: string, o: nat)
    requires o < |text|
    ensures Hits(text, o) == Hit(text, o) + Hits(text, o + 1)
  {
  }

  // no occurrence starts in the last three bytes
  lemma {:induction false} NoHitsAtEnd(text: string, o: nat)
    requires o + 7 > |text|
    ensures Hits(text, o) == []
    decreases |text| - o
  {
    if o < |text| {
      NoHitsAtEnd(text, o + 1);
    }
  }

  // ---------- the table of names seen ----------

  // fnv32
  function StrHash(s: string): bv32 {
    if s == [] then 2166136261
    else (StrHash(s[..|s| - 1]) ^ (s[|s| - 1] as int % 256) as bv32) * 0x01000193
  }

  // the published values of the 32-bit FNV-1a function
  lemma KnownHashes()
    ensures StrHash("") == 0x811C9DC5 && StrHash("a") == 0xE40C292C
  {
    assert "a"[..0] == "" && 'a' as int % 256 == 97;
  }

  const HASHSZ := 256

  function Bucket(hash: bv32): (b: nat)
    ensures b < HASHSZ
  {
    hash as nat % HASHSZ
  }

  datatype Item = Item(name: string, hash: bv32)

  class Scanner {
    // the chains of the hash table, newest item first
    const hashtab: array<seq<Item>>
    // the names print_config was called with
    var out: seq<string>
    ghost var seen: set<string>

    ghost predicate Valid()
      reads this, hashtab
    {
      && hashtab.Length == HASHSZ
      && (forall b, k :: 0 <= b < HASHSZ && 0 <= k < |hashtab[b]| ==>
            var it := hashtab[b][k];
            it.hash == StrHash(it.name) && Bucket(it.hash) == b && it.name in seen)
      && (forall s :: s in seen ==> Item(s, StrHash(s)) in hashtab[Bucket(StrHash(s))])
    }

    constructor ()
      ensures Valid() && fresh(hashtab) && out == [] && seen == {}
    {
      hashtab := new seq<Item>[HASHSZ](_ => []);
      out, seen := [], {};
    }

    // is_defined_config
    method IsDefinedConfig(name: string, hash: bv32) returns (found: bool)
      requires Valid() && hash == StrHash(name)
      ensures found <==> name in seen
    {
      var chain := hashtab[Bucket(hash)];
      var k := 0;
      while k < |chain|
        invariant 0 <= k <= |chain|
        invariant forall i :: 0 <= i < k ==> chain[i].name != name
      {
        if chain[k].hash == hash && chain[k].name == name {
          return true;
        }
        k := k + 1;
      }
      found := false;
    }

    // define_config
    method DefineConfig(name: string, hash: bv32)
      requires Valid() && hash == StrHash(name)
      modifies hashtab, this`seen
      ensures Valid() && seen == old(seen) + {name}
    {
      var b := Bucket(hash);
      hashtab[b] := [Item(name, hash)] + hashtab[b];
      seen := seen + {name};
      assert hashtab[b][0] == Item(name, hash);
    }

    // use_config
    method UseConfig(name: string)
      requires Valid()
      modifies this`out, this`seen, hashtab
      ensures Valid() && seen == old(seen) + {name}
      ensures out == old(out) + Firsts([name], old(seen))
    {
      var hash := StrHash(name);
      var found := IsDefinedConfig(name, hash);
      if found {
        return;
      }
      DefineConfig(name, hash);
      out := out + [name];
    }

    // parse_config_file on the mapped file
    method ParseConfigFile(text: string)
      requires Valid()
      modifies this`out, this`seen, hashtab
      ensures Valid() && seen == old(seen) + set s | s in Hits(text, 1)
      ensures out == old(out) + Firsts(Hits(text, 1), old(seen))
    {
      hide Hit, Hits, Firsts, Back, Word, StrHash;
      FirstsNone(seen);
      // start at the second word, so that p is never before the file
      var m := 4;
      ghost var used: seq<string> := [];
      while m < |text|
        invariant m >= 4 && Valid()
        invariant used + Hits(text, m - 3) == Hits(text, 1)
        invariant seen == old(seen) + set s | s in used
        invariant out == old(out) + Firsts(used, old(seen))
      {
        WordHits(text, m);
        var k := Back(Word(text, m));
        if k >= 0 {
          var hit := FindName(text, m - k);
          UseAll(hit, used, old(out), old(seen));
          assert (used + hit) + Hits(text, m + 1) == used + (hit + Hits(text, m + 1));
          used := used + hit;
        }
        m := m + 4;
      }
      NoHitsAtEnd(text, m - 3);
      assert used + [] == used;
    }

    // the call of use_config, if there is a name to use
    method UseAll(hit: seq<string>, ghost used: seq<string>, ghost out0: seq<string>, ghost seen0: set<string>)
      requires Valid() && |hit| <= 1
      requires seen == seen0 + (set s | s in used) && out == out0 + Firsts(used, seen0)
      modifies this`out, this`seen, hashtab
      ensures Valid()
      ensures seen == seen0 + set s | s in used + hit
      ensures out == out0 + Firsts(used + hit, seen0)
    {
      hide StrHash;
      FirstsSplit(used, hit, seen0);
      if hit != [] {
        assert hit == [hit[0]];
        UseConfig(hit[0]);
      } else {
        assert used + hit == used;
      }
    }

    // the code behind the label conf
    method FindName(text: string, p: nat) returns (hit: seq<string>)
      ensures hit == Hit(text, p)
    {
      hit := [];
      if p + 7 > |text| || text[p..p + 7] != CONFIG {
        return;
      }
      var q := p + 7;
      while q < |text| && IdentChar(text[q])
        invariant p + 7 <= q <= |text| && IdentEnd(text, q) == IdentEnd(text, p + 7)
      {
        q := q + 1;
      }
      if q == |text| {
        return;
      }
      var e := q;
      if text[q - 7..q] == MODULE {
        e := q - 7;
      }
      if e < p + 7 {
        return;
      }
      hit := [text[p + 7..e]];
    }

    // one file after the other
    method ScanAll(files: seq<string>)
      requires Valid() && seen == {} && out == []
      modifies this`out, this`seen, hashtab
      ensures Valid() && out == Firsts(AllHits(files), {})
    {
      hide Hit, Hits, Firsts, AllHits, StrHash;
      assert files[0..] == files;
      for k := 0 to |files|
        invariant Valid() && out + Firsts(AllHits(files[k..]), seen) == Firsts(AllHits(files), {})
      {
        AllHitsStep(files, k);
        FirstsSplit(Hits(files[k], 1), AllHits(files[k + 1..]), seen);
        ParseConfigFile(files[k]);
      }
      AllHitsNone(files[|files|..]);
      FirstsNone(seen);
    }
  }
}
