/** Printing configuration lines and reading them back
    (sym_escape_string_value, kconfig_print_symbol, conf_set_sym_val,
    conf_read_simple). */
module ConfFile {
  import opened Options
  import opened SymbolPrefix
  import opened Tristates
  import opened Exprs

  // A stored value: def[].tri for boolean and tristate symbols, def[].val else
  datatype Val = TriVal(t: Tri) | StrVal(s: string)

  // ---------- escaping ----------

  predicate Special(c: char) { c == '"' || c == '\\' }

  // the text between the quotes
  function Escaped(s: string): string {
    if s == [] then []
    else if Special(s[0]) then ['\\', s[0]] + Escaped(s[1..])
    else [s[0]] + Escaped(s[1..])
  }

  // What is read behind the opening quote: everything up to the next quote that
  // is not escaped, or nothing if there is none
  function Unescaped(s: string): Option<string> {
    if s == [] || s[0] == '"' then (if s == [] then None else Some([]))
    else
      var n := if s[0] == '\\' then 1 else 0;
      if n == |s| then None
      else
        match Unescaped(s[n + 1..])
        case Some(rest) => Some([s[n]] + rest)
        case None => None
  }

  lemma {:induction false} UnescapeInverts(s: string, rest: string)
    ensures Unescaped(Escaped(s) + ['"'] + rest) == Some(s)
  {
    var t := Escaped(s) + ['"'] + rest;
    if s == [] {
      assert t == ['"'] + rest;
    } else {
      UnescapeInverts(s[1..], rest);
      var n := if Special(s[0]) then 1 else 0;
      assert t[n + 1..] == Escaped(s[1..]) + ['"'] + rest;
      assert s == [s[0]] + s[1..];
    }
  }

  // the first loop of sym_escape_string_value: the size of the result, with
  // quotes and terminator
  method EscapedSize(s: string) returns (reslen: nat)
    ensures reslen == |Escaped(s)| + 3
  {
    reslen := |s| + 2 + 1;
    var p := 0;
    assert s[0..] == s;
    while p < |s|
      invariant 0 <= p <= |s|
      invariant reslen + |Escaped(s[p..])| == |Escaped(s)| + 3 + |s| - p
    {
      assert s[p..][0] == s[p] && s[p..][1..] == s[p + 1..];
      if Special(s[p]) {
        reslen := reslen + 1;
      }
      p := p + 1;
    }
  }

  lemma EscapedStep(s: string, p: nat, before: string)
    requires p < |s|
    ensures Escaped(s[p..]) == Escaped([s[p]]) + Escaped(s[p + 1..])
    ensures before + Escaped(s[p..]) == before + Escaped([s[p]]) + Escaped(s[p + 1..])
  {
    assert s[p..][0] == s[p] && s[p..][1..] == s[p + 1..];
    assert [s[p]][1..] == [];
  }

  // the body of that loop: one character, with a backslash before it if needed
  method PutEscaped(res: array<char>, n: nat, c: char) returns (n': nat)
    requires n + |Escaped([c])| <= res.Length
    modifies res
    ensures n' == n + |Escaped([c])| && res[..n'] == old(res[..n]) + Escaped([c])
  {
    assert Escaped([c]) == if Special(c) then ['\\', c] else [c];
    n' := n;
    if Special(c) {
      res[n'] := '\\';
      n' := n' + 1;
    }
    res[n'] := c;
    n' := n' + 1;
  }

  // sym_escape_string_value: the second loop fills a buffer of exactly that size
  method EscapeString(s: string) returns (res: array<char>)
    ensures fresh(res)
    ensures res[..] == ['"'] + Escaped(s) + ['"', '\0']
  {
    var reslen := EscapedSize(s);
    res := new char[reslen];
    res[0] := '"';
    var n, p := 1, 0;
    assert s[0..] == s && res[..1] == ['"'];
    while p < |s|
      invariant 0 <= p <= |s| && 1 <= n
      invariant n + |Escaped(s[p..])| + 2 == reslen == res.Length
      invariant res[..n] + Escaped(s[p..]) == ['"'] + Escaped(s)
    {
      EscapedStep(s, p, res[..n]);
      n := PutEscaped(res, n, s[p]);
      p := p + 1;
    }
    res[n] := '"';
    res[n + 1] := '\0';
    assert res[..] == res[..n] + ['"', '\0'];
  }

  // ---------- C strings in a buffer ----------

  const NUL := '\0'

  // at p the buffer holds the terminated string s
  predicate CStr(b: seq<char>, p: nat, s: string) {
    p + |s| < |b| && b[p..p + |s|] == s && b[p + |s|] == NUL && NUL !in s
  }

  // strpbrk(p, "\"\\"): n characters on, or at the terminator if there is none
  method FindSpecial(buf: array<char>, p: nat, ghost s: string) returns (q: nat)
    requires CStr(buf[..], p, s)
    ensures p <= q <= p + |s| && (forall k :: 0 <= k < q - p ==> !Special(s[k]))
    ensures if q < p + |s| then Special(s[q - p]) && buf[q] == s[q - p] else buf[q] == NUL
    ensures CStr(buf[..], q, s[q - p..]) && buf[p..q] == s[..q - p]
  {
    q := p;
    assert forall k :: 0 <= k < |s| ==> buf[..][p..p + |s|][k] == buf[p + k] == s[k];
    while buf[q] != NUL && !Special(buf[q])
      invariant p <= q <= p + |s| && (forall k :: 0 <= k < q - p ==> !Special(s[k]))
      decreases p + |s| - q
    {
      assert q < p + |s|;
      q := q + 1;
    }
  }

  // what reading finds when the text done was read before the rest
  function Resume(done: string, rest: string): Option<string> {
    match Unescaped(rest)
    case Some(t) => Some(done + t)
    case None => None
  }

  lemma ResumeMore(a: string, b: string, rest: string)
    ensures Resume(a + b, rest) == (match Resume(b, rest) case Some(t) => Some(a + t) case None => None)
  {
    hide Unescaped;
    if Unescaped(rest).Some? {
      assert a + (b + Unescaped(rest).value) == a + b + Unescaped(rest).value;
    }
  }

  lemma ResumeNothing(rest: string)
    ensures Resume("", rest) == Unescaped(rest)
  {
    hide Unescaped;
    if Unescaped(rest).Some? {
      assert "" + Unescaped(rest).value == Unescaped(rest).value;
    }
  }

  lemma {:induction false} UnescapedPlain(s: string, n: nat)
    requires n <= |s| && forall k :: 0 <= k < n ==> !Special(s[k])
    ensures Unescaped(s) == Resume(s[..n], s[n..])
  {
    if n == 0 {
      assert s[0..] == s && s[..0] == "";
      ResumeNothing(s);
    } else {
      UnescapedPlain(s[1..], n - 1);
      assert Unescaped(s) == match Unescaped(s[1..]) case Some(t) => Some([s[0]] + t) case None => None;
      hide Unescaped, Resume;
      assert s[1..][n - 1..] == s[n..] && [s[0]] + s[1..][..n - 1] == s[..n];
      ResumeMore([s[0]], s[1..][..n - 1], s[n..]);
    }
  }

  // memmove(p, p + 1, n)
  method ShiftLeft(buf: array<char>, p: nat, n: nat)
    requires p + n < buf.Length
    modifies buf
    ensures buf[..] == old(buf[..p] + buf[p + 1..p + 1 + n] + buf[p + n..])
  {
    forall k | p <= k < p + n {
      buf[k] := buf[k + 1];
    }
  }

  // The loop of conf_set_sym_val that removes the escapes in place
  method Unquote(buf: array<char>, p: nat, ghost s: string) returns (ok: bool)
    requires CStr(buf[..], p, s)
    modifies buf
    ensures ok <==> Unescaped(s).Some?
    ensures ok ==> CStr(buf[..], p, Unescaped(s).value)
  {
    hide Unescaped, Resume;
    var p2 := p;
    ghost var done, rest := "", s;
    ResumePlain(done, rest, 0);
    while true
      invariant p2 == p + |done| && CStr(buf[..], p2, rest) && buf[p..p2] == done
      invariant NUL in done ==> rest == []
      invariant Resume(done, rest) == Unescaped(s)
      decreases |rest|
    {
      var q := FindSpecial(buf, p2, rest);
      ResumePlain(done, rest, q - p2);
      ResumeEnds(done + rest[..q - p2], rest[q - p2..]);
      assert buf[p..q] == buf[p..p2] + buf[p2..q];
      done, rest, p2 := done + rest[..q - p2], rest[q - p2..], q;
      if buf[p2] == NUL {
        return false;
      }
      if buf[p2] == '"' {
        buf[p2] := NUL;
        assert buf[p..p2] == done;
        return true;
      }
      // drop the backslash and keep whatever follows it
      done, rest := RemoveBackslash(buf, p, p2, done, rest);
      p2 := p2 + 1;
    }
  }

  method RemoveBackslash(buf: array<char>, p: nat, p2: nat, ghost done: string, ghost rest: string)
    returns (ghost done': string, ghost rest': string)
    requires p2 == p + |done| && CStr(buf[..], p2, rest) && buf[p..p2] == done && NUL !in done
    requires rest != [] && rest[0] == '\\'
    modifies buf
    ensures p2 + 1 == p + |done'| && CStr(buf[..], p2 + 1, rest') && buf[p..p2 + 1] == done'
    ensures (NUL in done' ==> rest' == []) && |rest'| < |rest|
    ensures Resume(done', rest') == Resume(done, rest)
  {
    hide Unescaped, Resume;
    ResumeEscape(done, rest);
    var n := StrLen(buf, p2, rest);
    ghost var b := buf[..];
    ShiftLeft(buf, p2, n);
    ShiftedFront(b, buf[..], p, p2, n);
    done' := done + [buf[p2]];
    if n == 1 {
      rest' := [];
      assert buf[p2] == NUL;
    } else {
      rest' := rest[2..];
      hide CStr;
      ShiftedRest(b, buf[..], p2, rest);
    }
  }

  // the buffer after n characters from p on have moved one place to the left
  predicate Shifted(b: seq<char>, b': seq<char>, p: nat, n: nat) {
    p + n < |b| && b' == b[..p] + b[p + 1..p + 1 + n] + b[p + n..]
  }

  lemma ShiftedFront(b: seq<char>, b': seq<char>, p: nat, p2: nat, n: nat)
    requires p <= p2 && Shifted(b, b', p2, n)
    ensures |b'| == |b| && b'[p..p2] == b[p..p2] && b'[p2 + n] == b[p2 + n] && (n > 0 ==> b'[p2] == b[p2 + 1])
  {
  }

  lemma ShiftedRest(b: seq<char>, b': seq<char>, p: nat, s: string)
    requires CStr(b, p, s) && |s| > 1 && Shifted(b, b', p, |s|)
    ensures b'[p] == s[1] && CStr(b', p + 1, s[2..])
  {
    var n := |s|;
    assert s[1] == b[p..p + n][1] == b[p + 1];
    assert b'[p + n - 1] == b[p + n] == NUL;
    forall k | 0 <= k < n - 2
      ensures b'[p + 1..p + n - 1][k] == s[2..][k]
    {
      assert b'[p + 1 + k] == b[p + 2 + k] == b[p..p + n][k + 2];
    }
    assert b'[p + 1..p + n - 1] == s[2..];
  }

  lemma ResumeEscape(done: string, rest: string)
    requires rest != [] && rest[0] == '\\'
    ensures |rest| == 1 ==> Resume(done, rest) == None
    ensures |rest| > 1 ==> Resume(done, rest) == Resume(done + [rest[1]], rest[2..])
    ensures forall d :: Resume(d, []) == None
  {
    if |rest| > 1 && Unescaped(rest[2..]).Some? {
      assert done + ([rest[1]] + Unescaped(rest[2..]).value) == done + [rest[1]] + Unescaped(rest[2..]).value;
    }
  }

  method StrLen(buf: array<char>, p: nat, ghost s: string) returns (n: nat)
    requires CStr(buf[..], p, s)
    ensures n == |s|
  {
    n := 0;
    assert forall k :: 0 <= k < |s| ==> buf[..][p..p + |s|][k] == buf[p + k] == s[k];
    while buf[p + n] != NUL
      invariant 0 <= n <= |s|
      decreases |s| - n
    {
      n := n + 1;
    }
  }

  lemma ResumeEnds(done: string, rest: string)
    ensures rest == "" ==> Resume(done, rest) == None
    ensures rest != "" && rest[0] == '"' ==> Resume(done, rest) == Some(done)
  {
    assert done + [] == done;
  }

  lemma ResumePlain(done: string, rest: string, n: nat)
    requires n <= |rest| && forall k :: 0 <= k < n ==> !Special(rest[k])
    ensures Resume(done, rest) == Resume(done + rest[..n], rest[n..])
    ensures Resume("", rest) == Unescaped(rest)
  {
    hide Unescaped;
    UnescapedPlain(rest, n);
    ResumeMore(done, rest[..n], rest[n..]);
    ResumeNothing(rest);
  }

  // ---------- what a line means ----------

  // strchr: the position of c, or the length
  function IndexOf(s: string, c: char): (n: nat)
    ensures n <= |s| && c !in s[..n] && (n < |s| ==> s[n] == c)
  {
    if s == [] || s[0] == c then 0 else 1 + IndexOf(s[1..], c)
  }

  predicate StartsWith(s: string, t: string) { |t| <= |s| && s[..|t|] == t }

  predicate Digit(c: char) { '0' <= c <= '9' }

  predicate XDigit(c: char) { Digit(c) || 'a' <= c <= 'f' || 'A' <= c <= 'F' }

  predicate Digits(s: string) { forall k :: 0 <= k < |s| ==> Digit(s[k]) }

  predicate XDigits(s: string) { forall k :: 0 <= k < |s| ==> XDigit(s[k]) }

  // sym_string_valid
  predicate StringValid(typ: SymType, s: string) {
    match typ
    case Str => true
    case Int =>
      var t := if s != [] && s[0] == '-' then s[1..] else s;
      t != [] && Digits(t) && (t[0] == '0' ==> |t| == 1)
    case Hex =>
      var t := if |s| >= 2 && s[0] == '0' && (s[1] == 'x' || s[1] == 'X') then s[2..] else s;
      t != [] && XDigits(t)
    case _ => false
  }

  // conf_set_sym_val: the value stored for the text p, if any
  function SetVal(typ: SymType, p: string): Option<Val> {
    match typ
    case Tristate => if StartsWith(p, "m") then Some(TriVal(MOD)) else SetBool(p)
    case Boolean => SetBool(p)
    case Str =>
      if !StartsWith(p, ['"']) then None
      else
        (match Unescaped(p[1..])
         case Some(t) => Some(StrVal(t))
         case None => None)
    case Int => if StringValid(Int, p) then Some(StrVal(p)) else None
    case Hex => if StringValid(Hex, p) then Some(StrVal(p)) else None
    case Unknown => None
  }

  function SetBool(p: string): Option<Val> {
    if StartsWith(p, "y") then Some(TriVal(YES))
    else if StartsWith(p, "n") then Some(TriVal(NO))
    else None
  }

  const NOT_SET := "is not set"

  type Types = map<string, SymType>
  type Vals = map<string, Val>

  // sym_find: y, m and n name constants, which hold no value
  function Find(types: Types, name: string): SymType {
    if name in types && name != "y" && name != "m" && name != "n" then types[name] else Unknown
  }

  // the text of a value: up to the line end, without a carriage return before it
  function ValueText(s: string): string {
    var n := IndexOf(s, '\n');
    if n < |s| && n > 0 && s[n - 1] == '\r' then s[..n - 1] else s[..n]
  }

  // the C string that starts where s does: a NUL in the file ends it
  function Terminated(s: string): string { s[..IndexOf(s, NUL)] }

  // One line read with def == S_DEF_USER
  function ReadLine(types: Types, vals: Vals, line: string): Vals {
    if StartsWith(line, "#") then
      if |line| < 2 || !StartsWith(line[2..], CONFIG) then vals
      else ReadUnset(types, vals, Terminated(line[9..]))
    else if StartsWith(line, CONFIG) then ReadSet(types, vals, Terminated(line[7..]))
    else vals
  }

  // behind "# CONFIG_"
  function ReadUnset(types: Types, vals: Vals, s: string): Vals {
    var n := IndexOf(s, ' ');
    if n == |s| || !StartsWith(s[n + 1..], NOT_SET) then vals
    else
      var typ := Find(types, s[..n]);
      if typ == Boolean || typ == Tristate then vals[s[..n] := TriVal(NO)] else vals
  }

  // behind "CONFIG_"
  function ReadSet(types: Types, vals: Vals, s: string): Vals {
    var n := IndexOf(s, '=');
    if n == |s| then vals
    else
      match SetVal(Find(types, s[..n]), ValueText(s[n + 1..]))
      case Some(v) => vals[s[..n] := v]
      case None => vals
  }

  // ---------- printing ----------

  datatype Line = Line(name: string, typ: SymType, val: Val)

  // kconfig_print_symbol on the value conf_write_symbol passes it
  function Print(l: Line): string {
    match l.val
    case TriVal(t) =>
      if t == NO then "# " + CONFIG + l.name + " " + NOT_SET + "\n"
      else CONFIG + l.name + "=" + TriName(t) + "\n"
    case StrVal(s) =>
      if l.typ == Str then CONFIG + l.name + "=" + (['"'] + Escaped(s) + ['"']) + "\n"
      else CONFIG + l.name + "=" + s + "\n"
  }

  predicate ValidName(n: string) {
    ' ' !in n && '=' !in n && '\n' !in n && NUL !in n && n != "y" && n != "m" && n != "n"
  }

  // A line the writer can produce for a declared symbol
  predicate ValidLine(types: Types, l: Line) {
    && ValidName(l.name) && l.name in types && types[l.name] == l.typ
    && match l.typ
       case Boolean => l.val.TriVal? && l.val.t != MOD
       case Tristate => l.val.TriVal?
       case Int => l.val.StrVal? && StringValid(Int, l.val.s)
       case Hex => l.val.StrVal? && StringValid(Hex, l.val.s)
       case Str => l.val.StrVal? && '\n' !in l.val.s && NUL !in l.val.s
       case Unknown => false
  }

  lemma {:induction false} IndexOfSplit(a: string, c: char, b: string)
    requires c !in a
    ensures IndexOf(a + [c] + b, c) == |a|
  {
    if a == [] {
      assert a + [c] + b == [c] + b;
    } else {
      assert (a + [c] + b)[0] == a[0] && (a + [c] + b)[1..] == a[1..] + [c] + b;
      IndexOfSplit(a[1..], c, b);
    }
  }

  // ---------- reading inverts printing ----------

  // the characters of a printed value that matter to the reader
  predicate CleanText(s: string) { '\n' !in s && NUL !in s && (s != [] ==> s[|s| - 1] != '\r') }

  lemma {:induction false} EscapedClean(s: string)
    requires '\n' !in s && NUL !in s
    ensures '\n' !in Escaped(s) && NUL !in Escaped(s)
  {
    if s != [] {
      EscapedClean(s[1..]);
    }
  }

  lemma DigitsClean(typ: SymType, s: string)
    requires (typ == Int || typ == Hex) && StringValid(typ, s)
    ensures CleanText(s)
  {
    if typ == Int {
      var t := if s != [] && s[0] == '-' then s[1..] else s;
      forall k | 0 <= k < |s| ensures s[k] == '-' || Digit(s[k]) {
        if |t| < |s| && k > 0 {
          assert s[k] == t[k - 1];
        }
      }
    } else {
      var n := if |s| >= 2 && s[0] == '0' && (s[1] == 'x' || s[1] == 'X') then 2 else 0;
      forall k | 0 <= k < |s| ensures s[k] == 'x' || s[k] == 'X' || XDigit(s[k]) {
        if k >= n {
          assert s[n..][k - n] == s[k];
        }
      }
    }
  }

  // the text printed behind "CONFIG_name="
  function PrintedValue(l: Line): string {
    match l.val
    case TriVal(t) => TriName(t)
    case StrVal(s) => if l.typ == Str then ['"'] + Escaped(s) + ['"'] else s
  }

  lemma PrintedValueRead(types: Types, l: Line)
    requires ValidLine(types, l)
    ensures CleanText(PrintedValue(l)) && SetVal(l.typ, PrintedValue(l)) == Some(l.val)
  {
    match l.val
    case TriVal(t) =>
    case StrVal(s) =>
      if l.typ == Str {
        EscapedClean(s);
        UnescapeInverts(s, []);
        assert PrintedValue(l)[1..] == Escaped(s) + ['"'] + [];
      } else {
        DigitsClean(l.typ, s);
      }
  }

  lemma ValueTextPrinted(v: string)
    requires CleanText(v)
    ensures ValueText(v + ['\n']) == v
  {
    IndexOfSplit(v, '\n', []);
    assert v + ['\n'] == v + ['\n'] + [];
    assert (v + ['\n'])[..|v|] == v;
  }

  lemma ReadSetPrinted(types: Types, vals: Vals, l: Line)
    requires ValidLine(types, l)
    ensures ReadSet(types, vals, l.name + ['='] + (PrintedValue(l) + ['\n'])) == vals[l.name := l.val]
  {
    var v := PrintedValue(l);
    var s := l.name + ['='] + (v + ['\n']);
    PrintedValueRead(types, l);
    IndexOfSplit(l.name, '=', v + ['\n']);
    ValueTextPrinted(v);
    assert s[..|l.name|] == l.name && s[|l.name| + 1..] == v + ['\n'];
  }

  lemma ReadUnsetPrinted(types: Types, vals: Vals, l: Line)
    requires ValidLine(types, l) && l.val == TriVal(NO)
    ensures ReadUnset(types, vals, l.name + [' '] + (NOT_SET + ['\n'])) == vals[l.name := l.val]
  {
    var s := l.name + [' '] + (NOT_SET + ['\n']);
    IndexOfSplit(l.name, ' ', NOT_SET + ['\n']);
    assert s[..|l.name|] == l.name && s[|l.name| + 1..] == NOT_SET + ['\n'];
    assert (NOT_SET + ['\n'])[..|NOT_SET|] == NOT_SET;
  }

  lemma TerminatedWhole(s: string)
    requires NUL !in s
    ensures Terminated(s) == s
  {
  }

  lemma TerminatedPrefix(s: string, t: string)
    requires NUL !in t
    ensures StartsWith(Terminated(s), t) <==> StartsWith(s, t)
  {
    var n := IndexOf(s, NUL);
    if n >= |t| {
      assert s[..n][..|t|] == s[..|t|];
    } else {
      assert |t| <= |s| ==> s[..|t|][n] != t[n];
    }
  }

  lemma ReadLineUnset(types: Types, vals: Vals, s: string)
    ensures ReadLine(types, vals, "# " + (CONFIG + s)) == ReadUnset(types, vals, Terminated(s))
  {
    hide ReadUnset, Terminated;
    var t := "# " + (CONFIG + s);
    assert t[2..] == CONFIG + s && t[9..] == s && (CONFIG + s)[..7] == CONFIG && t[0] == '#';
  }

  lemma ReadLineSet(types: Types, vals: Vals, s: string)
    ensures ReadLine(types, vals, CONFIG + s) == ReadSet(types, vals, Terminated(s))
  {
    hide ReadSet, Terminated;
    var t := CONFIG + s;
    assert t[..7] == CONFIG && t[7..] == s && t[0] == 'C';
  }

  lemma ReadPrinted(types: Types, vals: Vals, l: Line)
    requires ValidLine(types, l)
    ensures ReadLine(types, vals, Print(l)) == vals[l.name := l.val]
  {
    PrintedOneLine(types, l);
    if l.val == TriVal(NO) {
      var s := l.name + [' '] + (NOT_SET + ['\n']);
      assert Print(l) == "# " + (CONFIG + s);
      hide *;
      ReadLineUnset(types, vals, s);
      TerminatedWhole(s);
      ReadUnsetPrinted(types, vals, l);
    } else {
      var s := l.name + ['='] + (PrintedValue(l) + ['\n']);
      assert Print(l) == CONFIG + s;
      hide *;
      ReadLineSet(types, vals, s);
      TerminatedWhole(s);
      ReadSetPrinted(types, vals, l);
    }
  }

  lemma PrintedOneLine(types: Types, l: Line)
    requires ValidLine(types, l)
    ensures var t := Print(l); t != [] && '\n' !in t[..|t| - 1] && t[|t| - 1] == '\n' && NUL !in t
  {
    PrintedValueRead(types, l);
    PrintBody(l);
    BodyOneLine(l);
    hide Print, LineBody;
  }

  lemma BodyOneLine(l: Line)
    requires ValidName(l.name) && (l.val != TriVal(NO) ==> '\n' !in PrintedValue(l) && NUL !in PrintedValue(l))
    ensures '\n' !in LineBody(l) && NUL !in LineBody(l)
  {
    hide PrintedValue;
  }

  // a printed line without its newline
  function LineBody(l: Line): string {
    if l.val == TriVal(NO) then "# CONFIG_" + (l.name + " is not set")
    else CONFIG + (l.name + (['='] + PrintedValue(l)))
  }

  lemma PrintBody(l: Line)
    ensures Print(l) == LineBody(l) + ['\n']
    ensures Print(l)[..|Print(l)| - 1] == LineBody(l)
  {
    if l.val == TriVal(NO) {
      assert "# " + CONFIG + l.name + " " + NOT_SET == LineBody(l);
    } else {
      assert CONFIG + l.name + "=" + PrintedValue(l) == LineBody(l);
    }
  }

  // ---------- whole files ----------

  // compat_getline: the length of the first line, its newline included
  function LineLength(text: string): (n: nat)
    ensures n <= |text| && (text != [] ==> n > 0)
  {
    var n := IndexOf(text, '\n');
    if n < |text| then n + 1 else n
  }

  // conf_read_simple
  function ReadText(types: Types, vals: Vals, text: string): Vals
    decreases |text|
  {
    if text == [] then vals
    else
      var n := LineLength(text);
      ReadText(types, ReadLine(types, vals, text[..n]), text[n..])
  }

  lemma ReadTextStep(types: Types, vals: Vals, text: string)
    requires text != []
    ensures var n := LineLength(text);
      n > 0 && ReadText(types, vals, text) == ReadText(types, ReadLine(types, vals, text[..n]), text[n..])
  {
  }

  lemma ReadTextNone(types: Types, vals: Vals, text: string)
    requires text == []
    ensures ReadText(types, vals, text) == vals
  {
  }

  function PrintAll(ls: seq<Line>): string {
    if ls == [] then [] else Print(ls[0]) + PrintAll(ls[1..])
  }

  function StoreAll(vals: Vals, ls: seq<Line>): Vals
    decreases |ls|
  {
    if ls == [] then vals else StoreAll(vals[ls[0].name := ls[0].val], ls[1..])
  }

  lemma {:induction false} WriteThenRead(types: Types, vals: Vals, ls: seq<Line>)
    requires forall k :: 0 <= k < |ls| ==> ValidLine(types, ls[k])
    ensures ReadText(types, vals, PrintAll(ls)) == StoreAll(vals, ls)
    decreases |ls|
  {
    hide ReadLine, Print, IndexOf, ValidLine;
    if ls != [] {
      var t := Print(ls[0]);
      PrintedOneLine(types, ls[0]);
      ReadPrinted(types, vals, ls[0]);
      var init := t[..|t| - 1];
      assert PrintAll(ls) == init + ['\n'] + PrintAll(ls[1..]);
      IndexOfSplit(init, '\n', PrintAll(ls[1..]));
      assert PrintAll(ls)[..|t|] == t && PrintAll(ls)[|t|..] == PrintAll(ls[1..]);
      WriteThenRead(types, vals[ls[0].name := ls[0].val], ls[1..]);
    }
  }

  // For distinct names every symbol reads back the value it was written with
  lemma {:induction false} StoreAllGives(vals: Vals, ls: seq<Line>, k: nat)
    requires k < |ls| && forall i :: k < i < |ls| ==> ls[i].name != ls[k].name
    ensures ls[k].name in StoreAll(vals, ls) && StoreAll(vals, ls)[ls[k].name] == ls[k].val
    decreases |ls|
  {
    if k == 0 {
      StoreAllKeeps(vals[ls[0].name := ls[0].val], ls[1..], ls[0].name);
    } else {
      StoreAllGives(vals[ls[0].name := ls[0].val], ls[1..], k - 1);
    }
  }

  lemma {:induction false} StoreAllKeeps(vals: Vals, ls: seq<Line>, name: string)
    requires forall i :: 0 <= i < |ls| ==> ls[i].name != name
    ensures name in StoreAll(vals, ls) <==> name in vals
    ensures name in vals ==> StoreAll(vals, ls)[name] == vals[name]
    decreases |ls|
  {
    if ls != [] {
      StoreAllKeeps(vals[ls[0].name := ls[0].val], ls[1..], name);
    }
  }

  // ---------- no text ever reads as a value with a newline ----------

  predicate NoNewline(v: Val) { v.StrVal? ==> '\n' !in v.s }

  ghost predicate NoNewlines(vals: Vals) { forall n :: n in vals ==> NoNewline(vals[n]) }

  lemma {:induction false} UnescapedChars(s: string, c: char)
    requires c !in s && Unescaped(s).Some?
    ensures c !in Unescaped(s).value
    decreases |s|
  {
    if s[0] != '"' {
      UnescapedChars(s[if s[0] == '\\' then 2 else 1..], c);
    }
  }

  lemma SetValNoNewline(typ: SymType, p: string)
    requires '\n' !in p && SetVal(typ, p).Some?
    ensures NoNewline(SetVal(typ, p).value)
  {
    if typ == Str {
      UnescapedChars(p[1..], '\n');
    }
  }

  lemma ReadSetNoNewlines(types: Types, vals: Vals, s: string)
    requires NoNewlines(vals)
    ensures NoNewlines(ReadSet(types, vals, s))
  {
    hide SetVal, NoNewline, Find, IndexOf;
    var n := IndexOf(s, '=');
    if n < |s| {
      var t, p := Find(types, s[..n]), ValueText(s[n + 1..]);
      ValueTextNoNewline(s[n + 1..]);
      if SetVal(t, p).Some? {
        SetValNoNewline(t, p);
      }
    }
  }

  lemma ValueTextNoNewline(s: string)
    ensures '\n' !in ValueText(s)
  {
  }

  lemma ReadLineNoNewlines(types: Types, vals: Vals, line: string)
    requires NoNewlines(vals)
    ensures NoNewlines(ReadLine(types, vals, line))
  {
    hide ReadSet, NoNewline, Find, IndexOf;
    TriNoNewline();
    if StartsWith(line, CONFIG) {
      ReadSetNoNewlines(types, vals, Terminated(line[7..]));
    }
  }

  lemma TriNoNewline()
    ensures NoNewline(TriVal(NO))
  {
  }

  lemma {:induction false} ReadTextNoNewlines(types: Types, vals: Vals, text: string)
    requires NoNewlines(vals)
    ensures NoNewlines(ReadText(types, vals, text))
    decreases |text|
  {
    if text != [] {
      var n := LineLength(text);
      ReadLineNoNewlines(types, vals, text[..n]);
      ReadTextNoNewlines(types, ReadLine(types, vals, text[..n]), text[n..]);
    }
  }

  // A string symbol is restored from its own line exactly when its value has no
  // newline
  lemma StringRestoredExactly(types: Types, name: string, s: string)
    requires ValidName(name) && name in types && types[name] == Str && NUL !in s
    ensures var vals := ReadText(types, map[], Print(Line(name, Str, StrVal(s))));
      (name in vals && vals[name] == StrVal(s)) <==> '\n' !in s
  {
    var l := Line(name, Str, StrVal(s));
    if '\n' !in s {
      assert PrintAll([l]) == Print(l) + PrintAll([]) == Print(l);
      WriteThenRead(types, map[], [l]);
      StoreAllGives(map[], [l], 0);
    } else {
      ReadTextNoNewlines(types, map[], Print(l));
    }
  }

  // ---------- the reader, which edits its line buffer in place ----------

  // the buffer holds the line, whatever is in it
  predicate Held(b: seq<char>, line: string) { |line| < |b| && b[..|line|] == line && b[|line|] == NUL }

  lemma PrefixSlice(b: seq<char>, m: nat, p: nat, n: nat)
    requires p + n <= m <= |b|
    ensures b[..m][p..p + n] == b[p..p + n] && b[..m][p..][..n] == b[p..p + n]
  {
  }

  lemma HeldCStr(b: seq<char>, line: string, p: nat)
    requires Held(b, line) && p <= |line|
    ensures CStr(b, p, Terminated(line[p..]))
  {
    hide IndexOf;
    var n := IndexOf(line[p..], NUL);
    PrefixSlice(b, |line|, p, n);
    assert b[p + n] == if p + n < |line| then b[..|line|][p + n] else b[|line|];
  }

  lemma CStrTail(b: seq<char>, p: nat, s: string, n: nat)
    requires CStr(b, p, s) && n <= |s|
    ensures CStr(b, p + n, s[n..]) && p + |s| < |b|
    ensures b[p + n] == (if n < |s| then s[n] else NUL)
  {
    assert b[p..p + |s|][n..] == b[p + n..p + |s|];
  }

  // strchr(p, c), or the terminator if there is no c
  method FindChar(buf: array<char>, p: nat, c: char, ghost s: string) returns (q: nat)
    requires CStr(buf[..], p, s) && c != NUL
    ensures q == p + IndexOf(s, c) && q < buf.Length
    ensures buf[q] == NUL <==> IndexOf(s, c) == |s|
  {
    q := p;
    CStrTail(buf[..], p, s, 0);
    assert s[0..] == s;
    while buf[q] != NUL && buf[q] != c
      invariant p <= q <= p + |s| && IndexOf(s, c) == (q - p) + IndexOf(s[q - p..], c)
      invariant buf[q] == (if q - p < |s| then s[q - p] else NUL)
      decreases p + |s| - q
    {
      CStrTail(buf[..], p, s, q - p + 1);
      assert s[q - p..][1..] == s[q - p + 1..];
      q := q + 1;
    }
  }

  // memcmp and strncmp against a literal
  method PrefixAt(buf: array<char>, p: nat, t: string, ghost s: string) returns (yes: bool)
    requires CStr(buf[..], p, s) && NUL !in t
    ensures yes <==> StartsWith(s, t)
  {
    for k := 0 to |t|
      invariant k <= |s| && s[..k] == t[..k]
    {
      CStrTail(buf[..], p, s, k);
      if buf[p + k] != t[k] {
        return false;
      }
      assert s[..k + 1] == s[..k] + [s[k]] && t[..k + 1] == t[..k] + [t[k]];
    }
    yes := true;
  }

  // *(p + n) = 0: one string becomes two
  method CutAt(buf: array<char>, p: nat, n: nat, ghost s: string)
    requires CStr(buf[..], p, s) && n < |s|
    modifies buf
    ensures CStr(buf[..], p, s[..n]) && CStr(buf[..], p + n + 1, s[n + 1..])
    ensures p + n < buf.Length && buf[p + n] == NUL
    ensures forall k :: 0 <= k < buf.Length && k != p + n ==> buf[k] == old(buf[k])
  {
    CStrTail(buf[..], p, s, n + 1);
    ghost var b := buf[..];
    buf[p + n] := NUL;
    assert buf[p..p + n] == b[p..p + |s|][..n];
    assert buf[..][p + n + 1..p + |s|] == b[p + n + 1..p + |s|];
  }

  method StrDup(buf: array<char>, p: nat, ghost s: string) returns (r: string)
    requires CStr(buf[..], p, s)
    ensures r == s
  {
    var n := StrLen(buf, p, s);
    r := buf[p..p + n];
  }

  class Reader {
    const types: Types
    var vals: Vals   // def[].tri and def[].val of the symbols with SYMBOL_DEF_USER

    constructor (types: Types)
      ensures this.types == types && vals == map[]
    {
      this.types, vals := types, map[];
    }

    // conf_set_sym_val
    method SetSymVal(name: string, typ: SymType, buf: array<char>, p: nat, ghost s: string)
      requires CStr(buf[..], p, s)
      modifies this`vals, buf
      ensures vals == match SetVal(typ, s) case Some(v) => old(vals)[name := v] case None => old(vals)
    {
      CStrTail(buf[..], p, s, 0);
      if typ == Tristate && buf[p] == 'm' {
        vals := vals[name := TriVal(MOD)];
      } else if typ == Tristate || typ == Boolean {
        if buf[p] == 'y' {
          vals := vals[name := TriVal(YES)];
        } else if buf[p] == 'n' {
          vals := vals[name := TriVal(NO)];
        }
      } else if typ == Str {
        if buf[p] == '"' {
          CStrTail(buf[..], p, s, 1);
          var ok := Unquote(buf, p + 1, s[1..]);
          if ok {
            var t := StrDup(buf, p + 1, Unescaped(s[1..]).value);
            vals := vals[name := StrVal(t)];
          }
        }
      } else if typ == Int || typ == Hex {
        var t := StrDup(buf, p, s);
        if StringValid(typ, t) {
          vals := vals[name := StrVal(t)];
        }
      }
    }

    // the body of the loop of conf_read_simple. Behind a line of one character
    // there is nothing to compare.
    method ReadLineIn(buf: array<char>, n: nat, ghost line: string)
      requires Held(buf[..], line) && n == |line|
      modifies this`vals, buf
      ensures vals == ReadLine(types, old(vals), line)
    {
      hide ReadUnset, ReadSet, CStr, SetVal, Find, IndexOf, Terminated;
      if buf[0] == '#' {
        if n >= 2 {
          HeldCStr(buf[..], line, 2);
          TerminatedPrefix(line[2..], CONFIG);
          var config := PrefixAt(buf, 2, CONFIG, Terminated(line[2..]));
          if config {
            HeldCStr(buf[..], line, 9);
            ReadUnsetIn(buf, 9, Terminated(line[9..]));
          }
        }
      } else {
        HeldCStr(buf[..], line, 0);
        assert line[0..] == line;
        TerminatedPrefix(line, CONFIG);
        var config := PrefixAt(buf, 0, CONFIG, Terminated(line));
        if config {
          HeldCStr(buf[..], line, 7);
          ReadSetIn(buf, 7, Terminated(line[7..]));
        }
      }
    }

    method ReadUnsetIn(buf: array<char>, p: nat, ghost s: string)
      requires CStr(buf[..], p, s)
      modifies this`vals, buf
      ensures vals == ReadUnset(types, old(vals), s)
    {
      hide CStr, StartsWith, Find, IndexOf;
      var q := FindChar(buf, p, ' ', s);
      if buf[q] == NUL {
        return;
      }
      ghost var n := IndexOf(s, ' ');
      CutAt(buf, p, q - p, s);
      var unset := PrefixAt(buf, q + 1, NOT_SET, s[n + 1..]);
      if unset {
        var name := StrDup(buf, p, s[..n]);
        var typ := Find(types, name);
        if typ == Boolean || typ == Tristate {
          vals := vals[name := TriVal(NO)];
        }
      }
    }

    method ReadSetIn(buf: array<char>, p: nat, ghost s: string)
      requires CStr(buf[..], p, s)
      modifies this`vals, buf
      ensures vals == ReadSet(types, old(vals), s)
    {
      hide CStr, SetVal, ValueText, Find, IndexOf;
      var q := FindChar(buf, p, '=', s);
      if buf[q] == NUL {
        return;
      }
      ghost var n := IndexOf(s, '=');
      CutAt(buf, p, q - p, s);
      var name := StrDup(buf, p, s[..n]);
      TrimLine(buf, q + 1, s[n + 1..]);
      SetSymVal(name, Find(types, name), buf, q + 1, ValueText(s[n + 1..]));
    }

    // drop the line end, and a carriage return before it
    method TrimLine(buf: array<char>, p: nat, ghost s: string)
      requires CStr(buf[..], p, s) && p > 0 && buf[p - 1] == NUL
      modifies buf
      ensures CStr(buf[..], p, ValueText(s))
    {
      hide CStr, IndexOf;
      var q := FindChar(buf, p, '\n', s);
      if buf[q] != NUL {
        ghost var n := q - p;
        CutAt(buf, p, q - p, s);
        q := q - 1;
        assert n == 0 ==> buf[q] == NUL;
        if n > 0 {
          CStrTail(buf[..], p, s[..n], n - 1);
        }
        if buf[q] == '\r' {
          CutAt(buf, p, q - p, s[..n]);
          assert s[..n][..n - 1] == s[..n - 1];
        }
      } else {
        assert s[..|s|] == s;
      }
    }

    // conf_read_simple on the text of a file
    method ReadFile(text: string)
      modifies this`vals
      ensures vals == ReadText(types, map[], text)
    {
      hide ReadText, ReadLine, Held, LineLength;
      vals := map[];
      var p := 0;
      assert text[0..] == text;
      while p < |text|
        invariant 0 <= p <= |text|
        invariant ReadText(types, vals, text[p..]) == ReadText(types, map[], text)
        decreases |text| - p
      {
        var buf, n := GetLine(text, p);
        ReadTextStep(types, vals, text[p..]);
        assert text[p..][n..] == text[p + n..];
        ReadLineIn(buf, n, text[p..][..n]);
        p := p + n;
      }
      ReadTextNone(types, vals, text[p..]);
    }

    // compat_getline: the next line in a buffer of its own
    method GetLine(text: string, p: nat) returns (buf: array<char>, n: nat)
      requires p < |text|
      ensures fresh(buf) && n == LineLength(text[p..])
      ensures Held(buf[..], text[p..][..n])
    {
      n := 0;
      ghost var rest := text[p..];
      assert rest[0..] == rest;
      while p + n < |text| && text[p + n] != '\n'
        invariant 0 <= n <= |rest| && IndexOf(rest, '\n') == n + IndexOf(rest[n..], '\n')
      {
        assert rest[n..][1..] == rest[n + 1..] && rest[n..][0] == text[p + n];
        n := n + 1;
      }
      if p + n < |text| {
        assert rest[n..][0] == '\n';
        n := n + 1;
      }
      buf := new char[n + 1](i requires 0 <= i <= n => if p + i < |text| then text[p + i] else NUL);
      buf[n] := NUL;
      assert buf[..n] == rest[..n];
    }
  }
}
