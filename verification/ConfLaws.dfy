/** What each kind of line in a configuration file stores, said of the
    characters of the line (conf_read_simple, conf_set_sym_val,
    sym_string_valid), and what the escaping of strings adds. */
module ConfLaws {
  import opened Options
  import opened SymbolPrefix
  import opened Tristates
  import opened Exprs
  import opened ConfFile

  // ---------- numbers ----------

  predicate AllIn(s: string, chars: string) { forall k :: 0 <= k < |s| ==> s[k] in chars }

  // an optional minus and digits, with no leading zero
  predicate Decimal(s: string, digits: string) {
    (s == digits || s == "-" + digits) && digits != "" && AllIn(digits, "0123456789") &&
    (digits[0] == '0' ==> digits == "0")
  }

  // an optional 0x and hexadecimal digits
  predicate Hexadecimal(s: string, digits: string) {
    (s == digits || s == "0x" + digits || s == "0X" + digits) && digits != "" &&
    AllIn(digits, "0123456789abcdefABCDEF")
  }

  lemma DigitsIn(s: string)
    ensures AllIn(s, "0123456789") <==> Digits(s)
  {
    forall c: char ensures c in "0123456789" <==> Digit(c) { DigitIn(c); }
  }

  lemma DigitIn(c: char)
    ensures c in "0123456789" <==> Digit(c)
  {
    if Digit(c) {
      assert "0123456789"[c as int - '0' as int] == c;
    }
  }

  lemma LetterIn(c: char)
    ensures c in "abcdef" <==> 'a' <= c <= 'f'
    ensures c in "ABCDEF" <==> 'A' <= c <= 'F'
  {
    if 'a' <= c <= 'f' {
      assert "abcdef"[c as int - 'a' as int] == c;
    }
    if 'A' <= c <= 'F' {
      assert "ABCDEF"[c as int - 'A' as int] == c;
    }
  }

  lemma XDigitIn(c: char)
    ensures c in "0123456789abcdefABCDEF" <==> XDigit(c)
  {
    assert "0123456789abcdefABCDEF" == "0123456789" + "abcdef" + "ABCDEF";
    DigitIn(c);
    LetterIn(c);
  }

  lemma XDigitsIn(s: string)
    ensures AllIn(s, "0123456789abcdefABCDEF") <==> XDigits(s)
  {
    forall c: char ensures c in "0123456789abcdefABCDEF" <==> XDigit(c) { XDigitIn(c); }
  }

  lemma DecimalExact(s: string)
    ensures StringValid(Int, s) <==> exists d :: Decimal(s, d)
  {
    hide *;
    if StringValid(Int, s) {
      DecimalGiven(s);
    }
    if d :| Decimal(s, d) {
      DecimalValid(s, d);
    }
  }

  lemma DecimalGiven(s: string)
    requires StringValid(Int, s)
    ensures exists d :: Decimal(s, d)
  {
    var t := if s != [] && s[0] == '-' then s[1..] else s;
    DigitsIn(t);
    hide AllIn;
    assert |t| < |s| ==> s == "-" + t;
    assert t[0] == '0' ==> t == "0";
    assert Decimal(s, t);
  }

  lemma DecimalValid(s: string, d: string)
    requires Decimal(s, d)
    ensures StringValid(Int, s)
  {
    DigitsIn(d);
    hide AllIn;
    assert Digit(d[0]);
    assert (if s[0] == '-' then s[1..] else s) == d;
  }

  lemma HexadecimalExact(s: string)
    ensures StringValid(Hex, s) <==> exists d :: Hexadecimal(s, d)
  {
    hide *;
    if StringValid(Hex, s) {
      HexadecimalGiven(s);
    }
    if d :| Hexadecimal(s, d) {
      HexadecimalValid(s, d);
    }
  }

  lemma HexadecimalGiven(s: string)
    requires StringValid(Hex, s)
    ensures exists d :: Hexadecimal(s, d)
  {
    var t := if |s| >= 2 && s[0] == '0' && (s[1] == 'x' || s[1] == 'X') then s[2..] else s;
    XDigitsIn(t);
    hide AllIn;
    assert |t| < |s| ==> s == [s[0], s[1]] + t && (s == "0x" + t || s == "0X" + t);
    assert Hexadecimal(s, t);
  }

  lemma HexadecimalValid(s: string, d: string)
    requires Hexadecimal(s, d)
    ensures StringValid(Hex, s)
  {
    XDigitsIn(d);
    hide AllIn;
    if s == d {
      assert |d| > 1 ==> XDigit(d[1]);
    } else {
      assert s[0] == '0' && (s[1] == 'x' || s[1] == 'X') && s[2..] == d;
    }
  }

  // ---------- strings ----------

  // b stands for s: every character by itself, if it is neither a quote nor a
  // backslash, or behind a backslash
  predicate Encodes(b: string, s: string) {
    if s == [] then b == []
    else
      || (b != [] && b[0] == s[0] && b[0] != '"' && b[0] != '\\' && Encodes(b[1..], s[1..]))
      || (|b| >= 2 && b[0] == '\\' && b[1] == s[0] && Encodes(b[2..], s[1..]))
  }

  // b, a closing quote, and anything
  predicate Closes(t: string, b: string, s: string) {
    |b| < |t| && t[..|b|] == b && t[|b|] == '"' && Encodes(b, s)
  }

  lemma {:induction false} EncodedRead(t: string, b: string, s: string)
    requires Closes(t, b, s)
    ensures Unescaped(t) == Some(s)
    decreases |b|
  {
    if s != [] {
      var n := if b[0] == s[0] && b[0] != '"' && b[0] != '\\' && Encodes(b[1..], s[1..]) then 1 else 2;
      assert t[0] == t[..|b|][0] == b[0] && (n == 2 ==> t[1] == t[..|b|][1] == b[1]);
      assert t[n..][..|b| - n] == t[..|b|][n..];
      EncodedRead(t[n..], b[n..], s[1..]);
      assert s == [s[0]] + s[1..];
    }
  }

  lemma {:induction false} ReadEncoded(t: string) returns (b: string)
    requires Unescaped(t).Some?
    ensures Closes(t, b, Unescaped(t).value)
    decreases |t|
  {
    if t[0] == '"' {
      b := [];
    } else {
      var n := if t[0] == '\\' then 1 else 0;
      var c := ReadEncoded(t[n + 1..]);
      b := t[..n + 1] + c;
      assert t[..|b|] == t[..n + 1] + t[n + 1..][..|c|];
      assert b[n + 1..] == c;
    }
  }

  // A string is read exactly from the texts that stand for it, up to the first
  // quote without a backslash
  lemma UnescapedExact(t: string, s: string)
    ensures Unescaped(t) == Some(s) <==> exists b :: Closes(t, b, s)
  {
    if Unescaped(t) == Some(s) {
      var b := ReadEncoded(t);
    }
    if b :| Closes(t, b, s) {
      EncodedRead(t, b, s);
    }
  }

  // The printed text stands for the string, and no other such text is as short
  lemma {:induction false} EscapedShortest(s: string, b: string)
    ensures Encodes(Escaped(s), s)
    ensures Encodes(b, s) && b != Escaped(s) ==> |b| > |Escaped(s)|
  {
    if s != [] {
      EscapedShortest(s[1..], []);
      if b != [] {
        EscapedShortest(s[1..], b[1..]);
        assert b == [b[0]] + b[1..];
      }
      if |b| >= 2 {
        EscapedShortest(s[1..], b[2..]);
        assert b == b[..2] + b[2..] && b[..2] == [b[0], b[1]];
      }
    }
  }

  // ---------- lines that set a value ----------

  // the rest of a line behind a text without newline and NUL
  predicate LineEnd(text: string, e: string) {
    || e == ""
    || (e == "\n" && (text == "" || text[|text| - 1] != '\r'))
    || e == "\r\n"
    || e[0] == NUL
  }

  predicate OneLine(s: string) { '\n' !in s && NUL !in s }

  function SetLine(name: string, text: string, e: string): string { CONFIG + (name + ("=" + (text + e))) }

  // the symbol is declared with this type, and is not y, m or n
  predicate Declared(types: Types, name: string, typ: SymType) {
    name in types && types[name] == typ && name != "y" && name != "m" && name != "n"
  }

  lemma {:induction false} IndexOfUnique(s: string, c: char, n: nat)
    requires n <= |s| && c !in s[..n] && (n < |s| ==> s[n] == c)
    ensures IndexOf(s, c) == n
  {
    if n > 0 {
      assert s[0] == s[..n][0] && s[1..][..n - 1] == s[..n][1..];
      IndexOfUnique(s[1..], c, n - 1);
    }
  }

  lemma TerminatedText(s: string, e: string)
    requires NUL !in s && (e == "" || e[0] == NUL)
    ensures Terminated(s + e) == s
  {
    assert (s + e)[..|s|] == s;
    IndexOfUnique(s + e, NUL, |s|);
  }

  lemma TextRead(text: string, e: string)
    requires OneLine(text) && LineEnd(text, e) && NUL !in e
    ensures ValueText(text + e) == text
  {
    var s := text + e;
    if e == "\r\n" {
      assert '\n' !in text + "\r" && s[..|text| + 1] == text + "\r";
      IndexOfUnique(s, '\n', |text| + 1);
    } else {
      assert s[..|text|] == text;
      IndexOfUnique(s, '\n', |text|);
    }
  }

  lemma BehindName(name: string, rest: string)
    requires '=' !in name
    ensures var s := name + ("=" + rest);
      IndexOf(s, '=') == |name| && s[..|name|] == name && s[|name| + 1..] == rest
  {
    var s := name + ("=" + rest);
    assert s[..|name|] == name;
    IndexOfUnique(s, '=', |name|);
  }

  // what ReadLine makes of the value text
  lemma SetLineRead(types: Types, vals: Vals, name: string, text: string, e: string)
    requires '=' !in name && NUL !in name && OneLine(text) && LineEnd(text, e)
    ensures ReadLine(types, vals, SetLine(name, text, e))
         == match SetVal(Find(types, name), text) case Some(v) => vals[name := v] case None => vals
  {
    hide ReadSet, Terminated, ValueText, SetVal, Find, IndexOf;
    ReadLineSet(types, vals, name + ("=" + (text + e)));
    if e != "" && e[0] == NUL {
      assert name + ("=" + (text + e)) == (name + ("=" + text)) + e;
      TerminatedText(name + ("=" + text), e);
      SetRead(types, vals, name, text, "");
    } else {
      assert name + ("=" + (text + e)) + "" == name + ("=" + (text + e));
      TerminatedText(name + ("=" + (text + e)), "");
      SetRead(types, vals, name, text, e);
    }
  }

  lemma SetRead(types: Types, vals: Vals, name: string, text: string, e: string)
    requires '=' !in name && OneLine(text) && LineEnd(text, e) && NUL !in e
    ensures var v := SetVal(Find(types, name), text);
      && ReadSet(types, vals, name + ("=" + (text + e))) == (if v.Some? then vals[name := v.value] else vals)
      && (e == "" ==> text + e == text)
  {
    hide ValueText, SetVal, Find, IndexOf, LineEnd;
    BehindName(name, text + e);
    TextRead(text, e);
  }

  lemma FirstCharacter(typ: SymType, text: string)
    requires typ == Boolean || typ == Tristate
    ensures SetVal(typ, text) ==
      if text == "" then None
      else if text[0] == 'y' then Some(TriVal(YES))
      else if text[0] == 'n' then Some(TriVal(NO))
      else if text[0] == 'm' && typ == Tristate then Some(TriVal(MOD))
      else None
  {
    assert text != "" ==> text[..1] == [text[0]];
  }

  // For a boolean or tristate symbol the first character decides alone
  lemma LogicLine(types: Types, vals: Vals, name: string, typ: SymType, text: string, e: string)
    requires Declared(types, name, typ) && (typ == Boolean || typ == Tristate)
    requires '=' !in name && NUL !in name && OneLine(text) && LineEnd(text, e)
    ensures var after := ReadLine(types, vals, SetLine(name, text, e));
      after ==
        if text == "" then vals
        else if text[0] == 'y' then vals[name := TriVal(YES)]
        else if text[0] == 'n' then vals[name := TriVal(NO)]
        else if text[0] == 'm' && typ == Tristate then vals[name := TriVal(MOD)]
        else vals
  {
    SetLineRead(types, vals, name, text, e);
    FirstCharacter(typ, text);
    hide ReadLine, SetVal;
  }

  // A number is stored as it is written, if it is one
  lemma NumberLine(types: Types, vals: Vals, name: string, typ: SymType, text: string, e: string)
    requires Declared(types, name, typ) && (typ == Int || typ == Hex)
    requires '=' !in name && NUL !in name && OneLine(text) && LineEnd(text, e)
    ensures var after := ReadLine(types, vals, SetLine(name, text, e));
      after ==
        if exists d :: if typ == Int then Decimal(text, d) else Hexadecimal(text, d)
        then vals[name := StrVal(text)] else vals
  {
    SetLineRead(types, vals, name, text, e);
    hide ReadLine, Decimal, Hexadecimal, StringValid;
    DecimalExact(text);
    HexadecimalExact(text);
  }

  lemma QuotedValue(text: string)
    ensures SetVal(Str, text) ==
      if text == "" || text[0] != '"' || Unescaped(text[1..]).None? then None
      else Some(StrVal(Unescaped(text[1..]).value))
  {
    hide Unescaped;
    assert text != "" ==> text[..1] == [text[0]];
  }

  // A string needs its quotes; what follows the closing one is ignored
  lemma StringLine(types: Types, vals: Vals, name: string, text: string, e: string)
    requires Declared(types, name, Str)
    requires '=' !in name && NUL !in name && OneLine(text) && LineEnd(text, e)
    ensures var after := ReadLine(types, vals, SetLine(name, text, e));
      && (forall b, s :: text != "" && text[0] == '"' && Closes(text[1..], b, s) ==> after == vals[name := StrVal(s)])
      && ((forall b, s :: text != "" && text[0] == '"' ==> !Closes(text[1..], b, s)) ==> after == vals)
  {
    SetLineRead(types, vals, name, text, e);
    QuotedValue(text);
    assert Find(types, name) == Str;
    hide *;
    if text != "" && text[0] == '"' {
      if Unescaped(text[1..]).Some? {
        var b := ReadEncoded(text[1..]);
      }
      forall b, s | Closes(text[1..], b, s)
        ensures Unescaped(text[1..]) == Some(s)
      {
        EncodedRead(text[1..], b, s);
      }
    }
  }

  // A name that is not declared, or is y, m or n, stores nothing
  lemma UnknownLine(types: Types, vals: Vals, name: string, text: string, e: string)
    requires name !in types || name == "y" || name == "m" || name == "n" || types[name] == Unknown
    requires '=' !in name && NUL !in name && OneLine(text) && LineEnd(text, e)
    ensures ReadLine(types, vals, SetLine(name, text, e)) == vals
  {
    SetLineRead(types, vals, name, text, e);
    hide ReadLine;
  }

  // ---------- the other lines ----------

  function Comment(c: char, s: string): string { ['#', c] + (CONFIG + s) }

  lemma CommentRead(types: Types, vals: Vals, c: char, s: string)
    ensures ReadLine(types, vals, Comment(c, s)) == ReadUnset(types, vals, Terminated(s))
  {
    hide ReadUnset, Terminated;
    var t := Comment(c, s);
    assert t[0] == '#' && t[2..] == CONFIG + s && t[9..] == s && (CONFIG + s)[..7] == CONFIG;
  }

  lemma BehindSpace(name: string, rest: string)
    requires ' ' !in name
    ensures var s := name + (" " + rest);
      IndexOf(s, ' ') == |name| && s[..|name|] == name && s[|name| + 1..] == rest
  {
    var s := name + (" " + rest);
    assert s[..|name|] == name;
    IndexOfUnique(s, ' ', |name|);
  }

  // "# CONFIG_name is not set" sets a boolean or tristate symbol to n, whatever
  // follows; any other text behind the name is a comment
  lemma UnsetLine(types: Types, vals: Vals, c: char, name: string, rest: string)
    requires ' ' !in name && NUL !in name && NUL !in rest
    ensures var after := ReadLine(types, vals, Comment(c, name + (" " + rest)));
      after ==
        if StartsWith(rest, "is not set") && (Declared(types, name, Boolean) || Declared(types, name, Tristate))
        then vals[name := TriVal(NO)] else vals
  {
    hide Terminated, ReadLine, IndexOf;
    CommentRead(types, vals, c, name + (" " + rest));
    TerminatedWhole(name + (" " + rest));
    BehindSpace(name, rest);
  }

  // Lines that are neither change nothing
  lemma OtherLine(types: Types, vals: Vals, line: string)
    requires NUL !in line
    requires StartsWith(line, CONFIG) ==> '=' !in line[7..]
    requires |line| >= 2 && line[0] == '#' && StartsWith(line[2..], CONFIG) ==> ' ' !in line[9..]
    ensures ReadLine(types, vals, line) == vals
  {
    hide IndexOf;
    if StartsWith(line, CONFIG) {
      TerminatedWhole(line[7..]);
      IndexOfUnique(line[7..], '=', |line| - 7);
    } else if |line| >= 2 && line[0] == '#' && StartsWith(line[2..], CONFIG) {
      TerminatedWhole(line[9..]);
      IndexOfUnique(line[9..], ' ', |line| - 9);
    }
  }

  // ---------- whole files and printed lines ----------

  // A file is read line by line, the last one with or without its newline
  lemma LineByLine(types: Types, vals: Vals, line: string, rest: string)
    requires '\n' !in line
    ensures ReadText(types, vals, line + ("\n" + rest)) == ReadText(types, ReadLine(types, vals, line + "\n"), rest)
    ensures ReadText(types, vals, line) == if line == "" then vals else ReadLine(types, vals, line)
  {
    hide *;
    var t := line + ("\n" + rest);
    FirstLine(line, rest);
    ReadTextStep(types, vals, t);
    assert line[..|line|] == line;
    if line == "" {
      ReadTextNone(types, vals, line);
    } else {
      ReadTextStep(types, vals, line);
      ReadTextNone(types, ReadLine(types, vals, line), line[|line|..]);
    }
  }

  lemma FirstLine(line: string, rest: string)
    requires '\n' !in line
    ensures var t := line + ("\n" + rest);
      LineLength(t) == |line| + 1 && t[..|line| + 1] == line + "\n" && t[|line| + 1..] == rest
    ensures LineLength(line) == |line|
  {
    var t := line + ("\n" + rest);
    assert t[..|line|] == line && t[..|line| + 1] == line + "\n" && t[|line| + 1..] == rest;
    IndexOfUnique(t, '\n', |line|);
    assert line[..|line|] == line;
    IndexOfUnique(line, '\n', |line|);
  }

  lemma PrintForms(l: Line)
    ensures l.val == TriVal(NO) ==> Print(l) == "# CONFIG_" + l.name + " is not set\n"
    ensures l.val == TriVal(MOD) ==> Print(l) == "CONFIG_" + l.name + "=m\n"
    ensures l.val == TriVal(YES) ==> Print(l) == "CONFIG_" + l.name + "=y\n"
    ensures l.val.StrVal? && l.typ == Str ==> Print(l) == "CONFIG_" + l.name + "=\"" + Escaped(l.val.s) + "\"\n"
    ensures l.val.StrVal? && l.typ != Str ==> Print(l) == "CONFIG_" + l.name + "=" + l.val.s + "\n"
  {
    assert "# " + CONFIG == "# CONFIG_" && " " + NOT_SET + "\n" == " is not set\n";
    if l.val.StrVal? && l.typ == Str {
      var x, e := "CONFIG_" + l.name + "=", Escaped(l.val.s);
      assert x + (['"'] + e + ['"']) + "\n" == x + "\"" + e + "\"\n";
    } else if l.val == TriVal(NO) {
      assert "# CONFIG_" + l.name + " " + NOT_SET + "\n" == "# CONFIG_" + l.name + " is not set\n";
    } else if l.val.TriVal? {
      assert "CONFIG_" + l.name + "=" + TriName(l.val.t) + "\n"
          == "CONFIG_" + l.name + if l.val.t == MOD then "=m\n" else "=y\n";
    }
  }
}
