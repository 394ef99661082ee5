/** Addresses as file names and back. */
module JidUtil {
  predicate LetterOrNumber(c: char) { '0' <= c <= '9' || 'A' <= c <= 'Z' || 'a' <= c <= 'z' }

  predicate Ascii(s: string) { forall i :: 0 <= i < |s| ==> s[i] as int < 128 }

  function HexDigit(n: int): char
    requires 0 <= n < 16
  {
    if n < 10 then (n + '0' as int) as char else (n - 10 + 'A' as int) as char
  }

  /** -1 for anything but a hexadecimal digit. */
  function HexValue(c: char): int {
    if '0' <= c <= '9' then c as int - '0' as int
    else if 'A' <= c <= 'F' then c as int - 'A' as int + 10
    else if 'a' <= c <= 'f' then c as int - 'a' as int + 10
    else -1
  }

  /** What becomes of one character; `c` is below 256. */
  function EncodeChar(c: char): string {
    if c == '@' then "_at_"
    else if c == '.' then "."
    else if !LetterOrNumber(c) then ['%', HexDigit(c as int / 16 % 16), HexDigit(c as int % 16)]
    else [c]
  }

  function Encoded(jid: string): string {
    if jid == "" then "" else Encoded(jid[..|jid| - 1]) + EncodeChar(jid[|jid| - 1])
  }

  method Encode(jid: string) returns (jid2: string)
    requires Ascii(jid)
    ensures jid2 == Encoded(jid)
  {
    jid2 := "";
    for n := 0 to |jid|
      invariant jid2 == Encoded(jid[..n])
    {
      assert jid[..n + 1][..n] == jid[..n];
      if jid[n] == '@' {
        jid2 := jid2 + "_at_";
      } else if jid[n] == '.' {
        jid2 := jid2 + ".";
      } else if !LetterOrNumber(jid[n]) {
        var code := jid[n] as int;
        jid2 := jid2 + ['%', HexDigit(code / 16 % 16), HexDigit(code % 16)];
      } else {
        jid2 := jid2 + [jid[n]];
      }
    }
    assert jid[..|jid|] == jid;
  }

  /** Hexadecimal escapes undone; a percent sign that starts none is dropped if two characters follow. */
  function Unescaped(s: string): string {
    if s == "" then ""
    else if s[0] == '%' && |s| >= 3 then
      if HexValue(s[1]) >= 0 && HexValue(s[2]) >= 0 then [(16 * HexValue(s[1]) + HexValue(s[2])) as char] + Unescaped(s[3..])
      else Unescaped(s[1..])
    else [s[0]] + Unescaped(s[1..])
  }

  predicate AtHere(s: string, k: nat) { k + 4 <= |s| && s[k..k + 4] == "_at_" }

  /** The last "_at_" at position 3 or later and not after `n`, or -1. */
  function LastAt(s: string, n: nat): (k: int)
    ensures k == -1 || (3 <= k <= n && AtHere(s, k))
    ensures forall i: nat :: k < i <= n && i >= 3 ==> !AtHere(s, i)
  {
    if n < 3 then -1 else if AtHere(s, n) then n else LastAt(s, n - 1)
  }

  function Restored(s: string): string {
    var k := LastAt(s, |s|);
    if k == -1 then s else s[..k] + "@" + s[k + 4..]
  }

  function Decoded(s: string): string { Restored(Unescaped(s)) }

  method Decode(jid: string) returns (jid2: string)
    ensures jid2 == Decoded(jid)
  {
    jid2 := Unescape(jid);
    var k := |jid2|;
    while k >= 3 && !AtHere(jid2, k)
      invariant k >= 0 && LastAt(jid2, |jid2|) == LastAt(jid2, k)
    {
      k := k - 1;
    }
    if k >= 3 {
      jid2 := jid2[..k] + "@" + jid2[k + 4..];
    }
  }

  method Unescape(jid: string) returns (jid2: string)
    ensures jid2 == Unescaped(jid)
  {
    jid2 := "";
    var n := 0;
    while n < |jid|
      invariant 0 <= n <= |jid| && jid2 + Unescaped(jid[n..]) == Unescaped(jid)
    {
      var rest := jid[n..];
      assert rest[1..] == jid[n + 1..];
      if jid[n] == '%' && |jid| - n - 1 >= 2 {
        assert rest[3..] == jid[n + 3..];
        if HexValue(jid[n + 1]) >= 0 && HexValue(jid[n + 2]) >= 0 {
          jid2 := jid2 + [(16 * HexValue(jid[n + 1]) + HexValue(jid[n + 2])) as char];
          n := n + 2;
        }
      } else {
        jid2 := jid2 + [jid[n]];
      }
      n := n + 1;
    }
  }

  // ---- encoding loses nothing -----------------------------------------------------------------------

  /** Reads an encoded address piece by piece. */
  function Parsed(s: string): string {
    if s == "" then ""
    else if s[0] == '_' && |s| >= 4 then ['@'] + Parsed(s[4..])
    else if s[0] == '%' && |s| >= 3 && HexValue(s[1]) >= 0 && HexValue(s[2]) >= 0 then
      [(16 * HexValue(s[1]) + HexValue(s[2])) as char] + Parsed(s[3..])
    else [s[0]] + Parsed(s[1..])
  }

  lemma {:induction false} EncodedFront(c: char, jid: string)
    ensures Encoded([c] + jid) == EncodeChar(c) + Encoded(jid)
  {
    hide EncodeChar;
    if jid == "" {
      assert ([c] + jid)[..0] == "" && Encoded("") == "";
    } else {
      assert ([c] + jid)[..|jid|] == [c] + jid[..|jid| - 1];
      EncodedFront(c, jid[..|jid| - 1]);
    }
  }

  lemma {:induction false} EncodedSum(a: string, b: string)
    ensures Encoded(a + b) == Encoded(a) + Encoded(b)
  {
    hide EncodeChar;
    if b == "" {
      assert a + b == a;
    } else {
      assert (a + b)[..|a + b| - 1] == a + b[..|b| - 1];
      EncodedSum(a, b[..|b| - 1]);
    }
  }

  /** What stands for one character: letters, digits and dots for themselves, an at sign as "_at_", and anything else
      as a percent sign and the two digits of its code, in capitals. */
  predicate StandsFor(c: char, w: string) {
    if c == '@' then w == "_at_"
    else if c == '.' || '0' <= c <= '9' || 'A' <= c <= 'Z' || 'a' <= c <= 'z' then w == [c]
    else |w| == 3 && w[0] == '%' && w[1] == "0123456789ABCDEF"[c as int / 16 % 16] && w[2] == "0123456789ABCDEF"[c as int % 16]
  }

  lemma CharForm(c: char)
    requires c as int < 128
    ensures StandsFor(c, EncodeChar(c))
  {
    assert forall n :: 0 <= n < 16 ==> HexDigit(n) == "0123456789ABCDEF"[n];
  }

  /** Every character of an address is encoded for itself. */
  lemma EncodedForm(a: string, c: char, b: string)
    requires c as int < 128
    ensures exists w :: StandsFor(c, w) && Encoded(a + [c] + b) == Encoded(a) + w + Encoded(b)
  {
    hide Encoded;
    hide EncodeChar;
    hide StandsFor;
    var w := EncodeChar(c);
    assert a + [c] + b == a + ([c] + b);
    EncodedSum(a, [c] + b);
    EncodedFront(c, b);
    assert Encoded(a) + (w + Encoded(b)) == Encoded(a) + w + Encoded(b);
    CharForm(c);
  }

  lemma ParsedAt(s: string)
    ensures Parsed("_at_" + s) == "@" + Parsed(s)
  {
    assert ("_at_" + s)[4..] == s;
  }

  lemma ParsedHex(a: char, b: char, s: string)
    requires HexValue(a) >= 0 && HexValue(b) >= 0
    ensures Parsed(['%', a, b] + s) == [(16 * HexValue(a) + HexValue(b)) as char] + Parsed(s)
  {
    assert (['%', a, b] + s)[3..] == s;
  }

  lemma ParsedPlain(c: char, s: string)
    requires c != '_' && c != '%'
    ensures Parsed([c] + s) == [c] + Parsed(s)
  {
    assert ([c] + s)[1..] == s;
  }

  lemma HexBack(c: char)
    requires c as int < 128
    ensures var a, b := HexDigit(c as int / 16 % 16), HexDigit(c as int % 16);
            HexValue(a) >= 0 && HexValue(b) >= 0 && (16 * HexValue(a) + HexValue(b)) as char == c
    ensures var a, b := LowerChar(HexDigit(c as int / 16 % 16)), LowerChar(HexDigit(c as int % 16));
            HexValue(a) >= 0 && HexValue(b) >= 0 && (16 * HexValue(a) + HexValue(b)) as char == c
  {
  }

  /** One character and what follows. */
  lemma ParsedChar(c: char, s: string)
    requires c as int < 128
    ensures Parsed(EncodeChar(c) + s) == [c] + Parsed(s)
    ensures LowerChar(c) == c ==> Parsed(Lower(EncodeChar(c)) + s) == [c] + Parsed(s)
  {
    hide Parsed;
    hide HexValue;
    hide HexDigit;
    var e := EncodeChar(c);
    if c == '@' {
      ParsedAt(s);
      assert Lower("_at_") == "_at_";
    } else if c == '.' || LetterOrNumber(c) {
      ParsedPlain(c, s);
      assert LowerChar(c) == c ==> Lower([c]) == [c];
    } else {
      HexBack(c);
      ParsedHex(e[1], e[2], s);
      assert Lower(e) == ['%', LowerChar(e[1]), LowerChar(e[2])];
      ParsedHex(LowerChar(e[1]), LowerChar(e[2]), s);
    }
  }

  lemma {:induction false} ParsedEncoded(jid: string)
    requires Ascii(jid)
    ensures Parsed(Encoded(jid)) == jid
  {
    hide Parsed;
    hide EncodeChar;
    hide Encoded;
    if jid != "" {
      assert jid == [jid[0]] + jid[1..];
      EncodedFront(jid[0], jid[1..]);
      ParsedEncoded(jid[1..]);
      ParsedChar(jid[0], Encoded(jid[1..]));
    } else {
      NothingEncoded();
    }
  }

  lemma NothingEncoded()
    ensures Encoded("") == "" && Parsed("") == "" && Lower("") == "" && Unescaped("") == ""
  {
  }

  /** No two addresses share an encoding. */
  lemma EncodeInjective(a: string, b: string)
    requires Ascii(a) && Ascii(b) && Encoded(a) == Encoded(b)
    ensures a == b
  {
    ParsedEncoded(a);
    ParsedEncoded(b);
  }

  function LowerChar(c: char): char { if 'A' <= c <= 'Z' then (c as int + 32) as char else c }
  function Lower(s: string): (r: string)
    ensures |r| == |s| && forall i :: 0 <= i < |s| ==> r[i] == LowerChar(s[i])
  {
    seq(|s|, i requires 0 <= i < |s| => LowerChar(s[i]))
  }

  lemma {:induction false} ParsedLowerEncoded(jid: string)
    requires Ascii(jid) && Lower(jid) == jid
    ensures Parsed(Lower(Encoded(jid))) == jid
  {
    hide Parsed;
    hide EncodeChar;
    hide Encoded;
    hide LowerChar;
    if jid != "" {
      var c, rest := jid[0], jid[1..];
      assert jid == [c] + rest && Lower(jid)[0] == LowerChar(c);
      assert Lower(rest) == rest by {
        forall i | 0 <= i < |rest| ensures LowerChar(rest[i]) == rest[i] {
          assert jid[i + 1] == rest[i] && Lower(jid)[i + 1] == LowerChar(jid[i + 1]);
        }
      }
      EncodedFront(c, rest);
      ParsedLowerEncoded(rest);
      assert Lower(EncodeChar(c) + Encoded(rest)) == Lower(EncodeChar(c)) + Lower(Encoded(rest));
      ParsedChar(c, Lower(Encoded(rest)));
    } else {
      NothingEncoded();
    }
  }

  /** Nor do two lower-case addresses share a file name in lower case. */
  lemma LowerEncodeInjective(a: string, b: string)
    requires Ascii(a) && Ascii(b) && Lower(a) == a && Lower(b) == b && Lower(Encoded(a)) == Lower(Encoded(b))
    ensures a == b
  {
    ParsedLowerEncoded(a);
    ParsedLowerEncoded(b);
  }

  lemma LowerCharFile(c: char)
    requires c as int < 128
    ensures Lower(EncodeChar(LowerChar(c))) == Lower(EncodeChar(c)) && LowerChar(LowerChar(c)) == LowerChar(c)
  {
  }

  lemma LowerSum(a: string, b: string)
    ensures Lower(a + b) == Lower(a) + Lower(b)
  {
  }

  /** In lower case, an encoding does not tell the case of the address. */
  lemma {:induction false} LowerFile(jid: string)
    requires Ascii(jid)
    ensures Lower(Encoded(Lower(jid))) == Lower(Encoded(jid)) && Ascii(Lower(jid)) && Lower(Lower(jid)) == Lower(jid)
  {
    hide EncodeChar;
    hide LowerChar;
    if jid != "" {
      var n := |jid| - 1;
      LowerFile(jid[..n]);
      LowerCharFile(jid[n]);
      assert Lower(jid)[..n] == Lower(jid[..n]);
      LowerSum(Encoded(jid[..n]), EncodeChar(jid[n]));
      LowerSum(Encoded(Lower(jid[..n])), EncodeChar(LowerChar(jid[n])));
      LowerAscii(jid);
    }
  }

  lemma LowerAscii(jid: string)
    requires Ascii(jid)
    ensures Ascii(Lower(jid)) && Lower(Lower(jid)) == Lower(jid)
  {
  }

  // ---- when decoding undoes encoding ------------------------------------------------------------------

  /** The address with every '@' spelled out. */
  function Spelled(jid: string): string {
    if jid == "" then "" else (if jid[0] == '@' then "_at_" else [jid[0]]) + Spelled(jid[1..])
  }

  lemma UnescapedPlain(c: char, s: string)
    requires c != '%'
    ensures Unescaped([c] + s) == [c] + Unescaped(s)
  {
    assert ([c] + s)[1..] == s;
  }

  lemma UnescapedHex(a: char, b: char, s: string)
    requires HexValue(a) >= 0 && HexValue(b) >= 0
    ensures Unescaped(['%', a, b] + s) == [(16 * HexValue(a) + HexValue(b)) as char] + Unescaped(s)
  {
    assert (['%', a, b] + s)[3..] == s;
  }

  lemma UnescapedChar(c: char, s: string)
    requires c as int < 128
    ensures Unescaped(EncodeChar(c) + s) == (if c == '@' then "_at_" else [c]) + Unescaped(s)
  {
    hide Unescaped;
    hide HexValue;
    hide HexDigit;
    if c == '@' {
      UnescapedPlain('_', s);
      UnescapedPlain('t', "_" + s);
      UnescapedPlain('a', "t" + ("_" + s));
      UnescapedPlain('_', "a" + ("t" + ("_" + s)));
      assert "_at_" + s == "_" + ("a" + ("t" + ("_" + s)));
    } else if c == '.' || LetterOrNumber(c) {
      UnescapedPlain(c, s);
    } else {
      HexBack(c);
      UnescapedHex(EncodeChar(c)[1], EncodeChar(c)[2], s);
    }
  }

  lemma {:induction false} UnescapedEncoded(jid: string)
    requires Ascii(jid)
    ensures Unescaped(Encoded(jid)) == Spelled(jid)
  {
    hide Unescaped;
    hide EncodeChar;
    hide Encoded;
    if jid != "" {
      assert jid == [jid[0]] + jid[1..];
      EncodedFront(jid[0], jid[1..]);
      UnescapedEncoded(jid[1..]);
      UnescapedChar(jid[0], Encoded(jid[1..]));
    } else {
      NothingEncoded();
    }
  }

  function Ats(s: string): nat { if s == "" then 0 else (if s[0] == '@' then 1 else 0) + Ats(s[1..]) }

  lemma {:induction false} SpelledShape(jid: string)
    ensures Ats(Spelled(jid)) == 0 && |Spelled(jid)| == |jid| + 3 * Ats(jid)
    ensures Ats(jid) == 0 ==> Spelled(jid) == jid
  {
    if jid != "" {
      SpelledShape(jid[1..]);
      var rest := Spelled(jid[1..]);
      if jid[0] == '@' {
        AtsAfterAt(rest);
      } else {
        assert ([jid[0]] + rest)[1..] == rest;
      }
    }
  }

  lemma AtsFront(c: char, s: string)
    ensures Ats([c] + s) == (if c == '@' then 1 else 0) + Ats(s)
    ensures Spelled([c] + s) == (if c == '@' then "_at_" else [c]) + Spelled(s)
  {
    assert ([c] + s)[1..] == s;
  }

  lemma AtsAfterAt(s: string)
    ensures Ats("_at_" + s) == Ats(s)
  {
    hide Ats;
    AtsFront('_', s);
    AtsFront('t', "_" + s);
    AtsFront('a', "t" + ("_" + s));
    AtsFront('_', "a" + ("t" + ("_" + s)));
    assert "_at_" + s == "_" + ("a" + ("t" + ("_" + s)));
  }

  /** One '@', and what is left and right of it. */
  predicate Parts(jid: string, left: string, right: string) {
    jid == left + "@" + right && '@' !in left && '@' !in right
  }

  lemma {:induction false} NoAts(s: string)
    ensures Ats(s) == 0 <==> '@' !in s
  {
    if s != "" {
      NoAts(s[1..]);
      assert s == [s[0]] + s[1..];
    }
  }

  lemma {:induction false} AtsSplit(a: string, b: string)
    ensures Ats(a + b) == Ats(a) + Ats(b) && Spelled(a + b) == Spelled(a) + Spelled(b)
  {
    if a == "" {
      assert a + b == b;
    } else {
      assert (a + b)[1..] == a[1..] + b;
      AtsSplit(a[1..], b);
    }
  }

  lemma SpelledParts(jid: string, left: string, right: string)
    requires Parts(jid, left, right)
    ensures Spelled(jid) == left + "_at_" + right && Ats(jid) == 1
  {
    NoAts(left);
    NoAts(right);
    SpelledShape(left);
    SpelledShape(right);
    hide Ats;
    hide Spelled;
    AtsSplit(left, "@" + right);
    AtsFront('@', right);
    assert left + "@" + right == left + ("@" + right);
    assert left + "_at_" + right == left + ("_at_" + right);
  }

  /** The only '@' is found again: there are three characters before it, and no "_at_" behind it, where
      the last character of its own spelling counts as well. */
  ghost predicate Unambiguous(jid: string) {
    if '@' in jid then exists left, right :: Parts(jid, left, right) && |left| >= 3 && NoAtIn("_" + right)
    else forall k: nat :: k >= 3 ==> !AtHere(jid, k)
  }

  ghost predicate NoAtIn(s: string) { forall k: nat :: !AtHere(s, k) }

  lemma StartsHere(s: string, k: nat)
    requires AtHere(s, k)
    ensures s[k] == '_'
  {
    assert s[k] == s[k..k + 4][0];
  }

  lemma RestoredParts(left: string, right: string)
    ensures var s := left + "_at_" + right;
            |left| >= 3 && NoAtIn("_" + right) ==> LastAt(s, |s|) == |left| && Restored(s) == left + "@" + right
    ensures var s := left + "_at_" + right; |left| >= 3 && !NoAtIn("_" + right) ==> LastAt(s, |s|) > |left|
  {
    var s, p := left + "_at_" + right, |left|;
    if p >= 3 {
      assert s[p..p + 4] == "_at_" && AtHere(s, p);
      forall i: nat ensures AtHere(s, p + 3 + i) <==> AtHere("_" + right, i) {
        if p + 7 + i <= |s| {
          assert s[p + 3 + i..p + 7 + i] == ("_" + right)[i..i + 4];
        }
      }
      forall i: nat | p < i < p + 3 ensures !AtHere(s, i) {
        assert s[p + 1] == 'a' && s[p + 2] == 't';
        if AtHere(s, i) {
          StartsHere(s, i);
        }
      }
      if NoAtIn("_" + right) {
        forall i: nat | p < i ensures !AtHere(s, i) {
          if i >= p + 3 {
            assert !AtHere("_" + right, i - p - 3);
          }
        }
      } else {
        var i: nat :| AtHere("_" + right, i);
        assert AtHere(s, p + 3 + i);
      }
    }
  }

  lemma {:induction false} TwoParts(jid: string) returns (left: string, right: string)
    requires Ats(jid) == 1
    ensures Parts(jid, left, right)
  {
    if jid[0] == '@' {
      left, right := "", jid[1..];
      NoAts(right);
      assert jid == "" + "@" + right;
    } else {
      var l, r := TwoParts(jid[1..]);
      left, right := [jid[0]] + l, r;
      assert jid == left + "@" + right;
    }
  }

  lemma SamePosition(a: string, b: string, c: string, d: string)
    requires Parts(a + "@" + b, a, b) && Parts(a + "@" + b, c, d)
    ensures a == c && b == d
  {
    var s := a + "@" + b;
    assert s == c + "@" + d;
    forall i | 0 <= i < |a| ensures s[i] != '@' {
      assert s[i] == a[i];
    }
    forall i | 0 <= i < |c| ensures s[i] != '@' {
      assert s[i] == c[i];
    }
    assert s[|a|] == '@' && s[|c|] == '@';
    assert a == s[..|a|] && c == s[..|c|] && b == s[|a| + 1..] && d == s[|c| + 1..];
  }

  lemma RestoredAts(s: string)
    requires Ats(s) == 0
    ensures Ats(Restored(s)) == if LastAt(s, |s|) == -1 then 0 else 1
    ensures LastAt(s, |s|) != -1 ==> |Restored(s)| == |s| - 3
  {
    var k := LastAt(s, |s|);
    if k != -1 {
      NoAts(s);
      NoAts(s[..k]);
      NoAts(s[k + 4..]);
      AtsSplit(s[..k], "@" + s[k + 4..]);
      AtsFront('@', s[k + 4..]);
      assert s[..k] + "@" + s[k + 4..] == s[..k] + ("@" + s[k + 4..]);
    }
  }

  /** Decoding an encoded address gives it back if and only if the address is unambiguous. */
  lemma DecodeEncode(jid: string)
    requires Ascii(jid)
    ensures Decoded(Encoded(jid)) == jid <==> Unambiguous(jid)
  {
    UnescapedEncoded(jid);
    SpelledShape(jid);
    NoAts(jid);
    RestoredAts(Spelled(jid));
    if Ats(jid) == 0 {
      assert Spelled(jid) == jid;
      assert (forall k: nat :: k >= 3 ==> !AtHere(jid, k)) <==> LastAt(jid, |jid|) == -1;
    } else if Ats(jid) == 1 {
      var left, right := TwoParts(jid);
      SpelledParts(jid, left, right);
      RestoredParts(left, right);
      OneAt(jid, left, right);
    } else {
      forall left, right ensures !Parts(jid, left, right) {
        if Parts(jid, left, right) {
          SpelledParts(jid, left, right);
        }
      }
    }
  }

  lemma OneAt(jid: string, left: string, right: string)
    requires Parts(jid, left, right) && Spelled(jid) == left + "_at_" + right
    ensures Restored(Spelled(jid)) == jid <==> Unambiguous(jid)
  {
    RestoredParts(left, right);
    var s := Spelled(jid);
    var k := LastAt(s, |s|);
    if Unambiguous(jid) {
      var l, r :| Parts(jid, l, r) && |l| >= 3 && NoAtIn("_" + r);
      SamePosition(left, right, l, r);
    } else if k != -1 {
      assert k > |left| || |left| < 3;
      assert s[|left|] == '_' && Restored(s)[|left|] == s[|left|] && jid[|left|] == '@';
    }
  }

  /** In particular for an address with one '@', three characters before it and no '_' behind it. */
  lemma CommonAddress(left: string, right: string)
    requires Ascii(left) && Ascii(right) && |left| >= 3 && '@' !in left && '@' !in right && '_' !in right
    ensures Decoded(Encoded(left + "@" + right)) == left + "@" + right
  {
    var jid := left + "@" + right;
    assert Parts(jid, left, right) && '@' in jid by { assert jid[|left|] == '@'; }
    forall k: nat ensures !AtHere("_" + right, k) {
      if k + 4 <= |"_" + right| {
        assert ("_" + right)[k..k + 4][3] == right[k + 2];
      }
    }
    DecodeEncode(jid);
  }

  /** With fewer characters before it the '@' is not found again. */
  lemma ShortName()
    ensures Decoded(Encoded("ab@c")) == "ab_at_c"
  {
    hide Unescaped;
    hide Encoded;
    hide Spelled;
    hide LastAt;
    hide Ats;
    assert Parts("ab@c", "ab", "c");
    UnescapedEncoded("ab@c");
    SpelledParts("ab@c", "ab", "c");
    var s := "ab" + "_at_" + "c";
    assert s == "ab_at_c";
    forall k: nat | k >= 3 ensures !AtHere(s, k) {
      if AtHere(s, k) {
        StartsHere(s, k);
      }
    }
  }
}
