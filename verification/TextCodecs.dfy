/** Text put into log files, passwords put into settings, and status texts put into small places. */
module TextCodecs {
  // ---- log lines ------------------------------------------------------------------------------------

  /** One pass of the library's replacement: every `c` becomes `w`. */
  function Replaced(s: string, c: char, w: string): string {
    if s == "" then "" else (if s[0] == c then w else [s[0]]) + Replaced(s[1..], c, w)
  }

  function Escape(c: char): string {
    if c == '\\' then "\\\\" else if c == '|' then "\\p" else if c == '\n' then "\\n" else [c]
  }

  /** Each character escaped for itself. */
  function Escaped(s: string): string {
    if s == "" then "" else Escape(s[0]) + Escaped(s[1..])
  }

  lemma {:induction false} ReplacedSplit(a: string, b: string, c: char, w: string)
    ensures Replaced(a + b, c, w) == Replaced(a, c, w) + Replaced(b, c, w)
  {
    if a == "" {
      assert a + b == b;
    } else {
      assert (a + b)[1..] == a[1..] + b;
      ReplacedSplit(a[1..], b, c, w);
    }
  }

  lemma ReplacedTwo(a: char, b: char, c: char, w: string)
    ensures Replaced([a], c, w) == if a == c then w else [a]
    ensures a != c && b != c ==> Replaced([a, b], c, w) == [a, b]
  {
    assert [a][1..] == "" && [a, b][1..] == [b] && [b][1..] == "";
    assert Replaced("", c, w) == "";
    assert Replaced([b], c, w) == if b == c then w else [b];
  }

  function ThreePasses(s: string): string {
    Replaced(Replaced(Replaced(s, '\\', "\\\\"), '|', "\\p"), '\n', "\\n")
  }

  /** Escaping backslashes first, the three passes do not disturb each other. */
  lemma {:induction false} PassesEscape(s: string)
    ensures ThreePasses(s) == Escaped(s)
  {
    if s != "" {
      var c, rest := s[0], s[1..];
      PassesEscape(rest);
      var one := Replaced(rest, '\\', "\\\\");
      var head := if c == '\\' then "\\\\" else [c];
      assert Replaced(s, '\\', "\\\\") == head + one;
      ReplacedSplit(head, one, '|', "\\p");
      ReplacedTwo(c, c, '|', "\\p");
      ReplacedTwo('\\', '\\', '|', "\\p");
      var head2 := if c == '|' then "\\p" else head;
      assert Replaced(head, '|', "\\p") == head2;
      ReplacedSplit(head2, Replaced(one, '|', "\\p"), '\n', "\\n");
      ReplacedTwo(c, c, '\n', "\\n");
      ReplacedTwo('\\', '\\', '\n', "\\n");
      ReplacedTwo('\\', 'p', '\n', "\\n");
      assert Replaced(head2, '\n', "\\n") == Escape(c);
    }
  }

  /** Every character of a text is escaped for itself: backslashes, bars and line ends as a backslash and a letter. */
  lemma {:induction false} EscapedForm(a: string, c: char, b: string)
    ensures Escaped(a + [c] + b) == Escaped(a)
              + (if c == '\\' then ['\\', '\\'] else if c == '|' then ['\\', 'p'] else if c == '\n' then ['\\', 'n'] else [c]) + Escaped(b)
  {
    if a == "" {
      assert a + [c] + b == [c] + b && ([c] + b)[1..] == b;
    } else {
      assert (a + [c] + b)[1..] == a[1..] + [c] + b;
      EscapedForm(a[1..], c, b);
    }
  }

  method LogEncode(text: string) returns (str: string)
    ensures str == Escaped(text)
  {
    str := Replaced(text, '\\', "\\\\");
    str := Replaced(str, '|', "\\p");
    str := Replaced(str, '\n', "\\n");
    PassesEscape(text);
  }

  /** What the escape with this second character stands for. */
  function Meaning(c: char): string {
    if c == 'n' then "\n" else if c == 'p' then "|" else if c == '\\' then "\\" else ""
  }

  /** Unknown escapes and a backslash at the end are dropped. */
  function Unescaped(s: string): string {
    if s == "" then ""
    else if s[0] != '\\' then [s[0]] + Unescaped(s[1..])
    else if |s| == 1 then ""
    else Meaning(s[1]) + Unescaped(s[2..])
  }

  lemma UnescapedAt(s: string, n: nat)
    requires n < |s|
    ensures Unescaped(s[n..]) ==
            if s[n] != '\\' then [s[n]] + Unescaped(s[n + 1..])
            else if n + 1 == |s| then ""
            else Meaning(s[n + 1]) + Unescaped(s[n + 2..])
  {
    assert s[n..][1..] == s[n + 1..];
    if n + 1 < |s| {
      assert s[n..][2..] == s[n + 2..];
    }
  }

  method LogDecode(str: string) returns (ret: string)
    ensures ret == Unescaped(str)
  {
    hide Unescaped;
    assert str[0..] == str;
    ret := "";
    var n := 0;
    while n < |str|
      invariant 0 <= n <= |str| && ret + Unescaped(str[n..]) == Unescaped(str)
    {
      UnescapedAt(str, n);
      var piece := "";
      if str[n] == '\\' {
        n := n + 1;
        if n >= |str| {
          return;
        }
        if str[n] == 'n' {
          piece := "\n";
        }
        if str[n] == 'p' {
          piece := "|";
        }
        if str[n] == '\\' {
          piece := "\\";
        }
      } else {
        piece := [str[n]];
      }
      n := n + 1;
      Associative(ret, piece, Unescaped(str[n..]));
      ret := ret + piece;
    }
    assert str[|str|..] == "";
    NothingLeft();
  }

  lemma Associative(a: string, b: string, c: string)
    ensures a + (b + c) == (a + b) + c
  {
  }

  lemma NothingLeft()
    ensures Unescaped("") == "" && FirstLine("") == ""
  {
  }

  lemma EscapeBack(c: char, rest: string)
    ensures Unescaped(Escape(c) + rest) == [c] + Unescaped(rest)
  {
    var s := Escape(c) + rest;
    if |Escape(c)| == 2 {
      assert s[2..] == rest;
    } else {
      assert s[1..] == rest;
    }
  }

  /** What is logged contains neither the separator nor a line end, and reads back as it was. */
  lemma {:induction false} LogRoundTrip(s: string)
    ensures '|' !in Escaped(s) && '\n' !in Escaped(s)
    ensures Unescaped(Escaped(s)) == s
  {
    if s != "" {
      LogRoundTrip(s[1..]);
      EscapeBack(s[0], Escaped(s[1..]));
      assert s == [s[0]] + s[1..];
    }
  }

  // ---- passwords ------------------------------------------------------------------------------------

  /** A character of the text library: 16 bits, whatever they mean. */
  type Unit = bv16

  function HexUnit(d: Unit): Unit { if d < 10 then d + 48 else d + 87 }

  /** Anything but a hexadecimal digit counts as 0. */
  function HexValue(c: Unit): Unit {
    if 48 <= c <= 57 then c - 48 else if 97 <= c <= 102 then c - 87 else if 65 <= c <= 70 then c - 55 else 0
  }

  function Hex(x: Unit): seq<Unit> {
    [HexUnit(x >> 12), HexUnit((x >> 8) & 15), HexUnit((x >> 4) & 15), HexUnit(x & 15)]
  }

  function FromHex(a: Unit, b: Unit, c: Unit, d: Unit): Unit {
    (HexValue(a) << 12) + (HexValue(b) << 8) + (HexValue(c) << 4) + HexValue(d)
  }

  /** One character under one of the key, as four digits, and back. */
  function Mix(x: Unit, k: Unit): (h: seq<Unit>)
    ensures |h| == 4
  {
    Hex(x ^ k)
  }

  function Unmix(a: Unit, b: Unit, c: Unit, d: Unit, k: Unit): Unit { FromHex(a, b, c, d) ^ k }

  lemma HexDigitBack(d: Unit)
    requires d < 16
    ensures HexValue(HexUnit(d)) == d
  {
  }

  lemma HexBack(x: Unit)
    ensures FromHex(Hex(x)[0], Hex(x)[1], Hex(x)[2], Hex(x)[3]) == x
  {
    HexDigitBack(x >> 12);
    HexDigitBack((x >> 8) & 15);
    HexDigitBack((x >> 4) & 15);
    HexDigitBack(x & 15);
    Nibbles(x);
  }

  lemma Nibbles(x: Unit)
    ensures ((x >> 12) << 12) + (((x >> 8) & 15) << 8) + (((x >> 4) & 15) << 4) + (x & 15) == x
  {
  }

  lemma XorBack(x: Unit, k: Unit)
    ensures (x ^ k) ^ k == x
  {
  }

  /** The place in the key after `i` characters, starting over at its end. */
  function Turn(i: nat, n: nat): (r: nat)
    requires n > 0
    ensures r < n
  {
    if i == 0 || Turn(i - 1, n) + 1 >= n then 0 else Turn(i - 1, n) + 1
  }

  function EncodedPassword(pass: seq<Unit>, key: seq<Unit>): seq<Unit> {
    if key == [] || pass == [] then pass
    else
      var n := |pass| - 1;
      EncodedPassword(pass[..n], key) + Mix(pass[n], key[Turn(n, |key|)])
  }

  lemma EncodedLast(pass: seq<Unit>, key: seq<Unit>, n: nat)
    requires key != [] && n + 1 == |pass|
    ensures EncodedPassword(pass, key) == EncodedPassword(pass[..n], key) + Mix(pass[n], key[Turn(n, |key|)])
  {
    hide Mix;
    hide Turn;
  }

  lemma EncodedNext(pass: seq<Unit>, key: seq<Unit>, n: nat)
    requires key != [] && n < |pass|
    ensures EncodedPassword(pass[..n + 1], key) == EncodedPassword(pass[..n], key) + Mix(pass[n], key[Turn(n, |key|)])
  {
    hide Mix;
    hide Turn;
    hide EncodedPassword;
    var some := pass[..n + 1];
    assert some[..n] == pass[..n];
    EncodedLast(some, key, n);
  }

  lemma TurnNext(i: nat, n: nat)
    requires n > 0
    ensures Turn(0, n) == 0 && Turn(i + 1, n) == if Turn(i, n) + 1 >= n then 0 else Turn(i, n) + 1
  {
  }

  method EncodePassword(pass: seq<Unit>, key: seq<Unit>) returns (result: seq<Unit>)
    ensures result == EncodedPassword(pass, key)
  {
    hide Mix;
    hide Turn;
    if |key| == 0 {
      return pass;
    }
    result := [];
    var n2 := 0;
    TurnNext(0, |key|);
    assert pass[..0] == [] && EncodedPassword([], key) == [];
    hide EncodedPassword;
    for n1 := 0 to |pass|
      invariant n2 == Turn(n1, |key|) && result == EncodedPassword(pass[..n1], key)
    {
      EncodedNext(pass, key, n1);
      TurnNext(n1, |key|);
      result := result + Mix(pass[n1], key[n2]);
      n2 := n2 + 1;
      if n2 >= |key| {
        n2 := 0;
      }
    }
    assert pass[..|pass|] == pass;
  }

  /** A rest of less than four characters is dropped. */
  function DecodedPassword(pass: seq<Unit>, key: seq<Unit>, i: nat): seq<Unit>
    requires key != []
  {
    if |pass| < 4 then []
    else [Unmix(pass[0], pass[1], pass[2], pass[3], key[Turn(i, |key|)])] + DecodedPassword(pass[4..], key, i + 1)
  }

  lemma DecodedAt(pass: seq<Unit>, key: seq<Unit>, n: nat, i: nat)
    requires key != [] && n <= |pass|
    ensures DecodedPassword(pass[n..], key, i) ==
            if n + 4 > |pass| then []
            else [Unmix(pass[n], pass[n + 1], pass[n + 2], pass[n + 3], key[Turn(i, |key|)])] + DecodedPassword(pass[n + 4..], key, i + 1)
  {
    hide Unmix;
    hide Turn;
    if n + 4 <= |pass| {
      assert pass[n..][4..] == pass[n + 4..];
    }
  }

  method DecodePassword(pass: seq<Unit>, key: seq<Unit>) returns (result: seq<Unit>)
    ensures result == if key == [] then pass else DecodedPassword(pass, key, 0)
  {
    hide Unmix;
    hide Turn;
    hide DecodedPassword;
    if |key| == 0 {
      return pass;
    }
    result := [];
    var n1, n2 := 0, 0;
    ghost var i := 0;
    TurnNext(0, |key|);
    assert pass[0..] == pass;
    while n1 < |pass|
      invariant 0 <= n1 <= |pass| && n2 == Turn(i, |key|)
      invariant result + DecodedPassword(pass[n1..], key, i) == DecodedPassword(pass, key, 0)
    {
      DecodedAt(pass, key, n1, i);
      if n1 + 4 > |pass| {
        break;
      }
      TurnNext(i, |key|);
      result := result + [Unmix(pass[n1], pass[n1 + 1], pass[n1 + 2], pass[n1 + 3], key[n2])];
      n2 := n2 + 1;
      if n2 >= |key| {
        n2 := 0;
      }
      n1 := n1 + 4;
      i := i + 1;
    }
    DecodedAt(pass, key, n1, i);
  }

  lemma {:induction false} EncodedLength(pass: seq<Unit>, key: seq<Unit>)
    ensures |EncodedPassword(pass, key)| == if key == [] then |pass| else 4 * |pass|
  {
    if key != [] && pass != [] {
      EncodedLength(pass[..|pass| - 1], key);
    }
  }

  lemma {:induction false} DecodedSplit(a: seq<Unit>, b: seq<Unit>, key: seq<Unit>, i: nat, n: nat)
    requires key != [] && |a| == 4 * n
    ensures DecodedPassword(a + b, key, i) == DecodedPassword(a, key, i) + DecodedPassword(b, key, i + n)
    decreases n
  {
    hide Unmix;
    hide Turn;
    if n == 0 {
      assert a + b == b;
    } else {
      assert (a + b)[4..] == a[4..] + b;
      DecodedSplit(a[4..], b, key, i + 1, n - 1);
    }
  }

  lemma DecodedFour(h: seq<Unit>, key: seq<Unit>, i: nat)
    requires key != [] && |h| == 4
    ensures DecodedPassword(h, key, i) == [Unmix(h[0], h[1], h[2], h[3], key[Turn(i, |key|)])]
  {
    hide Unmix;
    hide Turn;
    assert h[4..] == [];
    assert DecodedPassword([], key, i + 1) == [];
  }

  lemma UnitBack(x: Unit, k: Unit)
    ensures var h := Mix(x, k); Unmix(h[0], h[1], h[2], h[3], k) == x
  {
    HexBack(x ^ k);
    XorBack(x, k);
  }

  lemma DecodedOne(x: Unit, key: seq<Unit>, i: nat)
    requires key != []
    ensures DecodedPassword(Mix(x, key[Turn(i, |key|)]), key, i) == [x]
  {
    hide Unmix;
    hide Mix;
    hide Turn;
    hide DecodedPassword;
    UnitBack(x, key[Turn(i, |key|)]);
    DecodedFour(Mix(x, key[Turn(i, |key|)]), key, i);
  }

  /** Every password comes back under the key it was encoded with, and has four characters for each. */
  lemma {:induction false} PasswordRoundTrip(pass: seq<Unit>, key: seq<Unit>)
    ensures var e := EncodedPassword(pass, key);
            if key == [] then e == pass else DecodedPassword(e, key, 0) == pass && |e| == 4 * |pass|
  {
    EncodedLength(pass, key);
    if key != [] && pass != [] {
      hide Mix;
      hide Turn;
      hide EncodedPassword;
      hide DecodedPassword;
      var n := |pass| - 1;
      PasswordRoundTrip(pass[..n], key);
      EncodedLast(pass, key, n);
      EncodedLength(pass[..n], key);
      DecodedSplit(EncodedPassword(pass[..n], key), Mix(pass[n], key[Turn(n, |key|)]), key, 0, n);
      DecodedOne(pass[n], key, n);
      assert pass == pass[..n] + [pass[n]];
    }
  }

  lemma AtLeastOnce(d: int, n: int)
    requires d >= 1 && n >= 0
    ensures d * n >= n
  {
  }

  lemma RemainderIs(i: nat, n: int, q: int, r: int)
    requires n > 0 && q >= 0 && 0 <= r < n && i == q * n + r
    ensures i % n == r
  {
    var p, s := i / n, i % n;
    assert i == p * n + s && 0 <= s < n;
    if p > q {
      AtLeastOnce(p - q, n);
    } else if p < q {
      AtLeastOnce(q - p, n);
    }
  }

  lemma {:induction false} TurnIs(i: nat, n: nat)
    requires n > 0
    ensures Turn(i, n) == i % n
  {
    if i > 0 {
      TurnIs(i - 1, n);
      var q, r := (i - 1) / n, (i - 1) % n;
      assert i - 1 == q * n + r;
      if r + 1 < n {
        RemainderIs(i, n, q, r + 1);
      } else {
        assert (q + 1) * n == q * n + n;
        RemainderIs(i, n, q + 1, 0);
      }
    } else {
      RemainderIs(0, n, 0, 0);
    }
  }

  /** Digits from 0 to 9 and then small letters from a. */
  function SmallHex(d: Unit): Unit
    requires d < 16
  {
    [48, 49, 50, 51, 52, 53, 54, 55, 56, 57, 97, 98, 99, 100, 101, 102][d]
  }

  /** The digits of what a character makes with one of the key, the highest first. */
  function Digits(x: Unit): seq<Unit> {
    [SmallHex(x >> 12), SmallHex((x >> 8) & 15), SmallHex((x >> 4) & 15), SmallHex(x & 15)]
  }

  /** Each character of a password is there as the four digits of what it makes with the character of the key whose
      turn it is. */
  lemma {:induction false} EncodedDigits(pass: seq<Unit>, key: seq<Unit>, i: nat)
    requires key != [] && i < |pass|
    ensures var e := EncodedPassword(pass, key);
            |e| == 4 * |pass| && e[4 * i..4 * i + 4] == Digits(pass[i] ^ key[i % |key|])
  {
    hide Mix;
    hide Turn;
    hide Digits;
    hide EncodedPassword;
    var n := |pass| - 1;
    EncodedLength(pass, key);
    EncodedLength(pass[..n], key);
    EncodedLast(pass, key, n);
    if i < n {
      EncodedDigits(pass[..n], key, i);
      Inside(EncodedPassword(pass[..n], key), Mix(pass[n], key[Turn(n, |key|)]), 4 * i);
    } else {
      TurnIs(n, |key|);
      MixDigits(pass[n], key[n % |key|]);
      AtEnd(EncodedPassword(pass[..n], key), Mix(pass[n], key[Turn(n, |key|)]));
    }
  }

  lemma Inside(p: seq<Unit>, m: seq<Unit>, at: nat)
    requires at + 4 <= |p|
    ensures (p + m)[at..at + 4] == p[at..at + 4]
  {
  }

  lemma AtEnd(p: seq<Unit>, m: seq<Unit>)
    requires |m| == 4
    ensures (p + m)[|p|..|p| + 4] == m
  {
  }

  lemma MixDigits(x: Unit, k: Unit)
    ensures Mix(x, k) == Digits(x ^ k)
  {
    DigitSmall((x ^ k) >> 12);
    DigitSmall(((x ^ k) >> 8) & 15);
    DigitSmall(((x ^ k) >> 4) & 15);
    DigitSmall((x ^ k) & 15);
  }

  lemma DigitSmall(d: Unit)
    requires d < 16
    ensures HexUnit(d) == SmallHex(d)
  {
  }

  // ---- status texts ---------------------------------------------------------------------------------

  function FirstLine(s: string): (l: string)
    ensures |l| <= |s| && l == s[..|l|] && '\n' !in l && (|l| < |s| ==> s[|l|] == '\n')
  {
    if s == "" || s[0] == '\n' then "" else [s[0]] + FirstLine(s[1..])
  }

  /** What follows the first line and its line end. */
  function OtherLines(s: string): (r: string)
    ensures s != "" ==> |r| < |s|
  {
    var l := FirstLine(s);
    if |l| < |s| then s[|l| + 1..] else ""
  }

  function LineEnd(s: string): string { if |FirstLine(s)| < |s| then "\n" else "" }

  /** A line end at the very end of the text begins no further line. */
  function Lines(s: string): nat
    decreases |s|
  {
    if s == "" then 0 else 1 + Lines(OtherLines(s))
  }

  predicate Narrow(s: string, width: int)
    decreases |s|
  {
    s == "" || (|FirstLine(s)| <= width && Narrow(OtherLines(s), width))
  }

  function ClippedLine(line: string, width: int): string
    requires width >= 3
  {
    if |line| > width then line[..width - 3] + "..." else line
  }

  function Clipped(s: string, width: int, height: int): string
    requires width >= 3
    decreases |s|
  {
    if s == "" || height <= 0 then ""
    else ClippedLine(FirstLine(s), width) + LineEnd(s) + Clipped(OtherLines(s), width, height - 1)
  }

  lemma FirstLineAt(s: string, at: nat)
    requires at < |s|
    ensures FirstLine(s[at..]) == if s[at] == '\n' then "" else [s[at]] + FirstLine(s[at + 1..])
  {
    assert s[at..][1..] == s[at + 1..];
  }

  /** Reads up to a line end or the end of the text, and skips one character more. */
  method ReadLine(str: string, start: nat) returns (line: string, hasNewline: bool, at: nat)
    requires start < |str|
    ensures line == FirstLine(str[start..]) && (hasNewline <==> LineEnd(str[start..]) == "\n")
    ensures (if at < |str| then str[at..] else "") == OtherLines(str[start..]) && at > start
  {
    hide FirstLine;
    line, hasNewline, at := "", false, start;
    while at < |str|
      invariant start <= at <= |str| && |line| == at - start
      invariant FirstLine(str[start..]) == line + FirstLine(str[at..])
    {
      FirstLineAt(str, at);
      if str[at] == '\n' {
        hasNewline := true;
        break;
      }
      Associative(line, [str[at]], FirstLine(str[at + 1..]));
      line := line + [str[at]];
      at := at + 1;
    }
    assert str[|str|..] == "";
    NothingLeft();
    at := at + 1;
    assert at < |str| ==> str[at..] == str[start..][|line| + 1..];
  }

  lemma ClippedIs(s: string, width: int, height: int)
    requires width >= 3
    ensures Clipped(s, width, height) ==
            if s == "" || height <= 0 then ""
            else ClippedLine(FirstLine(s), width) + LineEnd(s) + Clipped(OtherLines(s), width, height - 1)
  {
  }

  /** One line more is done. */
  lemma ClippedStep(out: string, s: string, width: int, height: int)
    requires width >= 3 && s != "" && height > 0
    ensures out + Clipped(s, width, height)
         == ((out + ClippedLine(FirstLine(s), width)) + LineEnd(s)) + Clipped(OtherLines(s), width, height - 1)
  {
    hide Clipped;
    hide FirstLine;
    hide LineEnd;
    hide OtherLines;
    hide ClippedLine;
    ClippedIs(s, width, height);
    Associative(out, ClippedLine(FirstLine(s), width) + LineEnd(s), Clipped(OtherLines(s), width, height - 1));
    Associative(out, ClippedLine(FirstLine(s), width), LineEnd(s));
  }

  lemma LineEndIs(s: string)
    ensures LineEnd(s) == "\n" || LineEnd(s) == ""
  {
  }

  method ClipLine(line: string, width: int) returns (clipped: string)
    requires width >= 3
    ensures clipped == ClippedLine(line, width)
  {
    clipped := line;
    if |clipped| > width {
      clipped := clipped[..width - 3];
      clipped := clipped + "...";
    }
  }

  /** Appends the next line, clipped. */
  method ClipNext(sofar: string, str: string, start: nat, width: int, ghost left: int) returns (out: string, at: nat)
    requires width >= 3 && start < |str| && left > 0
    ensures at > start
    ensures sofar + Clipped(str[start..], width, left) == out + if at < |str| then Clipped(str[at..], width, left - 1) else ""
  {
    hide FirstLine;
    hide OtherLines;
    hide LineEnd;
    hide ClippedLine;
    hide Clipped;
    ClippedStep(sofar, str[start..], width, left);
    LineEndIs(str[start..]);
    var line, hasNewline, next := ReadLine(str, start);
    line := ClipLine(line, width);
    out := sofar + line;
    if hasNewline {
      out := out + "\n";
    }
    at := next;
    ClippedIs("", width, left - 1);
  }

  method ClipStatus(str: string, width: int, height: int) returns (out: string)
    requires width >= 3
    ensures out == Clipped(str, width, height)
  {
    hide Clipped;
    out := "";
    var at, len := 0, |str|;
    ClippedIs(str, width, height);
    if len == 0 {
      return;
    }
    assert str[0..] == str;
    for n2 := 0 to if height > 0 then height else 0
      invariant 0 <= at < len
      invariant out + Clipped(str[at..], width, height - n2) == Clipped(str, width, height)
    {
      out, at := ClipNext(out, str, at, width, height - n2);
      if at >= len {
        return;
      }
    }
    ClippedIs(str[at..], width, if height > 0 then 0 else height);
  }

  lemma {:induction false} FirstLineIs(l: string, rest: string)
    requires '\n' !in l && (rest == "" || rest[0] == '\n')
    ensures FirstLine(l + rest) == l
  {
    if l == "" {
      assert l + rest == rest;
    } else {
      assert (l + rest)[1..] == l[1..] + rest;
      FirstLineIs(l[1..], rest);
    }
  }

  lemma NoLineEnd(line: string, width: int)
    requires width >= 3 && '\n' !in line
    ensures '\n' !in ClippedLine(line, width) && (ClippedLine(line, width) == "" <==> line == "")
  {
  }

  lemma ClippedFirst(s: string, width: int, height: int)
    requires width >= 3 && s != "" && height > 0
    ensures Clipped(s, width, height) == ClippedLine(FirstLine(s), width) + (LineEnd(s) + Clipped(OtherLines(s), width, height - 1))
  {
  }

  /** A text that begins with a line and goes on with `rest`. */
  lemma PartsAre(l: string, rest: string)
    requires '\n' !in l
    ensures FirstLine(l + "") == l && OtherLines(l + "") == ""
    ensures FirstLine(l + ("\n" + rest)) == l && OtherLines(l + ("\n" + rest)) == rest
  {
    FirstLineIs(l, "");
    FirstLineIs(l, "\n" + rest);
    assert (l + ("\n" + rest))[|l| + 1..] == rest;
  }

  /** The clipped text has the first line clipped and the clipped other lines. */
  lemma ClippedParts(s: string, width: int, height: int)
    requires width >= 3 && s != "" && height > 0
    ensures var c := Clipped(s, width, height);
            FirstLine(c) == ClippedLine(FirstLine(s), width) && OtherLines(c) == Clipped(OtherLines(s), width, height - 1)
            && (c == "" <==> FirstLine(s) == "" && LineEnd(s) == "")
  {
    hide ClippedLine;
    hide FirstLine;
    ClippedFirst(s, width, height);
    NoLineEnd(FirstLine(s), width);
    PartsAre(ClippedLine(FirstLine(s), width), Clipped(OtherLines(s), width, height - 1));
    if LineEnd(s) == "" {
      assert OtherLines(s) == "";
    }
  }

  /** No more than `height` lines of no more than `width` characters are left. */
  lemma {:induction false} ClippedFits(s: string, width: int, height: int)
    requires width >= 3
    ensures var c := Clipped(s, width, height); Narrow(c, width) && Lines(c) <= (if height > 0 then height else 0)
    decreases |s|
  {
    if s != "" && height > 0 {
      ClippedFits(OtherLines(s), width, height - 1);
      ClippedParts(s, width, height);
    }
  }

  /** A text is left as it is if and only if it has no more and no longer lines than there is room for. */
  lemma {:induction false} ClippedIdentity(s: string, width: int, height: int)
    requires width >= 3 && height >= 0
    ensures Clipped(s, width, height) == s <==> Narrow(s, width) && Lines(s) <= height
  {
    ClippedFits(s, width, height);
    if Narrow(s, width) && Lines(s) <= height {
      Untouched(s, width, height);
    }
  }

  lemma Reassembled(s: string)
    requires s != ""
    ensures s == FirstLine(s) + LineEnd(s) + OtherLines(s)
  {
    var l := FirstLine(s);
    if |l| < |s| {
      assert s == s[..|l|] + [s[|l|]] + s[|l| + 1..];
    }
  }

  lemma {:induction false} Untouched(s: string, width: int, height: int)
    requires width >= 3 && Narrow(s, width) && Lines(s) <= height
    ensures Clipped(s, width, height) == s
    decreases |s|
  {
    hide FirstLine;
    hide Clipped;
    hide LineEnd;
    ClippedIs(s, width, height);
    if s != "" {
      Untouched(OtherLines(s), width, height - 1);
      Reassembled(s);
    }
  }

  /** The text from its `i`th line on. */
  function From(s: string, i: nat): string {
    if i == 0 then s else OtherLines(From(s, i - 1))
  }

  lemma {:induction false} FromOthers(s: string, i: nat)
    ensures From(OtherLines(s), i) == From(s, i + 1)
  {
    if i > 0 {
      FromOthers(s, i - 1);
    }
  }

  /** The line itself if it is narrow enough; otherwise its beginning, with three dots up to the full width. */
  predicate Shortened(line: string, clipped: string, width: int)
    requires width >= 3
  {
    if |line| <= width then clipped == line
    else |clipped| == width && clipped[..width - 3] == line[..width - 3] && clipped[width - 3..] == ['.', '.', '.']
  }

  /** Each of the first `height` lines is kept, shortened to the width, and ends as it did; there are no others. */
  lemma ClippedLines(s: string, width: int, height: int, i: nat)
    requires width >= 3 && i < height
    ensures var c := Clipped(s, width, height);
            && Lines(c) == (if Lines(s) < height then Lines(s) else height)
            && Shortened(FirstLine(From(s, i)), FirstLine(From(c, i)), width) && LineEnd(From(c, i)) == LineEnd(From(s, i))
  {
    ClippedCount(s, width, height);
    ClippedAt(s, width, height, i);
  }

  lemma {:induction false} ClippedAt(s: string, width: int, height: int, i: nat)
    requires width >= 3 && i < height
    ensures var c := Clipped(s, width, height);
            Shortened(FirstLine(From(s, i)), FirstLine(From(c, i)), width) && LineEnd(From(c, i)) == LineEnd(From(s, i))
    decreases i
  {
    hide Clipped;
    hide FirstLine;
    hide LineEnd;
    hide OtherLines;
    hide From;
    var c := Clipped(s, width, height);
    if s == "" {
      ClippedIs("", width, height);
      NothingFrom(i);
    } else {
      ClippedParts(s, width, height);
      if i == 0 {
        ClippedEnd(s, width, height);
        FromStart(s);
        FromStart(c);
      } else {
        FromOthers(s, i - 1);
        FromOthers(c, i - 1);
        ClippedAt(OtherLines(s), width, height - 1, i - 1);
      }
    }
  }

  lemma FromStart(s: string)
    ensures From(s, 0) == s
  {
  }

  lemma {:induction false} NothingFrom(i: nat)
    ensures From("", i) == "" && FirstLine("") == "" && LineEnd("") == ""
  {
    if i > 0 {
      NothingFrom(i - 1);
    }
  }

  lemma ClippedEnd(s: string, width: int, height: int)
    requires width >= 3 && s != "" && height > 0
    ensures LineEnd(Clipped(s, width, height)) == LineEnd(s)
  {
    hide ClippedLine;
    hide FirstLine;
    ClippedFirst(s, width, height);
    ClippedParts(s, width, height);
    if LineEnd(s) == "" {
      ClippedIs("", width, height - 1);
    }
  }

  lemma {:induction false} ClippedCount(s: string, width: int, height: int)
    requires width >= 3 && height >= 0
    ensures Lines(Clipped(s, width, height)) == if Lines(s) < height then Lines(s) else height
    decreases |s|
  {
    hide Clipped;
    hide FirstLine;
    hide LineEnd;
    hide Lines;
    ClippedIs(s, width, height);
    LinesAre(s);
    LinesAre(Clipped(s, width, height));
    if s != "" && height > 0 {
      ClippedCount(OtherLines(s), width, height - 1);
      ClippedParts(s, width, height);
    }
  }

  lemma LinesAre(s: string)
    ensures Lines(s) == if s == "" then 0 else 1 + Lines(OtherLines(s))
    ensures s != "" ==> FirstLine(s) != "" || LineEnd(s) != ""
  {
  }
}
