/** Integers as bytes, most significant first. */
module WireBytes {
  type byte = x: int | 0 <= x < 0x100

  const TWO15 := 0x8000
  const TWO31 := 0x8000_0000
  const TWO63 := 0x8000_0000_0000_0000

  /** 256 to the power `w`. */
  function Power(w: nat): (p: nat)
    ensures p > 0 && (w > 0 ==> p % 256 == 0)
  {
    if w == 0 then 1 else 256 * Power(w - 1)
  }

  /** The `w` low bytes of `n` in two's complement. */
  function BigEndian(n: int, w: nat): (s: seq<byte>)
    ensures |s| == w
    decreases w
  {
    if w == 0 then [] else BigEndian(n / 256, w - 1) + [n % 256]
  }

  function Unsigned(s: seq<byte>): nat {
    if s == [] then 0 else 256 * Unsigned(s[..|s| - 1]) + s[|s| - 1]
  }

  function Signed(s: seq<byte>): int {
    if 2 * Unsigned(s) >= Power(|s|) then Unsigned(s) - Power(|s|) else Unsigned(s)
  }

  /** `n` fits into `w` bytes in two's complement. */
  predicate InRange(n: int, w: nat) { -2 * n <= Power(w) && 2 * n < Power(w) }

  /** Leaving out high bytes gives the shorter form. */
  lemma {:induction false} LowBytes(n: int, w: nat, k: nat)
    requires k <= w
    ensures BigEndian(n, w)[w - k..] == BigEndian(n, k)
    decreases w
  {
    if k > 0 {
      LowBytes(n / 256, w - 1, k - 1);
    }
  }

  lemma {:induction false} UnsignedBytes(n: int, w: nat)
    requires w > 0 && InRange(n, w)
    ensures Unsigned(BigEndian(n, w)) == if n >= 0 then n else n + Power(w)
    decreases w
  {
    var s := BigEndian(n, w);
    assert s[..w - 1] == BigEndian(n / 256, w - 1);
    if w == 1 {
      assert Power(1) == 256;
    } else {
      assert Power(w) == 256 * Power(w - 1);
      UnsignedBytes(n / 256, w - 1);
    }
  }

  /** Bytes enough for the number give it back, whatever its sign. */
  lemma {:induction false} SignedBytes(n: int, w: nat)
    requires w > 0 && InRange(n, w)
    ensures Signed(BigEndian(n, w)) == n
  {
    UnsignedBytes(n, w);
  }

  lemma Powers()
    ensures Power(2) == 2 * TWO15 && Power(4) == 2 * TWO31 && Power(8) == 2 * TWO63
  {
    assert Power(1) == 256 && Power(2) == 65536;
    assert Power(3) == 256 * 65536 && Power(4) == 65536 * 65536;
    assert Power(5) == 256 * Power(4) && Power(6) == 65536 * Power(4) && Power(7) == 256 * Power(6);
  }

  /** The bytes of a number as they lie in the memory of the host. */
  function InMemory(n: int, w: nat, bigEndianHost: bool): (s: seq<byte>)
    ensures |s| == w
  {
    if bigEndianHost then BigEndian(n, w) else seq(w, i requires 0 <= i < w => BigEndian(n, w)[w - 1 - i])
  }
}

/** The encoding of nested values that calls across the bridge travel in. */
module WireFormat {
  import opened WireBytes

  /** The host a side of the bridge runs on, and the text encoding of its library. */
  datatype Host = Host(bigEndian: bool, longSize: nat)
  datatype Codec = Codec(toUtf8: string -> seq<byte>, fromUtf8: seq<byte> -> string)

  ghost predicate ValidCodec(u: Codec) { forall s :: u.fromUtf8(u.toUtf8(s)) == s }
  predicate ValidHost(h: Host) { h.longSize == 4 || h.longSize == 8 }

  /** `Int` stands for both integer kinds; a map lists its keys in ascending order. */
  datatype Variant =
    | Bool(b: bool)
    | Int(n: int)
    | Text(s: string)
    | Data(d: seq<byte>)
    | List(items: seq<Variant>)
    | Map(pairs: seq<Pair>)
    | Invalid
  datatype Pair = Pair(key: string, value: Variant)

  datatype LfpObject = LfpObject(kind: string, name: string, value: Variant, children: seq<LfpObject>)

  datatype Option<T> = None | Some(value: T)

  // ---- the bytes of an object -----------------------------------------------------------------

  predicate Latin1(s: string) { forall c <- s :: 0 < c as int < 0x100 }

  function ToLatin1(s: string): (r: seq<byte>)
    ensures |r| == |s|
  {
    seq(|s|, i requires 0 <= i < |s| => if s[i] as int < 0x100 then s[i] as int else 63)
  }

  function FromLatin1(b: seq<byte>): (r: string)
    ensures |r| == |b|
  {
    seq(|b|, i requires 0 <= i < |b| => b[i] as char)
  }

  /** Bytes used for an integer by a host whose `long` has `longSize` bytes. */
  function Width(n: int, longSize: nat): nat {
    if -TWO15 <= n < TWO15 then 2 else if longSize == 8 || -TWO31 <= n < TWO31 then longSize else 8
  }

  predicate Container(kind: string) { kind == "sequence" || kind == "map" }

  function Content(o: LfpObject, longSize: nat, u: Codec): seq<byte>
    decreases o, 0, |o.children| + 1
  {
    if Container(o.kind) then BigEndian(|o.children|, 4) + Concat(o, 0, longSize, u)
    else if o.kind == "int" && o.value.Int? then BigEndian(o.value.n, Width(o.value.n, longSize))
    else if o.kind == "string" && o.value.Text? then u.toUtf8(o.value.s)
    else if o.kind == "bool" && o.value.Bool? then [if o.value.b then 1 else 0]
    else if o.kind == "bytearray" && o.value.Data? then o.value.d
    else []
  }

  /** The encodings of the children from the `k`th on, one after the other. */
  function Concat(o: LfpObject, k: nat, longSize: nat, u: Codec): seq<byte>
    requires k <= |o.children|
    decreases o, 0, |o.children| - k
  {
    if k == |o.children| then [] else Encode(o.children[k], longSize, u) + Concat(o, k + 1, longSize, u)
  }

  function Header(o: LfpObject): seq<byte> { ToLatin1(o.kind) + [0] + ToLatin1(o.name) + [0] }

  function Encode(o: LfpObject, longSize: nat, u: Codec): (r: seq<byte>)
    ensures |r| >= 6
    decreases o, 1
  {
    var c := Content(o, longSize, u);
    BigEndian(|o.kind| + 1 + |o.name| + 1 + |c|, 4) + Header(o) + c
  }

  // ---- reading bytes --------------------------------------------------------------------------

  /** Position of the first zero byte from `at` on, or -1. */
  function FindZero(a: seq<byte>, at: nat): (r: int)
    ensures r == -1 || at <= r < |a|
    ensures r != -1 ==> a[r] == 0 && forall i :: at <= i < r ==> a[i] != 0
    decreases |a| - at
  {
    if at >= |a| then -1 else if a[at] == 0 then at else FindZero(a, at + 1)
  }

  /** What reading the bytes gives, as far as the reader's behaviour is defined. The length in front
      of the whole is skipped unread; those in front of children cut them out. */
  function Decode(a: seq<byte>, u: Codec): Option<LfpObject>
    decreases |a|, 1
  {
    if |a| < 4 then None
    else
      var z := FindZero(a, 4);
      if z == -1 then None
      else
        var y := FindZero(a, z + 1);
        if y == -1 then None
        else DecodeContent(FromLatin1(a[4..z]), FromLatin1(a[z + 1..y]), a[y + 1..], u)
  }

  function DecodeContent(kind: string, name: string, c: seq<byte>, u: Codec): Option<LfpObject>
    decreases |c|, 2
  {
    if Container(kind) then
      if |c| < 4 then None
      else
        var os := DecodeChildren(c[4..], Signed(c[..4]), u);
        if os.None? then None else Some(LfpObject(kind, name, Invalid, os.value))
    else if kind == "int" then
      if |c| > 8 then None
      else Some(LfpObject(kind, name, if |c| == 2 || |c| == 4 || |c| == 8 then Int(Signed(c)) else Invalid, []))
    else if kind == "string" then Some(LfpObject(kind, name, Text(u.fromUtf8(c)), []))
    else if kind == "bool" then if c == [] then None else Some(LfpObject(kind, name, Bool(c[0] != 0), []))
    else if kind == "bytearray" then Some(LfpObject(kind, name, Data(c), []))
    else Some(LfpObject(kind, name, Invalid, []))
  }

  function DecodeChildren(b: seq<byte>, count: int, u: Codec): Option<seq<LfpObject>>
    decreases |b|, 3
  {
    if count <= 0 then Some([])
    else if |b| < 4 then None
    else
      var x := Signed(b[..4]);
      if x < 0 || 4 + x > |b| then None
      else
        var o := Decode(b[..4 + x], u);
        if o.None? then None
        else
          var os := DecodeChildren(b[4 + x..], count - 1, u);
          if os.None? then None else Some([o.value] + os.value)
  }

  // ---- reading back what was written --------------------------------------------------------------

  /** What stands for a value of a kind the bridge does not know. */
  function Empty(): LfpObject { LfpObject("", "", Invalid, []) }

  /** The objects the bridge builds: one value of the named kind, or children, and plain names. */
  predicate Good(o: LfpObject) {
    o == Empty()
    || (Latin1(o.name) &&
        if Container(o.kind) then o.value == Invalid && forall i :: 0 <= i < |o.children| ==> Good(o.children[i])
        else o.children == [] &&
             match o.value
             case Int(n) => o.kind == "int" && -TWO63 <= n < TWO63
             case Text(_) => o.kind == "string"
             case Bool(_) => o.kind == "bool"
             case Data(_) => o.kind == "bytearray"
             case _ => false)
  }

  lemma Latin1Back(s: string)
    requires Latin1(s)
    ensures FromLatin1(ToLatin1(s)) == s && 0 !in ToLatin1(s)
  {
    forall i | 0 <= i < |s| ensures ToLatin1(s)[i] != 0 && FromLatin1(ToLatin1(s))[i] == s[i] {
      assert s[i] in s;
    }
  }

  lemma {:induction false} FoundZero(a: seq<byte>, at: nat, z: nat)
    requires at <= z < |a| && a[z] == 0 && forall i :: at <= i < z ==> a[i] != 0
    ensures FindZero(a, at) == z
    decreases z - at
  {
    if at < z {
      FoundZero(a, at + 1, z);
    }
  }

  /** Encoding and decoding, one level at a time. */
  lemma EncodeIs(o: LfpObject, longSize: nat, u: Codec)
    ensures var c, e := Content(o, longSize, u), Encode(o, longSize, u);
            |e| == 6 + |o.kind| + |o.name| + |c| && e == BigEndian(|e| - 4, 4) + Header(o) + c
  {
    hide Content;
    hide BigEndian;
    hide ToLatin1;
  }

  lemma ContentIs(o: LfpObject, longSize: nat, u: Codec)
    requires Container(o.kind)
    ensures Content(o, longSize, u) == BigEndian(|o.children|, 4) + Concat(o, 0, longSize, u)
  {
  }

  lemma ConcatIs(o: LfpObject, k: nat, longSize: nat, u: Codec)
    requires k < |o.children|
    ensures Concat(o, k, longSize, u) == Encode(o.children[k], longSize, u) + Concat(o, k + 1, longSize, u)
  {
  }

  /** Where the parts lie. */
  lemma Laid(size: seq<byte>, kind: seq<byte>, name: seq<byte>, c: seq<byte>, e: seq<byte>)
    requires |size| == 4 && e == size + (kind + [0] + name + [0]) + c && 0 !in kind && 0 !in name
    ensures var z, y := 4 + |kind|, 5 + |kind| + |name|;
            && y < |e| && e[4..z] == kind && e[z] == 0 && e[z + 1..y] == name && e[y] == 0 && e[y + 1..] == c
            && (forall i :: 4 <= i < z ==> e[i] != 0) && forall i :: z + 1 <= i < y ==> e[i] != 0
  {
    var z, y := 4 + |kind|, 5 + |kind| + |name|;
    forall i | 4 <= i < z ensures e[i] != 0 {
      assert e[i] == kind[i - 4];
    }
    forall i | z + 1 <= i < y ensures e[i] != 0 {
      assert e[i] == name[i - z - 1];
    }
  }

  /** The type and the name end where the first two zero bytes are, and the content follows. */
  lemma Parted(o: LfpObject, longSize: nat, u: Codec)
    requires Latin1(o.kind) && Latin1(o.name)
    ensures var e, z := Encode(o, longSize, u), 4 + |o.kind|;
            && z < |e| && FindZero(e, 4) == z && FindZero(e, z + 1) == z + 1 + |o.name| < |e|
            && FromLatin1(e[4..z]) == o.kind && FromLatin1(e[z + 1..z + 1 + |o.name|]) == o.name
            && e[z + 2 + |o.name|..] == Content(o, longSize, u)
  {
    hide Encode;
    hide Content;
    hide FindZero;
    hide ToLatin1;
    hide FromLatin1;
    hide Latin1;
    hide BigEndian;
    var e, z, y := Encode(o, longSize, u), 4 + |o.kind|, 5 + |o.kind| + |o.name|;
    EncodeIs(o, longSize, u);
    Latin1Back(o.kind);
    Latin1Back(o.name);
    Laid(BigEndian(|e| - 4, 4), ToLatin1(o.kind), ToLatin1(o.name), Content(o, longSize, u), e);
    FoundZero(e, 4, z);
    FoundZero(e, z + 1, y);
  }

  lemma DecodeIs(o: LfpObject, longSize: nat, u: Codec)
    requires Latin1(o.kind) && Latin1(o.name)
    ensures Decode(Encode(o, longSize, u), u) == DecodeContent(o.kind, o.name, Content(o, longSize, u), u)
  {
    hide Encode;
    hide Content;
    hide FindZero;
    hide FromLatin1;
    hide DecodeContent;
    Parted(o, longSize, u);
  }

  lemma DecodeContentIs(kind: string, name: string, c: seq<byte>, u: Codec)
    requires Container(kind) && |c| >= 4
    ensures var os := DecodeChildren(c[4..], Signed(c[..4]), u);
            DecodeContent(kind, name, c, u) == if os.None? then None else Some(LfpObject(kind, name, Invalid, os.value))
  {
  }

  lemma DecodeChildrenIs(b: seq<byte>, x: nat, count: int, u: Codec)
    requires count > 0 && |b| >= 4 && Signed(b[..4]) == x && 4 + x <= |b|
    ensures var o, os := Decode(b[..4 + x], u), DecodeChildren(b[4 + x..], count - 1, u);
            DecodeChildren(b, count, u) == if o.None? || os.None? then None else Some([o.value] + os.value)
  {
  }

  /** The length field counts the bytes after it. */
  lemma LengthField(o: LfpObject, longSize: nat, u: Codec)
    requires |Encode(o, longSize, u)| < TWO31 + 4
    ensures Signed(Encode(o, longSize, u)[..4]) == |Encode(o, longSize, u)| - 4
  {
    hide Encode;
    hide Signed;
    EncodeIs(o, longSize, u);
    var e := Encode(o, longSize, u);
    Powers();
    assert e[..4] == BigEndian(|e| - 4, 4);
    SignedBytes(|e| - 4, 4);
  }

  lemma {:induction false} ConcatLength(o: LfpObject, k: nat, longSize: nat, u: Codec)
    requires k <= |o.children|
    ensures |Concat(o, k, longSize, u)| >= |o.children| - k
    ensures forall i :: k <= i < |o.children| ==> |Encode(o.children[i], longSize, u)| <= |Concat(o, k, longSize, u)|
    decreases |o.children| - k
  {
    hide Encode;
    if k < |o.children| {
      ConcatLength(o, k + 1, longSize, u);
      ConcatIs(o, k, longSize, u);
    }
  }

  lemma IntBack(n: int, longSize: nat)
    requires -TWO63 <= n < TWO63 && (longSize == 4 || longSize == 8)
    ensures var w := Width(n, longSize); (w == 2 || w == 4 || w == 8) && Signed(BigEndian(n, w)) == n
  {
    Powers();
    SignedBytes(n, Width(n, longSize));
  }

  lemma LeafRoundTrip(o: LfpObject, longSize: nat, u: Codec)
    requires Good(o) && !Container(o.kind) && ValidCodec(u) && (longSize == 4 || longSize == 8)
    ensures Decode(Encode(o, longSize, u), u) == Some(o)
  {
    hide Encode;
    hide Decode;
    hide Signed;
    DecodeIs(o, longSize, u);
    if o.kind == "int" {
      IntBack(o.value.n, longSize);
    }
  }

  /** Every object the bridge builds is read back as it was, whichever width the writer's `long` has. */
  lemma {:induction false} ObjectRoundTrip(o: LfpObject, longSize: nat, u: Codec)
    requires Good(o) && ValidCodec(u) && (longSize == 4 || longSize == 8) && |Encode(o, longSize, u)| < TWO31 + 4
    ensures Decode(Encode(o, longSize, u), u) == Some(o)
    decreases o, 1
  {
    hide Encode;
    hide Decode;
    hide DecodeContent;
    hide DecodeChildren;
    hide Content;
    hide Concat;
    hide Signed;
    if Container(o.kind) {
      var c := Content(o, longSize, u);
      DecodeIs(o, longSize, u);
      EncodeIs(o, longSize, u);
      ContentIs(o, longSize, u);
      ConcatLength(o, 0, longSize, u);
      Powers();
      SignedBytes(|o.children|, 4);
      assert c[..4] == BigEndian(|o.children|, 4) && c[4..] == Concat(o, 0, longSize, u);
      ChildrenRoundTrip(o, 0, longSize, u);
      assert o.children[0..] == o.children;
      DecodeContentIs(o.kind, o.name, c, u);
    } else {
      LeafRoundTrip(o, longSize, u);
    }
  }

  lemma NoChildren(b: seq<byte>, u: Codec)
    ensures DecodeChildren(b, 0, u) == Some([])
  {
  }

  lemma {:induction false} ChildrenRoundTrip(o: LfpObject, k: nat, longSize: nat, u: Codec)
    requires k <= |o.children| && ValidCodec(u) && (longSize == 4 || longSize == 8) && |Concat(o, k, longSize, u)| < TWO31
    requires forall i :: 0 <= i < |o.children| ==> Good(o.children[i])
    ensures DecodeChildren(Concat(o, k, longSize, u), |o.children| - k, u) == Some(o.children[k..])
    decreases o, 0, |o.children| - k
  {
    hide Encode;
    hide Decode;
    hide DecodeChildren;
    hide Concat;
    hide Signed;
    hide Good;
    if k < |o.children| {
      var b, e := Concat(o, k, longSize, u), Encode(o.children[k], longSize, u);
      ConcatIs(o, k, longSize, u);
      LengthField(o.children[k], longSize, u);
      assert b[..4] == e[..4] && b[..|e|] == e && b[|e|..] == Concat(o, k + 1, longSize, u);
      ObjectRoundTrip(o.children[k], longSize, u);
      ChildrenRoundTrip(o, k + 1, longSize, u);
      DecodeChildrenIs(b, |e| - 4, |o.children| - k, u);
      assert o.children[k..] == [o.children[k]] + o.children[k + 1..];
    } else {
      NoChildren(Concat(o, k, longSize, u), u);
    }
  }

  /** The bytes before the `i`th child. */
  function Offset(o: LfpObject, i: nat, longSize: nat, u: Codec): nat
    requires i <= |o.children|
  {
    if i == 0 then 0 else Offset(o, i - 1, longSize, u) + |Encode(o.children[i - 1], longSize, u)|
  }

  lemma {:induction false} OffsetSplits(o: LfpObject, i: nat, longSize: nat, u: Codec)
    requires i <= |o.children|
    ensures Offset(o, i, longSize, u) <= |Concat(o, 0, longSize, u)|
    ensures Concat(o, 0, longSize, u)[Offset(o, i, longSize, u)..] == Concat(o, i, longSize, u)
  {
    hide Encode;
    hide Concat;
    if i > 0 {
      OffsetSplits(o, i - 1, longSize, u);
      ConcatIs(o, i - 1, longSize, u);
      var all, at, e := Concat(o, 0, longSize, u), Offset(o, i - 1, longSize, u), Encode(o.children[i - 1], longSize, u);
      assert all[at..][|e|..] == all[at + |e|..];
    }
  }

  /** In the content of a list or map, the length field of each child delimits exactly that child. */
  lemma ChildDelimited(o: LfpObject, i: nat, longSize: nat, u: Codec)
    requires Container(o.kind) && i < |o.children| && |Content(o, longSize, u)| < TWO31
    ensures var c, at := Content(o, longSize, u), 4 + Offset(o, i, longSize, u);
            at + 4 <= |c| &&
            var x := Signed(c[at..at + 4]);
            x >= 0 && at + 4 + x <= |c| && c[at..at + 4 + x] == Encode(o.children[i], longSize, u)
            && (i == |o.children| - 1 <==> at + 4 + x == |c|)
  {
    hide Encode;
    hide Concat;
    hide Content;
    hide Offset;
    hide Signed;
    var c, at, e := Content(o, longSize, u), 4 + Offset(o, i, longSize, u), Encode(o.children[i], longSize, u);
    ContentIs(o, longSize, u);
    OffsetSplits(o, i, longSize, u);
    ConcatIs(o, i, longSize, u);
    assert c[4..] == Concat(o, 0, longSize, u);
    assert c[at..] == c[4..][at - 4..] == e + Concat(o, i + 1, longSize, u);
    assert c[at..][..4] == e[..4] && c[at..][..4] == c[at..at + 4];
    assert c[at..][..|e|] == e && c[at..][..|e|] == c[at..at + |e|];
    LengthField(o.children[i], longSize, u);
    ConcatLength(o, i + 1, longSize, u);
    assert i + 1 == |o.children| ==> Concat(o, i + 1, longSize, u) == [] by { ConcatEnd(o, longSize, u); }
  }

  lemma ConcatEnd(o: LfpObject, longSize: nat, u: Codec)
    ensures Concat(o, |o.children|, longSize, u) == []
  {
  }

  // ---- values as objects ----------------------------------------------------------------------------

  function AsObject(v: Variant, name: string): (o: LfpObject)
    decreases v
  {
    match v
    case List(items) => LfpObject("sequence", name, Invalid, seq(|items|, i requires 0 <= i < |items| => AsObject(items[i], "")))
    case Map(ps) => LfpObject("map", name, Invalid, seq(|ps|, i requires 0 <= i < |ps| => AsObject(ps[i].value, ps[i].key)))
    case Bool(_) => LfpObject("bool", name, v, [])
    case Int(_) => LfpObject("int", name, v, [])
    case Text(_) => LfpObject("string", name, v, [])
    case Data(_) => LfpObject("bytearray", name, v, [])
    case Invalid => Empty()
  }

  /** Alphabetical order by character codes. */
  predicate Less(a: string, b: string) {
    b != [] && (a == [] || a[0] < b[0] || (a[0] == b[0] && Less(a[1..], b[1..])))
  }

  /** Inserting into a map replaces the value under a key already there. */
  function Insert(ps: seq<Pair>, p: Pair): seq<Pair> {
    if ps == [] then [p]
    else if ps[0].key == p.key then [p] + ps[1..]
    else if Less(p.key, ps[0].key) then [p] + ps
    else [ps[0]] + Insert(ps[1..], p)
  }

  function AsVariant(o: LfpObject): Variant
    decreases o, 1
  {
    if o.kind == "sequence" then List(seq(|o.children|, i requires 0 <= i < |o.children| => AsVariant(o.children[i])))
    else if o.kind == "map" then Map(Pairs(o, |o.children|))
    else o.value
  }

  /** The map after inserting the first `n` children. */
  function Pairs(o: LfpObject, n: nat): seq<Pair>
    requires n <= |o.children|
    decreases o, 0, n
  {
    if n == 0 then [] else Insert(Pairs(o, n - 1), Pair(o.children[n - 1].name, AsVariant(o.children[n - 1])))
  }

  ghost predicate Ordered(ps: seq<Pair>) { forall i, j :: 0 <= i < j < |ps| ==> Less(ps[i].key, ps[j].key) }

  /** Values as the library holds them, with plain map keys: 64-bit integers, keys in order. */
  ghost predicate Supported(v: Variant) {
    match v
    case Int(n) => -TWO63 <= n < TWO63
    case List(items) => forall i :: 0 <= i < |items| ==> Supported(items[i])
    case Map(ps) => Ordered(ps) && forall i :: 0 <= i < |ps| ==> Latin1(ps[i].key) && Supported(ps[i].value)
    case _ => true
  }

  /** No value of an unknown kind stands under a name: not under `name`, and not under a key inside. */
  predicate Nameless(v: Variant, name: string) {
    match v
    case Invalid => name == ""
    case List(items) => forall i :: 0 <= i < |items| ==> Nameless(items[i], "")
    case Map(ps) => forall i :: 0 <= i < |ps| ==> Nameless(ps[i].value, ps[i].key)
    case _ => true
  }

  lemma {:induction false} NotLess(a: string, b: string)
    requires Less(a, b)
    ensures a != b && !Less(b, a)
  {
    if a != [] && a[0] == b[0] {
      NotLess(a[1..], b[1..]);
      assert a == [a[0]] + a[1..] && b == [b[0]] + b[1..];
    }
  }

  lemma {:induction false} InsertLast(ps: seq<Pair>, p: Pair)
    requires forall i :: 0 <= i < |ps| ==> Less(ps[i].key, p.key)
    ensures Insert(ps, p) == ps + [p]
  {
    if ps != [] {
      NotLess(ps[0].key, p.key);
      InsertLast(ps[1..], p);
      assert ps == [ps[0]] + ps[1..];
    }
  }

  /** A value becomes an object that can be read back. */
  lemma {:induction false} ObjectsGood(v: Variant, name: string)
    requires Supported(v) && Latin1(name)
    ensures Good(AsObject(v, name))
    decreases v
  {
    match v
    case List(items) =>
      forall i | 0 <= i < |items| ensures Good(AsObject(items[i], "")) {
        ObjectsGood(items[i], "");
      }
    case Map(ps) =>
      forall i | 0 <= i < |ps| ensures Good(AsObject(ps[i].value, ps[i].key)) {
        assert ps[i].value < v;
        ObjectsGood(ps[i].value, ps[i].key);
      }
    case _ =>
  }

  /** Name and value are those of the object made of them. */
  predicate Back(v: Variant, name: string) { AsObject(v, name).name == name && AsVariant(AsObject(v, name)) == v }

  /** A value comes back with its name from the object it becomes, if and only if no value of an unknown
      kind stands under a name. */
  lemma {:induction false} VariantRoundTrip(v: Variant, name: string)
    requires Supported(v)
    ensures Back(v, name) <==> Nameless(v, name)
    decreases v
  {
    match v
    case List(items) =>
      var w := AsVariant(AsObject(v, name));
      forall i | 0 <= i < |items| ensures w.items[i] == items[i] <==> Nameless(items[i], "") {
        VariantRoundTrip(items[i], "");
      }
      assert (forall i :: 0 <= i < |items| ==> w.items[i] == items[i]) ==> w.items == items;
    case Map(ps) =>
      forall i | 0 <= i < |ps| ensures Back(ps[i].value, ps[i].key) <==> Nameless(ps[i].value, ps[i].key) {
        assert ps[i].value < v;
        VariantRoundTrip(ps[i].value, ps[i].key);
      }
      MapBack(v, name);
    case _ =>
  }

  /** A map comes back if and only if every value in it does, with its key. */
  lemma MapBack(v: Variant, name: string)
    requires v.Map? && Ordered(v.pairs)
    ensures AsVariant(AsObject(v, name)) == v <==> forall i :: 0 <= i < |v.pairs| ==> Back(v.pairs[i].value, v.pairs[i].key)
  {
    hide AsObject;
    hide AsVariant;
    var ps := v.pairs;
    MapIs(v, name);
    if i :| 0 <= i < |ps| && AsObject(ps[i].value, ps[i].key).name != ps[i].key {
      KeyLost(v, name, i, |ps|);
    } else {
      PairsBack(v, name, |ps|);
      var qs := Pairs(AsObject(v, name), |ps|);
      forall i | 0 <= i < |ps| ensures qs[i] == ps[i] <==> Back(ps[i].value, ps[i].key) {
      }
      assert (forall i :: 0 <= i < |ps| ==> qs[i] == ps[i]) ==> qs == ps;
    }
  }

  lemma MapIs(v: Variant, name: string)
    requires v.Map?
    ensures |AsObject(v, name).children| == |v.pairs| && AsVariant(AsObject(v, name)) == Map(Pairs(AsObject(v, name), |v.pairs|))
  {
  }

  /** A name is the key or, for a value of an unknown kind, empty. */
  lemma NameIs(v: Variant, name: string)
    ensures AsObject(v, name).name == if v.Invalid? then "" else name
  {
  }

  lemma ChildIs(v: Variant, name: string, i: nat)
    requires v.Map? && i < |v.pairs|
    ensures var o := AsObject(v, name); |o.children| == |v.pairs| && o.children[i] == AsObject(v.pairs[i].value, v.pairs[i].key)
  {
  }

  lemma {:induction false} InsertKeys(ps: seq<Pair>, p: Pair, key: string)
    requires p.key != key && forall i :: 0 <= i < |ps| ==> ps[i].key != key
    ensures forall i :: 0 <= i < |Insert(ps, p)| ==> Insert(ps, p)[i].key != key
  {
    if ps != [] {
      InsertKeys(ps[1..], p, key);
    }
  }

  /** The key of a value that lost its name is not among the keys of the map read. */
  lemma {:induction false} KeyLost(v: Variant, name: string, k: nat, n: nat)
    requires v.Map? && Ordered(v.pairs) && n <= |v.pairs| && k < |v.pairs| && n <= |AsObject(v, name).children|
    requires AsObject(v.pairs[k].value, v.pairs[k].key).name != v.pairs[k].key
    ensures forall i :: 0 <= i < |Pairs(AsObject(v, name), n)| ==> Pairs(AsObject(v, name), n)[i].key != v.pairs[k].key
  {
    hide AsObject;
    hide AsVariant;
    hide Insert;
    if n > 0 {
      KeyLost(v, name, k, n - 1);
      ChildIs(v, name, n - 1);
      var p, o := v.pairs[n - 1], AsObject(v, name).children[n - 1];
      NameIs(p.value, p.key);
      NameIs(v.pairs[k].value, v.pairs[k].key);
      KeysApart(v.pairs, k, n - 1);
      InsertKeys(Pairs(AsObject(v, name), n - 1), Pair(o.name, AsVariant(o)), v.pairs[k].key);
    }
  }

  lemma KeysApart(ps: seq<Pair>, i: nat, k: nat)
    requires Ordered(ps) && i < |ps| && k < |ps|
    ensures ps[i].key == ps[k].key ==> i == k
  {
    if i < k {
      NotLess(ps[i].key, ps[k].key);
    } else if k < i {
      NotLess(ps[k].key, ps[i].key);
    }
  }

  lemma {:induction false} PairsBack(v: Variant, name: string, n: nat)
    requires v.Map? && Ordered(v.pairs) && n <= |v.pairs| && n <= |AsObject(v, name).children|
    requires forall i :: 0 <= i < |v.pairs| ==> AsObject(v.pairs[i].value, v.pairs[i].key).name == v.pairs[i].key
    ensures var qs := Pairs(AsObject(v, name), n);
            |qs| == n && forall i :: 0 <= i < n ==> qs[i] == Pair(v.pairs[i].key, AsVariant(AsObject(v.pairs[i].value, v.pairs[i].key)))
  {
    hide AsObject;
    hide AsVariant;
    hide Insert;
    if n > 0 {
      PairsBack(v, name, n - 1);
      ChildIs(v, name, n - 1);
      var o := AsObject(v, name).children[n - 1];
      InsertLast(Pairs(AsObject(v, name), n - 1), Pair(o.name, AsVariant(o)));
    }
  }

  // ---- the bytes of a value ---------------------------------------------------------------------------

  /** The name of a value's kind, in the characters' codes. */
  function KindBytes(v: Variant): seq<byte> {
    match v
    case Bool(_) => [98, 111, 111, 108]
    case Int(_) => [105, 110, 116]
    case Text(_) => [115, 116, 114, 105, 110, 103]
    case Data(_) => [98, 121, 116, 101, 97, 114, 114, 97, 121]
    case List(_) => [115, 101, 113, 117, 101, 110, 99, 101]
    case Map(_) => [109, 97, 112]
    case Invalid => []
  }

  /** The encodings of the values under their names, one after the other. */
  function Joined(vs: seq<Pair>, longSize: nat, u: Codec): seq<byte> {
    if vs == [] then [] else Encode(AsObject(vs[0].value, vs[0].key), longSize, u) + Joined(vs[1..], longSize, u)
  }

  /** The content of a value: one byte for a truth value; 2 bytes for an integer they are enough for, otherwise those
      of a `long` or, if these are not enough either, 8; texts in UTF-8; for lists and maps the number of
      elements in 4 bytes and then each of them. */
  ghost predicate ContentOf(v: Variant, c: seq<byte>, longSize: nat, u: Codec) {
    match v
    case Bool(b) => c == (if b then [1] else [0])
    case Int(n) => exists w :: IntWidth(n, w, longSize) && c == BigEndian(n, w)
    case Text(s) => c == u.toUtf8(s)
    case Data(d) => c == d
    case List(items) => c == BigEndian(|items|, 4) + Joined(seq(|items|, i requires 0 <= i < |items| => Pair("", items[i])), longSize, u)
    case Map(ps) => c == BigEndian(|ps|, 4) + Joined(ps, longSize, u)
    case Invalid => c == []
  }

  predicate IntWidth(n: int, w: nat, longSize: nat) {
    w == if InRange(n, 2) then 2 else if InRange(n, 4) && longSize == 4 then 4 else 8
  }

  lemma {:induction false} ConcatJoined(o: LfpObject, vs: seq<Pair>, k: nat, longSize: nat, u: Codec)
    requires |vs| == |o.children| && k <= |vs| && forall i :: 0 <= i < |vs| ==> o.children[i] == AsObject(vs[i].value, vs[i].key)
    ensures Concat(o, k, longSize, u) == Joined(vs[k..], longSize, u)
    decreases |vs| - k
  {
    hide AsObject;
    hide Encode;
    if k < |vs| {
      assert vs[k..][1..] == vs[k + 1..];
      ConcatJoined(o, vs, k + 1, longSize, u);
    }
  }

  lemma WidthIs(n: int, longSize: nat)
    requires longSize == 4 || longSize == 8
    ensures IntWidth(n, Width(n, longSize), longSize)
  {
    Powers();
  }

  lemma ContentIsOf(v: Variant, name: string, longSize: nat, u: Codec)
    requires longSize == 4 || longSize == 8
    ensures ContentOf(v, Content(AsObject(v, name), longSize, u), longSize, u)
  {
    hide Encode;
    hide Concat;
    hide Joined;
    hide BigEndian;
    hide IntWidth;
    var o := AsObject(v, name);
    match v
    case Int(n) => WidthIs(n, longSize);
    case List(items) =>
      ContentIs(o, longSize, u);
      var vs := seq(|items|, i requires 0 <= i < |items| => Pair("", items[i]));
      ConcatJoined(o, vs, 0, longSize, u);
      assert vs[0..] == vs;
    case Map(ps) =>
      ContentIs(o, longSize, u);
      ConcatJoined(o, ps, 0, longSize, u);
      assert ps[0..] == ps;
    case _ =>
  }

  /** Every value under a plain name lies on the wire as: the length of the rest in 4 bytes, the name of its kind, a zero,
      its own name, a zero, and its content. */
  lemma ValueBytes(v: Variant, name: string, longSize: nat, u: Codec)
    requires (longSize == 4 || longSize == 8) && v != Invalid && Latin1(name)
    ensures forall i :: 0 <= i < |name| ==> ToLatin1(name)[i] == name[i] as int
    ensures exists c :: ContentOf(v, c, longSize, u)
              && Encode(AsObject(v, name), longSize, u) ==
                 BigEndian(|KindBytes(v)| + |name| + 2 + |c|, 4) + (KindBytes(v) + [0] + ToLatin1(name) + [0]) + c
  {
    hide Encode;
    hide Content;
    hide ContentOf;
    hide BigEndian;
    var o := AsObject(v, name);
    EncodeIs(o, longSize, u);
    ContentIsOf(v, name, longSize, u);
    KindIs(v, name);
    forall i | 0 <= i < |name| ensures ToLatin1(name)[i] == name[i] as int {
      assert name[i] in name;
    }
  }

  lemma KindIs(v: Variant, name: string)
    requires v != Invalid
    ensures ToLatin1(AsObject(v, name).kind) == KindBytes(v)
  {
    var k, b := AsObject(v, name).kind, KindBytes(v);
    assert |k| == |b|;
    forall i | 0 <= i < |k| ensures k[i] as int == b[i] {
    }
  }

  // ---- argument lists -------------------------------------------------------------------------------

  datatype Argument = Argument(name: string, value: Variant)

  function ArgumentObject(args: seq<Argument>): LfpObject {
    LfpObject("sequence", "", Invalid, seq(|args|, i requires 0 <= i < |args| => AsObject(args[i].value, args[i].name)))
  }

  function EncodeArguments(args: seq<Argument>, longSize: nat, u: Codec): seq<byte> {
    Encode(ArgumentObject(args), longSize, u)
  }

  function DecodeArguments(a: seq<byte>, u: Codec): Option<seq<Argument>> {
    var o := Decode(a, u);
    if o.None? then None
    else
      var cs := o.value.children;
      Some(seq(|cs|, i requires 0 <= i < |cs| => Argument(cs[i].name, AsVariant(cs[i]))))
  }

  /** What is read of the arguments sent. */
  lemma ArgumentsRead(args: seq<Argument>, longSize: nat, u: Codec)
    requires ValidCodec(u) && (longSize == 4 || longSize == 8)
    requires forall i :: 0 <= i < |args| ==> Latin1(args[i].name) && Supported(args[i].value)
    requires |EncodeArguments(args, longSize, u)| < TWO31 + 4
    ensures var r := DecodeArguments(EncodeArguments(args, longSize, u), u);
            r.Some? && |r.value| == |args| &&
            forall i :: 0 <= i < |args| ==>
              var o := AsObject(args[i].value, args[i].name); r.value[i] == Argument(o.name, AsVariant(o))
  {
    hide AsObject;
    hide AsVariant;
    hide Encode;
    hide Decode;
    hide Good;
    var o := ArgumentObject(args);
    forall i | 0 <= i < |args| ensures Good(o.children[i]) {
      ObjectsGood(args[i].value, args[i].name);
    }
    ArgumentsGood(o);
    ObjectRoundTrip(o, longSize, u);
  }

  lemma ArgumentsGood(o: LfpObject)
    requires o.kind == "sequence" && o.name == "" && o.value == Invalid
    requires forall i :: 0 <= i < |o.children| ==> Good(o.children[i])
    ensures Good(o)
  {
  }

  /** An argument list comes back with its names and values, whatever they nest, from either kind of
      writer, as long as the whole is shorter than a 31-bit length can say: if and only if no value of an
      unknown kind is an argument with a name or stands under a key of a map. */
  lemma ArgumentsRoundTrip(args: seq<Argument>, longSize: nat, u: Codec)
    requires ValidCodec(u) && (longSize == 4 || longSize == 8)
    requires forall i :: 0 <= i < |args| ==> Latin1(args[i].name) && Supported(args[i].value)
    requires |EncodeArguments(args, longSize, u)| < TWO31 + 4
    ensures DecodeArguments(EncodeArguments(args, longSize, u), u) == Some(args) <==>
            forall i :: 0 <= i < |args| ==> Nameless(args[i].value, args[i].name)
  {
    hide AsObject;
    hide AsVariant;
    hide Nameless;
    hide DecodeArguments;
    hide EncodeArguments;
    ArgumentsRead(args, longSize, u);
    var r := DecodeArguments(EncodeArguments(args, longSize, u), u).value;
    forall i | 0 <= i < |args| ensures r[i] == args[i] <==> Nameless(args[i].value, args[i].name) {
      VariantRoundTrip(args[i].value, args[i].name);
    }
    assert (forall i :: 0 <= i < |args| ==> r[i] == args[i]) ==> r == args;
  }

  /** An argument of a kind the bridge does not know loses its name as well as its value, wherever it
      stands in the list. */
  lemma UnknownLost(args: seq<Argument>, k: nat, longSize: nat, u: Codec)
    requires ValidCodec(u) && (longSize == 4 || longSize == 8)
    requires forall i :: 0 <= i < |args| ==> Latin1(args[i].name) && Supported(args[i].value)
    requires |EncodeArguments(args, longSize, u)| < TWO31 + 4 && k < |args| && args[k].value == Invalid
    ensures var r := DecodeArguments(EncodeArguments(args, longSize, u), u);
            r.Some? && k < |r.value| && r.value[k] == Argument("", Invalid)
  {
    ArgumentsRead(args, longSize, u);
  }
}

/** The code that fills and reads byte buffers, on hosts of either byte order. */
module Wire {
  import opened WireBytes
  import opened WireFormat

  /** A number lying in the memory of the host. */
  function FromMemory(b: seq<byte>, bigEndianHost: bool): int {
    if bigEndianHost then Signed(b) else Signed(seq(|b|, i requires 0 <= i < |b| => b[|b| - 1 - i]))
  }

  method PutInt(x: int, host: Host) returns (c: seq<byte>)
    ensures c == BigEndian(x, 4)
  {
    var xp := InMemory(x, 4, host.bigEndian);
    if host.bigEndian {
      c := [xp[0], xp[1], xp[2], xp[3]];
    } else {
      c := [xp[3], xp[2], xp[1], xp[0]];
    }
  }

  method GetInt(b: seq<byte>, host: Host) returns (x: int)
    requires |b| >= 4
    ensures x == Signed(b[..4])
  {
    var xp: seq<byte>;
    if host.bigEndian {
      xp := [b[0], b[1], b[2], b[3]];
      assert xp == b[..4];
    } else {
      xp := [b[3], b[2], b[1], b[0]];
      assert seq(4, i requires 0 <= i < 4 => xp[4 - 1 - i]) == b[..4];
    }
    x := FromMemory(xp, host.bigEndian);
  }

  lemma LowByteAt(value: int, w: nat, i: nat)
    requires i < w <= 8
    ensures BigEndian(value, 8)[8 - w + i] == BigEndian(value, w)[i]
  {
    hide BigEndian;
    LowBytes(value, 8, w);
    assert BigEndian(value, 8)[8 - w..][i] == BigEndian(value, 8)[8 - w + i];
  }

  /** Copies the least significant bytes, most significant first. */
  method CopyLow(value: int, valueSize: nat, host: Host) returns (c: seq<byte>)
    requires valueSize <= 8
    ensures c == BigEndian(value, valueSize)
  {
    hide BigEndian;
    var valueBytes := InMemory(value, 8, host.bigEndian);
    var delta := 8 - valueSize;
    c := [];
    for i := 0 to valueSize
      invariant |c| == i && forall k :: 0 <= k < i ==> c[k] == BigEndian(value, valueSize)[k]
    {
      LowByteAt(value, valueSize, i);
      c := c + [valueBytes[if host.bigEndian then delta + i else valueSize - 1 - i]];
    }
  }

  method PutLong(value: int, host: Host) returns (c: seq<byte>)
    requires ValidHost(host) && -TWO63 <= value < TWO63
    ensures c == BigEndian(value, Width(value, host.longSize))
  {
    var valueSize := 8;
    if -TWO15 <= value <= TWO15 - 1 {
      valueSize := 2;
    } else if host.longSize == 8 || -TWO31 <= value <= TWO31 - 1 {
      valueSize := host.longSize;
    }
    c := CopyLow(value, valueSize, host);
  }

  method GetLong(content: seq<byte>, host: Host) returns (v: Variant)
    requires |content| <= 8
    ensures v == if |content| == 2 || |content| == 4 || |content| == 8 then Int(Signed(content)) else Invalid
  {
    var n := |content|;
    var valueBytes: seq<byte> := [];
    for i := 0 to n
      invariant |valueBytes| == i
      invariant forall k :: 0 <= k < i ==> valueBytes[k] == content[if host.bigEndian then k else n - 1 - k]
    {
      valueBytes := valueBytes + [content[if host.bigEndian then i else n - 1 - i]];
    }
    if host.bigEndian {
      assert valueBytes == content;
    } else {
      assert seq(n, i requires 0 <= i < n => valueBytes[n - 1 - i]) == content;
    }
    v := Invalid;
    if n == 2 || n == 4 || n == 8 {
      v := Int(FromMemory(valueBytes, host.bigEndian));
    }
  }

  /** The value of an object is of the kind its type names. */
  predicate Typed(o: LfpObject) {
    (Container(o.kind) ==> forall i :: 0 <= i < |o.children| ==> Typed(o.children[i]))
    && (o.kind == "int" ==> o.value.Int? && -TWO63 <= o.value.n < TWO63)
    && (o.kind == "string" ==> o.value.Text?) && (o.kind == "bool" ==> o.value.Bool?) && (o.kind == "bytearray" ==> o.value.Data?)
  }

  /** The bytes depend on the width of the host's `long`, not on its byte order. */
  method ToArray(o: LfpObject, host: Host, u: Codec) returns (out: seq<byte>)
    requires Typed(o) && ValidHost(host)
    ensures out == Encode(o, host.longSize, u)
    decreases o, 1
  {
    hide Encode;
    hide Content;
    hide BigEndian;
    hide ToLatin1;
    var c: seq<byte>;
    if Container(o.kind) {
      c := PutChildren(o, host, u);
    } else {
      c := PutValue(o, host, u);
    }
    EncodeIs(o, host.longSize, u);
    out := PutInt(|o.kind| + 1 + |o.name| + 1 + |c|, host);
    Assembled(out, ToLatin1(o.kind), ToLatin1(o.name), c);
    out := out + ToLatin1(o.kind);
    out := out + [0];
    out := out + ToLatin1(o.name);
    out := out + [0];
    out := out + c;
  }

  lemma Assembled(size: seq<byte>, kind: seq<byte>, name: seq<byte>, c: seq<byte>)
    ensures size + kind + [0] + name + [0] + c == size + (kind + [0] + name + [0]) + c
  {
  }

  method PutChildren(o: LfpObject, host: Host, u: Codec) returns (c: seq<byte>)
    requires Typed(o) && ValidHost(host) && Container(o.kind)
    ensures c == Content(o, host.longSize, u)
    decreases o, 0
  {
    hide Encode;
    hide Content;
    hide Concat;
    hide BigEndian;
    c := PutInt(|o.children|, host);
    ContentIs(o, host.longSize, u);
    for n := 0 to |o.children|
      invariant c + Concat(o, n, host.longSize, u) == Content(o, host.longSize, u)
    {
      var e := ToArray(o.children[n], host, u);
      ConcatIs(o, n, host.longSize, u);
      assert c + (e + Concat(o, n + 1, host.longSize, u)) == (c + e) + Concat(o, n + 1, host.longSize, u);
      c := c + e;
    }
    ConcatEnd(o, host.longSize, u);
  }

  method PutValue(o: LfpObject, host: Host, u: Codec) returns (c: seq<byte>)
    requires Typed(o) && ValidHost(host) && !Container(o.kind)
    ensures c == Content(o, host.longSize, u)
  {
    c := [];
    if o.kind == "int" {
      c := PutLong(o.value.n, host);
    } else if o.kind == "string" {
      c := u.toUtf8(o.value.s);
    } else if o.kind == "bool" {
      c := [if o.value.b then 1 else 0];
    } else if o.kind == "bytearray" {
      c := o.value.d;
    }
  }

  /** Reads what is defined to be read. */
  method FromArray(a: seq<byte>, host: Host, u: Codec) returns (o: LfpObject)
    requires Decode(a, u).Some?
    ensures o == Decode(a, u).value
    decreases |a|, 1
  {
    hide DecodeContent;
    hide FindZero;
    var at := 4;
    var next := IndexOfZero(a, at);
    var kind := a[at..next];
    at := next + 1;
    next := IndexOfZero(a, at);
    var name := a[at..next];
    at := next + 1;
    o := GetContent(FromLatin1(kind), FromLatin1(name), a[at..], host, u);
  }

  method IndexOfZero(a: seq<byte>, from: nat) returns (r: int)
    ensures r == FindZero(a, from)
  {
    var at := from;
    while at < |a| && a[at] != 0
      invariant FindZero(a, from) == FindZero(a, at)
    {
      at := at + 1;
    }
    r := if at < |a| then at else -1;
  }

  method GetContent(kind: string, name: string, c: seq<byte>, host: Host, u: Codec) returns (o: LfpObject)
    requires DecodeContent(kind, name, c, u).Some?
    ensures o == DecodeContent(kind, name, c, u).value
    decreases |c|, 2
  {
    if Container(kind) {
      hide DecodeChildren;
      var children := GetChildren(c, host, u);
      o := LfpObject(kind, name, Invalid, children);
    } else {
      var value := Invalid;
      if kind == "int" {
        value := GetLong(c, host);
      } else if kind == "string" {
        value := Text(u.fromUtf8(c));
      } else if kind == "bool" {
        value := Bool(c[0] != 0);
      } else if kind == "bytearray" {
        value := Data(c);
      }
      o := LfpObject(kind, name, value, []);
    }
  }

  method GetChildren(c: seq<byte>, host: Host, u: Codec) returns (children: seq<LfpObject>)
    requires |c| >= 4 && DecodeChildren(c[4..], Signed(c[..4]), u).Some?
    ensures children == DecodeChildren(c[4..], Signed(c[..4]), u).value
    decreases |c|, 1
  {
    hide Decode;
    hide DecodeChildren;
    hide Signed;
    var count := GetInt(c, host);
    var at := 4;
    children := [];
    var n := 0;
    while n < count
      invariant 4 <= at <= |c| && (n <= count || n == 0)
      invariant DecodeChildren(c[at..], count - n, u).Some?
      invariant children + DecodeChildren(c[at..], count - n, u).value == DecodeChildren(c[4..], count, u).value
    {
      ChildNext(c[at..], count - n, u);
      var x := GetInt(c[at..], host);
      assert c[at..][..4 + x] == c[at..at + 4 + x] && c[at..][4 + x..] == c[at + 4 + x..];
      var child := FromArray(c[at..at + 4 + x], host, u);
      at := at + 4 + x;
      children := children + [child];
      n := n + 1;
    }
    NoMore(c[at..], count - n, u);
  }

  lemma ChildNext(b: seq<byte>, count: int, u: Codec)
    requires count > 0 && DecodeChildren(b, count, u).Some?
    ensures |b| >= 4 && 0 <= Signed(b[..4]) && 4 + Signed(b[..4]) <= |b|
    ensures var x := Signed(b[..4]);
            Decode(b[..4 + x], u).Some? && DecodeChildren(b[4 + x..], count - 1, u).Some?
            && DecodeChildren(b, count, u).value == [Decode(b[..4 + x], u).value] + DecodeChildren(b[4 + x..], count - 1, u).value
  {
  }

  lemma NoMore(b: seq<byte>, count: int, u: Codec)
    requires count <= 0
    ensures DecodeChildren(b, count, u) == Some([])
  {
  }

  method VariantAsObject(v: Variant, name: string) returns (o: LfpObject)
    ensures o == AsObject(v, name)
    decreases v
  {
    if v.List? {
      var children := [];
      for n := 0 to |v.items|
        invariant children == AsObject(v, name).children[..n]
      {
        var child := VariantAsObject(v.items[n], "");
        children := children + [child];
      }
      o := LfpObject("sequence", name, Invalid, children);
    } else if v.Map? {
      var children := [];
      for n := 0 to |v.pairs|
        invariant children == AsObject(v, name).children[..n]
      {
        assert v.pairs[n].value < v;
        var child := VariantAsObject(v.pairs[n].value, v.pairs[n].key);
        children := children + [child];
      }
      o := LfpObject("map", name, Invalid, children);
    } else if v.Bool? {
      o := LfpObject("bool", name, v, []);
    } else if v.Int? {
      o := LfpObject("int", name, v, []);
    } else if v.Text? {
      o := LfpObject("string", name, v, []);
    } else if v.Data? {
      o := LfpObject("bytearray", name, v, []);
    } else {
      o := Empty();
    }
  }

  method ObjectAsVariant(o: LfpObject) returns (v: Variant)
    ensures v == AsVariant(o)
    decreases o
  {
    if o.kind == "sequence" {
      var items := [];
      for n := 0 to |o.children|
        invariant items == AsVariant(o).items[..n]
      {
        var item := ObjectAsVariant(o.children[n]);
        items := items + [item];
      }
      v := List(items);
    } else if o.kind == "map" {
      var pairs := [];
      for n := 0 to |o.children|
        invariant pairs == Pairs(o, n)
      {
        var value := ObjectAsVariant(o.children[n]);
        pairs := Insert(pairs, Pair(o.children[n].name, value));
      }
      v := Map(pairs);
    } else {
      v := o.value;
    }
  }

  /** Integers have 64 bits. */
  predicate Sendable(v: Variant) {
    match v
    case Int(n) => -TWO63 <= n < TWO63
    case List(items) => forall i :: 0 <= i < |items| ==> Sendable(items[i])
    case Map(ps) => forall i :: 0 <= i < |ps| ==> Sendable(ps[i].value)
    case _ => true
  }

  lemma {:induction false} SendableTyped(v: Variant, name: string)
    requires Sendable(v)
    ensures Typed(AsObject(v, name))
    decreases v
  {
    match v
    case List(items) =>
      forall i | 0 <= i < |items| ensures Typed(AsObject(items[i], "")) {
        SendableTyped(items[i], "");
      }
    case Map(ps) =>
      forall i | 0 <= i < |ps| ensures Typed(AsObject(ps[i].value, ps[i].key)) {
        assert ps[i].value < v;
        SendableTyped(ps[i].value, ps[i].key);
      }
    case _ =>
  }

  method ArgumentsToArray(args: seq<Argument>, host: Host, u: Codec) returns (out: seq<byte>)
    requires ValidHost(host) && forall i :: 0 <= i < |args| ==> Sendable(args[i].value)
    ensures out == EncodeArguments(args, host.longSize, u)
  {
    var children := [];
    for n := 0 to |args|
      invariant children == ArgumentObject(args).children[..n]
      invariant forall i :: 0 <= i < n ==> Typed(children[i])
    {
      SendableTyped(args[n].value, args[n].name);
      var child := VariantAsObject(args[n].value, args[n].name);
      children := children + [child];
    }
    assert children == ArgumentObject(args).children;
    out := ToArray(LfpObject("sequence", "", Invalid, children), host, u);
  }

  method ArgumentsFromArray(a: seq<byte>, host: Host, u: Codec) returns (args: seq<Argument>)
    requires Decode(a, u).Some?
    ensures Some(args) == DecodeArguments(a, u)
  {
    var o := FromArray(a, host, u);
    args := [];
    for n := 0 to |o.children|
      invariant args == DecodeArguments(a, u).value[..n]
    {
      var value := ObjectAsVariant(o.children[n]);
      args := args + [Argument(o.children[n].name, value)];
    }
    assert args == DecodeArguments(a, u).value;
  }

  /** Written on one host and read on another, whatever their byte orders and the width of `long` on
      the writer's, an argument list is the same, if and only if nothing of an unknown kind has a name in it. */
  method Relay(args: seq<Argument>, from: Host, to: Host, u: Codec) returns (received: seq<Argument>)
    requires ValidCodec(u) && ValidHost(from) && |EncodeArguments(args, from.longSize, u)| < TWO31 + 4
    requires forall i :: 0 <= i < |args| ==> Latin1(args[i].name) && Supported(args[i].value)
    ensures received == args <==> forall i :: 0 <= i < |args| ==> Nameless(args[i].value, args[i].name)
  {
    forall i | 0 <= i < |args| ensures Sendable(args[i].value) {
      SupportedSendable(args[i].value);
    }
    var bytes := ArgumentsToArray(args, from, u);
    ArgumentsRead(args, from.longSize, u);
    ArgumentsRoundTrip(args, from.longSize, u);
    received := ArgumentsFromArray(bytes, to, u);
  }

  lemma {:induction false} SupportedSendable(v: Variant)
    requires Supported(v)
    ensures Sendable(v)
  {
    match v
    case List(items) =>
      forall i | 0 <= i < |items| ensures Sendable(items[i]) {
        SupportedSendable(items[i]);
      }
    case Map(ps) =>
      forall i | 0 <= i < |ps| ensures Sendable(ps[i].value) {
        assert ps[i].value < v;
        SupportedSendable(ps[i].value);
      }
    case _ =>
  }
}
