/**
 The text form of IPv6 addresses (RFC 5952, with the mixed notation of its section 5), and a reference parser that
 reads it back.
 */
module AddressText {
  import opened Bytes

  // ---------------------------------------------------------------- numbers

  function DigitChar(d: nat): (c: char)
    requires d < 16
    ensures c != ':' && c != '.'
  {
    if d < 10 then '0' + d as char else 'a' + (d - 10) as char
  }

  function DigitValue(base: nat, c: char): Option<nat> {
    var d := if '0' <= c <= '9' then (c - '0') as int else if 'a' <= c <= 'f' then (c - 'a') as int + 10 else 16;
    if d < base && d < 16 then Some(d) else None
  }

  datatype Base = Decimal | Hex

  function Radix(b: Base): nat {
    if b == Decimal then 10 else 16
  }

  function LastDigit(b: Base, v: nat): (d: nat)
    ensures d < 16
  {
    if b == Decimal then v % 10 else v % 16
  }

  function OtherDigits(b: Base, v: nat): (q: nat)
    ensures v > 0 ==> q < v
    ensures v == q * Radix(b) + LastDigit(b, v)
  {
    if b == Decimal then v / 10 else v / 16
  }

  /** Digits without leading zeros, the most significant one first. */
  function Digits(b: Base, v: nat): (s: string)
    ensures s != [] && ':' !in s && '.' !in s
    ensures v > 0 ==> s[0] != '0'
  {
    var q, last := OtherDigits(b, v), [DigitChar(LastDigit(b, v))];
    if q == 0 then last else Digits(b, q) + last
  }

  /** The reference reading of a number. */
  function NumberOf(b: Base, s: string): Option<nat> {
    if s == [] then Some(0)
    else
      var rest, d := NumberOf(b, s[..|s| - 1]), DigitValue(Radix(b), s[|s| - 1]);
      if rest.Some? && d.Some? then Some(rest.value * Radix(b) + d.value) else None
  }

  lemma {:induction false} DigitsRead(b: Base, v: nat)
    ensures NumberOf(b, Digits(b, v)) == Some(v)
  {
    var s, q := Digits(b, v), OtherDigits(b, v);
    assert DigitValue(Radix(b), DigitChar(LastDigit(b, v))) == Some(LastDigit(b, v));
    if q == 0 {
      assert s[..0] == [];
    } else {
      DigitsRead(b, q);
      assert s[..|s| - 1] == Digits(b, q);
    }
  }

  function Power(b: Base, n: nat): nat {
    if n == 0 then 1 else Radix(b) * Power(b, n - 1)
  }

  lemma {:induction false} DigitsLength(b: Base, v: nat, n: nat)
    requires n >= 1 && v < Power(b, n)
    ensures |Digits(b, v)| <= n
    decreases n
  {
    var q := OtherDigits(b, v);
    assert Power(b, n) == Radix(b) * Power(b, n - 1) && Power(b, 0) == 1;
    if q > 0 {
      assert q < Power(b, n - 1);
      DigitsLength(b, q, n - 1);
    }
  }

  lemma DigitsStep(b: Base, v: nat, tail: string)
    ensures var q, c := OtherDigits(b, v), [DigitChar(LastDigit(b, v))];
            Digits(b, v) + tail == if q == 0 then c + tail else Digits(b, q) + (c + tail)
  {
  }

  /** UnsignedDecimal::write and Hex::write: digits fill a buffer from its end; failing is running out of buffer. */
  method Write(b: Base, width: nat, value: nat) returns (ok: bool, text: string)
    ensures ok <==> |Digits(b, value)| <= width
    ensures ok ==> text == Digits(b, value)
  {
    hide Digits, OtherDigits, LastDigit, DigitChar;
    var ret := new char[width](_ => ' ');
    var v: nat, i := value, width;
    while i > 0
      invariant 0 <= i <= width
      invariant Digits(b, value) == Digits(b, v) + ret[i..]
    {
      ghost var tail := ret[i..];
      DigitsStep(b, v, tail);
      i := i - 1;
      ret[i] := DigitChar(LastDigit(b, v));
      assert ret[i..] == [DigitChar(LastDigit(b, v))] + tail;
      v := OtherDigits(b, v);
      if v == 0 {
        return true, ret[i..];
      }
    }
    ok, text := false, [];
  }

  /** A hextet always fits its four places. */
  method WriteHex(value: nat) returns (text: string)
    requires value < 0x1_0000
    ensures text == Digits(Hex, value)
  {
    var ok;
    ok, text := Write(Hex, 4, value);
    assert Power(Hex, 4) == 0x1_0000;
    DigitsLength(Hex, value, 4);
  }

  /** A 32-bit number always fits its twelve places. */
  method WriteDecimal(value: nat) returns (text: string)
    requires value < TWO32
    ensures text == Digits(Decimal, value)
  {
    var ok;
    ok, text := Write(Decimal, 12, value);
    assert Power(Decimal, 10) == 10_000_000_000;
    DigitsLength(Decimal, value, 10);
  }

  // ---------------------------------------------------------------- fields

  function Join(fs: seq<string>, sep: char): string {
    if fs == [] then [] else if |fs| == 1 then fs[0] else fs[0] + [sep] + Join(fs[1..], sep)
  }

  function Split(s: string, sep: char): (fs: seq<string>)
    ensures fs != []
  {
    if s == [] then [[]]
    else if s[0] == sep then [[]] + Split(s[1..], sep)
    else var r := Split(s[1..], sep); [[s[0]] + r[0]] + r[1..]
  }

  /** Fields that can be told apart again. */
  predicate Fields(fs: seq<string>, sep: char) {
    forall i :: 0 <= i < |fs| ==> fs[i] != [] && sep !in fs[i]
  }

  lemma {:induction false} SplitOne(f: string, sep: char, rest: string)
    requires sep !in f
    ensures Split(f + [sep] + rest, sep) == [f] + Split(rest, sep)
    ensures Split(f, sep) == [f]
    decreases |f|
  {
    if f == [] {
      assert f + [sep] + rest == [sep] + rest;
    } else {
      SplitOne(f[1..], sep, rest);
      assert (f + [sep] + rest)[1..] == f[1..] + [sep] + rest;
      assert f == [f[0]] + f[1..] && f[0] != sep;
    }
  }

  lemma {:induction false} SplitJoin(fs: seq<string>, sep: char)
    requires fs != [] && Fields(fs, sep)
    ensures Split(Join(fs, sep), sep) == fs
    decreases |fs|
  {
    if |fs| == 1 {
      SplitOne(fs[0], sep, []);
    } else {
      SplitJoin(fs[1..], sep);
      SplitOne(fs[0], sep, Join(fs[1..], sep));
    }
  }

  /** One more field at the end. */
  lemma {:induction false} JoinMore(fs: seq<string>, f: string, sep: char)
    ensures Join(fs + [f], sep) == if fs == [] then f else Join(fs, sep) + [sep] + f
    decreases |fs|
  {
    if |fs| == 1 {
      assert (fs + [f])[1..] == [f];
    } else if |fs| > 1 {
      assert (fs + [f])[1..] == fs[1..] + [f];
      JoinMore(fs[1..], f, sep);
    }
  }

  // ---------------------------------------------------------------- the reference parser

  /** The first "::" from position `i` on. */
  function FindGap(s: string, i: nat): (r: Option<nat>)
    requires i <= |s|
    ensures r.Some? ==> i <= r.value && r.value + 2 <= |s|
    decreases |s| - i
  {
    if i + 2 > |s| then None
    else if s[i] == ':' && s[i + 1] == ':' then Some(i)
    else FindGap(s, i + 1)
  }

  function Hextet(f: string): Option<nat> {
    if 1 <= |f| <= 4 then NumberOf(Hex, f) else None
  }

  function DecimalByte(f: string): Option<nat> {
    if 1 <= |f| <= 3 && NumberOf(Decimal, f).Some? && NumberOf(Decimal, f).value < 256 then NumberOf(Decimal, f)
    else None
  }

  /** Four decimal numbers: two hextets. */
  function Quad(f: string): Option<seq<nat>> {
    var p := Split(f, '.');
    if |p| != 4 then None
    else
      var a, b, c, d := DecimalByte(p[0]), DecimalByte(p[1]), DecimalByte(p[2]), DecimalByte(p[3]);
      if a.Some? && b.Some? && c.Some? && d.Some? then Some([a.value * 256 + b.value, c.value * 256 + d.value])
      else None
  }

  /** Hextets, the last of which may be written as four decimal numbers. */
  function Groups(fs: seq<string>): Option<seq<nat>> {
    if fs == [] then Some([])
    else if |fs| == 1 && '.' in fs[0] then Quad(fs[0])
    else
      var h, rest := Hextet(fs[0]), Groups(fs[1..]);
      if h.Some? && rest.Some? then Some([h.value] + rest.value) else None
  }

  function Part(s: string): Option<seq<nat>> {
    if s == [] then Some([]) else Groups(Split(s, ':'))
  }

  function Zeros(n: nat): seq<nat> {
    seq(n, _ => 0)
  }

  /** The text form of section 2.2 of RFC 4291. */
  function Parse(s: string): Option<seq<nat>> {
    var g := FindGap(s, 0);
    if g.None? then
      var p := Part(s);
      if p.Some? && |p.value| == 8 then p else None
    else
      var a, b := Part(s[..g.value]), Part(s[g.value + 2..]);
      if a.Some? && b.Some? && |a.value| + |b.value| < 8 then Some(a.value + Zeros(8 - |a.value| - |b.value|) + b.value)
      else None
  }

  // ---------------------------------------------------------------- zero runs

  /** Eight 16-bit groups. */
  predicate Address(a: seq<nat>) {
    |a| == 8 && Hextets(a)
  }

  predicate Hextets(x: seq<nat>) {
    forall i :: 0 <= i < |x| ==> x[i] < 0x1_0000
  }

  predicate ZeroRun(a: seq<nat>, s: nat, e: nat) {
    s + e <= |a| && forall i :: s <= i < s + e ==> a[i] == 0
  }

  /** Among the runs of zeros in the first `n` groups, this one is the leftmost of the longest. */
  ghost predicate Longest(a: seq<nat>, n: nat, zs: nat, ze: nat) {
    && ZeroRun(a, zs, ze) && zs + ze <= n && (ze == 0 ==> zs == 0)
    && forall s: nat, e: nat :: ZeroRun(a, s, e) && s + e <= n ==> e <= ze && (e == ze && e > 0 ==> zs <= s)
  }

  lemma {:induction false} RunEnds(a: seq<nat>, start: nat, i: nat, zs: nat, ze: nat)
    requires Longest(a, start, zs, ze) && start <= i && ZeroRun(a, start, i - start)
             && (start == 0 || a[start - 1] != 0)
    ensures if i - start > ze then Longest(a, i, start, i - start) else Longest(a, i, zs, ze)
  {
    forall s: nat, e: nat | ZeroRun(a, s, e) && s + e <= i
      ensures s + e <= start || s >= start
    {
    }
  }

  lemma {:induction false} NonZero(a: seq<nat>, i: nat, zs: nat, ze: nat)
    requires Longest(a, i, zs, ze) && i < |a| && a[i] != 0
    ensures Longest(a, i + 1, zs, ze)
  {
    forall s: nat, e: nat | ZeroRun(a, s, e) && s + e <= i + 1
      ensures s + e <= i || e == 0
    {
    }
  }

  /** The first pass. */
  method FindRun(a: seq<nat>) returns (zs: nat, ze: nat)
    requires |a| == 8
    ensures Longest(a, 8, zs, ze)
  {
    zs, ze := 0, 0;
    var zero, start := false, 0;
    for i := 0 to 8
      invariant start <= i && (zero ==> ZeroRun(a, start, i - start) && (start == 0 || a[start - 1] != 0))
      invariant !zero ==> i == 0 || a[i - 1] != 0
      invariant Longest(a, if zero then start else i, zs, ze)
    {
      if zero {
        if a[i] != 0 {
          RunEnds(a, start, i, zs, ze);
          if i - start > ze {
            zs, ze := start, i - start;
          }
          NonZero(a, i, zs, ze);
          zero := false;
        }
      } else if a[i] == 0 {
        start, zero := i, true;
      } else {
        NonZero(a, i, zs, ze);
      }
    }
    if zero {
      RunEnds(a, start, 8, zs, ze);
      if 8 - start > ze {
        zs, ze := start, 8 - start;
      }
    }
  }

  // ---------------------------------------------------------------- the printed form

  function HexFields(x: seq<nat>): (fs: seq<string>)
    ensures |fs| == |x| && Fields(fs, ':') && forall i :: 0 <= i < |fs| ==> fs[i] == Digits(Hex, x[i])
  {
    if x == [] then [] else [Digits(Hex, x[0])] + HexFields(x[1..])
  }

  function Colons(x: seq<nat>): string {
    Join(HexFields(x), ':')
  }

  function QuadFields(h: nat, l: nat): (fs: seq<string>)
    ensures |fs| == 4 && Fields(fs, '.')
  {
    [Digits(Decimal, h / 256), Digits(Decimal, h % 256), Digits(Decimal, l / 256), Digits(Decimal, l % 256)]
  }

  function Dotted(h: nat, l: nat): string {
    Join(QuadFields(h, l), '.')
  }

  /** The text of an address whose leftmost longest run of zeros is known. */
  function Text(a: seq<nat>, zs: nat, ze: nat): string
    requires |a| == 8 && zs + ze <= 8
  {
    if zs == 0 && ze == 5 && a[5] == 0xffff then "::ffff:" + Dotted(a[6], a[7])
    else if zs == 0 && ze == 6 then "::" + Dotted(a[6], a[7])
    else if ze >= 2 then Colons(a[..zs]) + "::" + Colons(a[zs + ze..])
    else Colons(a)
  }

  lemma {:induction false} ColonsMore(x: seq<nat>, h: nat)
    ensures Colons(x + [h]) == (if x == [] then [] else Colons(x) + ":") + Digits(Hex, h)
  {
    assert HexFields(x + [h]) == HexFields(x) + [Digits(Hex, h)];
    JoinMore(HexFields(x), Digits(Hex, h), ':');
  }

  /** ipv4, on an address whose bytes are in network order. */
  method Ipv4(addr: nat) returns (text: string)
    requires addr < TWO32
    ensures text == Join([Digits(Decimal, addr % 256), Digits(Decimal, addr / 256 % 256),
                          Digits(Decimal, addr / 0x1_0000 % 256),
                          Digits(Decimal, addr / 0x100_0000)], '.')
  {
    var a := WriteDecimal(addr % 256);
    var b := WriteDecimal(addr / 256 % 256);
    var c := WriteDecimal(addr / 0x1_0000 % 256);
    var d := WriteDecimal(addr / 0x100_0000);
    text := a + "." + b + "." + c + "." + d;
    FourFields(a, b, c, d, '.');
  }

  lemma FourFields(a: string, b: string, c: string, d: string, sep: char)
    ensures Join([a, b, c, d], sep) == a + [sep] + b + [sep] + c + [sep] + d
  {
    assert [a, b, c, d][1..] == [b, c, d] && [b, c, d][1..] == [c, d] && [c, d][1..] == [d];
    assert Join([c, d], sep) == c + [sep] + d;
    assert Join([b, c, d], sep) == b + [sep] + (c + [sep] + d);
  }

  /** The bytes of two groups, read as one number in the other byte order. */
  function Swapped(h: nat, l: nat): nat
    requires h < 0x1_0000 && l < 0x1_0000
  {
    h / 256 + h % 256 * 256 + l / 256 * 0x1_0000 + l % 256 * 0x100_0000
  }

  method WriteQuad(h: nat, l: nat) returns (text: string)
    requires h < 0x1_0000 && l < 0x1_0000
    ensures text == Dotted(h, l)
  {
    hide Digits, Join;
    SwappedBytes(h, l);
    text := Ipv4(Swapped(h, l));
  }

  lemma {:induction false} SwappedBytes(h: nat, l: nat)
    requires h < 0x1_0000 && l < 0x1_0000
    ensures var n := Swapped(h, l);
            n < TWO32 && n % 256 == h / 256 && n / 256 % 256 == h % 256 && n / 0x1_0000 % 256 == l / 256
                && n / 0x100_0000 == l % 256
  {
    var a, b, c, d := h / 256, h % 256, l / 256, l % 256;
    var n := Swapped(h, l);
    assert n / 256 == b + c * 256 + d * 0x1_0000;
    assert n / 0x1_0000 == c + d * 256;
  }

  datatype State = INITIAL | ZERO | NORMAL

  /** What the second pass has written before group `i`. */
  function Written(a: seq<nat>, zs: nat, ze: nat, i: nat): string
    requires |a| == 8 && zs + ze <= 8 && i <= 8
  {
    if ze < 2 || i <= zs then Colons(a[..i])
    else if i <= zs + ze then Colons(a[..zs])
    else Colons(a[..zs]) + "::" + Colons(a[zs + ze..i])
  }

  /** One group of the second pass. */
  method WriteGroup(a: seq<nat>, zs: nat, ze: nat, i: nat, state0: State) returns (state: State, text: string)
    requires Address(a) && ZeroRun(a, zs, ze) && i < 8 && (zs + ze < 8 ==> a[zs + ze] != 0)
    requires state0 == if i == 0 then INITIAL else if ze >= 2 && zs < i <= zs + ze then ZERO else NORMAL
    ensures state == if ze >= 2 && zs < i + 1 <= zs + ze then ZERO else NORMAL
    ensures Written(a, zs, ze, i) + text == Written(a, zs, ze, i + 1)
  {
    hide Colons, Digits;
    state := state0;
    if i == zs && ze >= 2 {
      state := ZERO;
    }
    text := [];
    if state == ZERO && a[i] == 0 {
      return;
    }
    WrittenMore(a, zs, ze, i);
    var hex := WriteHex(a[i]);
    match state {
      case INITIAL => text := hex;
      case ZERO => text := "::" + hex;
      case NORMAL => text := ":" + hex;
    }
    state := NORMAL;
  }

  lemma NoColons()
    ensures Colons([]) == []
  {
  }

  lemma Regroup(c: string, x: string, d: string, first: bool)
    ensures c + "::" + ((if first then [] else x + ":") + d) == if first then c + "::" + d else c + "::" + x + ":" + d
  {
  }

  lemma {:induction false} WrittenMore(a: seq<nat>, zs: nat, ze: nat, i: nat)
    requires |a| == 8 && zs + ze <= 8 && i < 8 && (ze < 2 || i < zs || zs + ze <= i)
    ensures Written(a, zs, ze, i + 1) == Written(a, zs, ze, i)
              + (if ze >= 2 && i == zs + ze then "::" else if i == 0 then "" else ":") + Digits(Hex, a[i])
  {
    hide Colons, Digits;
    var d, c := Digits(Hex, a[i]), Colons(a[..zs]);
    NoColons();
    if ze < 2 || i < zs {
      assert a[..i + 1] == a[..i] + [a[i]];
      ColonsMore(a[..i], a[i]);
    } else {
      var x := a[zs + ze..i];
      assert a[zs + ze..i + 1] == x + [a[i]];
      ColonsMore(x, a[i]);
      Regroup(c, Colons(x), d, x == []);
    }
  }

  /** The second pass. */
  method WriteGroups(a: seq<nat>, zs: nat, ze: nat) returns (text: string)
    requires Address(a) && Longest(a, 8, zs, ze)
    ensures text == if ze >= 2 then Colons(a[..zs]) + "::" + Colons(a[zs + ze..]) else Colons(a)
  {
    RunIsMaximal(a, zs, ze);
    var state := INITIAL;
    text := [];
    for i := 0 to 8
      invariant state == if i == 0 then INITIAL else if ze >= 2 && zs < i <= zs + ze then ZERO else NORMAL
      invariant text == Written(a, zs, ze, i)
    {
      var more;
      state, more := WriteGroup(a, zs, ze, i, state);
      text := text + more;
    }
    assert a[..8] == a;
    if state == ZERO {
      assert a[zs + ze..] == [];
      text := text + "::";
    } else if ze >= 2 {
      assert a[zs + ze..8] == a[zs + ze..];
    }
  }

  lemma {:induction false} RunIsMaximal(a: seq<nat>, zs: nat, ze: nat)
    requires |a| == 8 && Longest(a, 8, zs, ze)
    ensures zs + ze < 8 ==> a[zs + ze] != 0
  {
    if zs + ze < 8 && a[zs + ze] == 0 {
      assert ZeroRun(a, zs, ze + 1);
    }
  }

  /** ipv6: the digit buffers never overflow, so this always succeeds. */
  method Ipv6(a: seq<nat>) returns (text: string, zs: nat, ze: nat)
    requires Address(a)
    ensures Longest(a, 8, zs, ze) && text == Text(a, zs, ze)
    ensures Parse(text) == Some(a)
    ensures '.' in text <==> Mixed(a)
    ensures if Mixed(a) then EndsInBytes(text, a[6], a[7]) else HexOnly(text)
  {
    zs, ze := FindRun(a);
    if zs == 0 && ze == 5 && a[5] == 0xffff {
      var q := WriteQuad(a[6], a[7]);
      text := "::ffff:" + q;
    } else if zs == 0 && ze == 6 {
      var q := WriteQuad(a[6], a[7]);
      text := "::" + q;
    } else {
      text := WriteGroups(a, zs, ze);
    }
    RoundTrip(a, zs, ze);
    Notation(a, zs, ze);
  }

  // ---------------------------------------------------------------- reading it back

  lemma {:induction false} HextetRead(h: nat)
    requires h < 0x1_0000
    ensures Hextet(Digits(Hex, h)) == Some(h)
  {
    DigitsRead(Hex, h);
    assert Power(Hex, 4) == 0x1_0000;
    DigitsLength(Hex, h, 4);
  }

  lemma {:induction false} ByteRead(b: nat)
    requires b < 256
    ensures DecimalByte(Digits(Decimal, b)) == Some(b)
  {
    DigitsRead(Decimal, b);
    assert Power(Decimal, 3) == 1000;
    DigitsLength(Decimal, b, 3);
  }

  lemma {:induction false} GroupsRead(x: seq<nat>)
    requires Hextets(x)
    ensures Groups(HexFields(x)) == Some(x)
    decreases |x|
  {
    hide Hextet, Digits, Groups, HexFields;
    FieldsOf(x);
    if x != [] {
      HextetRead(x[0]);
      GroupsRead(x[1..]);
      GroupsMore(Digits(Hex, x[0]), HexFields(x[1..]), x[0], x[1..]);
      assert [x[0]] + x[1..] == x;
    }
  }

  lemma FieldsOf(x: seq<nat>)
    ensures HexFields(x) == if x == [] then [] else [Digits(Hex, x[0])] + HexFields(x[1..])
    ensures Groups([]) == Some([])
  {
  }

  /** One hextet more at the front. */
  lemma {:induction false} GroupsMore(f: string, fs: seq<string>, h: nat, x: seq<nat>)
    requires '.' !in f && Hextet(f) == Some(h) && Groups(fs) == Some(x)
    ensures Groups([f] + fs) == Some([h] + x)
  {
    hide Hextet;
    assert ([f] + fs)[1..] == fs && ([f] + fs)[0] == f;
  }

  lemma {:induction false} JoinNotEmpty(fs: seq<string>, sep: char)
    requires fs != [] && Fields(fs, sep)
    ensures Join(fs, sep) != [] && Join(fs, sep)[0] != sep
  {
    assert fs[0][0] in fs[0];
  }

  lemma {:induction false} ColonsRead(x: seq<nat>)
    requires Hextets(x)
    ensures Part(Colons(x)) == Some(x)
  {
    if x != [] {
      var fs := HexFields(x);
      JoinNotEmpty(fs, ':');
      SplitJoin(fs, ':');
      GroupsRead(x);
    }
  }

  lemma {:induction false} QuadRead(h: nat, l: nat)
    requires h < 0x1_0000 && l < 0x1_0000
    ensures Quad(Dotted(h, l)) == Some([h, l])
  {
    hide Digits, Split, Join, DecimalByte;
    SplitJoin(QuadFields(h, l), '.');
    ByteRead(h / 256);
    ByteRead(h % 256);
    ByteRead(l / 256);
    ByteRead(l % 256);
  }

  lemma {:induction false} DottedShape(h: nat, l: nat)
    ensures '.' in Dotted(h, l) && ':' !in Dotted(h, l) && Dotted(h, l) != []
  {
    var f := QuadFields(h, l);
    FourFields(f[0], f[1], f[2], f[3], '.');
    var d := f[0] + ['.'] + f[1] + ['.'] + f[2] + ['.'] + f[3];
    assert d[|f[0]|] == '.';
  }

  lemma {:induction false} DottedRead(h: nat, l: nat)
    requires h < 0x1_0000 && l < 0x1_0000
    ensures Part(Dotted(h, l)) == Some([h, l])
    ensures Part("ffff:" + Dotted(h, l)) == Some([0xffff, h, l])
  {
    DottedShape(h, l);
    QuadRead(h, l);
    MappedPrefix();
    hide Dotted, Quad, Hextet;
    MixedParts(Dotted(h, l), h, l);
  }

  lemma {:induction false} MixedParts(d: string, h: nat, l: nat)
    requires '.' in d && ':' !in d && Quad(d) == Some([h, l]) && Hextet("ffff") == Some(0xffff)
    ensures Part(d) == Some([h, l]) && Part("ffff:" + d) == Some([0xffff, h, l])
  {
    hide Quad, Hextet;
    SplitOne(d, ':', []);
    SplitOne("ffff", ':', d);
    hide Split;
    assert "ffff" + [':'] + d == "ffff:" + d;
    var fs := ["ffff"] + [d];
    assert fs[1..] == [d];
    assert Groups([d]) == Some([h, l]);
    assert [0xffff] + [h, l] == [0xffff, h, l];
    assert Groups(fs) == Some([0xffff, h, l]);
  }

  lemma MappedPrefix()
    ensures Hextet("ffff") == Some(0xffff)
  {
    assert NumberOf(Hex, "f") == Some(15) by {
      assert "f"[..0] == "";
    }
    assert "ff"[..1] == "f" && "fff"[..2] == "ff" && "ffff"[..3] == "fff";
  }

  /** No two colons in a row, and none at either end. */
  predicate Solid(s: string) {
    && (s != [] ==> s[0] != ':' && s[|s| - 1] != ':')
    && forall i :: 0 <= i < |s| - 1 ==> !(s[i] == ':' && s[i + 1] == ':')
  }

  lemma NothingIsSolid()
    ensures Solid([]) && Part([]) == Some([])
  {
  }

  lemma {:induction false} JoinSolid(fs: seq<string>)
    requires Fields(fs, ':')
    ensures Solid(Join(fs, ':'))
    decreases |fs|
  {
    if |fs| == 1 {
      FieldSolid(fs[0]);
    } else if |fs| > 1 {
      JoinSolid(fs[1..]);
      JoinNotEmpty(fs[1..], ':');
      FieldSolid(fs[0]);
      SolidConcat(fs[0], Join(fs[1..], ':'));
    }
  }

  lemma {:induction false} FieldSolid(f: string)
    requires ':' !in f
    ensures Solid(f)
  {
    assert forall i :: 0 <= i < |f| ==> f[i] in f;
  }

  lemma {:induction false} SolidConcat(f: string, s: string)
    requires Solid(f) && Solid(s) && f != [] && s != []
    ensures Solid(f + [':'] + s)
  {
  }

  lemma {:induction false} GapAt(s: string, i: nat, k: nat)
    requires i <= k && k + 2 <= |s| && s[k] == ':' && s[k + 1] == ':'
    requires forall j :: i <= j < k ==> !(s[j] == ':' && s[j + 1] == ':')
    ensures FindGap(s, i) == Some(k)
    decreases k - i
  {
    if i < k {
      GapAt(s, i + 1, k);
    }
  }

  lemma {:induction false} NoGap(s: string, i: nat)
    requires i <= |s| && Solid(s)
    ensures FindGap(s, i) == None
    decreases |s| - i
  {
    if i + 2 <= |s| {
      NoGap(s, i + 1);
    }
  }

  /** A gap is found where it was put. */
  lemma {:induction false} ParseGap(left: string, right: string, x: seq<nat>, y: seq<nat>)
    requires Solid(left) && Part(left) == Some(x) && Part(right) == Some(y) && |x| + |y| < 8
    ensures Parse(left + "::" + right) == Some(x + Zeros(8 - |x| - |y|) + y)
  {
    var s := left + "::" + right;
    GapAt(s, 0, |left|);
    assert s[..|left|] == left && s[|left| + 2..] == right;
  }

  lemma {:induction false} Refilled(a: seq<nat>, zs: nat, ze: nat)
    requires |a| == 8 && ZeroRun(a, zs, ze)
    ensures a[..zs] + Zeros(ze) + a[zs + ze..] == a
  {
  }

  /** The mixed notation. */
  lemma {:induction false} MixedRoundTrip(a: seq<nat>, ze: nat)
    requires Address(a) && ZeroRun(a, 0, ze) && ((ze == 5 && a[5] == 0xffff) || ze == 6)
    ensures Parse(Text(a, 0, ze)) == Some(a)
  {
    hide Parse, Part, Dotted, Solid;
    DottedRead(a[6], a[7]);
    MixedText(a[6], a[7]);
    Refilled(a, 0, ze);
    NothingIsSolid();
    assert a[..0] == [] && a[ze..] == if ze == 5 then [0xffff, a[6], a[7]] else [a[6], a[7]];
    ParseGap([], if ze == 5 then "ffff:" + Dotted(a[6], a[7]) else Dotted(a[6], a[7]), [], a[ze..]);
  }

  lemma {:induction false} GapRoundTrip(a: seq<nat>, zs: nat, ze: nat)
    requires Address(a) && ZeroRun(a, zs, ze) && ze >= 2
    ensures Parse(Colons(a[..zs]) + "::" + Colons(a[zs + ze..])) == Some(a)
  {
    ColonsRead(a[..zs]);
    ColonsRead(a[zs + ze..]);
    JoinSolid(HexFields(a[..zs]));
    Refilled(a, zs, ze);
    hide Parse, Part, Solid, Join;
    ParseGap(Colons(a[..zs]), Colons(a[zs + ze..]), a[..zs], a[zs + ze..]);
  }

  /** The reference parser recovers every address from its text. */
  lemma {:induction false} RoundTrip(a: seq<nat>, zs: nat, ze: nat)
    requires Address(a) && Longest(a, 8, zs, ze)
    ensures Parse(Text(a, zs, ze)) == Some(a)
  {
    if zs == 0 && ((ze == 5 && a[5] == 0xffff) || ze == 6) {
      MixedRoundTrip(a, ze);
    } else if ze >= 2 {
      GapRoundTrip(a, zs, ze);
    } else {
      ColonsRead(a);
      JoinSolid(HexFields(a));
      NoGap(Colons(a), 0);
    }
  }

  /** "::" stands for the leftmost longest run of zeros, and only for runs of at least two groups. */
  lemma {:induction false} GapIsLongestRun(a: seq<nat>, zs: nat, ze: nat)
    requires Address(a) && Longest(a, 8, zs, ze)
    ensures FindGap(Text(a, zs, ze), 0) == if ze >= 2 then Some(|Colons(a[..zs])|) else None
  {
    hide Digits;
    if ze < 2 {
      JoinSolid(HexFields(a));
      NoGap(Colons(a), 0);
    } else if zs == 0 {
      assert a[..0] == [] && Colons([]) == [];
      GapAt(Text(a, zs, ze), 0, 0);
    } else {
      JoinSolid(HexFields(a[..zs]));
      var left := Colons(a[..zs]);
      hide Join;
      GapAt(left + "::" + Colons(a[zs + ze..]), 0, |left|);
    }
  }

  lemma MixedText(h: nat, l: nat)
    ensures [] + "::" + ("ffff:" + Dotted(h, l)) == "::ffff:" + Dotted(h, l)
    ensures [] + "::" + Dotted(h, l) == "::" + Dotted(h, l)
  {
  }

  // ---------------------------------------------------------------- which notation is used

  /** IPv4-compatible and IPv4-mapped addresses. */
  predicate Mixed(a: seq<nat>)
    requires |a| == 8
  {
    && a[0] == a[1] == a[2] == a[3] == a[4] == 0
    && (a[5] == 0xffff || (a[5] == 0 && a[6] != 0))
  }

  /** Behind the last colon stand four decimal numbers, the bytes of the two groups. */
  ghost predicate EndsInBytes(text: string, h: nat, l: nat) {
    var f := Split(text, ':');
    var p := Split(f[|f| - 1], '.');
    && |p| == 4 && Fields(p, '.')
    && NumberOf(Decimal, p[0]) == Some(h / 256) && NumberOf(Decimal, p[1]) == Some(h % 256)
    && NumberOf(Decimal, p[2]) == Some(l / 256) && NumberOf(Decimal, p[3]) == Some(l % 256)
  }

  predicate HexField(f: string) {
    |f| <= 4 && forall i :: 0 <= i < |f| ==> '0' <= f[i] <= '9' || 'a' <= f[i] <= 'f'
  }

  /** Between colons there are at most four hexadecimal digits. */
  ghost predicate HexOnly(text: string) {
    forall i :: 0 <= i < |Split(text, ':')| ==> HexField(Split(text, ':')[i])
  }

  /** The digits themselves. */
  lemma DigitsKnown()
    ensures Digits(Hex, 0xabcd) == "abcd" && Digits(Hex, 0xef) == "ef" && Digits(Hex, 0) == "0"
  {
    assert Digits(Hex, 0xa) == "a" && Digits(Hex, 0xab) == "ab" && Digits(Hex, 0xabc) == "abc";
    assert Digits(Hex, 0xe) == "e";
  }

  lemma DecimalsKnown()
    ensures Digits(Decimal, 98765) == "98765" && Digits(Decimal, 43210) == "43210"
  {
    assert Digits(Decimal, 9) == "9" && Digits(Decimal, 98) == "98" && Digits(Decimal, 987) == "987";
    assert Digits(Decimal, 9876) == "9876" && Digits(Decimal, 4) == "4" && Digits(Decimal, 43) == "43";
    assert Digits(Decimal, 432) == "432" && Digits(Decimal, 4321) == "4321";
  }

  lemma {:induction false} DigitsAreHex(b: Base, v: nat)
    ensures forall i :: 0 <= i < |Digits(b, v)| ==> '0' <= Digits(b, v)[i] <= '9' || 'a' <= Digits(b, v)[i] <= 'f'
  {
    var q := OtherDigits(b, v);
    if q > 0 {
      DigitsAreHex(b, q);
    }
  }

  lemma {:induction false} GroupIsField(h: nat)
    requires h < 0x1_0000
    ensures HexField(Digits(Hex, h))
  {
    DigitsAreHex(Hex, h);
    HextetRead(h);
  }

  /** Splitting at a separator splits both sides. */
  lemma {:induction false} SplitConcat(s: string, sep: char, t: string)
    ensures Split(s + [sep] + t, sep) == Split(s, sep) + Split(t, sep)
    decreases |s|
  {
    hide Split;
    var u := s + [sep] + t;
    SplitFirst(u, sep);
    SplitFirst(s, sep);
    if s == [] {
      assert u == [sep] + t && u[1..] == t;
    } else {
      SplitConcat(s[1..], sep, t);
      assert u[1..] == s[1..] + [sep] + t;
      Glue(s[0], Split(s[1..], sep), Split(t, sep));
    }
  }

  lemma SplitFirst(s: string, sep: char)
    ensures Split(s, sep) == if s == [] then [[]] else Put(s[0], sep, Split(s[1..], sep))
  {
  }

  /** One character more at the front of some fields. */
  function Put(c: char, sep: char, fs: seq<string>): seq<string>
    requires fs != []
  {
    if c == sep then [[]] + fs else [[c] + fs[0]] + fs[1..]
  }

  lemma Glue(c: char, a: seq<string>, b: seq<string>)
    requires a != []
    ensures [[c] + (a + b)[0]] + (a + b)[1..] == [[c] + a[0]] + a[1..] + b
    ensures [[]] + (a + b) == [[]] + a + b
  {
  }

  lemma {:induction false} ColonsAreHex(x: seq<nat>)
    requires Hextets(x)
    ensures HexOnly(Colons(x))
  {
    if x == [] {
      assert Split([], ':') == [[]];
    } else {
      SplitJoin(HexFields(x), ':');
      forall i | 0 <= i < |x|
        ensures HexField(HexFields(x)[i])
      {
        GroupIsField(x[i]);
      }
    }
  }

  lemma {:induction false} GapIsHex(left: string, right: string)
    requires HexOnly(left) && HexOnly(right)
    ensures HexOnly(left + "::" + right)
  {
    assert left + "::" + right == left + [':'] + ([] + [':'] + right);
    SplitConcat(left, ':', [] + [':'] + right);
    SplitConcat([], ':', right);
    assert Split([], ':') == [[]];
    assert Split(left + "::" + right, ':') == Split(left, ':') + ([[]] + Split(right, ':'));
  }

  /** A text made of such fields has no dots. */
  lemma {:induction false} HexHasNoDots(s: string)
    requires HexOnly(s)
    ensures '.' !in s
    decreases |s|
  {
    hide Split;
    if s != [] {
      SplitFirst(s, ':');
      PutIsHex(s[0], Split(s[1..], ':'));
      HexHasNoDots(s[1..]);
      assert s == [s[0]] + s[1..];
    }
  }

  lemma {:induction false} PutIsHex(c: char, fs: seq<string>)
    requires fs != [] && forall i :: 0 <= i < |Put(c, ':', fs)| ==> HexField(Put(c, ':', fs)[i])
    ensures c != '.' && forall i :: 0 <= i < |fs| ==> HexField(fs[i])
  {
    var f := Put(c, ':', fs);
    if c == ':' {
      assert forall i :: 0 <= i < |fs| ==> fs[i] == f[i + 1];
    } else {
      assert HexField(f[0]) && f[0][0] == c;
      assert forall i :: 0 <= i < |fs[0]| ==> fs[0][i] == f[0][i + 1];
      assert forall i :: 1 <= i < |fs| ==> fs[i] == f[i];
    }
  }

  lemma {:induction false} EndIsBytes(start: string, h: nat, l: nat)
    requires h < 0x1_0000 && l < 0x1_0000
    ensures EndsInBytes(start + [':'] + Dotted(h, l), h, l) && '.' in start + [':'] + Dotted(h, l)
  {
    hide Digits, Split, Join;
    var d := Dotted(h, l);
    DottedShape(h, l);
    SplitConcat(start, ':', d);
    SplitOne(d, ':', []);
    SplitJoin(QuadFields(h, l), '.');
    DigitsRead(Decimal, h / 256);
    DigitsRead(Decimal, h % 256);
    DigitsRead(Decimal, l / 256);
    DigitsRead(Decimal, l % 256);
  }

  /** The branches of the printer are the two kinds of addresses. */
  lemma {:induction false} MixedRuns(a: seq<nat>, zs: nat, ze: nat)
    requires |a| == 8 && Longest(a, 8, zs, ze)
    ensures Mixed(a) <==> zs == 0 && ((ze == 5 && a[5] == 0xffff) || ze == 6)
  {
    if Mixed(a) {
      assert ZeroRun(a, 0, 5);
      assert a[5] == 0 ==> ZeroRun(a, 0, 6);
      assert ZeroRun(a, zs, ze);
    } else if zs == 0 && ze == 6 {
      assert a[6] == 0 ==> ZeroRun(a, 0, 7);
    }
  }

  /** Dots are written for those addresses only; otherwise the text is hexadecimal throughout. */
  lemma {:induction false} Notation(a: seq<nat>, zs: nat, ze: nat)
    requires Address(a) && Longest(a, 8, zs, ze)
    ensures '.' in Text(a, zs, ze) <==> Mixed(a)
    ensures if Mixed(a) then EndsInBytes(Text(a, zs, ze), a[6], a[7]) else HexOnly(Text(a, zs, ze))
  {
    hide Dotted, Colons, EndsInBytes, HexOnly;
    MixedRuns(a, zs, ze);
    if Mixed(a) {
      var start := if ze == 5 then "::ffff" else ":";
      EndIsBytes(start, a[6], a[7]);
      assert Text(a, zs, ze) == start + [':'] + Dotted(a[6], a[7]);
    } else {
      if ze >= 2 {
        ColonsAreHex(a[..zs]);
        ColonsAreHex(a[zs + ze..]);
        GapIsHex(Colons(a[..zs]), Colons(a[zs + ze..]));
      } else {
        ColonsAreHex(a);
      }
      HexHasNoDots(Text(a, zs, ze));
    }
  }
}
