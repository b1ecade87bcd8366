/** What unpadded base64url spells: the number its bytes are, big-endian, in base 64. */
module Base64Number {
  import opened Wrappers
  import opened Base64Url

  /** Section 5 of RFC 4648: the capitals, the small letters and the digits in order, the minus and the underscore. */
  lemma SymbolsInOrder(v: Sextet)
    ensures [Symbol(0), Symbol(25), Symbol(26), Symbol(51), Symbol(52), Symbol(61), Symbol(62), Symbol(63)] == "AZaz09-_"
    ensures v < 61 && v != 25 && v != 51 ==> Symbol(v + 1) as int == Symbol(v) as int + 1
  {
  }

  /** `int.from_bytes(bytes, byteorder="big")`. */
  function BigEndian(bytes: seq<Byte>): nat {
    if bytes == [] then 0 else BigEndian(bytes[..|bytes| - 1]) * 256 + bytes[|bytes| - 1]
  }

  function Power(base: nat, k: nat): nat {
    if k == 0 then 1 else base * Power(base, k - 1)
  }

  /** A spelling read as one number, its first symbol the most significant. */
  function NumberOf(s: string): nat
    requires IsSpelling(s)
  {
    if s == "" then 0 else NumberOf(s[..|s| - 1]) * 64 + Value(s[|s| - 1]).value
  }

  /** A number behind another, which counts by `power`. */
  function Shifted(high: nat, power: nat, low: nat): nat {
    high * power + low
  }

  lemma {:induction false} BigEndianAcross(a: seq<Byte>, b: seq<Byte>)
    ensures BigEndian(a + b) == Shifted(BigEndian(a), Power(256, |b|), BigEndian(b))
  {
    if b == [] {
      assert a + b == a;
    } else {
      var before, last := b[..|b| - 1], b[|b| - 1];
      BigEndianAcross(a, before);
      assert (a + b)[..|a + b| - 1] == a + before;
      OneMoreDigit(BigEndian(a), Power(256, |before|), BigEndian(before), 256, last);
    }
  }

  lemma OneMoreDigit(high: nat, power: nat, low: nat, base: nat, digit: nat)
    ensures (high * power + low) * base + digit == high * (base * power) + (low * base + digit)
  {
  }

  /** Each byte counts by its place, and the bytes of one length are the numbers below a power of 256. */
  lemma {:induction false} BytesByPlace(first: Byte, rest: seq<Byte>)
    ensures BigEndian([first] + rest) == first * Power(256, |rest|) + BigEndian(rest)
    ensures BigEndian(rest) < Power(256, |rest|)
  {
    BigEndianAcross([first], rest);
    assert [first][..0] == [] && BigEndian([first]) == first;
    BelowThePower(rest);
  }

  lemma {:induction false} BelowThePower(bytes: seq<Byte>)
    ensures BigEndian(bytes) < Power(256, |bytes|)
  {
    if bytes != [] {
      BelowThePower(bytes[..|bytes| - 1]);
    }
  }

  lemma {:induction false} NumberAcross(a: string, b: string)
    requires IsSpelling(a) && IsSpelling(b)
    ensures IsSpelling(a + b) && NumberOf(a + b) == Shifted(NumberOf(a), Power(64, |b|), NumberOf(b))
  {
    if b == "" {
      assert a + b == a;
    } else {
      var before, last := b[..|b| - 1], b[|b| - 1];
      NumberAcross(a, before);
      assert (a + b)[..|a + b| - 1] == a + before;
      OneMoreDigit(NumberOf(a), Power(64, |before|), NumberOf(before), 64, Value(last).value);
    }
  }

  /** The bits a last group of one or two bytes leaves over are zero. */
  function Padding(n: nat): nat {
    if n % 3 == 0 then 1 else if n % 3 == 1 then 16 else 4
  }

  lemma NumberOfTwo(a: char, b: char)
    requires IsSymbol(a) && IsSymbol(b)
    ensures NumberOf([a, b]) == Value(a).value * 64 + Value(b).value
  {
    assert [a, b][..1] == [a] && [a][..0] == "";
    assert NumberOf([a]) == Value(a).value;
  }

  lemma NumberOfThree(a: char, b: char, c: char)
    requires IsSymbol(a) && IsSymbol(b) && IsSymbol(c)
    ensures NumberOf([a, b, c]) == (Value(a).value * 64 + Value(b).value) * 64 + Value(c).value
  {
    NumberOfTwo(a, b);
    assert [a, b, c][..2] == [a, b];
  }

  lemma NumberOfQuartet(a: Byte, b: Byte, c: Byte)
    ensures NumberOf(Quartet(a, b, c)) == ThreeBytes(a, b, c)
  {
    var q := Quartet(a, b, c);
    NumberOfThree(q[0], q[1], q[2]);
    assert q[..3] == [q[0], q[1], q[2]];
  }

  lemma {:induction false} PowersAgree(n: nat)
    ensures Power(64, (4 * n + 2) / 3) == Places(n)
  {
    if n >= 3 {
      PowersAgree(n - 3);
      assert (4 * n + 2) / 3 == (4 * (n - 3) + 2) / 3 + 4 && n % 3 == (n - 3) % 3;
      PowerOfFour(64, (4 * (n - 3) + 2) / 3);
      PowerOfThree(256, n - 3);
    } else if n == 2 {
      assert Power(64, 3) == 64 * (64 * (64 * Power(64, 0)));
      assert Power(256, 2) == 256 * (256 * Power(256, 0));
    } else if n == 1 {
      assert Power(64, 2) == 64 * (64 * Power(64, 0));
      assert Power(256, 1) == 256 * Power(256, 0);
    }
  }

  lemma PowerOfThree(base: nat, k: nat)
    ensures Power(base, k + 3) == base * (base * (base * Power(base, k)))
  {
    assert Power(base, k + 3) == base * Power(base, k + 2) && Power(base, k + 2) == base * Power(base, k + 1);
  }

  lemma PowerOfFour(base: nat, k: nat)
    ensures Power(base, k + 4) == base * (base * (base * (base * Power(base, k))))
  {
    PowerOfThree(base, k + 1);
  }

  /** A spelling is the number of its bytes, filled up with zero bits to whole symbols. */
  lemma {:induction false} EncodeKeepsTheNumber(bytes: seq<Byte>)
    ensures NumberOf(Encode(bytes)) == Shifted(BigEndian(bytes), Padding(|bytes|), 0)
  {
    if |bytes| >= 3 {
      EncodeKeepsTheNumber(bytes[3..]);
      var q := FirstGroup(bytes);
      assert bytes == bytes[..3] + bytes[3..];
      GroupAnd(q, Encode(bytes[3..]), bytes[..3], bytes[3..]);
    } else if |bytes| == 2 {
      EncodeOfTwo(bytes[0], bytes[1]);
      assert bytes == [bytes[0], bytes[1]];
    } else if |bytes| == 1 {
      EncodeOfOne(bytes[0]);
      assert bytes == [bytes[0]];
    }
  }

  /** The first four symbols, which spell the first three bytes. */
  lemma FirstGroup(bytes: seq<Byte>) returns (q: string)
    requires |bytes| >= 3
    ensures IsSpelling(q) && Encode(bytes) == q + Encode(bytes[3..])
    ensures NumberOf(q) == BigEndian(bytes[..3])
  {
    q := Quartet(bytes[0], bytes[1], bytes[2]);
    NumberOfQuartet(bytes[0], bytes[1], bytes[2]);
    BigEndianOfThree(bytes[..3]);
  }

  lemma BigEndianOfThree(bytes: seq<Byte>)
    requires |bytes| == 3
    ensures BigEndian(bytes) == ThreeBytes(bytes[0], bytes[1], bytes[2])
  {
    assert bytes[..2][..1] == bytes[..1] && bytes[..1][..0] == [];
    assert BigEndian(bytes[..1]) == bytes[0];
  }

  function ThreeBytes(a: Byte, b: Byte, c: Byte): nat {
    (a as int * 256 + b as int) * 256 + c as int
  }

  /** What a symbol in front of the spelling of `n` bytes counts. */
  function Places(n: nat): nat {
    Shifted(Power(256, n), Padding(n), 0)
  }

  lemma SamePadding(n: nat)
    ensures Padding(3 + n) == Padding(n)
  {
  }

  /** A whole group in front of the rest. */
  lemma GroupAnd(q: string, e: string, first: seq<Byte>, rest: seq<Byte>)
    requires IsSpelling(q) && IsSpelling(e) && |e| == (4 * |rest| + 2) / 3 && |first| == 3
    requires NumberOf(q) == BigEndian(first) && NumberOf(e) == Shifted(BigEndian(rest), Padding(|rest|), 0)
    ensures NumberOf(q + e) == Shifted(BigEndian(first + rest), Padding(|first + rest|), 0)
  {
    NumberAcross(q, e);
    PowersAgree(|rest|);
    BigEndianAcross(first, rest);
    SamePadding(|rest|);
    FilledUp(NumberOf(q + e), BigEndian(first + rest), BigEndian(first), Power(256, |rest|), BigEndian(rest), Padding(|rest|));
  }

  lemma EncodeOfTwo(a: Byte, b: Byte)
    ensures NumberOf(Encode([a, b])) == BigEndian([a, b]) * 4
  {
    var s := Encode([a, b]);
    NumberOfThree(s[0], s[1], s[2]);
    assert [a, b][..1] == [a] && [a][..0] == [];
    assert BigEndian([a]) == a;
  }

  lemma EncodeOfOne(a: Byte)
    ensures NumberOf(Encode([a])) == BigEndian([a]) * 16
  {
    var s := Encode([a]);
    NumberOfTwo(s[0], s[1]);
    assert [a][..0] == [];
  }

  lemma FilledUp(number: nat, value: nat, high: nat, power: nat, low: nat, padding: nat)
    requires value == Shifted(high, power, low) && number == Shifted(high, Shifted(power, padding, 0), Shifted(low, padding, 0))
    ensures number == Shifted(value, padding, 0)
  {
    assert high * (power * padding) == (high * power) * padding;
    assert (high * power + low) * padding == (high * power) * padding + low * padding;
  }
}
