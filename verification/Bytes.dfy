/** Bytes, MAC addresses and the two result types shared by every module. */
module Bytes {

  type byte = b: int | 0 <= b < 256

  datatype Option<+T> = None | Some(value: T)

  datatype Result<+T> = Ok(value: T) | Err(error: string)

  lemma Regroup<T>(xs: seq<T>, ys: seq<T>, zs: seq<T>)
    ensures xs + (ys + zs) == xs + ys + zs
  {}

  ghost predicate Distinct<T>(xs: seq<T>) {
    forall i, j :: 0 <= i < j < |xs| ==> xs[i] != xs[j]
  }

  /** A character in UTF-8. */
  function Utf8Char(c: char): seq<byte> {
    var n := c as int;
    if n < 0x80 then [n]
    else if n < 0x800 then [0xC0 + n / 0x40, 0x80 + n % 0x40]
    else if n < 0x1_0000 then [0xE0 + n / 0x1000, 0x80 + n / 0x40 % 0x40, 0x80 + n % 0x40]
    else [0xF0 + n / 0x4_0000, 0x80 + n / 0x1000 % 0x40, 0x80 + n / 0x40 % 0x40, 0x80 + n % 0x40]
  }

  /** The bytes of a text. */
  function Utf8(s: string): seq<byte> {
    if s == "" then [] else Utf8Char(s[0]) + Utf8(s[1..])
  }

  lemma {:induction false} Utf8Join(a: string, b: string)
    ensures Utf8(a + b) == Utf8(a) + Utf8(b)
    decreases |a|
  {
    if a == "" {
      assert a + b == b;
    } else {
      assert (a + b)[0] == a[0] && (a + b)[1..] == a[1..] + b;
      Utf8Join(a[1..], b);
      Regroup(Utf8Char(a[0]), Utf8(a[1..]), Utf8(b));
    }
  }

  /** A hardware address; the missing address has no bytes. The program keys its maps by the
      printed form of the address; `MacTextInjective` shows that keying them by the address
      itself is the same thing. */
  datatype Mac = Mac(bytes: seq<byte>)

  function HexDigit(n: int): char
    requires 0 <= n < 16
  {
    if n < 10 then '0' + n as char else 'a' + (n - 10) as char
  }

  function Hex(bytes: seq<byte>): string {
    if bytes == [] then ""
    else
      [HexDigit(bytes[0] / 16), HexDigit(bytes[0] % 16)] + (if |bytes| == 1 then "" else ":" + Hex(bytes[1..]))
  }

  /** The usual colon-separated lower-case form; the missing address prints as "". */
  function MacText(m: Mac): string { Hex(m.bytes) }

  /** Two lower-case digits for each byte, the high half first, and a colon between bytes. */
  lemma {:induction false} HexAt(bytes: seq<byte>, i: nat)
    requires i < |bytes|
    ensures var t := Hex(bytes);
      && |t| == 3 * |bytes| - 1
      && t[3 * i] == "0123456789abcdef"[bytes[i] / 16] && t[3 * i + 1] == "0123456789abcdef"[bytes[i] % 16]
      && (i + 1 < |bytes| ==> t[3 * i + 2] == ':')
    decreases |bytes|
  {
    DigitIs(bytes[i] / 16);
    DigitIs(bytes[i] % 16);
    if |bytes| > 1 {
      HexAt(bytes[1..], if i > 0 then i - 1 else 0);
      HexCons(bytes, i);
    }
  }

  lemma HexCons(bytes: seq<byte>, i: nat)
    requires i < |bytes| && |bytes| > 1 && |Hex(bytes[1..])| == 3 * (|bytes| - 1) - 1
    ensures |Hex(bytes)| == 3 * |bytes| - 1 && Hex(bytes)[2] == ':'
    ensures i > 0 ==> forall k :: 3 * i <= k < |Hex(bytes)| ==> Hex(bytes)[k] == Hex(bytes[1..])[k - 3]
  {
    var head := [HexDigit(bytes[0] / 16), HexDigit(bytes[0] % 16)] + ":";
    assert Hex(bytes) == head + Hex(bytes[1..]) && |head| == 3;
  }

  lemma DigitIs(n: nat)
    requires n < 16
    ensures HexDigit(n) == "0123456789abcdef"[n]
  {}

  lemma {:induction false} HexInjective(a: seq<byte>, b: seq<byte>)
    requires Hex(a) == Hex(b)
    ensures a == b
  {
    if a != [] && b != [] {
      var s, t := Hex(a), Hex(b);
      assert s[0] == t[0] && s[1] == t[1];
      assert a[0] / 16 == b[0] / 16 && a[0] % 16 == b[0] % 16;
      if |a| > 1 {
        assert |s| > 2;
        assert |b| > 1;
        assert s[3..] == Hex(a[1..]);
        assert t[3..] == Hex(b[1..]);
        HexInjective(a[1..], b[1..]);
        assert a == [a[0]] + a[1..] && b == [b[0]] + b[1..];
      } else {
        assert |s| == 2;
      }
    }
  }

  /** Two addresses that print alike are the same address. */
  lemma MacTextInjective(a: Mac, b: Mac)
    requires MacText(a) == MacText(b)
    ensures a == b
  {
    HexInjective(a.bytes, b.bytes);
  }
}
