/** UTF-8 as section 3 of RFC 3629 has it: what Go's strings are made of, and its strict check. */
module Utf8 {
  import opened Options
  import opened Coding

  type Byte = b: int | 0 <= b < 256

  /** A scalar value's bytes. */
  function Bytes(c: char): seq<Byte> {
    var n := c as int;
    if n < 0x80 then [n]
    else if n < 0x800 then [(0xC0 + n / 64), (0x80 + n % 64)]
    else if n < 0x10000 then [(0xE0 + n / 4096), (0x80 + n / 64 % 64), (0x80 + n % 64)]
    else [(0xF0 + n / 262144), (0x80 + n / 4096 % 64), (0x80 + n / 64 % 64), (0x80 + n % 64)]
  }

  predicate Tail(b: Byte) {
    0x80 <= b < 0xC0
  }

  /** The first scalar value of some bytes: no overlong form, no surrogate, nothing past U+10FFFF,
      and nothing cut short. */
  function TakeChar(s: seq<Byte>): Option<Taken<char>> {
    if |s| == 0 then None
    else
      var a: int := s[0];
      if a < 0x80 then Some(Taken(a as char, 1))
      else if a < 0xC2 || 0xF4 < a || |s| < 2 || !Tail(s[1]) then None
      else
        var b: int := s[1];
        if a < 0xE0 then Some(Taken(((a - 0xC0) * 64 + (b - 0x80)) as char, 2))
        else if |s| < 3 || !Tail(s[2]) then None
        else
          var c: int := s[2];
          if a < 0xF0 then
            if (a == 0xE0 && b < 0xA0) || (a == 0xED && 0x9F < b) then None
            else Some(Taken(((a - 0xE0) * 4096 + (b - 0x80) * 64 + (c - 0x80)) as char, 3))
          else if |s| < 4 || !Tail(s[3]) || (a == 0xF0 && b < 0x90) || (a == 0xF4 && 0x8F < b) then None
          else Some(Taken(((a - 0xF0) * 262144 + (b - 0x80) * 4096 + (c - 0x80) * 64 + (s[3] as int - 0x80)) as char, 4))
  }

  lemma TakeBytes(c: char, rest: seq<Byte>)
    ensures Bytes(c) != [] && TakeChar(Bytes(c) + rest) == Some(Taken(c, |Bytes(c)|))
  {
    var n, s := c as int, Bytes(c) + rest;
    if n < 0x80 {
      assert s[0] == n;
    } else if n < 0x800 {
      assert s[0] == 0xC0 + n / 64 && s[1] == 0x80 + n % 64;
    } else if n < 0x10000 {
      assert s[0] == 0xE0 + n / 4096 && s[1] == 0x80 + n / 64 % 64 && s[2] == 0x80 + n % 64;
      Split3(n);
    } else {
      assert s[0] == 0xF0 + n / 262144 && s[1] == 0x80 + n / 4096 % 64;
      assert s[2] == 0x80 + n / 64 % 64 && s[3] == 0x80 + n % 64;
      Split4(n);
    }
  }

  lemma Whole64(n: int, q: int, r: int)
    requires q == n / 64 && r == n % 64
    ensures n == q * 64 + r
  {
  }

  lemma Split3(n: int)
    ensures n / 4096 * 4096 + n / 64 % 64 * 64 + n % 64 == n
  {
    DivTwice(n);
    Whole64(n, n / 64, n % 64);
    Whole64(n / 64, n / 4096, n / 64 % 64);
  }

  lemma Split4(n: int)
    ensures n / 262144 * 262144 + n / 4096 % 64 * 4096 + n / 64 % 64 * 64 + n % 64 == n
  {
    DivTwice(n);
    Whole64(n, n / 64, n % 64);
    Whole64(n / 64, n / 4096, n / 64 % 64);
    Whole64(n / 4096, n / 262144, n / 4096 % 64);
  }

  lemma Join2(a: int, b: int)
    requires 0 <= b < 64
    ensures (a * 64 + b) / 64 == a && (a * 64 + b) % 64 == b
  {
  }

  lemma DivTwice(n: int)
    ensures n / 4096 == n / 64 / 64 && n / 262144 == n / 64 / 64 / 64
  {
  }

  lemma Join3(a: int, b: int, c: int)
    requires 0 <= b < 64 && 0 <= c < 64
    ensures var n := a * 4096 + b * 64 + c; n / 4096 == a && n / 64 % 64 == b && n % 64 == c
  {
    Join2(a * 64 + b, c);
    Join2(a, b);
    DivTwice(a * 4096 + b * 64 + c);
  }

  lemma Join4(a: int, b: int, c: int, d: int)
    requires 0 <= b < 64 && 0 <= c < 64 && 0 <= d < 64
    ensures var n := a * 262144 + b * 4096 + c * 64 + d; n / 262144 == a && n / 4096 % 64 == b && n / 64 % 64 == c && n % 64 == d
  {
    Join2((a * 64 + b) * 64 + c, d);
    Join2(a * 64 + b, c);
    Join2(a, b);
    DivTwice(a * 262144 + b * 4096 + c * 64 + d);
  }

  lemma BytesTwo(a: int, b: int)
    requires 0xC2 <= a < 0xE0 && 0x80 <= b < 0xC0
    ensures var n := (a - 0xC0) * 64 + (b - 0x80); 0x80 <= n < 0x800 && 0xC0 + n / 64 == a && 0x80 + n % 64 == b
  {
    Join2(a - 0xC0, b - 0x80);
  }

  lemma BytesThree(a: int, b: int, c: int)
    requires 0xE0 <= a < 0xF0 && 0x80 <= b < 0xC0 && 0x80 <= c < 0xC0
    requires !(a == 0xE0 && b < 0xA0) && !(a == 0xED && 0x9F < b)
    ensures var n := (a - 0xE0) * 4096 + (b - 0x80) * 64 + (c - 0x80);
            0x800 <= n < 0x10000 && !(0xD800 <= n < 0xE000)
            && 0xE0 + n / 4096 == a && 0x80 + n / 64 % 64 == b && 0x80 + n % 64 == c
  {
    Join3(a - 0xE0, b - 0x80, c - 0x80);
  }

  lemma BytesFour(a: int, b: int, c: int, d: int)
    requires 0xF0 <= a <= 0xF4 && 0x80 <= b < 0xC0 && 0x80 <= c < 0xC0 && 0x80 <= d < 0xC0
    requires !(a == 0xF0 && b < 0x90) && !(a == 0xF4 && 0x8F < b)
    ensures var n := (a - 0xF0) * 262144 + (b - 0x80) * 4096 + (c - 0x80) * 64 + (d - 0x80);
            0x10000 <= n < 0x110000
            && 0xF0 + n / 262144 == a && 0x80 + n / 4096 % 64 == b && 0x80 + n / 64 % 64 == c && 0x80 + n % 64 == d
  {
    Join4(a - 0xF0, b - 0x80, c - 0x80, d - 0x80);
  }

  lemma BytesTaken(s: seq<Byte>)
    requires TakeChar(s).Some?
    ensures var t := TakeChar(s).value; 0 < t.size <= |s| && s[..t.size] == Bytes(t.item)
  {
    var a := s[0];
    if 0x80 <= a < 0xE0 {
      BytesTwo(a, s[1]);
    } else if 0xE0 <= a < 0xF0 {
      BytesThree(a, s[1], s[2]);
    } else if 0xF0 <= a {
      BytesFour(a, s[1], s[2], s[3]);
    }
  }

  function Encoding(s: string): seq<Byte> {
    Encoded(Bytes, s)
  }

  /** The bytes of a text and no others read back, as that text. */
  function Decoding(b: seq<Byte>): Option<string> {
    Decoded(TakeChar, b)
  }

  lemma DecodingIs(b: seq<Byte>, s: string)
    ensures Decoding(b) == Some(s) <==> Encoding(s) == b
  {
    assert TakesBack(Bytes, TakeChar) by {
      forall c: char, rest: seq<Byte> ensures Bytes(c) != [] && TakeChar(Bytes(c) + rest) == Some(Taken(c, |Bytes(c)|)) { TakeBytes(c, rest); }
    }
    assert TakesOnly(Bytes, TakeChar) by {
      forall t: seq<Byte> | TakeChar(t).Some? && 0 < TakeChar(t).value.size <= |t|
        ensures t[..TakeChar(t).value.size] == Bytes(TakeChar(t).value.item)
      {
        BytesTaken(t);
      }
    }
    DecodedEncoded(Bytes, TakeChar, s);
    EncodedDecoded(Bytes, TakeChar, b);
  }
}
