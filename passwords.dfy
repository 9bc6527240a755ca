/** Password hashing with `bcrypt` (server.js) and `bcryptjs` (backend/server.js), treated as
    an ideal salted hash, modelled by the bytes bcrypt keys on: the first 72 bytes of the
    password's UTF-8 encoding. The handlers only ever store a `Digest` and only ever test
    one with `Matches`. */
module Passwords {

  newtype byte = b: int | 0 <= b < 256

  /** The number of password bytes bcrypt feeds into its key schedule. */
  const KeyBytes := 72

  /** The UTF-8 encoding of one character. */
  function Utf8Char(c: char): (bs: seq<byte>)
    ensures 1 <= |bs| <= 4
    ensures |bs| == LeadLength(bs[0])
  {
    var n := c as int;
    if n < 0x80 then [n as byte]
    else if n < 0x800 then [(0xC0 + n / 64) as byte, (0x80 + n % 64) as byte]
    else if n < 0x10000 then [(0xE0 + n / 4096) as byte, (0x80 + n / 64 % 64) as byte, (0x80 + n % 64) as byte]
    else [(0xF0 + n / 262144) as byte, (0x80 + n / 4096 % 64) as byte, (0x80 + n / 64 % 64) as byte, (0x80 + n % 64) as byte]
  }

  /** How many bytes a character's encoding has, read off its first byte. */
  function LeadLength(b: byte): nat {
    if b < 0x80 then 1 else if b < 0xE0 then 2 else if b < 0xF0 then 3 else 4
  }

  /** The code point a character's encoding stands for (the UTF-8 decoder). */
  function DecodeChar(bs: seq<byte>): int
    requires 1 <= |bs| <= 4
  {
    if |bs| == 1 then bs[0] as int
    else if |bs| == 2 then (bs[0] as int - 0xC0) * 64 + (bs[1] as int - 0x80)
    else if |bs| == 3 then (bs[0] as int - 0xE0) * 4096 + (bs[1] as int - 0x80) * 64 + (bs[2] as int - 0x80)
    else (bs[0] as int - 0xF0) * 262144 + (bs[1] as int - 0x80) * 4096 + (bs[2] as int - 0x80) * 64 + (bs[3] as int - 0x80)
  }

  /** The UTF-8 encoding of a string. */
  function Utf8(s: string): seq<byte> {
    if s == [] then [] else Utf8Char(s[0]) + Utf8(s[1..])
  }

  /** The bytes bcrypt keys on: the encoding cut to its first 72 bytes. */
  function Key(password: string): (k: seq<byte>)
    ensures |k| == if |Utf8(password)| <= KeyBytes then |Utf8(password)| else KeyBytes
    ensures k == Utf8(password)[..|k|]
  {
    var b := Utf8(password);
    if |b| <= KeyBytes then b else b[..KeyBytes]
  }

  /** What `bcrypt.hash` produces. The salt comes from the caller, standing for the
      randomness `bcrypt` draws; `image` is the key itself, standing for its ideal hash. */
  datatype Digest = Digest(salt: nat, image: seq<byte>)

  /** `bcrypt.hash(password, 10)` with the given salt. A password of at most 72 bytes is
      matched by itself and by no other password of at most 72 bytes. */
  function Hash(password: string, salt: nat): (d: Digest)
    ensures Matches(password, d)
    ensures |Utf8(password)| <= KeyBytes ==>
      forall other :: |Utf8(other)| <= KeyBytes ==> (Matches(other, d) <==> other == password)
  {
    forall other | |Utf8(other)| <= KeyBytes && |Utf8(password)| <= KeyBytes && Key(other) == Key(password)
      ensures other == password
    {
      Utf8Injective(other, password);
    }
    Digest(salt, Key(password))
  }

  /** `bcrypt.compare(candidate, d)` */
  predicate Matches(candidate: string, d: Digest) {
    Key(candidate) == d.image
  }

  /** The decoder reads back the code point of every character. */
  lemma DecodeUtf8Char(c: char)
    ensures DecodeChar(Utf8Char(c)) == c as int
  {
    var n := c as int;
    if n < 0x80 {
    } else if n < 0x800 {
      DecodeTwo(c);
    } else if n < 0x10000 {
      DecodeThree(c);
    } else {
      DecodeFour(c);
    }
  }

  lemma DecodeTwo(c: char)
    requires 0x80 <= c as int < 0x800
    ensures DecodeChar(Utf8Char(c)) == c as int
  {
    var n := c as int;
    Digits64(n);
    assert DecodeChar(Utf8Char(c)) == (n / 64) * 64 + n % 64;
  }

  lemma DecodeThree(c: char)
    requires 0x800 <= c as int < 0x10000
    ensures DecodeChar(Utf8Char(c)) == c as int
  {
    var n := c as int;
    Digits64(n);
    Digits64(n / 64);
    assert n / 4096 == n / 64 / 64;
    assert DecodeChar(Utf8Char(c)) == (n / 64 / 64) * 4096 + (n / 64 % 64) * 64 + n % 64;
  }

  lemma DecodeFour(c: char)
    requires 0x10000 <= c as int
    ensures DecodeChar(Utf8Char(c)) == c as int
  {
    var n := c as int;
    Digits64(n);
    Digits64(n / 64);
    Digits64(n / 64 / 64);
    assert n / 4096 == n / 64 / 64;
    assert n / 262144 == n / 64 / 64 / 64;
    assert DecodeChar(Utf8Char(c)) == (n / 64 / 64 / 64) * 262144 + (n / 64 / 64 % 64) * 4096 + (n / 64 % 64) * 64 + n % 64;
  }

  /** Splitting off the last base-64 digit. */
  lemma Digits64(n: int)
    requires n >= 0
    ensures n == (n / 64) * 64 + n % 64 && 0 <= n % 64 < 64
  {
  }

  /** The encoding of a string starts with the encoding of its first character. */
  lemma Utf8Head(s: string)
    requires s != []
    ensures |Utf8(s)| >= |Utf8Char(s[0])| && Utf8(s)[..|Utf8Char(s[0])|] == Utf8Char(s[0])
    ensures Utf8(s)[|Utf8Char(s[0])|..] == Utf8(s[1..])
  {
    var h := Utf8Char(s[0]);
    assert Utf8(s) == h + Utf8(s[1..]);
  }

  /** Different strings have different encodings. */
  lemma {:induction false} Utf8Injective(a: string, b: string)
    requires Utf8(a) == Utf8(b)
    ensures a == b
  {
    if a != [] && b != [] {
      Utf8Head(a);
      Utf8Head(b);
      var ha, hb := Utf8Char(a[0]), Utf8Char(b[0]);
      assert |ha| == LeadLength(Utf8(a)[0]) == |hb|;
      assert ha == hb;
      DecodeUtf8Char(a[0]);
      DecodeUtf8Char(b[0]);
      assert a[0] == b[0];
      Utf8Injective(a[1..], b[1..]);
      assert a == [a[0]] + a[1..] && b == [b[0]] + b[1..];
    }
  }

  /** The encoding of a concatenation is the concatenation of the encodings. */
  lemma {:induction false} Utf8Append(a: string, b: string)
    ensures Utf8(a + b) == Utf8(a) + Utf8(b)
  {
    if a != [] {
      assert (a + b)[1..] == a[1..] + b;
      Utf8Append(a[1..], b);
    } else {
      assert a + b == b;
    }
  }

  /** Bytes past the 72nd are ignored: a password of exactly 72 bytes matches the digest of
      every password that extends it. */
  lemma TailIgnored(password: string, extra: string, salt: nat)
    requires |Utf8(password)| == KeyBytes
    ensures Matches(password, Hash(password + extra, salt))
  {
    Utf8Append(password, extra);
    assert Utf8(password + extra)[..KeyBytes] == Utf8(password);
  }
}
