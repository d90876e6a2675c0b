/** The two pieces of foreign cryptography the handlers call: PHP's
    `password_hash`/`password_verify` (bcrypt) and Firebase JWT's HS256
    `encode`/`decode`. Neither is implemented here; each is reduced to the
    properties the handlers rely on. */
module Crypto {
  import opened Php

  /** The UTF-8 encoding of one character, as the bytes of a PHP string hold it. */
  function Utf8(c: char): (b: seq<int>)
    ensures 1 <= |b| <= 4
  {
    var n := c as int;
    if n < 0x80 then [n]
    else if n < 0x800 then [0xC0 + n / 0x40, 0x80 + n % 0x40]
    else if n < 0x10000 then [0xE0 + n / 0x1000, 0x80 + n / 0x40 % 0x40, 0x80 + n % 0x40]
    else [0xF0 + n / 0x40000, 0x80 + n / 0x1000 % 0x40, 0x80 + n / 0x40 % 0x40, 0x80 + n % 0x40]
  }

  /** The bytes of a string. */
  function Bytes(s: string): (b: seq<int>)
    ensures |s| <= |b|
  {
    if s == [] then [] else Utf8(s[0]) + Bytes(s[1..])
  }

  /** bcrypt reads at most this many bytes of a password. */
  const BcryptLimit := 72

  /** The part of a password bcrypt hashes: its first 72 bytes. */
  function BcryptKey(password: string): (k: seq<int>)
    ensures |k| <= BcryptLimit
    ensures k <= Bytes(password)
  {
    var b := Bytes(password);
    if |b| <= BcryptLimit then b else b[..BcryptLimit]
  }

  /** A stored bcrypt digest. `password_hash` draws a fresh random salt, which
      the model takes as a parameter; only `PasswordVerify` looks inside. */
  datatype Digest = Bcrypt(salt: nat, key: seq<int>)

  /** `password_hash($password, PASSWORD_DEFAULT)` */
  function PasswordHash(password: string, salt: nat): (d: Digest)
    ensures PasswordVerify(password, d)
    ensures forall other :: PasswordVerify(other, d) <==> BcryptKey(other) == BcryptKey(password)
  {
    Bcrypt(salt, BcryptKey(password))
  }

  /** `password_verify($password, $digest)` */
  predicate PasswordVerify(password: string, d: Digest) {
    BcryptKey(password) == d.key
  }

  /** The lead byte of a character's encoding gives its length. */
  lemma Utf8Lead(c: char, d: char)
    requires Utf8(c)[0] == Utf8(d)[0]
    ensures |Utf8(c)| == |Utf8(d)|
  {
  }

  /** Reading a character's code point back from its encoding. */
  function Utf8Decode(b: seq<int>): int
    requires 1 <= |b| <= 4
  {
    if |b| == 1 then b[0]
    else if |b| == 2 then (b[0] - 0xC0) * 0x40 + (b[1] - 0x80)
    else if |b| == 3 then ((b[0] - 0xE0) * 0x40 + (b[1] - 0x80)) * 0x40 + (b[2] - 0x80)
    else (((b[0] - 0xF0) * 0x40 + (b[1] - 0x80)) * 0x40 + (b[2] - 0x80)) * 0x40 + (b[3] - 0x80)
  }

  lemma SixBits(x: int)
    requires 0 <= x
    ensures x == x / 0x40 * 0x40 + x % 0x40
    ensures x / 0x40 / 0x40 == x / 0x1000 && x / 0x1000 / 0x40 == x / 0x40000
  {
  }

  /** Decoding undoes the encoding. */
  lemma Utf8RoundTrip(c: char)
    ensures Utf8Decode(Utf8(c)) == c as int
  {
    var n := c as int;
    SixBits(n);
    SixBits(n / 0x40);
    SixBits(n / 0x1000);
  }

  /** Different characters have different encodings. */
  lemma Utf8Injective(c: char, d: char)
    requires Utf8(c) == Utf8(d)
    ensures c == d
  {
    Utf8RoundTrip(c);
    Utf8RoundTrip(d);
  }

  /** Different strings have different bytes. */
  lemma {:induction false} BytesInjective(s: string, t: string)
    requires Bytes(s) == Bytes(t)
    ensures s == t
  {
    if s != [] && t != [] {
      var bs, bt := Bytes(s), Bytes(t);
      assert bs[0] == Utf8(s[0])[0] && bt[0] == Utf8(t[0])[0];
      Utf8Lead(s[0], t[0]);
      var k := |Utf8(s[0])|;
      assert Utf8(s[0]) == bs[..k] && Utf8(t[0]) == bt[..k];
      Utf8Injective(s[0], t[0]);
      assert Bytes(s[1..]) == bs[k..] && Bytes(t[1..]) == bt[k..];
      BytesInjective(s[1..], t[1..]);
      assert s == [s[0]] + s[1..] && t == [t[0]] + t[1..];
    }
  }

  /** The bytes of a concatenation. */
  lemma {:induction false} BytesAppend(s: string, t: string)
    ensures Bytes(s + t) == Bytes(s) + Bytes(t)
  {
    if s != [] {
      assert (s + t)[0] == s[0] && (s + t)[1..] == s[1..] + t;
      BytesAppend(s[1..], t);
    } else {
      assert s + t == t;
    }
  }

  /** Within bcrypt's limit a digest verifies its own password and no other. */
  lemma ShortPasswordsExact(password: string, other: string, salt: nat)
    requires |Bytes(password)| <= BcryptLimit && |Bytes(other)| <= BcryptLimit
    ensures PasswordVerify(other, PasswordHash(password, salt)) <==> other == password
  {
    if PasswordVerify(other, PasswordHash(password, salt)) {
      BytesInjective(other, password);
    }
  }

  /** Past bcrypt's limit the rest of a password is ignored: anything
      appended to a password of 72 bytes or more verifies against its digest. */
  lemma LongPasswordTailIgnored(password: string, tail: string, salt: nat)
    requires |Bytes(password)| >= BcryptLimit
    ensures PasswordVerify(password + tail, PasswordHash(password, salt))
  {
    BytesAppend(password, tail);
    assert (Bytes(password) + Bytes(tail))[..BcryptLimit] == Bytes(password)[..BcryptLimit];
  }

  /** The claims UserLogin signs and the gate hands to handlers as the `jwt`
      request attribute. A `user_id` of 0 stands for a claim that PHP's
      `empty()` rejects (missing, 0 or "0"). */
  datatype Claims = Claims(
    exp: int,
    userId: int,
    username: string,
    email: string,
    isAdmin: int,
    lastLogin: Option<string>)

  datatype Result<+T, +E> = Ok(value: T) | Err(error: E)

  /** Firebase JWT with algorithm HS256: `encode(claims, key)` gives the compact
      token, `decode(token, key, now)` checks signature and expiry at time `now`
      (epoch seconds) and gives the claims or the exception message. */
  datatype JwtCodec = JwtCodec(
    encode: (Claims, string) -> string,
    decode: (string, string, int) -> Result<Claims, string>)

  /** What the handlers assume of HS256 signing (RFC 7519 with an RFC 7515 HMAC
      SHA-256 signature): a token signed with a key decodes under that key to
      its claims until `exp` and fails from then on; whatever decodes has not
      expired; and a compact token holds no space. A token that decodes need
      not be the very string `encode` produced: the library's lenient base64
      reading skips characters outside the alphabet and ignores the unused
      low bits of the signature's last character, so one signed token has
      many spellings. */
  ghost predicate Hs256(codec: JwtCodec) {
    && (forall c: Claims, key: string, now: int ::
          now < c.exp ==> codec.decode(codec.encode(c, key), key, now) == Ok(c))
    && (forall c: Claims, key: string, now: int ::
          now >= c.exp ==> codec.decode(codec.encode(c, key), key, now).Err?)
    && (forall token: string, key: string, now: int ::
          codec.decode(token, key, now).Ok? ==> now < codec.decode(token, key, now).value.exp)
    && (forall c: Claims, key: string :: ' ' !in codec.encode(c, key))
  }

  /** `!$jwt || empty($jwt->user_id)`: the request carries no decoded token, or
      one without a user id. */
  predicate Anonymous(jwt: Option<Claims>) {
    jwt.None? || jwt.value.userId == 0
  }
}
