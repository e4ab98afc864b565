/**
 * Password hashing and verification (`hash_password`, `verify_password`).
 * PBKDF2-HMAC-SHA256 is not modelled: it is the deterministic, otherwise
 * unknown function `kdf` from the password and the salt to the derived key
 * bytes. The random source `secrets.token_hex(32)` is replaced by its 32
 * random bytes, passed in by the caller.
 */
module Security {

  newtype byte = b: int | 0 <= b < 256

  /** Length of a PBKDF2-HMAC-SHA256 key at its default length: one SHA-256 digest. */
  const KeyBytes := 32

  /** A derived key. */
  type Key = k: seq<byte> | |k| == KeyBytes witness seq(KeyBytes, _ => 0)

  /** The key-derivation function, over the password and the salt text. */
  type Kdf = (string, string) -> Key

  /** Number of random bytes behind every salt. */
  const SaltBytes := 32

  predicate IsHexDigit(c: char) {
    '0' <= c <= '9' || 'a' <= c <= 'f'
  }

  predicate IsHex(s: string) {
    forall k :: 0 <= k < |s| ==> IsHexDigit(s[k])
  }

  function HexDigit(n: int): (c: char)
    requires 0 <= n < 16
    ensures IsHexDigit(c)
  {
    if n < 10 then ('0' as int + n) as char else ('a' as int + n - 10) as char
  }

  /** Python's `bytes.hex()`: two lower-case hexadecimal digits per byte. */
  function Hex(bytes: seq<byte>): (r: string)
    ensures |r| == 2 * |bytes|
    ensures IsHex(r)
  {
    if bytes == [] then []
    else [HexDigit(bytes[0] as int / 16), HexDigit(bytes[0] as int % 16)] + Hex(bytes[1..])
  }

  /** Different byte strings have different hex encodings. */
  lemma {:induction false} HexInjective(a: seq<byte>, b: seq<byte>)
    requires Hex(a) == Hex(b)
    ensures a == b
  {
    if a != [] {
      var ha, hb := Hex(a), Hex(b);
      assert ha[0] == hb[0] && ha[1] == hb[1];
      assert a[0] == b[0];
      assert ha[2..] == Hex(a[1..]) && hb[2..] == Hex(b[1..]);
      HexInjective(a[1..], b[1..]);
      assert a == [a[0]] + a[1..] && b == [b[0]] + b[1..];
    }
  }

  /**
   * `hash_password`: returns the pair (hash, salt), the salt being the hex
   * text of the random token and the hash the hex text of the derived key.
   * The pair it returns always passes `VerifyPassword` with the same password.
   */
  function HashPassword(kdf: Kdf, password: string, token: seq<byte>): (r: (string, string))
    requires |token| == SaltBytes
    ensures VerifyPassword(kdf, password, r.0, r.1)
    ensures IsHex(r.0) && |r.0| == 2 * KeyBytes
    ensures IsHex(r.1) && |r.1| == 2 * SaltBytes
  {
    var salt := Hex(token);
    (Hex(kdf(password, salt)), salt)
  }

  /**
   * `verify_password`: rederive the key with the stored salt and compare hex
   * texts. Only a 64-digit lower-case hex text can pass.
   */
  predicate VerifyPassword(kdf: Kdf, password: string, storedHash: string, salt: string): (ok: bool)
    ensures ok ==> IsHex(storedHash) && |storedHash| == 2 * KeyBytes
  {
    Hex(kdf(password, salt)) == storedHash
  }

  /**
   * A password accepted against a stored pair derives, under that salt, the
   * same key as the password the pair was made from; so a password whose
   * key differs is always rejected.
   */
  lemma VerifyOnlyMatchingKey(kdf: Kdf, password: string, other: string, token: seq<byte>)
    requires |token| == SaltBytes
    ensures var (hash, salt) := HashPassword(kdf, password, token);
      VerifyPassword(kdf, other, hash, salt) <==> kdf(other, salt) == kdf(password, salt)
  {
    var salt := Hex(token);
    if Hex(kdf(other, salt)) == Hex(kdf(password, salt)) {
      HexInjective(kdf(other, salt), kdf(password, salt));
    }
  }

  /** Two registrations drawing different random tokens store different salts. */
  lemma DistinctTokensDistinctSalts(kdf: Kdf, p1: string, p2: string, t1: seq<byte>, t2: seq<byte>)
    requires |t1| == SaltBytes && |t2| == SaltBytes && t1 != t2
    ensures HashPassword(kdf, p1, t1).1 != HashPassword(kdf, p2, t2).1
  {
    if Hex(t1) == Hex(t2) {
      HexInjective(t1, t2);
    }
  }
}
