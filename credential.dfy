/** The administrator credential: `salt_hex + "$" + key_hex`, where the key is
    PBKDF2-HMAC-SHA256 of the password under a fresh 32-byte salt. */
module Credential {
  import opened Results
  import opened Hex

  const HashAlgorithm: string := "sha256"
  const HashIterations: nat := 600000
  const SaltLength: nat := 32
  const Separator: char := '$'

  /** `hashlib.pbkdf2_hmac(algorithm, password.encode("utf-8"), salt, iterations)`,
      taken as a parameter: a Dafny function value is deterministic, which is all the
      model assumes of it. */
  type Kdf = (string, string, seq<byte>, nat) -> seq<byte>

  function DerivedKey(kdf: Kdf, password: string, salt: seq<byte>): seq<byte> {
    kdf(HashAlgorithm, password, salt, HashIterations)
  }

  /** Joins parts with the separator in between, as `sep.join(parts)` does. */
  function Join(parts: seq<string>, sep: char): string
    requires |parts| >= 1
  {
    if |parts| == 1 then parts[0] else parts[0] + [sep] + Join(parts[1..], sep)
  }

  /** `s.split(sep)`: the maximal separator-free pieces, one more than there are separators. */
  function Split(s: string, sep: char): (parts: seq<string>)
    ensures |parts| >= 1
    ensures forall p :: p in parts ==> sep !in p
    ensures Join(parts, sep) == s
  {
    if s == [] then [[]]
    else
      var rest := Split(s[1..], sep);
      if s[0] == sep then [[]] + rest
      else
        assert Join(rest, sep) == s[1..];
        var parts := [[s[0]] + rest[0]] + rest[1..];
        assert parts[1..] == rest[1..];
        assert forall p :: p in parts ==> p == parts[0] || p in rest;
        parts
  }

  /** A string without the separator is a single piece. */
  lemma {:induction false} SplitWithoutSeparator(s: string, sep: char)
    requires sep !in s
    ensures Split(s, sep) == [s]
  {
    if s != [] {
      SplitWithoutSeparator(s[1..], sep);
      assert [s[0]] + s[1..] == s;
    }
  }

  /** A string with exactly one separator splits into the text before and after it. */
  lemma {:induction false} SplitAroundSeparator(a: string, b: string, sep: char)
    requires sep !in a && sep !in b
    ensures Split(a + [sep] + b, sep) == [a, b]
  {
    if a == [] {
      assert a + [sep] + b == [sep] + b;
      assert ([sep] + b)[1..] == b;
      SplitWithoutSeparator(b, sep);
    } else {
      var s := a + [sep] + b;
      assert s[0] == a[0] && s[1..] == a[1..] + [sep] + b;
      SplitAroundSeparator(a[1..], b, sep);
      assert [a[0]] + a[1..] == a;
    }
  }

  /** The string `update_admin_password` stores for `password` under `salt`. */
  function Stored(kdf: Kdf, password: string, salt: seq<byte>): (r: string)
    ensures Split(r, Separator) == [ToHex(salt), ToHex(DerivedKey(kdf, password, salt))]
  {
    SplitAroundSeparator(ToHex(salt), ToHex(DerivedKey(kdf, password, salt)), Separator);
    ToHex(salt) + [Separator] + ToHex(DerivedKey(kdf, password, salt))
  }

  /** `verify_password` on the stored string `stored`: false for an empty string or one
      without '$'; a `ValueError` where Python's two-way unpacking of the split or
      `bytes.fromhex` raises; otherwise whether the key derived from `password` under
      the stored salt equals the stored key. */
  function Verify(kdf: Kdf, stored: string, password: string): (r: Result<bool>)
    ensures stored == [] || Separator !in stored ==> r == Ok(false)
    ensures Separator in stored && |Split(stored, Separator)| != 2 ==> r == Err(ValueError(MalformedCredential))
    ensures (Separator in stored && |Split(stored, Separator)| == 2 &&
      (FromHex(Split(stored, Separator)[0]).None? || FromHex(Split(stored, Separator)[1]).None?)) ==>
      r == Err(ValueError(NonHexadecimal))
    ensures r.Err? ==> r.error.ValueError?
  {
    if stored == [] || Separator !in stored then Ok(false)
    else
      var parts := Split(stored, Separator);
      if |parts| != 2 then Err(ValueError(MalformedCredential))
      else
        match (FromHex(parts[0]), FromHex(parts[1]))
        case (Some(salt), Some(key)) => Ok(DerivedKey(kdf, password, salt) == key)
        case _ => Err(ValueError(NonHexadecimal))
  }

  /** Verifying against a stored credential compares the derived keys of the candidate and
      of the stored password under the stored salt; so the password itself verifies. */
  lemma VerifyStored(kdf: Kdf, password: string, salt: seq<byte>, candidate: string)
    ensures Verify(kdf, Stored(kdf, password, salt), candidate)
         == Ok(DerivedKey(kdf, candidate, salt) == DerivedKey(kdf, password, salt))
    ensures Verify(kdf, Stored(kdf, password, salt), password) == Ok(true)
  {
    var key := DerivedKey(kdf, password, salt);
    var s := Stored(kdf, password, salt);
    assert s[|ToHex(salt)|] == Separator;
    SplitAroundSeparator(ToHex(salt), ToHex(key), Separator);
    FromHexToHex(salt);
    FromHexToHex(key);
  }

  /** Two different salts give two different stored strings, whatever the passwords. */
  lemma StoredDistinctForDistinctSalts(kdf: Kdf, p1: string, s1: seq<byte>, p2: string, s2: seq<byte>)
    requires s1 != s2
    ensures Stored(kdf, p1, s1) != Stored(kdf, p2, s2)
  {
    if Stored(kdf, p1, s1) == Stored(kdf, p2, s2) {
      SplitAroundSeparator(ToHex(s1), ToHex(DerivedKey(kdf, p1, s1)), Separator);
      SplitAroundSeparator(ToHex(s2), ToHex(DerivedKey(kdf, p2, s2)), Separator);
      ToHexInjective(s1, s2);
    }
  }

  /** A stored credential is never empty and always holds the separator, so it is
      never mistaken for the unset state. */
  lemma StoredIsWellFormed(kdf: Kdf, password: string, salt: seq<byte>)
    ensures Stored(kdf, password, salt) != []
    ensures Separator in Stored(kdf, password, salt)
  {
    assert Stored(kdf, password, salt)[|ToHex(salt)|] == Separator;
  }
}
