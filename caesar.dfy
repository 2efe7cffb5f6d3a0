/**
 * The Caesar shift cipher of cypher_implementations.py (caesar_encryption and
 * caesar_decryption).
 *
 * Every ASCII letter moves `key` places round the 26 letters of its own case
 * (upper case counted from code 65, lower case from code 97); every other
 * character is copied. The key is any integer. Python's `%` with the positive
 * divisor 26 never yields a negative remainder, and neither does Dafny's, so
 * the arithmetic below is the source's arithmetic.
 *
 * The model covers ASCII text only: on other characters Python's `isalpha`
 * and `isupper` consult the Unicode database, which is not modelled, so every
 * text-level member requires `IsAsciiText`.
 */
module Caesar {

  /** `str.isupper` on an ASCII character. */
  predicate IsUpper(c: char) { 'A' <= c <= 'Z' }

  /** `str.islower` on an ASCII character. */
  predicate IsLower(c: char) { 'a' <= c <= 'z' }

  /** `str.isalpha` on an ASCII character. */
  predicate IsAlpha(c: char) { IsUpper(c) || IsLower(c) }

  predicate IsAscii(c: char) { (c as int) < 128 }

  predicate IsAsciiText(s: string) { forall i :: 0 <= i < |s| ==> IsAscii(s[i]) }

  /** One character of caesar_encryption: a letter moves forward by `key`
      within its case band, anything else is unchanged. */
  function Shift(c: char, key: int): (d: char)
    requires IsAscii(c)
    ensures IsAscii(d)
    ensures !IsAlpha(c) ==> d == c
    ensures IsUpper(d) <==> IsUpper(c)
    ensures IsLower(d) <==> IsLower(c)
  {
    if IsAlpha(c) then
      if IsUpper(c) then ((c as int + key - 65) % 26 + 65) as char
      else ((c as int + key - 97) % 26 + 97) as char
    else c
  }

  /** One character of caesar_decryption: a letter moves back by `key`. */
  function Unshift(c: char, key: int): (d: char)
    requires IsAscii(c)
    ensures IsAscii(d)
    ensures !IsAlpha(c) ==> d == c
    ensures IsUpper(d) <==> IsUpper(c)
    ensures IsLower(d) <==> IsLower(c)
  {
    if IsAlpha(c) then
      if IsUpper(c) then ((c as int - key - 65) % 26 + 65) as char
      else ((c as int - key - 97) % 26 + 97) as char
    else c
  }

  /** The ciphertext caesar_encryption returns. */
  function Encrypted(text: string, key: int): (r: string)
    requires IsAsciiText(text)
    ensures |r| == |text| && IsAsciiText(r)
    ensures forall i :: 0 <= i < |text| && !IsAlpha(text[i]) ==> r[i] == text[i]
    ensures forall i :: 0 <= i < |text| ==> (IsUpper(r[i]) <==> IsUpper(text[i]))
    ensures forall i :: 0 <= i < |text| ==> (IsLower(r[i]) <==> IsLower(text[i]))
  {
    seq(|text|, i requires 0 <= i < |text| => Shift(text[i], key))
  }

  /** The plaintext caesar_decryption returns. */
  function Decrypted(text: string, key: int): (r: string)
    requires IsAsciiText(text)
    ensures |r| == |text| && IsAsciiText(r)
    ensures forall i :: 0 <= i < |text| && !IsAlpha(text[i]) ==> r[i] == text[i]
    ensures forall i :: 0 <= i < |text| ==> (IsUpper(r[i]) <==> IsUpper(text[i]))
    ensures forall i :: 0 <= i < |text| ==> (IsLower(r[i]) <==> IsLower(text[i]))
  {
    seq(|text|, i requires 0 <= i < |text| => Unshift(text[i], key))
  }

  /** caesar_encryption: builds the ciphertext one character at a time. */
  method Encrypt(plaintext: string, key: int) returns (ciphertext: string)
    requires IsAsciiText(plaintext)
    ensures ciphertext == Encrypted(plaintext, key)
  {
    ciphertext := "";
    for i := 0 to |plaintext|
      invariant |ciphertext| == i
      invariant forall j :: 0 <= j < i ==> ciphertext[j] == Shift(plaintext[j], key)
    {
      var c := plaintext[i];
      if IsAlpha(c) {
        if IsUpper(c) {
          ciphertext := ciphertext + [((c as int + key - 65) % 26 + 65) as char];
        } else {
          ciphertext := ciphertext + [((c as int + key - 97) % 26 + 97) as char];
        }
      } else {
        ciphertext := ciphertext + [c];
      }
    }
  }

  /** caesar_decryption: builds the plaintext one character at a time. */
  method Decrypt(ciphertext: string, key: int) returns (plaintext: string)
    requires IsAsciiText(ciphertext)
    ensures plaintext == Decrypted(ciphertext, key)
  {
    plaintext := "";
    for i := 0 to |ciphertext|
      invariant |plaintext| == i
      invariant forall j :: 0 <= j < i ==> plaintext[j] == Unshift(ciphertext[j], key)
    {
      var c := ciphertext[i];
      if IsAlpha(c) {
        if IsUpper(c) {
          plaintext := plaintext + [((c as int - key - 65) % 26 + 65) as char];
        } else {
          plaintext := plaintext + [((c as int - key - 97) % 26 + 97) as char];
        }
      } else {
        plaintext := plaintext + [c];
      }
    }
  }

  /** Euclidean division by 26 is unique. */
  lemma ModUnique(y: int, q: int, x: int)
    requires y == 26 * q + x && 0 <= x < 26
    ensures y % 26 == x
  {
  }

  /** Moving back by `key` undoes moving forward by `key`, in either order,
      within one band of 26. */
  lemma BandRoundTrip(x: int, key: int)
    requires 0 <= x < 26
    ensures ((x + key) % 26 - key) % 26 == x
    ensures ((x - key) % 26 + key) % 26 == x
  {
    ModUnique((x + key) % 26 - key, -((x + key) / 26), x);
    ModUnique((x - key) % 26 + key, -((x - key) / 26), x);
  }

  lemma UnshiftShift(c: char, key: int)
    requires IsAscii(c)
    ensures Unshift(Shift(c, key), key) == c
  {
    if IsUpper(c) {
      BandRoundTrip(c as int - 65, key);
    } else if IsLower(c) {
      BandRoundTrip(c as int - 97, key);
    }
  }

  lemma ShiftUnshift(c: char, key: int)
    requires IsAscii(c)
    ensures Shift(Unshift(c, key), key) == c
  {
    if IsUpper(c) {
      BandRoundTrip(c as int - 65, key);
    } else if IsLower(c) {
      BandRoundTrip(c as int - 97, key);
    }
  }

  /** Decryption with the same key recovers the plaintext, for every key. */
  lemma DecryptedEncrypted(text: string, key: int)
    requires IsAsciiText(text)
    ensures Decrypted(Encrypted(text, key), key) == text
  {
    var c := Encrypted(text, key);
    forall i | 0 <= i < |text| ensures Decrypted(c, key)[i] == text[i] {
      UnshiftShift(text[i], key);
    }
  }

  /** Encryption with the same key undoes decryption, for every key. */
  lemma EncryptedDecrypted(text: string, key: int)
    requires IsAsciiText(text)
    ensures Encrypted(Decrypted(text, key), key) == text
  {
    var p := Decrypted(text, key);
    forall i | 0 <= i < |text| ensures Encrypted(p, key)[i] == text[i] {
      ShiftUnshift(text[i], key);
    }
  }

  /** With key 0 both functions are the identity. */
  lemma KeyZero(text: string)
    requires IsAsciiText(text)
    ensures Encrypted(text, 0) == text
    ensures Decrypted(text, 0) == text
  {
    forall i | 0 <= i < |text|
      ensures Encrypted(text, 0)[i] == text[i] && Decrypted(text, 0)[i] == text[i]
    {
      if IsUpper(text[i]) {
        BandRoundTrip(text[i] as int - 65, 0);
      } else if IsLower(text[i]) {
        BandRoundTrip(text[i] as int - 97, 0);
      }
    }
  }

  /** Only the key modulo 26 matters: `key` and `key + 26` encrypt and
      decrypt alike. */
  lemma KeyPeriod(text: string, key: int)
    requires IsAsciiText(text)
    ensures Encrypted(text, key + 26) == Encrypted(text, key)
    ensures Decrypted(text, key + 26) == Decrypted(text, key)
  {
    forall i | 0 <= i < |text|
      ensures Encrypted(text, key + 26)[i] == Encrypted(text, key)[i]
      ensures Decrypted(text, key + 26)[i] == Decrypted(text, key)[i]
    {
      var x := text[i] as int;
      assert (x + key + 26 - 65) % 26 == (x + key - 65) % 26;
      assert (x + key + 26 - 97) % 26 == (x + key - 97) % 26;
      assert (x - (key + 26) - 65) % 26 == (x - key - 65) % 26;
      assert (x - (key + 26) - 97) % 26 == (x - key - 97) % 26;
    }
  }

  /** Decrypting with `key` is encrypting with `-key`. */
  lemma DecryptedIsNegatedKey(text: string, key: int)
    requires IsAsciiText(text)
    ensures Decrypted(text, key) == Encrypted(text, -key)
  {
    forall i | 0 <= i < |text| ensures Decrypted(text, key)[i] == Encrypted(text, -key)[i] {
    }
  }

  /** The demonstration value: "Hello World!" with key 3 ... */
  lemma HelloWorldEncrypted()
    ensures IsAsciiText("Hello World!")
    ensures Encrypted("Hello World!", 3) == "Khoor Zruog!"
  {
    var p, c := "Hello World!", "Khoor Zruog!";
    forall i | 0 <= i < |p| ensures Encrypted(p, 3)[i] == c[i] { }
  }

  /** ... and back. */
  lemma HelloWorldDecrypted()
    ensures IsAsciiText("Khoor Zruog!")
    ensures Decrypted("Khoor Zruog!", 3) == "Hello World!"
  {
    var p, c := "Hello World!", "Khoor Zruog!";
    forall i | 0 <= i < |c| ensures Decrypted(c, 3)[i] == p[i] { }
  }
}
