/**
 * The credential codec of `SystemService`: `entryptPassword` stores a
 * password as hex(salt) followed by hex(SHA-1 iterated 1024 times over the
 * HTML-unescaped password and the salt); `validatePassword` reads the salt
 * back from the first 16 hex characters, recomputes, and compares the whole
 * string.
 *
 * SHA-1 (FIPS 180-4), HTML unescaping and the platform charset encoding are
 * not modelled: they are the fields of a `Primitives` value every operation
 * takes, so every fact proved here holds whatever those functions are.
 * The random salt is a parameter.
 */
module Credentials {
  import opened Wrappers

  newtype byte = x: int | 0 <= x < 256

  const HashIterations: nat := 1024
  const SaltSize: nat := 8
  /** The length `validatePassword` cuts off as the salt: two hex digits per salt byte. */
  const SaltHexLength: nat := 16
  /** Length of a SHA-1 digest in bytes. */
  const Sha1Size: nat := 20

  /** The collaborators the codec calls but that are not modelled. */
  datatype Primitives = Primitives(
    unescapeHtml: string -> string,                 // Encodes.unescapeHtml
    getBytes: string -> seq<byte>,                  // String.getBytes() in the platform charset
    sha1: (seq<byte>, seq<byte>, nat) -> seq<byte>  // Digests.sha1(input, salt, iterations), the HASH_ALGORITHM
  )

  /** The one property of SHA-1 the layout depends on: a 20-byte digest. */
  ghost predicate DigestIsSha1Sized(prims: Primitives) {
    forall input, salt, iterations :: |prims.sha1(input, salt, iterations)| == Sha1Size
  }

  // ---------------------------------------------------------------------
  // Hex codec (Encodes.encodeHex / Encodes.decodeHex, commons-codec Hex)
  // ---------------------------------------------------------------------

  /** The lower-case digit for a nibble. */
  function HexDigit(v: nat): (c: char)
    requires v < 16
    ensures HexValue(c) == Some(v)
  {
    if v < 10 then ('0' as int + v) as char else ('a' as int + v - 10) as char
  }

  /** `Character.digit(c, 16)` restricted to ASCII: the value of a hex digit
      in either case, or None. Java also accepts the other Unicode decimal
      digits and the full-width Latin letters, which this model rejects. */
  function HexValue(c: char): (v: Option<nat>)
    ensures v.Some? ==> v.value < 16
  {
    if '0' <= c <= '9' then Some(c as int - '0' as int)
    else if 'a' <= c <= 'f' then Some(c as int - 'a' as int + 10)
    else if 'A' <= c <= 'F' then Some(c as int - 'A' as int + 10)
    else None
  }

  predicate IsLowerHex(s: string) {
    forall k :: 0 <= k < |s| ==> '0' <= s[k] <= '9' || 'a' <= s[k] <= 'f'
  }

  /** Two lower-case hex digits per byte, high nibble first. */
  function EncodeHex(bytes: seq<byte>): (hex: string)
    ensures |hex| == 2 * |bytes|
    ensures IsLowerHex(hex)
  {
    if |bytes| == 0 then ""
    else [HexDigit(bytes[0] as int / 16), HexDigit(bytes[0] as int % 16)] + EncodeHex(bytes[1..])
  }

  /** Decodes pairs of hex digits; None stands for the DecoderException
      thrown on an odd length or a character that is not a hex digit. */
  function DecodeHex(hex: string): (bytes: Option<seq<byte>>)
    ensures bytes.Some? ==> 2 * |bytes.value| == |hex|
    decreases |hex|
  {
    if |hex| % 2 == 1 then None
    else if |hex| == 0 then Some([])
    else match (HexValue(hex[0]), HexValue(hex[1]), DecodeHex(hex[2..]))
      case (Some(hi), Some(lo), Some(rest)) => Some([(hi * 16 + lo) as byte] + rest)
      case _ => None
  }

  /** Decoding inverts encoding. */
  lemma {:induction false} DecodeEncodeHex(bytes: seq<byte>)
    ensures DecodeHex(EncodeHex(bytes)) == Some(bytes)
    decreases |bytes|
  {
    if |bytes| > 0 {
      var hex := EncodeHex(bytes);
      DecodeEncodeHex(bytes[1..]);
      assert hex[2..] == EncodeHex(bytes[1..]);
      assert bytes == [bytes[0]] + bytes[1..];
    }
  }

  // ---------------------------------------------------------------------
  // entryptPassword / validatePassword
  // ---------------------------------------------------------------------

  /** `Digests.sha1(unescapeHtml(plain).getBytes(), salt, 1024)`. */
  function Digest(prims: Primitives, plainPassword: string, salt: seq<byte>): seq<byte> {
    prims.sha1(prims.getBytes(prims.unescapeHtml(plainPassword)), salt, HashIterations)
  }

  /** `entryptPassword` with the salt `Digests.generateSalt(8)` would have drawn. */
  function EntryptPassword(prims: Primitives, plainPassword: string, salt: seq<byte>): (password: string)
    ensures |password| == 2 * |salt| + 2 * |Digest(prims, plainPassword, salt)|
    ensures password[..2 * |salt|] == EncodeHex(salt)
    ensures IsLowerHex(password)
  {
    EncodeHex(salt) + EncodeHex(Digest(prims, plainPassword, salt))
  }

  /** The exceptions `validatePassword` can throw on a malformed stored value. */
  datatype ValidationError =
    | SaltIndexOutOfBounds  // substring(0, 16) of a string shorter than 16
    | SaltNotHex            // decodeHex of the 16 characters failed

  /** `validatePassword(plainPassword, password)`. */
  function ValidatePassword(prims: Primitives, plainPassword: string, password: string): (r: Result<bool, ValidationError>)
    ensures r.Failure? <==> |password| < SaltHexLength || DecodeHex(password[..SaltHexLength]).None?
  {
    if |password| < SaltHexLength then Failure(SaltIndexOutOfBounds)
    else match DecodeHex(password[..SaltHexLength])
      case None => Failure(SaltNotHex)
      case Some(salt) =>
        Success(password == EncodeHex(salt) + EncodeHex(Digest(prims, plainPassword, salt)))
  }

  /** Round trip: a credential made from a password and an 8-byte salt
      validates against that password. */
  lemma ValidateEntrypted(prims: Primitives, plainPassword: string, salt: seq<byte>)
    requires |salt| == SaltSize
    ensures ValidatePassword(prims, plainPassword, EntryptPassword(prims, plainPassword, salt)) == Success(true)
  {
    var password := EntryptPassword(prims, plainPassword, salt);
    assert SaltHexLength == 2 * SaltSize;
    assert password[..SaltHexLength] == EncodeHex(salt);
    DecodeEncodeHex(salt);
  }

  /** With a 20-byte digest the stored credential is 16 + 40 = 56 lower-case
      hex characters, the first 16 of them the salt. */
  lemma EntryptedLayout(prims: Primitives, plainPassword: string, salt: seq<byte>)
    requires DigestIsSha1Sized(prims)
    requires |salt| == SaltSize
    ensures |EntryptPassword(prims, plainPassword, salt)| == 56
    ensures EntryptPassword(prims, plainPassword, salt)[..SaltHexLength] == EncodeHex(salt)
    ensures IsLowerHex(EntryptPassword(prims, plainPassword, salt))
  {
    var input := prims.getBytes(prims.unescapeHtml(plainPassword));
    assert |prims.sha1(input, salt, HashIterations)| == Sha1Size;
  }

  /** Validation accepts exactly the strings `entryptPassword` can produce for
      that password with some 8-byte salt. */
  lemma ValidateAcceptsExactlyEntrypted(prims: Primitives, plainPassword: string, password: string)
    ensures ValidatePassword(prims, plainPassword, password) == Success(true)
        <==> exists salt: seq<byte> :: |salt| == SaltSize && password == EntryptPassword(prims, plainPassword, salt)
  {
    if ValidatePassword(prims, plainPassword, password) == Success(true) {
      var salt := DecodeHex(password[..SaltHexLength]).value;
      assert |salt| == SaltSize;
      assert password == EntryptPassword(prims, plainPassword, salt);
    }
    if exists salt: seq<byte> :: |salt| == SaltSize && password == EntryptPassword(prims, plainPassword, salt) {
      var salt: seq<byte> :| |salt| == SaltSize && password == EntryptPassword(prims, plainPassword, salt);
      ValidateEntrypted(prims, plainPassword, salt);
    }
  }

  /** Keeping the salt and changing anything in the hash part is rejected:
      validation answers false rather than failing. */
  lemma ValidateRejectsAlteredHash(prims: Primitives, plainPassword: string, salt: seq<byte>, tail: string)
    requires |salt| == SaltSize
    requires tail != EncodeHex(Digest(prims, plainPassword, salt))
    ensures ValidatePassword(prims, plainPassword, EncodeHex(salt) + tail) == Success(false)
  {
    var password := EncodeHex(salt) + tail;
    assert password[..SaltHexLength] == EncodeHex(salt);
    DecodeEncodeHex(salt);
    assert password != EncodeHex(salt) + EncodeHex(Digest(prims, plainPassword, salt));
  }
}
