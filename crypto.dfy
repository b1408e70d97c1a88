/**
 * The authenticated-encryption capability, consumed as a black box: `encrypt` turns
 * plaintext into a token, `decrypt` returns the plaintext or fails (InvalidToken).
 * The round trip is stated as the predicate `Sound`; the lemmas that need it, or that a
 * token is non-empty, take it as a precondition.
 */
module Crypto {
  import opened Bytes

  datatype Cipher = Cipher(encrypt: seq<byte> -> seq<byte>, decrypt: seq<byte> -> Option<seq<byte>>)

  /** decrypt(encrypt(p)) == p for every plaintext p. */
  ghost predicate Sound(c: Cipher)
  {
    forall p :: c.decrypt(c.encrypt(p)) == Some(p)
  }

  /** The token sent for each unit, in order. */
  function EncryptEach(c: Cipher, units: seq<seq<byte>>): (tokens: seq<seq<byte>>)
    ensures |tokens| == |units|
  {
    seq(|units|, i requires 0 <= i < |units| => c.encrypt(units[i]))
  }

  /**
   * What a decrypting pump forwards when it receives `units` one after another:
   * the plaintexts of the units before the first one that fails to decrypt.
   */
  function DecryptPrefix(c: Cipher, units: seq<seq<byte>>): (out: seq<seq<byte>>)
    ensures |out| <= |units|
    ensures forall i :: 0 <= i < |out| ==> c.decrypt(units[i]) == Some(out[i])
    ensures |out| < |units| ==> c.decrypt(units[|out|]).None?
  {
    if units == [] then []
    else
      match c.decrypt(units[0])
      case None => []
      case Some(plain) => [plain] + DecryptPrefix(c, units[1..])
  }

  /** A decrypting pump fed the tokens of a sound cipher forwards every plaintext, in order. */
  lemma {:induction false} DecryptPrefixOfTokens(c: Cipher, plains: seq<seq<byte>>)
    requires Sound(c)
    ensures DecryptPrefix(c, EncryptEach(c, plains)) == plains
  {
    if plains != [] {
      var tokens := EncryptEach(c, plains);
      assert tokens[1..] == EncryptEach(c, plains[1..]);
      DecryptPrefixOfTokens(c, plains[1..]);
    }
  }
}
