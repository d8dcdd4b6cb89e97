/**
  The D3P outer payload (pkg/protocol/outer.go): suite, key, nonce and ciphertext in a row.
  Encryption and decryption are parameters; all that is used of them is CipherLaw.
*/
module OuterPayload {
  import opened Bytes
  import opened Values
  import opened Options
  import opened InnerPayload
  import opened ContextFields

  datatype Suite = Suite(keySize: nat, nonceSize: nat, overhead: nat)

  function SuiteInfo(id: byte): Option<Suite> {
    if id == 0 then Some(Suite(6, 5, 0)) else if id == 1 then Some(Suite(32, 12, 16)) else None
  }

  datatype Sealed = Sealed(ciphertext: seq<byte>, key: seq<byte>, nonce: seq<byte>)

  // `call` numbers the encryptions, which draw fresh keys and nonces.
  datatype Cipher = Cipher(
    encrypt: (seq<byte>, byte, nat) -> Option<Sealed>,
    decrypt: (Sealed, byte) -> Option<seq<byte>>)

  // Decryption undoes encryption, and the ciphertext is longer by the suite's overhead.
  ghost predicate CipherLaw(c: Cipher) {
    forall plain, id, call :: c.encrypt(plain, id, call).Some? && SuiteInfo(id).Some? ==>
      && c.decrypt(c.encrypt(plain, id, call).value, id) == Some(plain)
      && |c.encrypt(plain, id, call).value.ciphertext| == |plain| + SuiteInfo(id).value.overhead
  }

  function Seal(inner: seq<byte>, id: byte, c: Cipher, call: nat): Checked<seq<byte>> {
    if inner == [] then Invalid(ProtocolFailure)
    else
      match SuiteInfo(id)
      case None => Invalid(UnknownSuite)
      case Some(suite) =>
        match c.encrypt(inner, id, call)
        case None => Invalid(CryptoFailure)
        case Some(s) =>
          if |s.key| != suite.keySize || |s.nonce| != suite.nonceSize then Invalid(ProtocolFailure)
          else Valid([id] + s.key + s.nonce + s.ciphertext)
  }

  function Open(blob: seq<byte>, c: Cipher): Checked<seq<byte>> {
    if blob == [] then Invalid(ProtocolFailure)
    else
      match SuiteInfo(blob[0])
      case None => Invalid(UnknownSuite)
      case Some(suite) =>
        var header := 1 + suite.keySize + suite.nonceSize;
        if |blob| < header then Invalid(ProtocolFailure)
        else if |blob| - header < MIN_INNER_LEN + suite.overhead then Invalid(ProtocolFailure)
        else
          match c.decrypt(Sealed(blob[header..], blob[1..1 + suite.keySize], blob[1 + suite.keySize..header]), blob[0])
          case None => Invalid(CryptoFailure)
          case Some(inner) => Valid(inner)
  }

  // Opening undoes sealing exactly for payloads of the minimum length.
  lemma {:induction false} SealRoundTrip(inner: seq<byte>, id: byte, c: Cipher, call: nat)
    requires CipherLaw(c) && Seal(inner, id, c, call).Valid?
    ensures var suite := SuiteInfo(id).value;
            |Seal(inner, id, c, call).value| == 1 + suite.keySize + suite.nonceSize + suite.overhead + |inner|
    ensures Open(Seal(inner, id, c, call).value, c) == if |inner| >= MIN_INNER_LEN then Valid(inner) else Invalid(ProtocolFailure)
  {
    var s := c.encrypt(inner, id, call).value;
    var suite := SuiteInfo(id).value;
    var blob := [id] + s.key + s.nonce + s.ciphertext;
    var header := 1 + suite.keySize + suite.nonceSize;
    assert blob[header..] == s.ciphertext && blob[1..1 + suite.keySize] == s.key && blob[1 + suite.keySize..header] == s.nonce;
  }

  method ConstructOuterPayload(inner: seq<byte>, id: byte, c: Cipher, call: nat) returns (blob: Checked<seq<byte>>)
    ensures blob == Seal(inner, id, c, call)
  {
    if |inner| < 1 {
      return Invalid(ProtocolFailure);
    }
    var suite := SuiteInfo(id);
    if suite.None? {
      return Invalid(UnknownSuite);
    }
    var s := c.encrypt(inner, id, call);
    if s.None? {
      return Invalid(CryptoFailure);
    }
    if |s.value.key| != suite.value.keySize || |s.value.nonce| != suite.value.nonceSize {
      return Invalid(ProtocolFailure);
    }
    var buffer := [id];
    buffer := buffer + s.value.key;
    buffer := buffer + s.value.nonce;
    buffer := buffer + s.value.ciphertext;
    blob := Valid(buffer);
  }

  method DeconstructOuterPayload(blob: seq<byte>, c: Cipher) returns (inner: Checked<seq<byte>>)
    ensures inner == Open(blob, c)
  {
    if |blob| < 1 {
      return Invalid(ProtocolFailure);
    }
    var index := 0;
    var id := blob[index];
    index := index + 1;
    var suite := SuiteInfo(id);
    if suite.None? {
      return Invalid(UnknownSuite);
    }
    if |blob| < 1 + suite.value.keySize + suite.value.nonceSize {
      return Invalid(ProtocolFailure);
    }
    var key := blob[index..index + suite.value.keySize];
    index := index + suite.value.keySize;
    var nonce := blob[index..index + suite.value.nonceSize];
    index := index + suite.value.nonceSize;
    var ciphertext := blob[index..];
    if |ciphertext| < MIN_INNER_LEN + suite.value.overhead {
      return Invalid(ProtocolFailure);
    }
    var plain := c.decrypt(Sealed(ciphertext, key, nonce), id);
    if plain.None? {
      return Invalid(CryptoFailure);
    }
    inner := Valid(plain.value);
  }
}
