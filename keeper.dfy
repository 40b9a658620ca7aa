/** The default secret keeper of pkg/storage/secret/keeper.go: a reversible placeholder
    that stores base64(salt ++ value). `ProvideSecretKeeper` always returns it. */
module Keeper {
  import opened Bytes
  import opened Wrappers
  import opened Errors
  import opened Seqs
  import Base64

  /** The raw (or encrypted) value with its salt and the keeper routing hints. */
  datatype SaltyValue = SaltyValue(value: GoString, salt: GoString, keeper: GoString, addr: GoString)

  /** `simpleKeeper.Encrypt`: never fails, and always yields text the decoder accepts and
      maps back to salt ++ value. */
  function Encrypt(v: SaltyValue): (r: Result<GoString, Error>)
    ensures r.Ok? && Base64.IsValid(r.value)
    ensures Base64.Decode(r.value) == Ok(v.salt + v.value)
  {
    Base64.DecodeEncode(v.salt + v.value);
    Base64.EncodeIsValid(v.salt + v.value);
    Ok(Base64.Encode(v.salt + v.value))
  }

  /** `simpleKeeper.Decrypt`: decode, then cut the salt off the front. */
  function Decrypt(v: SaltyValue): (r: Result<GoString, Error>)
    ensures !Base64.IsValid(v.value) ==> r == Err(CorruptBase64)
    ensures Base64.Decode(v.value).Ok? ==>
      (r.Ok? <==> HasPrefix(Base64.Decode(v.value).value, v.salt))
    ensures r.Ok? ==> Base64.Decode(v.value) == Ok(v.salt + r.value)
    ensures r.Err? ==> r.error in {CorruptBase64, SaltNotFound}
  {
    Base64.DecodeOkIffValid(v.value);
    match Base64.Decode(v.value)
    case Err(e) => Err(e)
    case Ok(out) =>
      var (f, ok) := CutPrefix(out, v.salt);
      if !ok then Err(SaltNotFound) else Ok(f)
  }

  /** Decrypting what `Encrypt` produced, with the same salt, gives back the value; the
      keeper and address hints play no part on either side. */
  lemma DecryptEncrypt(v: SaltyValue, keeper: GoString, addr: GoString)
    ensures Decrypt(SaltyValue(Encrypt(v).value, v.salt, keeper, addr)) == Ok(v.value)
  {
    var c := Encrypt(v).value;
    var out := v.salt + v.value;
    assert out[..|v.salt|] == v.salt;
    assert out[|v.salt|..] == v.value;
  }

  /** Neither operation reads the routing hints. */
  lemma RoutingHintsIgnored(v: SaltyValue, keeper: GoString, addr: GoString)
    ensures Encrypt(v) == Encrypt(v.(keeper := keeper, addr := addr))
    ensures Decrypt(v) == Decrypt(v.(keeper := keeper, addr := addr))
  {
  }

  /** With an empty salt, decryption is plain base 64 decoding. */
  lemma EmptySaltIsPlainDecode(v: SaltyValue)
    requires v.salt == []
    ensures Decrypt(v) == Base64.Decode(v.value)
  {
    Base64.DecodeOkIffValid(v.value);
    if Base64.Decode(v.value).Ok? {
      var out := Base64.Decode(v.value).value;
      assert out[..0] == [];
      assert out[0..] == out;
    }
  }
}
