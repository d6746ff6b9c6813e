/** The values a revocation check works on (upki/src/revocation/mod.rs), and what the code takes
    from outside: the decoder of filter files and the test for valid UTF-8. */
module Revocation {
  import opened ByteStrings
  import opened IndexFormat
  import F = Fips180
  import Sha256

  datatype Sct = Sct(logId: LogId, timestamp: u64)
  datatype Interval = Interval(low: u64, high: u64)
  datatype CRLiteStatus = Good | NotCovered | NotEnrolled | Revoked
  datatype RevocationStatus = NotCoveredByRevocationData | NotRevoked | CertainlyRevoked
  datatype CRLiteKey = CRLiteKey(issuerSpkiHash: Bytes, serial: Bytes, issuerSerialHash: Bytes)

  /** A decoded filter: the logs it covers, and its answer for a key and the SCTs of a certificate. */
  datatype Clubcard = Clubcard(universe: map<LogId, Interval>, contains: (CRLiteKey, seq<Sct>) -> CRLiteStatus)

  datatype Platform = Platform(decode: Bytes -> Option<Clubcard>, utf8: Bytes -> bool)

  /** The readable files of the cache directory. */
  type Files = map<Name, Bytes>

  function ContentOf(dir: Files, name: Name): Option<Bytes> {
    if name in dir then Some(dir[name]) else None
  }

  /** Sizes are 64-bit numbers. */
  datatype ManifestFile = ManifestFile(filename: Name, size: u64, hash: Bytes)
  datatype Manifest = Manifest(generatedAt: u64, comment: string, files: seq<ManifestFile>)

  datatype RevocationCheckInput = RevocationCheckInput(
    certSerial: Bytes, issuerSpkiHash: Bytes, sctTimestamps: seq<Sct>, issuerSerialHash: Bytes)
  {
    function Key(): CRLiteKey {
      CRLiteKey(issuerSpkiHash, certSerial, issuerSerialHash)
    }
  }

  /** `RevocationCheckInput::new`: the key hash is the hash of issuer hash and serial joined.
      `None` is the panic of the hasher on an excessive serial. */
  method NewCheckInput(certSerial: Bytes, issuerSpkiHash: Bytes, sctTimestamps: seq<Sct>)
    returns (input: Option<RevocationCheckInput>)
    ensures input.Some? <==> |issuerSpkiHash| + |certSerial| < U64_LIMIT / 8
    ensures input.Some? ==>
      input.value.Key() == CRLiteKey(issuerSpkiHash, certSerial, F.Sha256(issuerSpkiHash + certSerial))
    ensures input.Some? ==> input.value.sctTimestamps == sctTimestamps
  {
    var context := new Sha256.Context();
    context.Update(issuerSpkiHash);
    context.Update(certSerial);
    assert [] + issuerSpkiHash + certSerial == issuerSpkiHash + certSerial;
    var digest := context.Finish();
    match digest
    case None => input := None;
    case Some(hash) => input := Some(RevocationCheckInput(certSerial, issuerSpkiHash, sctTimestamps, hash));
  }
}
