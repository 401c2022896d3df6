/** `signPubkey` of ca/signer.go: build and encode an SSH host certificate for a
    published public key. Base64 (section 4 of RFC 4648), `ssh.ParsePublicKey`,
    `SignCert` and `Marshal` are library code and enter as the functions of a
    `Crypto` value; the clock and the random source enter as parameters. */
module Signer {
  import opened Wrappers

  type Byte = x: int | 0 <= x < 256

  /** An SSH public key, kept as its algorithm name and wire-format blob. */
  datatype PublicKey = PublicKey(keyType: string, blob: seq<Byte>)

  datatype CertType = UserCert | HostCert

  /** The fields of `ssh.Certificate` that `signPubkey` sets. */
  datatype Certificate = Certificate(
    nonce: seq<Byte>,
    key: PublicKey,
    serial: nat,
    certType: CertType,
    keyId: string,
    validPrincipals: seq<string>,
    validAfter: nat,
    validBefore: nat,
    signatureKey: PublicKey)

  /** The CA's signing key, known to the model by its public half. */
  datatype CaSigner = CaSigner(publicKey: PublicKey)

  /** The library operations `signPubkey` calls. */
  datatype Crypto = Crypto(
    decodeBase64: string -> Option<seq<Byte>>,
    parsePublicKey: seq<Byte> -> Option<PublicKey>,
    signAndMarshal: (Certificate, CaSigner) -> seq<Byte>,
    encodeBase64: seq<Byte> -> string)

  const KeyId: string := "gcp-ssh-ca"

  /** The type tag every certificate line starts with (ca/signer.go:61). */
  const CertPrefix: string := "ssh-ed25519-cert-v01@openssh.com "

  const NonceLength: nat := 32

  const Two64: nat := 0x1_0000_0000_0000_0000

  /** Go's `uint64(x)` for an `int64` Unix time: the value modulo 2^64. */
  function ToUint64(x: int): (r: nat)
    ensures r < Two64
    ensures 0 <= x < Two64 ==> r == x
  {
    x % Two64
  }

  /** The 32-byte nonce: `make([]byte, 32)` then `rand.Read`, whose error is not
      checked; bytes the reader did not deliver stay zero. */
  function Nonce(random: seq<Byte>): (n: seq<Byte>)
    ensures |n| == NonceLength
    ensures |random| >= NonceLength ==> n == random[..NonceLength]
  {
    seq(NonceLength, i requires 0 <= i < NonceLength => if i < |random| then random[i] else 0)
  }

  /** The certificate literal of ca/signer.go:43-53, with one clock reading `now`
      (Unix seconds) and a validity of `validFor` seconds. */
  function NewCertificate(key: PublicKey, caSigner: CaSigner, ips: seq<string>, validFor: int, now: int,
                          random: seq<Byte>): Certificate
  {
    Certificate(
      nonce := Nonce(random),
      key := key,
      serial := 0,
      certType := HostCert,
      keyId := KeyId,
      validPrincipals := ips,
      validAfter := ToUint64(now),
      validBefore := ToUint64(now + validFor),
      signatureKey := caSigner.publicKey)
  }

  /** The public key a candidate key string denotes, or None when it is not
      standard base64 or not an SSH public key. */
  function DecodeKey(crypto: Crypto, sshKey: string): Option<PublicKey> {
    match crypto.decodeBase64(sshKey)
    case None => None
    case Some(bytes) => crypto.parsePublicKey(bytes)
  }

  /** `signPubkey` (ca/signer.go:29-62). The empty string signals failure and
      is returned exactly when the key cannot be decoded or parsed; every other
      result is the certificate line for the key. */
  function SignPubkey(crypto: Crypto, caSigner: CaSigner, sshKey: string, ips: seq<string>, validFor: int,
                      now: int, random: seq<Byte>): (r: string)
    ensures r == "" <==> DecodeKey(crypto, sshKey).None?
    ensures r != "" ==> |r| >= |CertPrefix| && r[..|CertPrefix|] == CertPrefix
    ensures r != "" ==>
      r[|CertPrefix|..]
      == crypto.encodeBase64(crypto.signAndMarshal(
           NewCertificate(DecodeKey(crypto, sshKey).value, caSigner, ips, validFor, now, random), caSigner))
  {
    match crypto.decodeBase64(sshKey)
    case None => ""
    case Some(sshKeyBytes) =>
      match crypto.parsePublicKey(sshKeyBytes)
      case None => ""
      case Some(out) =>
        var c := NewCertificate(out, caSigner, ips, validFor, now, random);
        CertPrefix + crypto.encodeBase64(crypto.signAndMarshal(c, caSigner))
  }

  /** The certificate issued is a host certificate under the CA's fixed key ID
      and serial 0, for the parsed key, signed by the CA, with a 32-byte nonce
      and exactly the given principals: same order, nothing filtered or merged. */
  lemma CertificateFields(key: PublicKey, caSigner: CaSigner, ips: seq<string>, validFor: int, now: int,
                          random: seq<Byte>)
    ensures var c := NewCertificate(key, caSigner, ips, validFor, now, random);
            && c.certType == HostCert && c.keyId == "gcp-ssh-ca" && c.serial == 0
            && c.key == key && c.signatureKey == caSigner.publicKey
            && |c.nonce| == 32
            && |c.validPrincipals| == |ips|
            && forall i :: 0 <= i < |ips| ==> c.validPrincipals[i] == ips[i]
  {
  }

  /** Within the range of an `int64` Unix time and without wrap-around, the
      window opens at `now` and lasts exactly `validFor` seconds, also when the
      configured validity is negative. */
  lemma ValidityWindow(key: PublicKey, caSigner: CaSigner, ips: seq<string>, validFor: int, now: int,
                       random: seq<Byte>)
    requires 0 <= now < Two64 && 0 <= now + validFor < Two64
    ensures var c := NewCertificate(key, caSigner, ips, validFor, now, random);
            c.validAfter == now && c.validBefore - c.validAfter == validFor
  {
  }

  /** A clock before 1970 gives a negative `int64` Unix time, which `uint64`
      turns into a value 2^64 higher: the window opens far in the future. */
  lemma NegativeNowWraps(key: PublicKey, caSigner: CaSigner, ips: seq<string>, validFor: int, now: int,
                         random: seq<Byte>)
    requires -0x8000_0000_0000_0000 <= now < 0
    ensures NewCertificate(key, caSigner, ips, validFor, now, random).validAfter == now + Two64
  {
    assert (now + Two64) % Two64 == now + Two64;
  }
}
