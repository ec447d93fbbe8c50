/** The message that publisher, server and client sign and verify (crates/deltaship-crypto/src/signing.rs). */
module Signing {
  import opened Bytes

  const HASH_SIZE: nat := 32

  /** The ASCII text `DELTASHIP-sig-v1` and a zero byte. */
  const DOMAIN_TAG: seq<u8> := [68, 69, 76, 84, 65, 83, 72, 73, 80, 45, 115, 105, 103, 45, 118, 49, 0]

  /* The payload */

  function Payload(hash: seq<u8>, version: string): (p: seq<u8>)
    ensures |hash| == HASH_SIZE ==> |p| >= |DOMAIN_TAG| + HASH_SIZE
  {
    DOMAIN_TAG + hash + Utf8(version)
  }

  method SigningPayload(hash: seq<u8>, version: string) returns (msg: seq<u8>)
    ensures msg == Payload(hash, version)
  {
    msg := [];
    msg := msg + DOMAIN_TAG;
    msg := msg + hash;
    msg := msg + Utf8(version);
  }

  /** A signature binds one hash and one version: no separators are needed. */
  lemma PayloadBinds(h: seq<u8>, v: string, h': seq<u8>, v': string)
    requires |h| == |h'| == HASH_SIZE
    ensures Payload(h, v) == Payload(h', v') <==> h == h' && v == v'
  {
    var p, q, n := Payload(h, v), Payload(h', v'), |DOMAIN_TAG|;
    if p == q {
      assert p[n..n + HASH_SIZE] == h && q[n..n + HASH_SIZE] == h';
      assert p[n + HASH_SIZE..] == Utf8(v) && q[n + HASH_SIZE..] == Utf8(v');
      Utf8Injective(v, v');
    }
  }
}
