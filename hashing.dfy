/**
 * The password hasher (Hash::make and Hash::check).
 *
 * The real hasher is a salted one-way function from a library. Here it is a
 * stand-in with the two properties the application relies on: a digest checks
 * against the plaintext it was made from, and against no other plaintext.
 * The salt is random in the library; here it is a parameter.
 */
module Hashing {

  /** A stored password: the salt drawn when it was made and the salted image of the plaintext. */
  datatype Digest = Digest(salt: nat, image: seq<int>)

  /** The salted image of a plaintext; injective for a fixed salt. */
  function Image(plain: string, salt: nat): (img: seq<int>)
    ensures |img| == |plain|
  {
    seq(|plain|, i requires 0 <= i < |plain| => plain[i] as int + salt)
  }

  /** Hash::check: does `plain` match the stored digest? */
  predicate Check(plain: string, digest: Digest)
  {
    Image(plain, digest.salt) == digest.image
  }

  /** Hash::make: a fresh digest of `plain` under `salt`; it checks against `plain`. */
  function Make(plain: string, salt: nat): (d: Digest)
    ensures Check(plain, d)
    ensures d.salt == salt
  {
    Digest(salt, Image(plain, salt))
  }

  /** A digest accepts exactly the plaintext it was made from. */
  lemma CheckOnlyOriginal(plain: string, other: string, salt: nat)
    ensures Check(other, Make(plain, salt)) <==> other == plain
  {
    if Check(other, Make(plain, salt)) {
      var a, b := Image(other, salt), Image(plain, salt);
      assert |other| == |plain|;
      forall i | 0 <= i < |plain|
        ensures other[i] == plain[i]
      {
        assert a[i] == b[i];
      }
    }
  }
}
