/** Algorithm selection and per-value hashing (`CSVCryptoHash.identify_hash`
    and `CSVCryptoHash.hash_text`). The digest computation of each algorithm
    lives in a foreign library, so it enters the model as a parameter
    `D: DigestFn`; the algorithms are SHA-224, SHA-256, SHA-384 and SHA-512
    (FIPS PUB 180-4, sections 6.3, 6.2, 6.5 and 6.4) and RIPEMD-160, known
    here by name and digest size only. */
module Hashing {

  import opened Results
  import opened Encoding

  datatype Algorithm = RIPEMD160 | SHA224 | SHA256 | SHA384 | SHA512

  /** A deterministic digest primitive: algorithm and message bytes to
      digest bytes. */
  type DigestFn = (Algorithm, seq<byte>) -> seq<byte>

  /** The name used in output file names (`hstr`). */
  function Name(a: Algorithm): string {
    match a
    case RIPEMD160 => "ripemd160"
    case SHA224 => "sha224"
    case SHA256 => "sha256"
    case SHA384 => "sha384"
    case SHA512 => "sha512"
  }

  /** The five names are pairwise distinct, so each algorithm's output files
      are named apart. */
  lemma NameInjective(a: Algorithm, b: Algorithm)
    ensures Name(a) == Name(b) <==> a == b
  {
  }

  /** Output length in bytes of each algorithm. */
  function DigestSize(a: Algorithm): nat {
    match a
    case RIPEMD160 => 20
    case SHA224 => 28
    case SHA256 => 32
    case SHA384 => 48
    case SHA512 => 64
  }

  /** `D` produces digests of the algorithm's size. */
  ghost predicate SizedDigests(D: DigestFn) {
    forall a, m :: |D(a, m)| == DigestSize(a)
  }

  /** A hash object of the library: an algorithm and the bytes fed to it so
      far. */
  datatype HashObject = HashObject(alg: Algorithm, data: seq<byte>)

  /** `h.new()`: a fresh object of the same algorithm. */
  function New(h: HashObject): HashObject {
    HashObject(h.alg, [])
  }

  /** `h.update(m)`. */
  function Update(h: HashObject, m: seq<byte>): HashObject {
    HashObject(h.alg, h.data + m)
  }

  /** `h.hexdigest()`. */
  function HexDigest(D: DigestFn, h: HashObject): string {
    Hex(D(h.alg, h.data))
  }

  /** The hashing state of `CSVCryptoHash`: the name `hstr` and the template
      hash object `h`, which `identify_hash` always sets together. */
  datatype CryptoHash = CryptoHash(hstr: string, h: HashObject)

  /** `hstr` names the algorithm of `h`. */
  predicate Consistent(c: CryptoHash) {
    c.hstr == Name(c.h.alg)
  }

  /** The state after `CSVCryptoHash.__init__`: SHA-512. */
  function Initial(): (c: CryptoHash)
    ensures Consistent(c) && c.h.alg == SHA512
  {
    CryptoHash("sha512", HashObject(SHA512, []))
  }

  /** `identify_hash(code)`: codes 1 to 5 select RIPEMD-160, SHA-224,
      SHA-256, SHA-384 and SHA-512; any other code leaves the state as it
      was. */
  function IdentifyHash(c: CryptoHash, code: int): (r: CryptoHash)
    ensures Consistent(c) ==> Consistent(r)
    ensures !(1 <= code <= 5) ==> r == c
    ensures 1 <= code <= 5 ==> r.h.data == []
  {
    if code == 1 then CryptoHash("ripemd160", HashObject(RIPEMD160, []))
    else if code == 2 then CryptoHash("sha224", HashObject(SHA224, []))
    else if code == 3 then CryptoHash("sha256", HashObject(SHA256, []))
    else if code == 4 then CryptoHash("sha384", HashObject(SHA384, []))
    else if code == 5 then CryptoHash("sha512", HashObject(SHA512, []))
    else c
  }

  /** Starting from the initial state, whatever sequence of codes is
      applied, `hstr` is one of the five algorithm names and agrees with the
      hash object. */
  lemma {:induction false} HstrAlwaysNamed(codes: seq<int>)
    ensures var c := ApplyCodes(Initial(), codes);
      Consistent(c) && c.hstr in {"ripemd160", "sha224", "sha256", "sha384", "sha512"}
    decreases |codes|
  {
    if |codes| != 0 {
      HstrAlwaysNamed(codes[..|codes| - 1]);
    }
  }

  /** The state after `identify_hash` has been called with each code in
      turn (the hashing object lives for the whole session). */
  function ApplyCodes(c: CryptoHash, codes: seq<int>): CryptoHash
    decreases |codes|
  {
    if |codes| == 0 then c else IdentifyHash(ApplyCodes(c, codes[..|codes| - 1]), codes[|codes| - 1])
  }

  /** The digest text of `v` under algorithm `a`:
      `hex(D(a, utf8(v)))`. */
  function HashValue(D: DigestFn, a: Algorithm, v: string): (r: string)
    ensures Unhex(r) == Some(D(a, Utf8(v)))
    ensures forall ch :: ch in r ==> ch in "0123456789abcdef"
  {
    HexRoundTrip(D(a, Utf8(v)));
    Hex(D(a, Utf8(v)))
  }

  /** Digest texts of a sized digest have twice the digest size in
      characters. */
  lemma HashValueLength(D: DigestFn, a: Algorithm, v: string)
    requires SizedDigests(D)
    ensures |HashValue(D, a, v)| == 2 * DigestSize(a)
  {
    assert |D(a, Utf8(v))| == DigestSize(a);
  }

  /** Two cell values get the same digest text exactly when the digest
      primitive collides on their encodings; equal values always do. */
  lemma HashValueCollision(D: DigestFn, a: Algorithm, v: string, w: string)
    ensures HashValue(D, a, v) == HashValue(D, a, w) <==> D(a, Utf8(v)) == D(a, Utf8(w))
  {
    if HashValue(D, a, v) == HashValue(D, a, w) {
      HexInjective(D(a, Utf8(v)), D(a, Utf8(w)));
    }
  }

  /** `hash_text(value)`: a fresh object of the selected algorithm is made
      with `new()`, fed the UTF-8 bytes of the value, and its hexadecimal
      digest returned. Whatever the template object has absorbed, the result
      is the digest of the value alone. */
  function HashText(D: DigestFn, c: CryptoHash, v: string): (r: string)
    ensures r == HashValue(D, c.h.alg, v)
  {
    var h := New(c.h);
    assert Update(h, Utf8(v)).data == Utf8(v);
    HexDigest(D, Update(h, Utf8(v)))
  }
}
