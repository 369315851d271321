/**
 * The two primitives of Node's `crypto` module the verifier uses. HMAC-SHA256
 * (RFC 2104 over FIPS 180-4) is not computed here: it is a parameter, any
 * function from a key and a message to a 32-byte digest.
 */
module NodeCrypto {
  import opened Wrappers
  import opened Encoding

  /** A SHA-256 digest: exactly 32 bytes. */
  type Digest = d: seq<byte> | |d| == 32 witness seq(32, _ => 0 as byte)

  /** `createHmac('sha256', key).update(message).digest()`, left uninterpreted. */
  type Hmac = (seq<byte>, seq<byte>) -> Digest

  /** The message of the RangeError `timingSafeEqual` throws on buffers of different lengths. */
  const LengthMismatchMessage: string := "Input buffers must have the same byte length"

  /**
   * The number of positions at which two equal-length buffers differ. Node
   * ORs together the XOR of every byte pair instead; both are zero exactly on
   * equal buffers, and only that outcome is modelled, not the timing.
   */
  function DifferingPositions(a: seq<byte>, b: seq<byte>): (d: nat)
    requires |a| == |b|
    ensures d == 0 <==> a == b
    ensures d <= |a|
  {
    if a == [] then 0
    else
      var rest := DifferingPositions(a[1..], b[1..]);
      assert a == b <==> a[0] == b[0] && a[1..] == b[1..] by {
        assert a == [a[0]] + a[1..] && b == [b[0]] + b[1..];
      }
      (if a[0] == b[0] then 0 else 1) + rest
  }

  /**
   * `crypto.timingSafeEqual(a, b)`: throws (Failure) when the byte lengths
   * differ, otherwise tells whether the bytes are equal.
   */
  function TimingSafeEqual(a: seq<byte>, b: seq<byte>): (r: Result<bool, string>)
    ensures r.Failure? <==> |a| != |b|
    ensures r.Success? ==> (r.value <==> a == b)
  {
    if |a| != |b| then Failure(LengthMismatchMessage)
    else Success(DifferingPositions(a, b) == 0)
  }
}
