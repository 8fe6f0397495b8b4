/**
 * One-time codes (src/lib/otp.ts): the six-digit code drawn uniformly from
 * 0..999999 and the peppered SHA-256 digest stored in its place. The random
 * draw and SHA-256 (FIPS 180-4) are parameters of the model.
 */
module Otp {
  import opened Text

  /** The code is drawn from `0 <= n < CodeSpace`. */
  const CodeSpace: nat := 1000000
  const CodeLength: nat := 6

  /** `s.padStart(width, fill)` for a one-character fill. */
  function PadStart(s: string, width: nat, fill: char): (r: string)
    ensures |r| == if |s| >= width then |s| else width
    ensures r[|r| - |s|..] == s
    ensures forall i :: 0 <= i < |r| - |s| ==> r[i] == fill
    decreases width - |s|
  {
    if |s| >= width then s else PadStart([fill] + s, width, fill)
  }

  /**
   * `generateOtp` with the drawn number as a parameter: six decimal digits,
   * leading zeros kept, whose value is the drawn number (so distinct draws
   * give distinct codes).
   */
  function GenerateOtp(drawn: nat): (code: string)
    requires drawn < CodeSpace
    ensures |code| == CodeLength
    ensures forall i :: 0 <= i < |code| ==> IsDigit(code[i])
    ensures DigitsValue(code) == drawn
  {
    var digits := NatToString(drawn);
    NatToStringLength(drawn, 6);
    NatToStringValue(drawn);
    var code := PadStart(digits, CodeLength, '0');
    LeadingZeros(code, |code| - |digits|);
    code
  }

  /** Zeros in front of a digit string do not change its value. */
  lemma {:induction false} LeadingZeros(s: string, k: nat)
    requires k <= |s|
    requires forall i :: 0 <= i < |s| ==> IsDigit(s[i])
    requires forall i :: 0 <= i < k ==> s[i] == '0'
    ensures DigitsValue(s) == DigitsValue(s[k..])
    decreases |s|
  {
    if k < |s| {
      LeadingZeros(s[..|s| - 1], k);
      assert s[..|s| - 1][k..] == s[k..][..|s[k..]| - 1];
    } else if k > 0 {
      LeadingZeros(s[..|s| - 1], k - 1);
      assert s[..|s| - 1][k - 1..] == [];
    }
  }

  /** Formatting is injective on the draw range. */
  lemma GenerateOtpInjective(a: nat, b: nat)
    requires a < CodeSpace && b < CodeSpace
    requires GenerateOtp(a) == GenerateOtp(b)
    ensures a == b
  {
  }

  /** The string `hashOtp` digests: `${email}:${otp}:${OTP_PEPPER}`. */
  function HashPreimage(email: string, otp: string, pepper: string): string {
    email + ":" + otp + ":" + pepper
  }

  /** `hashOtp`: SHA-256 of the preimage, as the hex string the source stores. */
  function HashOtp(sha256: string -> string, pepper: string, email: string, otp: string): string {
    sha256(HashPreimage(email, otp, pepper))
  }

  /** For codes of one length (six digits, say), the preimage determines the e-mail and the code. */
  lemma PreimageInjective(e1: string, c1: string, e2: string, c2: string, pepper: string)
    requires |c1| == |c2|
    requires HashPreimage(e1, c1, pepper) == HashPreimage(e2, c2, pepper)
    ensures e1 == e2 && c1 == c2
  {
    var p1 := HashPreimage(e1, c1, pepper);
    var p2 := HashPreimage(e2, c2, pepper);
    assert |e1| == |e2|;
    assert e1 == p1[..|e1|] && e2 == p2[..|e2|];
    assert c1 == p1[|e1| + 1..|e1| + 1 + |c1|];
    assert c2 == p2[|e2| + 1..|e2| + 1 + |c2|];
  }

  ghost predicate Injective(f: string -> string) {
    forall x, y :: f(x) == f(y) ==> x == y
  }

  /**
   * With a collision-free digest, a submitted code hashes to the stored
   * digest of the same e-mail exactly when it is the issued code; equal
   * (e-mail, code) pairs always hash equally.
   */
  lemma HashMatchesIffSameCode(sha256: string -> string, pepper: string, email: string,
                               issued: string, submitted: string)
    requires Injective(sha256)
    ensures HashOtp(sha256, pepper, email, submitted) == HashOtp(sha256, pepper, email, issued)
            <==> submitted == issued
  {
    if HashOtp(sha256, pepper, email, submitted) == HashOtp(sha256, pepper, email, issued) {
      var p1 := HashPreimage(email, submitted, pepper);
      var p2 := HashPreimage(email, issued, pepper);
      assert p1 == p2;
      assert |submitted| == |issued|;
      PreimageInjective(email, submitted, email, issued, pepper);
    }
  }
}
