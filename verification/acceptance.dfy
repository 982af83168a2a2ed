/**
 The proof-of-work target: a candidate digest is accepted at difficulty `d`
 when its first `d` characters, taken with `std::string::substr(0, d)`, equal
 a string of `d` zero characters. Difficulty is the minimum number of leading
 `'0'` characters the hash must have.
 */
module Acceptance {

  /** `s.substr(0, count)`: at most `count` characters from the front of `s`. */
  function Prefix(s: string, count: nat): (r: string)
    ensures |r| == if count <= |s| then count else |s|
    ensures r <= s
  {
    if count <= |s| then s[..count] else s
  }

  /** `std::string(n, '0')`. */
  function Zeros(n: nat): (r: string)
    ensures |r| == n
    ensures forall i :: 0 <= i < n ==> r[i] == '0'
  {
    seq(n, _ => '0')
  }

  /** The acceptance test of the mining loop. */
  predicate Accepts(digest: string, difficulty: nat) {
    Prefix(digest, difficulty) == Zeros(difficulty)
  }

  /** Number of `'0'` characters at the start of `s`. */
  function LeadingZeros(s: string): (n: nat)
    ensures n <= |s|
    ensures forall i :: 0 <= i < n ==> s[i] == '0'
    ensures n < |s| ==> s[n] != '0'
    decreases |s|
  {
    if |s| > 0 && s[0] == '0' then 1 + LeadingZeros(s[1..]) else 0
  }

  /**
   Acceptance holds exactly when the digest is at least `difficulty` long and
   starts with `difficulty` zeros; a digest shorter than the difficulty is
   never accepted.
   */
  lemma AcceptsIff(digest: string, difficulty: nat)
    ensures Accepts(digest, difficulty)
        <==> |digest| >= difficulty && forall i :: 0 <= i < difficulty ==> digest[i] == '0'
  {
  }

  /** Difficulty is the number of leading zeros required. */
  lemma AcceptsIffLeadingZeros(digest: string, difficulty: nat)
    ensures Accepts(digest, difficulty) <==> LeadingZeros(digest) >= difficulty
  {
  }

  /** A digest accepted at some difficulty is accepted at every lower one. */
  lemma AcceptsAntitone(digest: string, lower: nat, higher: nat)
    requires lower <= higher
    requires Accepts(digest, higher)
    ensures Accepts(digest, lower)
  {
  }

  /** At difficulty zero every digest, even the empty one, is accepted. */
  lemma AcceptsZeroDifficulty(digest: string)
    ensures Accepts(digest, 0)
  {
  }
}
