/** The proof-of-work predicate of `Blockchain.validate_proof`. SHA-256 with
    hex encoding is a parameter `sha`: a total function of its input, so the
    predicate depends on nothing but its two integers. */
module ProofCheck {
  import opened DecimalText

  /** The required leading hex digits of the digest. */
  const Target: string := "0000"

  /** Python's slice `s[:n]`: the whole of `s` when it is shorter than `n`. */
  function Take(s: string, n: nat): (r: string)
    ensures |r| == if |s| < n then |s| else n
    ensures r <= s
  {
    if |s| <= n then s else s[..n]
  }

  /** The text hashed when checking `proof` against `lastProof`: the decimal
      text of `lastProof` immediately followed by that of `proof`. */
  function Guess(lastProof: int, proof: int): string {
    Decimal(lastProof) + Decimal(proof)
  }

  /** Cut at the length of the first integer's text, the guess reads back as
      the two integers it was built from. */
  lemma GuessSplitsBack(lastProof: int, proof: int)
    ensures var g, k := Guess(lastProof, proof), |Decimal(lastProof)|;
      k < |g| &&
      WellFormed(g[..k]) && ParseDecimal(g[..k]) == lastProof &&
      WellFormed(g[k..]) && ParseDecimal(g[k..]) == proof
  {
    var g, k := Guess(lastProof, proof), |Decimal(lastProof)|;
    DecimalRoundTrip(lastProof);
    DecimalRoundTrip(proof);
    assert g[..k] == Decimal(lastProof);
  }

  /** `validate_proof`: the proof is valid exactly when the digest of the guess
      is at least four characters long and its first four are all '0'. */
  function ValidProof(sha: string -> string, lastProof: int, proof: int): (valid: bool)
    ensures var h := sha(Guess(lastProof, proof));
      valid <==> |h| >= 4 && forall i :: 0 <= i < 4 ==> h[i] == '0'
  {
    var h := sha(Guess(lastProof, proof));
    assert |h| >= 4 && (forall i :: 0 <= i < 4 ==> h[i] == '0') ==> h[..4] == Target;
    Take(h, |Target|) == Target
  }

  /** The check sees the two integers only through their concatenation, so
      different pairs are indistinguishable: (1, 23) and (12, 3) both give the
      text "123", and so are valid or invalid together under every hash. */
  lemma ConcatenationIsAmbiguous(sha: string -> string)
    ensures exists a, b, c, d :: (a, b) != (c, d) && Guess(a, b) == Guess(c, d)
    ensures Guess(1, 23) == Guess(12, 3) == "123"
    ensures ValidProof(sha, 1, 23) == ValidProof(sha, 12, 3)
  {
    assert (1, 23) != (12, 3) && Guess(1, 23) == Guess(12, 3);
  }
}
