/** `Verifier`: holds the embedded verifying-key document and, on every
    call, decodes it and runs the Groth16 check. The check itself is the
    backend's `groth16Verify`. */
module Verifier {
  import opened Wrappers
  import opened Curve
  import opened VkCodec

  /** The only field, `vk_json`, is set by `New` and never changed. */
  datatype Verifier = Verifier(vkJson: VerifyingKeyJson)

  /** `Verifier::new`: the key document compiled into the contract. */
  function New(embedded: VerifyingKeyJson): Verifier
  {
    Verifier(embedded)
  }

  /** `Verifier::verify_proof`: decode the stored document (a malformed one
      panics), then run the Groth16 check. The check refuses, with an error
      that is unwrapped into a panic, an input vector that is not one shorter
      than the key's `gamma_abc_g1`; otherwise its outcome, verdict or error,
      is the backend's. */
  function VerifyProof(v: Verifier, proof: Proof, inputs: seq<Fr>, backend: Backend): (r: Option<bool>)
    ensures !(WellShaped(v.vkJson) && ReadStringsParse(v.vkJson, backend.parseFq)) ==> r.None?
    ensures |inputs| + 1 != |v.vkJson.ic| ==> r.None?
    ensures ToVerifyingKey(v.vkJson, backend.parseFq).Some? && |inputs| + 1 == |v.vkJson.ic| ==>
              r == backend.groth16Verify(ToVerifyingKey(v.vkJson, backend.parseFq).value, proof, inputs)
  {
    ToVerifyingKeySucceedsIff(v.vkJson, backend.parseFq);
    match ToVerifyingKey(v.vkJson, backend.parseFq)
    case None => None
    case Some(vk) =>
      if |inputs| + 1 != |vk.gammaAbcG1| then None
      else backend.groth16Verify(vk, proof, inputs)
  }

  /** The verdict depends on the stored document only through the strings the
      codec reads: two verifiers whose documents agree there (whatever their
      `vk_alphabeta_12` or trailing elements) answer alike on every proof and
      input vector. In particular one verifier asked twice answers the same. */
  lemma VerifyProofDependsOnReadKeyOnly(v1: Verifier, v2: Verifier, proof: Proof, inputs: seq<Fr>, backend: Backend)
    requires Trimmed(v1.vkJson) == Trimmed(v2.vkJson)
    ensures VerifyProof(v1, proof, inputs, backend) == VerifyProof(v2, proof, inputs, backend)
  {
    ToVerifyingKeyIgnoresUnread(v1.vkJson, backend.parseFq);
    ToVerifyingKeyIgnoresUnread(v2.vkJson, backend.parseFq);
  }

  /** A verifier made by `New` verifies against the key decoded from the
      embedded document and never against anything the caller supplies. */
  lemma NewVerifiesWithEmbeddedKey(embedded: VerifyingKeyJson, proof: Proof, inputs: seq<Fr>, backend: Backend)
    requires ToVerifyingKey(embedded, backend.parseFq).Some?
    ensures VerifyProof(New(embedded), proof, inputs, backend)
            == if |inputs| + 1 == |embedded.ic|
               then backend.groth16Verify(ToVerifyingKey(embedded, backend.parseFq).value, proof, inputs)
               else None
  {
  }
}
