/** The BN254 (alt_bn128) types the verifier works with, and the library
    operations it calls but whose code is not part of this model. */
module Curve {
  import opened Wrappers

  /** Modulus of the base field Fq (coordinates of curve points). */
  const BaseFieldModulus: nat :=
    21888242871839275222246405745257275088696311157297823662689037894645226208583
  /** Modulus of the scalar field Fr (public inputs). */
  const ScalarFieldModulus: nat :=
    21888242871839275222246405745257275088548364400416034343698204186575808495617

  /** A reduced element of the base field. */
  type Fq = x: nat | x < BaseFieldModulus
  /** A reduced element of the scalar field. */
  type Fr = x: nat | x < ScalarFieldModulus

  /** An element of the quadratic extension, c0 + c1 * u. */
  datatype Fq2 = Fq2(c0: Fq, c1: Fq)

  /** A G1 point in projective coordinates, as `G1Projective::new(x, y, z)` builds it. */
  datatype G1 = G1(x: Fq, y: Fq, z: Fq)

  /** A G2 point in projective coordinates over Fq2. */
  datatype G2 = G2(x: Fq2, y: Fq2, z: Fq2)

  /** `VerifyingKey<Bn254>`: one G1 point, three G2 points and the input basis. */
  datatype VerifyingKey = VerifyingKey(
    alphaG1: G1,
    betaG2: G2,
    gammaG2: G2,
    deltaG2: G2,
    gammaAbcG1: seq<G1>)

  /** `Proof<Bn254>`: the triple (A, B, C). */
  datatype Proof = Proof(a: G1, b: G2, c: G1)

  /** The proof document a caller sends: the decoded JSON of a circom/snarkjs proof. */
  datatype CircomProof = CircomProof(
    piA: seq<string>,
    piB: seq<seq<string>>,
    piC: seq<string>,
    protocol: string,
    curve: string)

  /** The operations the contract borrows from code outside this model.
      `None` from a parser stands for the `Err` that the caller unwraps. */
  datatype Backend = Backend(
    /** `Fq::from_str` */
    parseFq: string -> Option<Fq>,
    /** `Fr::from_str` */
    parseFr: string -> Option<Fr>,
    /** `CircomProof::to_proof`; `None` is a panic inside it */
    toProof: CircomProof -> Option<Proof>,
    /** `prepare_verifying_key` followed by the Groth16 pairing check, for an
        input vector of the length the key expects; `None` is the check's own
        error (a final exponentiation with no value), which the caller unwraps */
    groth16Verify: (VerifyingKey, Proof, seq<Fr>) -> Option<bool>)
}
