/** `VerifyingKeyJson` and `to_verifying_key`: the snarkjs verifying-key
    document (nested arrays of decimal strings) mapped onto the curve types.
    An index past the end of an array, or a string that `str_to_fq` cannot
    parse, panics; the model returns `None` for both. */
module VkCodec {
  import opened Wrappers
  import opened Curve

  /** The decoded JSON document; `ic` is the document's `IC` array. */
  datatype VerifyingKeyJson = VerifyingKeyJson(
    ic: seq<seq<string>>,
    vkAlpha1: seq<string>,
    vkBeta2: seq<seq<string>>,
    vkGamma2: seq<seq<string>>,
    vkDelta2: seq<seq<string>>,
    vkAlphabeta12: seq<seq<seq<string>>>)

  /** `Fq2::new(str_to_fq(row[0]), str_to_fq(row[1]))`. */
  function ToFq2(row: seq<string>, parseFq: string -> Option<Fq>): (r: Option<Fq2>)
    ensures r.Some? <==> |row| >= 2 && parseFq(row[0]).Some? && parseFq(row[1]).Some?
  {
    if |row| < 2 then None
    else match (parseFq(row[0]), parseFq(row[1]))
      case (Some(c0), Some(c1)) => Some(Fq2(c0, c1))
      case _ => None
  }

  /** `G1Projective::new` over the first three strings of `coords`. */
  function ToG1(coords: seq<string>, parseFq: string -> Option<Fq>): (r: Option<G1>)
    ensures r.Some? <==> |coords| >= 3 && forall j :: 0 <= j < 3 ==> parseFq(coords[j]).Some?
  {
    if |coords| < 3 then None
    else match (parseFq(coords[0]), parseFq(coords[1]), parseFq(coords[2]))
      case (Some(x), Some(y), Some(z)) => Some(G1(x, y, z))
      case _ => None
  }

  /** `G2Projective::new` over rows 0, 1, 2 as x, y, z. */
  function ToG2(rows: seq<seq<string>>, parseFq: string -> Option<Fq>): (r: Option<G2>)
    ensures r.Some? <==> |rows| >= 3 && forall j :: 0 <= j < 3 ==> ToFq2(rows[j], parseFq).Some?
  {
    if |rows| < 3 then None
    else match (ToFq2(rows[0], parseFq), ToFq2(rows[1], parseFq), ToFq2(rows[2], parseFq))
      case (Some(x), Some(y), Some(z)) => Some(G2(x, y, z))
      case _ => None
  }

  /** The `IC` array mapped point by point (`iter().map(..).collect()`):
      one G1 point per entry, in order; one failing entry fails the whole. */
  function ToG1List(ic: seq<seq<string>>, parseFq: string -> Option<Fq>): (r: Option<seq<G1>>)
    ensures r.Some? <==> forall i :: 0 <= i < |ic| ==> ToG1(ic[i], parseFq).Some?
    ensures r.Some? ==> |r.value| == |ic|
    ensures r.Some? ==> forall i :: 0 <= i < |ic| ==> r.value[i] == ToG1(ic[i], parseFq).value
  {
    if ic == [] then Some([])
    else match (ToG1(ic[0], parseFq), ToG1List(ic[1..], parseFq))
      case (Some(p), Some(rest)) =>
        assert forall i :: 1 <= i < |ic| ==> ic[1..][i - 1] == ic[i];
        Some([p] + rest)
      case (None, _) => None
      case (_, None) =>
        assert forall i :: 1 <= i < |ic| ==> ic[1..][i - 1] == ic[i];
        None
  }

  /** `VerifyingKeyJson::to_verifying_key`. `vk_alphabeta_12` is not read. */
  function ToVerifyingKey(doc: VerifyingKeyJson, parseFq: string -> Option<Fq>): (r: Option<VerifyingKey>)
    ensures r.Some? <==>
              && ToG1(doc.vkAlpha1, parseFq).Some?
              && ToG2(doc.vkBeta2, parseFq).Some?
              && ToG2(doc.vkGamma2, parseFq).Some?
              && ToG2(doc.vkDelta2, parseFq).Some?
              && ToG1List(doc.ic, parseFq).Some?
    ensures r.Some? ==> |r.value.gammaAbcG1| == |doc.ic|
  {
    match (ToG1(doc.vkAlpha1, parseFq), ToG2(doc.vkBeta2, parseFq), ToG2(doc.vkGamma2, parseFq),
           ToG2(doc.vkDelta2, parseFq), ToG1List(doc.ic, parseFq))
    case (Some(alpha), Some(beta), Some(gamma), Some(delta), Some(abc)) =>
      Some(VerifyingKey(alpha, beta, gamma, delta, abc))
    case _ => None
  }

  // ---------------------------------------------------------------------------
  // The document shape the codec needs, and the strings it reads.

  predicate G2Shaped(rows: seq<seq<string>>)
  {
    |rows| >= 3 && forall j :: 0 <= j < 3 ==> |rows[j]| >= 2
  }

  /** Every array the codec indexes is long enough. */
  predicate WellShaped(doc: VerifyingKeyJson)
  {
    && |doc.vkAlpha1| >= 3
    && G2Shaped(doc.vkBeta2)
    && G2Shaped(doc.vkGamma2)
    && G2Shaped(doc.vkDelta2)
    && forall i :: 0 <= i < |doc.ic| ==> |doc.ic[i]| >= 3
  }

  predicate G2Parses(rows: seq<seq<string>>, parseFq: string -> Option<Fq>)
    requires G2Shaped(rows)
  {
    forall j, k :: 0 <= j < 3 && 0 <= k < 2 ==> parseFq(rows[j][k]).Some?
  }

  /** Every string the codec reads is a field element. */
  predicate ReadStringsParse(doc: VerifyingKeyJson, parseFq: string -> Option<Fq>)
    requires WellShaped(doc)
  {
    && (forall j :: 0 <= j < 3 ==> parseFq(doc.vkAlpha1[j]).Some?)
    && G2Parses(doc.vkBeta2, parseFq)
    && G2Parses(doc.vkGamma2, parseFq)
    && G2Parses(doc.vkDelta2, parseFq)
    && forall i, j :: 0 <= i < |doc.ic| && 0 <= j < 3 ==> parseFq(doc.ic[i][j]).Some?
  }

  lemma ToG2SomeIff(rows: seq<seq<string>>, parseFq: string -> Option<Fq>)
    ensures ToG2(rows, parseFq).Some? <==> G2Shaped(rows) && G2Parses(rows, parseFq)
  {
    if ToG2(rows, parseFq).Some? {
      forall j, k | 0 <= j < 3 && 0 <= k < 2 ensures parseFq(rows[j][k]).Some? {
        assert ToFq2(rows[j], parseFq).Some?;
      }
    }
    if G2Shaped(rows) && G2Parses(rows, parseFq) {
      forall j | 0 <= j < 3 ensures ToFq2(rows[j], parseFq).Some? {
        assert parseFq(rows[j][0]).Some? && parseFq(rows[j][1]).Some?;
      }
    }
  }

  /** The key is built exactly when every array is long enough and every
      string read parses; too short an array or one bad string fails it. */
  lemma ToVerifyingKeySucceedsIff(doc: VerifyingKeyJson, parseFq: string -> Option<Fq>)
    ensures ToVerifyingKey(doc, parseFq).Some? <==> WellShaped(doc) && ReadStringsParse(doc, parseFq)
  {
    ToG2SomeIff(doc.vkBeta2, parseFq);
    ToG2SomeIff(doc.vkGamma2, parseFq);
    ToG2SomeIff(doc.vkDelta2, parseFq);
    if ToVerifyingKey(doc, parseFq).Some? {
      forall i | 0 <= i < |doc.ic| ensures |doc.ic[i]| >= 3 {
        assert ToG1(doc.ic[i], parseFq).Some?;
      }
      forall i, j | 0 <= i < |doc.ic| && 0 <= j < 3 ensures parseFq(doc.ic[i][j]).Some? {
        assert ToG1(doc.ic[i], parseFq).Some?;
      }
    }
    if WellShaped(doc) && ReadStringsParse(doc, parseFq) {
      forall i | 0 <= i < |doc.ic| ensures ToG1(doc.ic[i], parseFq).Some? {
        assert forall j :: 0 <= j < 3 ==> parseFq(doc.ic[i][j]).Some?;
      }
    }
  }

  // ---------------------------------------------------------------------------
  // Layout: the inverse direction, writing a key out as a document.

  function EncodeFq2(e: Fq2, show: Fq -> string): seq<string>
  {
    [show(e.c0), show(e.c1)]
  }

  function EncodeG1(p: G1, show: Fq -> string): seq<string>
  {
    [show(p.x), show(p.y), show(p.z)]
  }

  function EncodeG2(p: G2, show: Fq -> string): seq<seq<string>>
  {
    [EncodeFq2(p.x, show), EncodeFq2(p.y, show), EncodeFq2(p.z, show)]
  }

  /** The document snarkjs would write for `vk` (with any `vk_alphabeta_12`). */
  function EncodeVerifyingKey(vk: VerifyingKey, show: Fq -> string, alphabeta: seq<seq<seq<string>>>): VerifyingKeyJson
  {
    VerifyingKeyJson(
      seq(|vk.gammaAbcG1|, i requires 0 <= i < |vk.gammaAbcG1| => EncodeG1(vk.gammaAbcG1[i], show)),
      EncodeG1(vk.alphaG1, show),
      EncodeG2(vk.betaG2, show),
      EncodeG2(vk.gammaG2, show),
      EncodeG2(vk.deltaG2, show),
      alphabeta)
  }

  lemma ToG1RoundTrip(p: G1, show: Fq -> string, parseFq: string -> Option<Fq>)
    requires forall x: Fq :: parseFq(show(x)) == Some(x)
    ensures ToG1(EncodeG1(p, show), parseFq) == Some(p)
  {
    assert parseFq(show(p.x)) == Some(p.x);
    assert parseFq(show(p.y)) == Some(p.y);
    assert parseFq(show(p.z)) == Some(p.z);
  }

  lemma ToG2RoundTrip(p: G2, show: Fq -> string, parseFq: string -> Option<Fq>)
    requires forall x: Fq :: parseFq(show(x)) == Some(x)
    ensures ToG2(EncodeG2(p, show), parseFq) == Some(p)
  {
    forall e: Fq2 | e in {p.x, p.y, p.z} ensures ToFq2(EncodeFq2(e, show), parseFq) == Some(e) {
      assert parseFq(show(e.c0)) == Some(e.c0);
      assert parseFq(show(e.c1)) == Some(e.c1);
    }
  }

  /** Decoding a written-out key gives the key back: each G1 point's triple is
      read as x, y, z, each G2 row as (c0, c1), IC entry i becomes basis point
      i, and beta, gamma and delta come from their own arrays. */
  lemma ToVerifyingKeyRoundTrip(vk: VerifyingKey, show: Fq -> string, parseFq: string -> Option<Fq>,
                                alphabeta: seq<seq<seq<string>>>)
    requires forall x: Fq :: parseFq(show(x)) == Some(x)
    ensures ToVerifyingKey(EncodeVerifyingKey(vk, show, alphabeta), parseFq) == Some(vk)
  {
    var doc := EncodeVerifyingKey(vk, show, alphabeta);
    ToG1RoundTrip(vk.alphaG1, show, parseFq);
    ToG2RoundTrip(vk.betaG2, show, parseFq);
    ToG2RoundTrip(vk.gammaG2, show, parseFq);
    ToG2RoundTrip(vk.deltaG2, show, parseFq);
    forall i | 0 <= i < |doc.ic| ensures ToG1(doc.ic[i], parseFq) == Some(vk.gammaAbcG1[i]) {
      ToG1RoundTrip(vk.gammaAbcG1[i], show, parseFq);
    }
    assert ToG1List(doc.ic, parseFq).value == vk.gammaAbcG1;
  }

  // ---------------------------------------------------------------------------
  // What the codec reads: prefixes only, and never `vk_alphabeta_12`.

  function Prefix(s: seq<string>, n: nat): seq<string>
  {
    if |s| <= n then s else s[..n]
  }

  function TrimG2(rows: seq<seq<string>>): seq<seq<string>>
  {
    var n := if |rows| <= 3 then |rows| else 3;
    seq(n, j requires 0 <= j < n => Prefix(rows[j], 2))
  }

  /** The document cut down to what `to_verifying_key` indexes: three strings
      per G1 triple, three rows of two strings per G2 point, and an empty
      `vk_alphabeta_12`. */
  function Trimmed(doc: VerifyingKeyJson): VerifyingKeyJson
  {
    VerifyingKeyJson(
      seq(|doc.ic|, i requires 0 <= i < |doc.ic| => Prefix(doc.ic[i], 3)),
      Prefix(doc.vkAlpha1, 3),
      TrimG2(doc.vkBeta2),
      TrimG2(doc.vkGamma2),
      TrimG2(doc.vkDelta2),
      [])
  }

  lemma ToG2Trimmed(rows: seq<seq<string>>, parseFq: string -> Option<Fq>)
    ensures ToG2(TrimG2(rows), parseFq) == ToG2(rows, parseFq)
  {
    if |rows| >= 3 {
      var t := TrimG2(rows);
      forall j | 0 <= j < 3 ensures ToFq2(t[j], parseFq) == ToFq2(rows[j], parseFq) {
        assert t[j] == Prefix(rows[j], 2);
      }
    }
  }

  /** Extra trailing elements and the whole of `vk_alphabeta_12` make no
      difference to the key, nor to whether it can be built. */
  lemma ToVerifyingKeyIgnoresUnread(doc: VerifyingKeyJson, parseFq: string -> Option<Fq>)
    ensures ToVerifyingKey(Trimmed(doc), parseFq) == ToVerifyingKey(doc, parseFq)
  {
    var t := Trimmed(doc);
    ToG2Trimmed(doc.vkBeta2, parseFq);
    ToG2Trimmed(doc.vkGamma2, parseFq);
    ToG2Trimmed(doc.vkDelta2, parseFq);
    assert ToG1(t.vkAlpha1, parseFq) == ToG1(doc.vkAlpha1, parseFq);
    assert forall i :: 0 <= i < |doc.ic| ==> ToG1(t.ic[i], parseFq) == ToG1(doc.ic[i], parseFq);
    var l1, l2 := ToG1List(t.ic, parseFq), ToG1List(doc.ic, parseFq);
    assert l1.Some? == l2.Some?;
    if l1.Some? {
      assert l1.value == l2.value;
    }
  }
}
