/**
 * The conformance harness's data plumbing: building leaves from a recorded
 * model state and comparing a recorded model proof with a proof produced by
 * the implementation, field by field.
 */
module Conformance {
  import opened GoBase
  import opened IntCodec

  /** One recorded leaf: its namespace as an integer and its payload string as bytes. */
  datatype ItfLeaf = ItfLeaf(namespaceId: int, value: seq<byte>)

  /** The namespace range a model proof records for one supporting node. */
  datatype NamespaceRange = NamespaceRange(minNS: int, maxNS: int)

  /** A proof as the model records it. */
  datatype ModelProof = ModelProof(start: int, end: int, supportingHashes: seq<NamespaceRange>)

  /** A proof as the implementation returns it; each node is laid out as
      minNS (nidSize bytes) ++ maxNS (nidSize bytes) ++ hash. */
  datatype ExecProof = ExecProof(start: int, end: int, nodes: seq<seq<byte>>)

  /** The payload of a leaf: the first (up to) eight bytes of value, zero-padded to eight. */
  function PaddedPayload(value: seq<byte>): (d: seq<byte>)
    ensures |d| == 8
    ensures forall i :: 0 <= i < 8 ==> d[i] == if i < |value| then value[i] else 0
  {
    if |value| >= 8 then value[..8] else value + seq(8 - |value|, _ => 0)
  }

  /** The leaf built from one recorded entry: its namespace in nidSize
      big-endian bytes, then its padded payload. */
  function Leaf(e: ItfLeaf, nidSize: nat): seq<byte> {
    EncodeBE(e.namespaceId, nidSize) + PaddedPayload(e.value)
  }

  /** Go's built-in copy(dst, src): copies min(len(dst), len(src)) bytes to
      the front of dst and returns their number. */
  method Copy(dst: array<byte>, src: seq<byte>) returns (n: nat)
    modifies dst
    ensures n == if dst.Length < |src| then dst.Length else |src|
    ensures dst[..n] == src[..n]
    ensures dst[n..] == old(dst[n..])
  {
    n := if dst.Length < |src| then dst.Length else |src|;
    for i := 0 to n
      invariant dst[..i] == src[..i]
      invariant dst[i..] == old(dst[i..])
    {
      dst[i] := src[i];
    }
  }

  /** getLeavesFromState: one leaf per recorded entry, in order. */
  method GetLeavesFromState(state: seq<ItfLeaf>, nidSize: nat) returns (leaves: seq<seq<byte>>)
    ensures |leaves| == |state|
    ensures forall i :: 0 <= i < |state| ==> leaves[i] == Leaf(state[i], nidSize)
  {
    leaves := [];
    for idx := 0 to |state|
      invariant |leaves| == idx
      invariant forall i :: 0 <= i < idx ==> leaves[i] == Leaf(state[i], nidSize)
    {
      var itfLeaf := state[idx];
      var namespaceBytes := IntToBytes(itfLeaf.namespaceId, nidSize);
      var data := new byte[8](_ => 0);
      var _ := Copy(data, itfLeaf.value);
      assert data[..] == PaddedPayload(itfLeaf.value);
      leaves := leaves + [namespaceBytes + data[..]];
    }
  }

  /** A leaf is nidSize + 8 bytes: the encoded namespace, which decodes back
      to the recorded namespace when it fits the width, then the padded payload. */
  lemma LeafLayout(e: ItfLeaf, nidSize: nat)
    ensures var leaf := Leaf(e, nidSize);
            && |leaf| == nidSize + 8
            && leaf[..nidSize] == EncodeBE(e.namespaceId, nidSize)
            && leaf[nidSize..] == PaddedPayload(e.value)
            && (Representable(e.namespaceId, nidSize) ==>
                  BytesToIntSpec(leaf[..nidSize]) == e.namespaceId)
  {
    var leaf := Leaf(e, nidSize);
    assert leaf[..nidSize] == EncodeBE(e.namespaceId, nidSize);
    if Representable(e.namespaceId, nidSize) {
      BytesToIntOfEncodeBE(e.namespaceId, nidSize);
    }
  }

  /** v survives an nidSize-byte round trip through intToBytes and bytesToInt. */
  predicate Representable(v: int, nidSize: nat) {
    nidSize <= 8 && IsInt64(v) && (0 <= v < Pow256(nidSize) || nidSize == 8)
  }

  /** Every node is long enough for the two namespace fields that checkProof slices out. */
  predicate NodesLaidOut(nodes: seq<seq<byte>>, nidSize: nat) {
    forall i :: 0 <= i < |nodes| ==> |nodes[i]| >= 2 * nidSize
  }

  /** The model's namespace range agrees with the decoded minNS and maxNS fields of a node. */
  predicate NodeMatches(h: NamespaceRange, node: seq<byte>, nidSize: nat)
    requires |node| >= 2 * nidSize
  {
    && h.minNS == BytesToIntSpec(node[..nidSize])
    && h.maxNS == BytesToIntSpec(node[nidSize..2 * nidSize])
  }

  /** What checkProof decides: equal start and end, as many nodes as supporting
      hashes, and every node's namespace fields equal to the model's. */
  predicate ProofMatches(modelProof: ModelProof, execProof: ExecProof, nidSize: nat)
    requires NodesLaidOut(execProof.nodes, nidSize)
  {
    && modelProof.start == execProof.start
    && modelProof.end == execProof.end
    && |modelProof.supportingHashes| == |execProof.nodes|
    && forall i :: 0 <= i < |execProof.nodes| ==>
         NodeMatches(modelProof.supportingHashes[i], execProof.nodes[i], nidSize)
  }

  /** How a call to checkProof ends: with a verdict, or in a panic when a
      node is sliced past its end. */
  datatype Outcome = Returns(verdict: bool) | Panics

  /** What checkProof does with one node: slice and compare minNS (bytes
      [0, N)), then, only when it agrees, slice and compare maxNS (bytes [N, 2N)). */
  function NodeOutcome(h: NamespaceRange, node: seq<byte>, nidSize: nat): Outcome {
    if |node| < nidSize then Panics
    else if h.minNS != BytesToIntSpec(node[..nidSize]) then Returns(false)
    else if |node| < 2 * nidSize then Panics
    else Returns(NodeMatches(h, node, nidSize))  // minNS agrees: maxNS decides
  }

  /** The outcome of checkProof's loop from node i on: the first node that
      does not match, or panics, decides; past the last node the verdict is true. */
  function NodesOutcome(hashes: seq<NamespaceRange>, nodes: seq<seq<byte>>, nidSize: nat, i: nat): Outcome
    requires |hashes| == |nodes| && i <= |nodes|
    decreases |nodes| - i
  {
    if i == |nodes| then Returns(true)
    else
      var here := NodeOutcome(hashes[i], nodes[i], nidSize);
      if here == Returns(true) then NodesOutcome(hashes, nodes, nidSize, i + 1) else here
  }

  /** The outcome of checkProof on any input: false on a different start or
      end or a different node count, before any node is sliced; otherwise the
      outcome of the node loop. */
  function CheckProofOutcome(modelProof: ModelProof, execProof: ExecProof, nidSize: nat): Outcome {
    if modelProof.start != execProof.start || modelProof.end != execProof.end then Returns(false)
    else if |modelProof.supportingHashes| != |execProof.nodes| then Returns(false)
    else NodesOutcome(modelProof.supportingHashes, execProof.nodes, nidSize, 0)
  }

  /** The node loop decides whether every node from i on matches, when all
      nodes are long enough to slice. */
  lemma {:induction false} NodesOutcomeLaidOut(hashes: seq<NamespaceRange>, nodes: seq<seq<byte>>, nidSize: nat, i: nat)
    requires |hashes| == |nodes| && i <= |nodes| && NodesLaidOut(nodes, nidSize)
    ensures NodesOutcome(hashes, nodes, nidSize, i).Returns?
    ensures NodesOutcome(hashes, nodes, nidSize, i).verdict <==>
              forall j :: i <= j < |nodes| ==> NodeMatches(hashes[j], nodes[j], nidSize)
    decreases |nodes| - i
  {
    if i < |nodes| {
      NodesOutcomeLaidOut(hashes, nodes, nidSize, i + 1);
      NodesOutcomeStep(hashes, nodes, nidSize, i);
      AllMatchStep(hashes, nodes, nidSize, i);
    }
  }

  /** One node of the loop on laid-out nodes: a match moves on to the next
      node, a mismatch returns false. */
  lemma NodesOutcomeStep(hashes: seq<NamespaceRange>, nodes: seq<seq<byte>>, nidSize: nat, i: nat)
    requires |hashes| == |nodes| && i < |nodes| && |nodes[i]| >= 2 * nidSize
    ensures NodesOutcome(hashes, nodes, nidSize, i) ==
              if NodeMatches(hashes[i], nodes[i], nidSize) then NodesOutcome(hashes, nodes, nidSize, i + 1)
              else Returns(false)
  {
    assert NodeOutcome(hashes[i], nodes[i], nidSize) == Returns(NodeMatches(hashes[i], nodes[i], nidSize));
  }

  /** Every node from i on matches exactly when node i does and every node from i + 1 on does. */
  lemma AllMatchStep(hashes: seq<NamespaceRange>, nodes: seq<seq<byte>>, nidSize: nat, i: nat)
    requires |hashes| == |nodes| && i < |nodes| && NodesLaidOut(nodes, nidSize)
    ensures (forall j :: i <= j < |nodes| ==> NodeMatches(hashes[j], nodes[j], nidSize)) <==>
              NodeMatches(hashes[i], nodes[i], nidSize) &&
              forall j :: i + 1 <= j < |nodes| ==> NodeMatches(hashes[j], nodes[j], nidSize)
  {
  }

  /** checkProof never panics on a proof whose nodes are all laid out as
      minNS ++ maxNS ++ hash, and then decides ProofMatches; a panic needs
      matching start, end and count and a node shorter than 2 * nidSize. */
  lemma CheckProofOutcomeLaidOut(modelProof: ModelProof, execProof: ExecProof, nidSize: nat)
    ensures NodesLaidOut(execProof.nodes, nidSize) ==>
              CheckProofOutcome(modelProof, execProof, nidSize) ==
                Returns(ProofMatches(modelProof, execProof, nidSize))
    ensures CheckProofOutcome(modelProof, execProof, nidSize).Panics? ==>
              && modelProof.start == execProof.start
              && modelProof.end == execProof.end
              && |modelProof.supportingHashes| == |execProof.nodes|
              && !NodesLaidOut(execProof.nodes, nidSize)
  {
    var hashes, nodes := modelProof.supportingHashes, execProof.nodes;
    if |hashes| == |nodes| && NodesLaidOut(nodes, nidSize) {
      NodesOutcomeLaidOut(hashes, nodes, nidSize, 0);
    }
  }

  /** checkProof: compares start and end, then the node count, then each
      node's minNS and maxNS in turn, returning false at the first difference. */
  method CheckProof(modelProof: ModelProof, execProof: ExecProof, nidSize: nat) returns (ok: bool)
    requires !CheckProofOutcome(modelProof, execProof, nidSize).Panics?
    ensures ok == CheckProofOutcome(modelProof, execProof, nidSize).verdict
    ensures NodesLaidOut(execProof.nodes, nidSize) ==> ok == ProofMatches(modelProof, execProof, nidSize)
  {
    CheckProofOutcomeLaidOut(modelProof, execProof, nidSize);
    if modelProof.start != execProof.start || modelProof.end != execProof.end {
      return false;
    }
    var supportingHashes := modelProof.supportingHashes;
    if |supportingHashes| != |execProof.nodes| {
      return false;
    }
    ghost var outcome := NodesOutcome(supportingHashes, execProof.nodes, nidSize, 0);
    for idx := 0 to |supportingHashes|
      invariant NodesOutcome(supportingHashes, execProof.nodes, nidSize, idx) == outcome
    {
      var node, expected := execProof.nodes[idx], supportingHashes[idx];
      assert NodeOutcome(expected, node, nidSize) != Panics;
      var execMinNS := BytesToInt(node[..nidSize]);
      if expected.minNS != execMinNS {
        return false;
      }
      var execMaxNS := BytesToInt(node[nidSize..2 * nidSize]);
      if expected.maxNS != execMaxNS {
        return false;
      }
    }
    return true;
  }

  /** For widths up to eight bytes, a node matches a model range exactly when
      its first 2 * nidSize bytes are the range's minNS and maxNS encoded by
      intToBytes (the matching direction needs the range to be representable). */
  lemma NodeMatchesIffEncoded(h: NamespaceRange, node: seq<byte>, nidSize: nat)
    requires nidSize <= 8 && |node| >= 2 * nidSize
    ensures NodeMatches(h, node, nidSize) ==>
              node[..2 * nidSize] == EncodeBE(h.minNS, nidSize) + EncodeBE(h.maxNS, nidSize)
    ensures Representable(h.minNS, nidSize) && Representable(h.maxNS, nidSize) ==>
              (NodeMatches(h, node, nidSize) <==>
               node[..2 * nidSize] == EncodeBE(h.minNS, nidSize) + EncodeBE(h.maxNS, nidSize))
  {
    var minField, maxField := node[..nidSize], node[nidSize..2 * nidSize];
    assert node[..2 * nidSize] == minField + maxField;
    EncodeBEOfBytesToInt(minField);
    EncodeBEOfBytesToInt(maxField);
    if Representable(h.minNS, nidSize) && Representable(h.maxNS, nidSize) {
      BytesToIntOfEncodeBE(h.minNS, nidSize);
      BytesToIntOfEncodeBE(h.maxNS, nidSize);
      var encoded := EncodeBE(h.minNS, nidSize) + EncodeBE(h.maxNS, nidSize);
      if node[..2 * nidSize] == encoded {
        assert minField == encoded[..nidSize];
        assert maxField == encoded[nidSize..];
      }
    }
  }

  /** With representable model ranges and widths up to eight bytes, checkProof
      accepts exactly the proofs with the model's start, end and node count
      whose nodes begin with the model's ranges encoded by intToBytes. */
  lemma ProofMatchesIffEncoded(modelProof: ModelProof, execProof: ExecProof, nidSize: nat)
    requires nidSize <= 8 && NodesLaidOut(execProof.nodes, nidSize)
    requires forall h :: h in modelProof.supportingHashes ==>
               Representable(h.minNS, nidSize) && Representable(h.maxNS, nidSize)
    ensures ProofMatches(modelProof, execProof, nidSize) <==>
              && modelProof.start == execProof.start
              && modelProof.end == execProof.end
              && |modelProof.supportingHashes| == |execProof.nodes|
              && forall i :: 0 <= i < |execProof.nodes| ==>
                   execProof.nodes[i][..2 * nidSize] ==
                     EncodeBE(modelProof.supportingHashes[i].minNS, nidSize) +
                     EncodeBE(modelProof.supportingHashes[i].maxNS, nidSize)
  {
    var hashes, nodes := modelProof.supportingHashes, execProof.nodes;
    if |hashes| == |nodes| {
      forall i | 0 <= i < |nodes|
        ensures NodeMatches(hashes[i], nodes[i], nidSize) <==>
                  nodes[i][..2 * nidSize] ==
                    EncodeBE(hashes[i].minNS, nidSize) + EncodeBE(hashes[i].maxNS, nidSize)
      {
        assert hashes[i] in hashes;
        NodeMatchesIffEncoded(hashes[i], nodes[i], nidSize);
      }
    }
  }

  /** checkProof never looks past the two namespace fields of a node: proofs
      that differ only in the hash bytes get the same verdict. */
  lemma ProofMatchesIgnoresHashes(modelProof: ModelProof, execProof: ExecProof, other: ExecProof, nidSize: nat)
    requires NodesLaidOut(execProof.nodes, nidSize) && NodesLaidOut(other.nodes, nidSize)
    requires execProof.start == other.start && execProof.end == other.end
    requires |execProof.nodes| == |other.nodes|
    requires forall i :: 0 <= i < |execProof.nodes| ==>
               execProof.nodes[i][..2 * nidSize] == other.nodes[i][..2 * nidSize]
    ensures ProofMatches(modelProof, execProof, nidSize) == ProofMatches(modelProof, other, nidSize)
  {
    if |modelProof.supportingHashes| == |execProof.nodes| {
      forall i | 0 <= i < |execProof.nodes|
        ensures NodeMatches(modelProof.supportingHashes[i], execProof.nodes[i], nidSize) ==
                NodeMatches(modelProof.supportingHashes[i], other.nodes[i], nidSize)
      {
        NodeMatchesReadsFields(modelProof.supportingHashes[i], execProof.nodes[i], other.nodes[i], nidSize);
      }
    }
  }

  /** Whether a node matches a model range depends only on its first 2 * nidSize bytes. */
  lemma NodeMatchesReadsFields(h: NamespaceRange, node: seq<byte>, other: seq<byte>, nidSize: nat)
    requires |node| >= 2 * nidSize && |other| >= 2 * nidSize
    requires node[..2 * nidSize] == other[..2 * nidSize]
    ensures NodeMatches(h, node, nidSize) == NodeMatches(h, other, nidSize)
  {
    assert node[..nidSize] == node[..2 * nidSize][..nidSize] == other[..nidSize];
    assert node[nidSize..2 * nidSize] == node[..2 * nidSize][nidSize..] == other[nidSize..2 * nidSize];
  }
}
