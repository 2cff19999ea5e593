# Namespaced data views and the conformance harness's byte codec

This project models two pieces of the Namespaced Merkle Tree (NMT) repository:

- **Namespaced data** (`namespace/data.go`). A byte buffer is read as a namespace prefix followed by a payload. There are three fixed-width views, `PrefixedData32`, `PrefixedData16` and `PrefixedData8`. There is also the variable-width `PrefixedData`, which carries its own prefix length. Each view has four accessors: `NamespaceID`, `Data`, `NamespaceSize` and `MarshalBinary`. The module `Namespace` models the four views as one datatype, `Namespace.Data`, with one constructor per view. It also models the two constructor functions `NewPrefixedData` and `PrefixedDataFrom`.
- **The conformance harness's helpers** (`simulation_test.go`). This harness replays states recorded by a formal model against the NMT implementation. Module `IntCodec` covers its big-endian integer codec, `intToBytes` and `bytesToInt`. Module `Conformance` covers:
  - the leaf builder `getLeavesFromState`;
  - the field-by-field proof comparison `checkProof`.

  These are loops in the source, and here they are methods with loop invariants. Each method is proved against a specification function. The lemmas state the round trips and the properties of the comparison.

Go's machine integers are written out in module `GoBase`:
- `intToBytes` truncates each shifted value to a byte. The model writes this as the Euclidean remainder modulo 256, which is the two's-complement low byte.
- `n >> 8j` is modelled as `j` floor divisions by 256. For a 64-bit `n` this matches Go even when `8j >= 64`.
- In `bytesToInt`, Go's `<<` and `|` are modelled as written, on the 64-bit pattern of the result: `Shl64` drops the bits shifted past bit 63 and yields 0 for a shift of 64 or more, and `Or` is bitwise OR. The signed `int` is that pattern read in two's complement. From these definitions the model proves that only the last eight bytes of a longer slice count, and that an 8-byte slice whose top bit is set decodes to a negative number.

Go checks `d[:N]` against the slice's capacity, not its length. The model has no notion of capacity and requires the buffer to hold at least N bytes.

## Model

| member | source | states |
|---|---|---|
| `Namespace.Data.NamespaceID` | namespace/data.go:75-77 | The namespace has exactly `NamespaceSize()` bytes and is a prefix of the buffer. It is defined only when the buffer holds at least that many bytes. The same holds for the fixed-width views at lines 21-23, 38-40 and 55-57. |
| `Namespace.Data.Data` | namespace/data.go:79-81 | The payload is what follows the prefix: its length is the buffer length minus the prefix width, and `NamespaceID() + Data()` is the whole buffer. This also holds for lines 25-27, 42-44 and 59-61. |
| `Namespace.Data.MarshalBinary` | namespace/data.go:83-85 | It never returns an error. On a well-formed view the encoding is `NamespaceID() + Data()`. This also holds for lines 28-30, 45-47 and 62-64. |
| `Namespace.NamespaceSizeIsPrefixWidth` | namespace/data.go:87-89 | `NamespaceSize()` depends on the view and never on the buffer: the stored `namespaceLen` for `PrefixedData`, and one of 8, 16 or 32 for the fixed views (lines 32-34, 49-51 and 66-68). On a well-formed view it is the length of `NamespaceID()`, which is the first `NamespaceSize()` bytes of the encoding. |
| `Namespace.FixedWidthViews` | namespace/data.go:19-68 | For each fixed width W in {32, 16, 8} over a buffer of at least W bytes: `NamespaceSize()` is W, the namespace is the first W bytes, the payload is the rest, and `MarshalBinary` returns the buffer unchanged. The view also reads exactly like `NewPrefixedData(W, buffer)`. |
| `Namespace.NewPrefixedData` | namespace/data.go:91-96 | The width and the buffer are stored verbatim: `NamespaceSize()` is the given length and `MarshalBinary()` is the given buffer. When the buffer is long enough, the namespace and payload are the buffer split at that length. |
| `Namespace.PrefixedDataFrom` | namespace/data.go:98-103 | Round trip: the namespace read back is `nID`, the payload read back is `data`, the width is `|nID|`, and the encoding is `nID + data`. |
| `IntCodec.IntToBytes` | simulation_test.go:65-71 | The loop that fills `nidSize` bytes computes `EncodeBE(n, nidSize)`: the `nidSize` low-order bytes of `n`, most significant first. |
| `IntCodec.EncodeBEAt` | simulation_test.go:67-69 | Byte i of the encoding is `(n >> 8(k-1-i))` truncated to a byte. This is the big-endian layout. |
| `IntCodec.EncodeBEPeriodic` | simulation_test.go:65-71 | The encoding at width k depends only on n modulo 256^k: n and n + 256^k give the same k bytes. |
| `IntCodec.BytesToInt` | simulation_test.go:73-80 | The loop is written with Go's 64-bit shift and OR, and it returns `GoBytesToInt`, the word Go's loop builds read as a signed `int`. That result is also the big-endian value of the slice's last (at most) eight bytes, read as a signed 64-bit `int` (`BytesToIntSpec`). |
| `IntCodec.GoWordIsShifted` | simulation_test.go:75-78 | After i loop steps the word is the sum of the shifted bytes among the last eight: a byte whose shift is 64 or more adds nothing, and the others occupy distinct byte lanes, so OR adds them. |
| `IntCodec.BytesToIntReadsBigEndian` | simulation_test.go:73-80 | What Go's shift-and-OR loop computes, `GoBytesToInt(b)`, equals the closed form `BytesToIntSpec(b)`: the big-endian value of the last (at most) eight bytes of `b`, read as a signed 64-bit `int`. |
| `IntCodec.BytesToIntOfShort` | simulation_test.go:73-80 | A slice of at most eight bytes decodes to its unsigned big-endian value. When the top bit is set, the result is that value minus 2^64. |
| `IntCodec.BytesToIntReadsLastEight` | simulation_test.go:75-78 | Under Go's shift-and-OR semantics, a slice longer than eight bytes decodes like its last eight bytes, so the leading bytes are ignored. |
| `IntCodec.BytesToIntOfEncodeBE` | simulation_test.go:65-80 | `bytesToInt(intToBytes(n, k)) == n` for k <= 8 and any 64-bit n with 0 <= n < 256^k. When k == 8 this holds for every 64-bit n, negative ones included. |
| `IntCodec.EncodeBEOfBytesToInt` | simulation_test.go:65-80 | `intToBytes(bytesToInt(b), len(b)) == b` for every slice of at most eight bytes. |
| `Conformance.Copy` | simulation_test.go:26 | Go's `copy` moves min(len(dst), len(src)) bytes to the front of dst and leaves the rest of dst unchanged. |
| `Conformance.GetLeavesFromState` | simulation_test.go:14-32 | The output has one leaf per recorded entry, in input order. Each leaf is the entry's namespace as `intToBytes(ns, nidSize)` followed by its padded payload. |
| `Conformance.PaddedPayload` | simulation_test.go:23-26 | The payload is 8 bytes: the first min(8, len(s)) bytes of the string, then zeros. |
| `Conformance.LeafLayout` | simulation_test.go:18-29 | A leaf is `nidSize + 8` bytes. Its first `nidSize` bytes are the encoded namespace and the rest is the padded payload. If the namespace fits the width, `bytesToInt` of the prefix gives it back. |
| `Conformance.CheckProof` | simulation_test.go:34-63 | On every input on which Go does not panic, the early-return loop returns the verdict of `CheckProofOutcome`. Any difference in start or end gives false. A node count that differs from the number of supporting hashes gives false. Otherwise the first node whose decoded minNS (bytes `[0, N)`) or maxNS (bytes `[N, 2N)`) differs from the model's value gives false, and true comes only when every node agrees. When every node has at least 2N bytes the result is `ProofMatches`. |
| `Conformance.NodesOutcomeLaidOut` | simulation_test.go:47-59 | When every node has at least 2N bytes, the node loop from node i on never panics and returns true exactly when every node from i on matches its model range. |
| `Conformance.CheckProofOutcomeLaidOut` | simulation_test.go:34-63 | `checkProof` never panics on a proof whose nodes are laid out as minNS, maxNS, hash, and then decides `ProofMatches`. A panic is possible only when start, end and count all match and some node is shorter than 2N bytes. |
| `Conformance.NodeMatchesIffEncoded` | simulation_test.go:47-58 | For N <= 8, if a node matches a model range, its first 2N bytes are `intToBytes(minNS) + intToBytes(maxNS)`. When the range fits the width, the converse also holds. |
| `Conformance.ProofMatchesIffEncoded` | simulation_test.go:34-63 | For N <= 8 and representable model ranges, `checkProof` accepts exactly the proofs that have the model's start, end and node count, and whose nodes begin with the model's ranges encoded by `intToBytes`. |
| `Conformance.ProofMatchesIgnoresHashes` | simulation_test.go:47-59 | Hash bytes beyond 2N are never inspected: two exec proofs that agree on start, end, node count and every node's first 2N bytes get the same verdict. |

## Left out

- The Namespaced Merkle Tree itself (hashing, tree building, `ProveNamespace`, `VerifyNamespace`, `Root`) lives in the `github.com/celestiaorg/nmt` library. It is not part of this model. The same applies to `sha256.New()`.
- `TestFromITF` (simulation_test.go:82-153) is left out. It reads a trace file from disk, parses it with gjson, drives the library above and reports through `testing.T`. That is I/O plus foreign code.
- gjson input is replaced by plain records (`ItfLeaf`, `ModelProof`, `NamespaceRange`). gjson's defaults for missing fields are not modelled, and neither is the UTF-8 encoding of payload strings: a string is taken as its bytes.
- `fmt.Printf` and `t.Logf` output is logging only and is left out.
- The leaf built at simulation_test.go:27 is converted to the library's own `namespace.PrefixedData` type, not to the local one. The model keeps the leaf as plain bytes.
- The `Data` interface's dynamic dispatch (namespace/data.go:6-17) is modelled as a closed datatype with one constructor per view.
- Namespace.Data.NamespaceID: this model does not capture that Go checks `d[:N]` against the slice's capacity. Without capacity in the model, it requires `len >= N` for both `NamespaceID` and `Data`.
- Namespace.PrefixedDataFrom: namespace/id.go is not part of this model. `ID.Size()` is taken to be the identifier's length, and the model requires that length to fit in a `uint8`. Go's slice aliasing in `append(nID, data...)` is modelled as plain concatenation.
- Conformance.CheckProof: requires that Go does not panic, which is `CheckProofOutcome` not being `Panics`. In the model a panic happens only when start, end and count all match, every earlier node matched, and a node is shorter than the field being sliced (`nidSize` bytes for minNS, `2·nidSize` for maxNS). Go checks `node[:nidSize]` and `node[nidSize:2*nidSize]` against the node's capacity, not its length. So a node with length below 2·nidSize but capacity of at least 2·nidSize gets a verdict in Go, and this model neither represents capacity nor admits that node. Inputs that return false earlier are allowed, whatever their node lengths. The library's nodes are always minNS ‖ maxNS ‖ hash, so the call at simulation_test.go:122 meets this requirement.
- Negative widths: `nidSize` is a natural number throughout. A negative size makes `make([]byte, nidSize)` panic in Go (simulation_test.go:66), and so would the slices `[:nidSize]` in `checkProof`. The model does not represent these panics.
- IntCodec.IntToBytes: takes `n` as an unbounded integer. For every 64-bit `n` it computes what Go computes.
