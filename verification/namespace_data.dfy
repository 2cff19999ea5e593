/**
 * Namespaced data: a byte buffer read as a namespace prefix followed by a
 * payload. Three views have a fixed prefix width (32, 16 and 8 bytes) and one
 * carries its width with it.
 */
module Namespace {
  import opened GoBase

  /** A namespace identifier: a sequence of bytes. */
  type ID = seq<byte>

  /** The four views of namespaced data, each over one underlying buffer. */
  datatype Data =
    | PrefixedData32(buf: seq<byte>)
    | PrefixedData16(buf: seq<byte>)
    | PrefixedData8(buf: seq<byte>)
    | PrefixedData(namespaceLen: uint8, buf: seq<byte>)
  {
    /** The number of bytes the namespace prefix occupies. */
    function NamespaceSize(): uint8 {
      match this
      case PrefixedData32(_) => 32
      case PrefixedData16(_) => 16
      case PrefixedData8(_) => 8
      case PrefixedData(namespaceLen, _) => namespaceLen
    }

    /** The buffer is long enough to hold the namespace prefix; the slicing
        accessors are defined only then. */
    predicate WellFormed() {
      NamespaceSize() as int <= |buf|
    }

    /** The namespace: the first NamespaceSize() bytes of the buffer. */
    function NamespaceID(): (id: ID)
      requires WellFormed()
      ensures |id| == NamespaceSize() as int
      ensures id <= buf
    {
      buf[..NamespaceSize()]
    }

    /** The payload: what follows the namespace prefix. */
    function Data(): (d: seq<byte>)
      requires WellFormed()
      ensures |d| == |buf| - NamespaceSize() as int
      ensures NamespaceID() + d == buf
    {
      buf[NamespaceSize()..]
    }

    /** The binary encoding: the buffer itself, with a nil error. */
    function MarshalBinary(): (r: Result<seq<byte>>)
      ensures r.Success?
      ensures WellFormed() ==> r.value == NamespaceID() + Data()
    {
      Success(buf)
    }
  }

  /** A variable-width view over a buffer whose first namespaceLen bytes are the namespace. */
  function NewPrefixedData(namespaceLen: uint8, prefixedData: seq<byte>): (d: Data)
    ensures d.NamespaceSize() == namespaceLen
    ensures d.MarshalBinary() == Success(prefixedData)
    ensures namespaceLen as int <= |prefixedData| ==>
              d.WellFormed() &&
              d.NamespaceID() == prefixedData[..namespaceLen] &&
              d.Data() == prefixedData[namespaceLen..]
  {
    PrefixedData(namespaceLen, prefixedData)
  }

  /** The variable-width view of namespace nID followed by payload data.
      ID.Size() is taken to be the length of the identifier. */
  function PrefixedDataFrom(nID: ID, data: seq<byte>): (d: Data)
    requires |nID| < 256
    ensures d.WellFormed()
    ensures d.NamespaceSize() as int == |nID|
    ensures d.NamespaceID() == nID && d.Data() == data
    ensures d.MarshalBinary() == Success(nID + data)
  {
    PrefixedData(|nID|, nID + data)
  }

  /** NamespaceSize is the width of the namespace prefix: it depends on the
      view and never on the buffer, it is the stored length for the
      variable-width view, and it is the length of the namespace read back. */
  lemma NamespaceSizeIsPrefixWidth(d: Data, other: seq<byte>)
    ensures d.NamespaceSize() == d.(buf := other).NamespaceSize()
    ensures d.PrefixedData? ==> d.NamespaceSize() == d.namespaceLen
    ensures !d.PrefixedData? ==> d.NamespaceSize() in {8, 16, 32}
    ensures d.WellFormed() ==>
              && |d.NamespaceID()| == d.NamespaceSize() as int
              && d.MarshalBinary().value[..d.NamespaceSize()] == d.NamespaceID()
  {
  }

  /** Each fixed-width view of a buffer of at least W bytes has namespace size W,
      splits the buffer after its first W bytes, marshals to the buffer, and reads
      exactly like the variable-width view of width W over the same buffer. */
  lemma FixedWidthViews(buf: seq<byte>, d: Data)
    requires d == PrefixedData32(buf) || d == PrefixedData16(buf) || d == PrefixedData8(buf)
    requires d.NamespaceSize() as int <= |buf|
    ensures d.WellFormed()
    ensures var w := d.NamespaceSize();
            && (w == 32 || w == 16 || w == 8)
            && (d.PrefixedData32? <==> w == 32)
            && (d.PrefixedData16? <==> w == 16)
            && d.NamespaceID() == buf[..w]
            && d.Data() == buf[w..]
            && d.MarshalBinary() == Success(buf)
            && var v := NewPrefixedData(w, buf);
               v.NamespaceID() == d.NamespaceID() && v.Data() == d.Data() &&
               v.MarshalBinary() == d.MarshalBinary()
  {
  }
}
