/** The wire format of matrices and of lists of equally shaped matrices. */
module MatrixCodec {
  import opened Words
  import opened ModArith
  import opened Endian
  import opened Chunks
  import opened MatrixAlgebra
  import opened Matrices

  // ---------- slices of words ----------

  function WordChunks(words: seq<u32>): (r: seq<seq<byte>>)
    ensures |r| == |words| && Sized(r, 4)
  {
    seq(|words|, i requires 0 <= i < |words| => PutBigEndian(words[i]))
  }

  function WordsToBytes(words: seq<u32>): (r: seq<byte>)
    ensures |r| == 4 * |words|
  {
    Flatten(WordChunks(words), 4)
  }

  function BytesToWords(bytes: seq<byte>): (r: seq<u32>)
    ensures |r| == |bytes| / 4
  {
    seq<u32>(|bytes| / 4, i requires 0 <= i < |bytes| / 4 => BigEndian(bytes[4 * i..4 * i + 4]))
  }

  lemma WordsRoundTrip(words: seq<u32>)
    ensures BytesToWords(WordsToBytes(words)) == words
  {
    hide BigEndian, PutBigEndian, Flatten;
    forall i | 0 <= i < |words| ensures BytesToWords(WordsToBytes(words))[i] == words[i] {
      FlattenSlice(WordChunks(words), 4, i);
      RoundTrip(words[i]);
    }
  }

  method Uint32SliceToByteSlice(words: array<u32>) returns (out: array<byte>)
    ensures fresh(out) && out[..] == WordsToBytes(words[..])
  {
    hide PutBigEndian, Flatten;
    ghost var chunks := WordChunks(words[..]);
    out := new byte[4 * words.Length];
    var i := 0;
    assert Flatten(chunks[..0], 4) == [];
    while i < words.Length
      invariant 0 <= i <= words.Length
      invariant out[..4 * i] == Flatten(chunks[..i], 4)
    {
      PutWord(out, 4 * i, words[i]);
      FlattenNext(chunks, 4, i);
      i := i + 1;
    }
    assert chunks[..i] == chunks && out[..4 * i] == out[..];
  }

  /** Stores one word, most significant byte first. */
  method PutWord(out: array<byte>, at: nat, w: u32)
    requires at + 4 <= out.Length
    modifies out
    ensures out[..at + 4] == old(out[..at]) + PutBigEndian(w)
  {
    CopyAt(out, at, PutBigEndian(w));
  }

  method ByteSliceToUint32Slice(bytes: seq<byte>) returns (out: array<u32>)
    ensures fresh(out) && out[..] == BytesToWords(bytes)
  {
    hide BigEndian;
    out := new u32[|bytes| / 4];
    var i := 0;
    while i < out.Length
      invariant 0 <= i <= out.Length
      invariant forall k :: 0 <= k < i ==> out[k] == BytesToWords(bytes)[k]
    {
      out[i] := BigEndian(bytes[4 * i..4 * i + 4]);
      i := i + 1;
    }
    assert out[..] == BytesToWords(bytes);
  }

  // ---------- one matrix ----------

  datatype Wire = Wire(rows: nat, cols: nat, data: seq<u32>)

  function Encode(m: Wire): (r: seq<byte>)
    ensures |r| == 8 + 4 * |m.data|
  {
    PutBigEndian(Wrap(m.rows)) + PutBigEndian(Wrap(m.cols)) + WordsToBytes(m.data)
  }

  function Decode(bytes: seq<byte>): Wire
    requires |bytes| >= 8
  {
    Wire(BigEndian(bytes[..4]), BigEndian(bytes[4..8]), BytesToWords(bytes[8..]))
  }

  /** Rows, columns, then the words, four bytes each, most significant byte first. */
  lemma EncodeLayout(m: Wire, i: nat)
    requires i < |m.data|
    ensures BigEndian(Encode(m)[..4]) == m.rows % TWO32 && BigEndian(Encode(m)[4..8]) == m.cols % TWO32
    ensures BigEndian(Encode(m)[8 + 4 * i..12 + 4 * i]) == m.data[i]
  {
    hide BigEndian, PutBigEndian, Flatten, Wrap;
    RoundTrip(Wrap(m.rows));
    RoundTrip(Wrap(m.cols));
    RoundTrip(m.data[i]);
    var head, body := PutBigEndian(Wrap(m.rows)) + PutBigEndian(Wrap(m.cols)), WordsToBytes(m.data);
    assert Encode(m)[..4] == PutBigEndian(Wrap(m.rows)) && Encode(m)[4..8] == PutBigEndian(Wrap(m.cols));
    FlattenSlice(WordChunks(m.data), 4, i);
    SliceOfSuffix(head, body, 4 * i, 4 * i + 4);
    WrapIsRemainder(m.rows);
    WrapIsRemainder(m.cols);
  }

  lemma WrapIsRemainder(x: int)
    ensures Wrap(x) == x % TWO32
  {
  }

  /** Encoding and decoding a matrix changes nothing but the dimensions' high bits: it is the
      identity exactly on dimensions below 2^32. */
  lemma MatrixRoundTrip(m: Wire)
    ensures Decode(Encode(m)) == Wire(Wrap(m.rows), Wrap(m.cols), m.data)
    ensures Decode(Encode(m)) == m <==> m.rows < TWO32 && m.cols < TWO32
  {
    hide BigEndian, PutBigEndian, BytesToWords, WordsToBytes;
    var bytes := Encode(m);
    RoundTrip(Wrap(m.rows));
    RoundTrip(Wrap(m.cols));
    WordsRoundTrip(m.data);
    assert bytes[..4] == PutBigEndian(Wrap(m.rows));
    assert bytes[4..8] == PutBigEndian(Wrap(m.cols));
    assert bytes[8..] == WordsToBytes(m.data);
    if m.rows < TWO32 && m.cols < TWO32 {
      WrapSmall(m.rows);
      WrapSmall(m.cols);
    }
  }

  ghost function WireOf(m: Matrix): Wire
    reads m.data
  {
    Wire(m.rows, m.cols, m.data[..])
  }

  method MatrixToBytes(m: Matrix) returns (bytes: seq<byte>)
    ensures bytes == Encode(WireOf(m))
  {
    var data := Uint32SliceToByteSlice(m.data);
    bytes := PutBigEndian(Wrap(m.rows)) + PutBigEndian(Wrap(m.cols)) + data[..];
  }

  method BytesToMatrix(bytes: seq<byte>) returns (m: Matrix)
    requires |bytes| >= 8
    ensures fresh(m) && fresh(m.data) && WireOf(m) == Decode(bytes)
  {
    hide BigEndian, BytesToWords;
    var data := ByteSliceToUint32Slice(bytes[8..]);
    m := new Matrix.WithData(BigEndian(bytes[..4]), BigEndian(bytes[4..8]), data[..]);
  }

  // ---------- a list of matrices ----------

  predicate SameShape(ms: seq<Wire>) {
    |ms| >= 1 && forall i :: 0 <= i < |ms| ==>
      ms[i].rows == ms[0].rows && ms[i].cols == ms[0].cols && |ms[i].data| == |ms[0].data|
  }

  function Encodings(ms: seq<Wire>): (r: seq<seq<byte>>)
    requires SameShape(ms)
    ensures |r| == |ms| && Sized(r, |Encode(ms[0])|)
  {
    seq(|ms|, i requires 0 <= i < |ms| => Encode(ms[i]))
  }

  /** The length of one encoding, then all encodings. */
  function EncodeAll(ms: seq<Wire>): seq<byte>
    requires SameShape(ms)
  {
    PutBigEndian(Wrap(|Encode(ms[0])|)) + Flatten(Encodings(ms), |Encode(ms[0])|)
  }

  /** The list read back: the count comes from the total length, in 32 bits. */
  function DecodeAll(bytes: seq<byte>): (r: seq<Wire>)
    requires |bytes| >= 4 && BigEndian(bytes[..4]) >= 8
  {
    var size := BigEndian(bytes[..4]);
    var n := Wrap((|bytes| - 4) / size);
    seq(n, i requires 0 <= i < n => DecodeAt(bytes, size, i))
  }

  /** Element i of the list; the slice exists whenever i is below the count. */
  function DecodeAt(bytes: seq<byte>, size: nat, i: nat): Wire
    requires size >= 8
  {
    var from := 4 + size * i;
    if from + size <= |bytes| then Decode(bytes[from..from + size]) else Wire(0, 0, [])
  }

  lemma ElementRoundTrip(ms: seq<Wire>, head: seq<byte>, i: nat)
    requires SameShape(ms) && i < |ms| && ms[i].rows < TWO32 && ms[i].cols < TWO32 && |head| == 4
    ensures var size := |Encode(ms[0])|; DecodeAt(head + Flatten(Encodings(ms), size), size, i) == ms[i]
  {
    hide Decode, Flatten, Encode;
    var size := |Encode(ms[0])|;
    var body := Flatten(Encodings(ms), size);
    FlattenSlice(Encodings(ms), size, i);
    SliceOfSuffix(head, body, size * i, size * i + size);
    MatrixRoundTrip(ms[i]);
  }

  /** Any non-empty list of equally shaped matrices comes back unchanged, as long as the
      dimensions, the size of one encoding and the count fit 32 bits. */
  lemma ListRoundTrip(ms: seq<Wire>)
    requires SameShape(ms) && ms[0].rows < TWO32 && ms[0].cols < TWO32
    requires |Encode(ms[0])| < TWO32 && |ms| < TWO32
    ensures DecodesTo(EncodeAll(ms), ms)
  {
    hide DecodeAt, Encode, BigEndian, PutBigEndian, Wrap, Flatten;
    var size := |Encode(ms[0])|;
    var head, bytes := PutBigEndian(Wrap(size)), EncodeAll(ms);
    WrapSmall(size);
    RoundTrip(size);
    assert bytes[..4] == head;
    ListCount(size, |ms|, |bytes| - 4);
    WrapSmall(|ms|);
    forall i | 0 <= i < |ms| ensures DecodeAt(bytes, size, i) == ms[i] {
      ElementRoundTrip(ms, head, i);
    }
  }

  /** The bytes hold a list that decodes to these matrices. */
  predicate DecodesTo(bytes: seq<byte>, ms: seq<Wire>) {
    |bytes| >= 4 && BigEndian(bytes[..4]) >= 8 && DecodeAll(bytes) == ms
  }

  /** The first element read back has 32-bit dimensions and no more data than its 32-bit size holds. */
  lemma FirstDecoded(bytes: seq<byte>, ms: seq<Wire>)
    requires |ms| >= 1 && DecodesTo(bytes, ms)
    ensures ms[0].rows < TWO32 && ms[0].cols < TWO32 && |Encode(ms[0])| < TWO32 && |ms| < TWO32
  {
    hide BigEndian, BytesToWords, WordsToBytes, Wrap;
    assert ms[0] == DecodeAt(bytes, BigEndian(bytes[..4]), 0);
  }

  /** A non-empty list of equally shaped matrices comes back unchanged if and only if the dimensions, the
      size of one encoding and the count fit 32 bits. */
  lemma ListRoundTripExact(ms: seq<Wire>)
    requires SameShape(ms)
    ensures DecodesTo(EncodeAll(ms), ms)
       <==> ms[0].rows < TWO32 && ms[0].cols < TWO32 && |Encode(ms[0])| < TWO32 && |ms| < TWO32
  {
    hide DecodeAll, EncodeAll, Encode;
    if DecodesTo(EncodeAll(ms), ms) {
      FirstDecoded(EncodeAll(ms), ms);
    }
    if ms[0].rows < TWO32 && ms[0].cols < TWO32 && |Encode(ms[0])| < TWO32 && |ms| < TWO32 {
      ListRoundTrip(ms);
    }
  }

  lemma ListCount(size: nat, n: nat, total: nat)
    requires size > 0 && total == size * n
    ensures total / size == n
  {
    IndexSplit(size, n, 0);
  }

  // ---------- the list encoder and decoder ----------

  ghost function Wires(ms: seq<Matrix>): (r: seq<Wire>)
    reads set i | 0 <= i < |ms| :: ms[i].data
    ensures |r| == |ms|
    ensures forall i :: 0 <= i < |ms| ==> r[i] == WireOf(ms[i])
  {
    if |ms| == 0 then [] else Wires(ms[..|ms| - 1]) + [WireOf(ms[|ms| - 1])]
  }

  method MatricesToBytes(ms: seq<Matrix>) returns (out: array<byte>)
    requires SameShape(Wires(ms))
    ensures fresh(out) && out[..] == EncodeAll(Wires(ms))
  {
    hide Encode, PutBigEndian, Flatten, Wires, Wrap;
    ghost var chunks := Encodings(Wires(ms));
    var b := MatrixToBytes(ms[0]);
    out := StartList(b, |ms|);
    ghost var head := PutBigEndian(Wrap(|b|));
    FlattenFirst(chunks, |b|);
    AppendRest(out, |b|, ms, chunks, head);
    assert chunks[..|ms|] == chunks && out[..4 + |b| * |ms|] == out[..];
  }

  lemma FlattenFirst(chunks: seq<seq<byte>>, size: nat)
    requires |chunks| >= 1 && Sized(chunks, size)
    ensures Flatten(chunks[..1], size) == chunks[0]
  {
    FlattenNext(chunks, size, 0);
    assert Flatten(chunks[..0], size) == [];
    assert [] + chunks[0] == chunks[0];
  }

  /** The buffer for n encodings, with the length and the first one written. */
  method StartList(b: seq<byte>, n: nat) returns (out: array<byte>)
    requires n >= 1
    ensures fresh(out) && out.Length == 4 + |b| * n && |b| * 1 <= |b| * n
    ensures out[..4 + |b| * 1] == PutBigEndian(Wrap(|b|)) + b
  {
    hide PutBigEndian, Wrap;
    ProductMonotone(1, n, |b|);
    out := new byte[4 + |b| * n];
    PutWord(out, 0, Wrap(|b|));
    assert out[..0] == [] && out[..4] == PutBigEndian(Wrap(|b|));
    CopyAt(out, 4, b);
  }

  /** The loop over the matrices after the first. */
  method AppendRest(out: array<byte>, size: nat, ms: seq<Matrix>, ghost chunks: seq<seq<byte>>, ghost head: seq<byte>)
    requires |ms| >= 1 && |chunks| == |ms| && Sized(chunks, size) && |head| == 4
    requires forall k :: 0 <= k < |ms| ==> chunks[k] == Encode(WireOf(ms[k])) && ms[k].data as object != out as object
    requires out.Length == 4 + size * |ms|
    requires 4 + size * 1 <= out.Length && out[..4 + size * 1] == head + Flatten(chunks[..1], size)
    modifies out
    ensures out[..4 + size * |ms|] == head + Flatten(chunks[..|ms|], size)
  {
    hide Encode, Flatten;
    var i := 1;
    while i < |ms|
      invariant 1 <= i <= |ms| && 4 + size * i <= out.Length
      invariant out[..4 + size * i] == head + Flatten(chunks[..i], size)
    {
      assert ms[i].data[..] == old(ms[i].data[..]);
      var e := MatrixToBytes(ms[i]);
      Stride(size, i);
      ProductMonotone(i + 1, |ms|, size);
      CopyAt(out, 4 + size * i, e);
      FlattenNext(chunks, size, i);
      assert head + Flatten(chunks[..i], size) + e == head + (Flatten(chunks[..i], size) + e);
      i := i + 1;
    }
  }

  method BytesToMatrices(bytes: seq<byte>) returns (ms: seq<Matrix>)
    requires |bytes| >= 4 && BigEndian(bytes[..4]) >= 8
    ensures Wires(ms) == DecodeAll(bytes)
  {
    hide BigEndian, Decode, Wires;
    var size: nat := BigEndian(bytes[..4]);
    var n := Wrap((|bytes| - 4) / size);
    ms := [];
    var i := 0;
    while i < n
      invariant 0 <= i <= n && |ms| == i
      invariant forall k :: 0 <= k < i ==> fresh(ms[k].data) && WireOf(ms[k]) == DecodeAt(bytes, size, k)
    {
      SliceExists(|bytes| - 4, size, i);
      var m := BytesToMatrix(bytes[4 + size * i..4 + size * i + size]);
      ms := ms + [m];
      i := i + 1;
    }
    assert Wires(ms) == DecodeAll(bytes);
  }

  lemma SliceExists(total: nat, size: nat, i: nat)
    requires size > 0 && i < Wrap(total / size)
    ensures size * i + size <= total
  {
    var q := total / size;
    assert total == q * size + total % size;
    assert Wrap(q) <= q;
    ProductMonotone(i + 1, q, size);
    Stride(size, i);
  }

  /** Any bytes read as a list: as many matrices as whole slices of the announced size fit, modulo 2^32, each
      from its own slice. */
  lemma ListSlices(bytes: seq<byte>, size: nat, i: nat, from: nat)
    requires |bytes| >= 4 && size == BigEndian(bytes[..4]) >= 8 && from == 4 + size * i
    ensures |DecodeAll(bytes)| == (|bytes| - 4) / size % TWO32
    ensures i < |DecodeAll(bytes)| ==>
              from + size <= |bytes| && DecodeAll(bytes)[i] == Decode(bytes[from..from + size])
  {
    hide BigEndian, Decode, Wrap, DecodeAt;
    WrapIsRemainder((|bytes| - 4) / size);
    if i < |DecodeAll(bytes)| {
      SliceExists(|bytes| - 4, size, i);
      SliceDecodes(bytes, size, i, from);
    }
  }

  lemma SliceDecodes(bytes: seq<byte>, size: nat, i: nat, from: nat)
    requires size >= 8 && from == 4 + size * i && from + size <= |bytes|
    ensures DecodeAt(bytes, size, i) == Decode(bytes[from..from + size])
  {
    hide Decode;
  }

  /** Both ways as one run: a non-empty list of valid matrices of one shape, with dimensions, encoding size and
      count below 2^32, comes back as new matrices with the same contents. */
  method SendMatrices(ms: seq<Matrix>) returns (back: seq<Matrix>)
    requires 1 <= |ms| < TWO32 && forall i :: 0 <= i < |ms| ==>
               ms[i].Valid() && ms[i].rows == ms[0].rows && ms[i].cols == ms[0].cols
    requires ms[0].rows < TWO32 && ms[0].cols < TWO32 && 8 + 4 * ms[0].data.Length < TWO32
    ensures Wires(back) == Wires(ms)
  {
    hide DecodeAll, EncodeAll, Encode, Wires, BigEndian;
    var bytes := MatricesToBytes(ms);
    ListRoundTrip(Wires(ms));
    back := BytesToMatrices(bytes[..]);
  }
}
