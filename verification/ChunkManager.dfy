/**
 * Splitting a file into chunks, whole or as a stream, and putting it together again
 * (src/chunk-manager.ts:22-54, 112-185).
 */
module ChunkManager {
  import opened Common

  datatype ChunkMetadata =
    ChunkMetadata(fileId: string, sequenceNumber: nat, contentHash: string, size: nat, encryptedSize: nat)

  /** The bytes cut every `c` bytes. */
  function Slices(data: Bytes, c: nat): seq<Bytes>
    requires c > 0
  {
    if data == [] then [] else if |data| <= c then [data] else [data[..c]] + Slices(data[c..], c)
  }

  function Concat(parts: seq<Bytes>): Bytes {
    if parts == [] then [] else Concat(parts[..|parts| - 1]) + parts[|parts| - 1]
  }

  /** One metadata record per slice, numbered from 0. */
  function Describe(fileId: string, digest: Bytes -> string, slices: seq<Bytes>): (r: seq<ChunkMetadata>)
    ensures |r| == |slices|
  {
    seq(|slices|, i requires 0 <= i < |slices| => ChunkMetadata(fileId, i, digest(slices[i]), |slices[i]|, 0))
  }

  lemma DescribeStep(fileId: string, digest: Bytes -> string, slices: seq<Bytes>, x: Bytes)
    ensures Describe(fileId, digest, []) == []
    ensures Describe(fileId, digest, slices + [x]) ==
            Describe(fileId, digest, slices) + [ChunkMetadata(fileId, |slices|, digest(x), |x|, 0)]
  {
  }

  ghost predicate AllOfSize(slices: seq<Bytes>, c: nat) {
    forall i :: 0 <= i < |slices| ==> |slices[i]| == c
  }

  // ---------- what the slices are ----------

  lemma {:induction false} ConcatFront(x: Bytes, parts: seq<Bytes>)
    ensures Concat([x] + parts) == x + Concat(parts)
  {
    if parts == [] {
      assert ([x] + parts)[..0] == [];
    } else {
      assert ([x] + parts)[..|parts|] == [x] + parts[..|parts| - 1];
      ConcatFront(x, parts[..|parts| - 1]);
    }
  }

  /** Putting the slices together gives the bytes back. */
  lemma {:induction false} ConcatSlices(data: Bytes, c: nat)
    requires c > 0
    ensures Concat(Slices(data, c)) == data
  {
    if |data| > c {
      ConcatSlices(data[c..], c);
      ConcatFront(data[..c], Slices(data[c..], c));
    } else if data != [] {
      assert [data][..0] == [];
    }
  }

  lemma {:induction false} SliceSizes(data: Bytes, c: nat)
    requires c > 0
    ensures var s := Slices(data, c);
            && AllOfSize(if s == [] then [] else s[..|s| - 1], c)
            && (s != [] ==> 0 < |s[|s| - 1]| <= c)
            && (s == [] <==> data == [])
  {
    if |data| > c {
      SliceSizes(data[c..], c);
    }
  }

  /** There are as many slices as the size divided by `c`, rounded up. */
  lemma {:induction false} SliceCount(data: Bytes, c: nat)
    requires c > 0
    ensures (|Slices(data, c)| - 1) * c < |data| <= |Slices(data, c)| * c || (data == [] && Slices(data, c) == [])
  {
    if |data| > c {
      SliceCount(data[c..], c);
    }
  }

  function Least(a: nat, b: nat): nat { if a < b then a else b }

  /** Slice `i` starts at byte `i * c` and ends `c` bytes later, or where the data does. */
  lemma {:induction false} SliceAt(data: Bytes, c: nat, i: nat)
    requires c > 0 && i < |Slices(data, c)|
    ensures i * c < |data| && Slices(data, c)[i] == data[i * c..Least((i + 1) * c, |data|)]
  {
    OneMore(c, i);
    if i > 0 {
      OneMore(c, i - 1);
      SliceAt(data[c..], c, i - 1);
      SameBytes(data, c, (i - 1) * c);
    }
  }

  lemma OneMore(c: nat, i: nat)
    ensures (i + 1) * c == i * c + c && 0 * c == 0 && i * c >= 0
  {
  }

  lemma SameBytes(data: Bytes, c: nat, at: nat)
    requires c < |data| && at < |data| - c
    ensures data[c..][at..Least(at + c, |data| - c)] == data[at + c..Least(at + c + c, |data|)]
  {
  }

  /** What every record says, by position. */
  lemma DescribedAt(fileId: string, digest: Bytes -> string, data: Bytes, c: nat, i: nat)
    requires c > 0 && i < |Slices(data, c)|
    ensures i * c < |data|
    ensures var part := data[i * c..Least((i + 1) * c, |data|)];
            Describe(fileId, digest, Slices(data, c))[i] == ChunkMetadata(fileId, i, digest(part), |part|, 0)
  {
    hide Slices;
    SliceAt(data, c, i);
  }

  /** Whole chunks already cut off leave the cutting of the rest unchanged. */
  lemma {:induction false} SlicesAfter(whole: seq<Bytes>, rest: Bytes, c: nat)
    requires c > 0 && AllOfSize(whole, c)
    ensures Slices(Concat(whole) + rest, c) == whole + Slices(rest, c)
    decreases |whole|
  {
    if whole != [] {
      var init, x := whole[..|whole| - 1], whole[|whole| - 1];
      assert Concat(whole) + rest == Concat(init) + (x + rest);
      SlicesAfter(init, x + rest, c);
      FirstSlice(x, rest, c);
      assert whole + Slices(rest, c) == init + ([x] + Slices(rest, c));
    } else {
      assert Concat(whole) + rest == rest;
    }
  }

  lemma FirstSlice(x: Bytes, rest: Bytes, c: nat)
    requires c > 0 && |x| == c
    ensures Slices(x + rest, c) == [x] + Slices(rest, c)
  {
    if rest == [] {
      assert x + rest == x;
    } else {
      assert (x + rest)[..c] == x && (x + rest)[c..] == rest;
    }
  }

  // ---------- the whole buffer ----------

  /** What is left from `offset` on; the last step of the loop runs past the end. */
  function Remaining(data: Bytes, offset: nat): Bytes {
    if offset < |data| then data[offset..] else []
  }

  lemma CutStep(data: Bytes, offset: nat, c: nat)
    requires c > 0 && offset < |data|
    ensures var size := if c < |data| - offset then c else |data| - offset;
            Slices(Remaining(data, offset), c) == [data[offset..offset + size]] + Slices(Remaining(data, offset + c), c)
  {
    var rest := data[offset..];
    if c < |rest| {
      assert rest[c..] == data[offset + c..] && rest[..c] == data[offset..offset + c];
    } else {
      assert data[offset..|data|] == rest;
    }
  }

  method ChunkFile(fileId: string, fileData: Bytes, digest: Bytes -> string, chunkSize: nat)
    returns (chunks: seq<ChunkMetadata>)
    requires chunkSize > 0
    ensures chunks == Describe(fileId, digest, Slices(fileData, chunkSize))
  {
    chunks := [];
    if |fileData| == 0 {
      return;
    }
    hide Describe, Slices, Remaining;
    DescribeStep(fileId, digest, [], []);
    AllRemains(fileData);
    var sequenceNumber, offset := 0, 0;
    ghost var cut: seq<Bytes> := [];
    while offset < |fileData|
      invariant 0 <= offset && sequenceNumber == |cut|
      invariant chunks == Describe(fileId, digest, cut)
      invariant cut + Slices(Remaining(fileData, offset), chunkSize) == Slices(fileData, chunkSize)
      decreases |fileData| - offset
    {
      var size := if chunkSize < |fileData| - offset then chunkSize else |fileData| - offset;
      var chunkData := fileData[offset..offset + size];
      DescribeStep(fileId, digest, cut, chunkData);
      chunks := chunks + [ChunkMetadata(fileId, sequenceNumber, digest(chunkData), size, 0)];
      CutMore(cut, fileData, offset, chunkSize);
      cut := cut + [chunkData];
      sequenceNumber := sequenceNumber + 1;
      offset := offset + chunkSize;
    }
    NothingRemains(cut, fileData, offset, chunkSize);
  }

  lemma CutMore(cut: seq<Bytes>, data: Bytes, offset: nat, c: nat)
    requires c > 0 && offset < |data|
    ensures var size := if c < |data| - offset then c else |data| - offset;
            cut + Slices(Remaining(data, offset), c) ==
            cut + [data[offset..offset + size]] + Slices(Remaining(data, offset + c), c)
  {
    hide Slices, Remaining;
    CutStep(data, offset, c);
  }

  lemma AllRemains(data: Bytes)
    ensures Remaining(data, 0) == data
  {
  }

  lemma NothingRemains(cut: seq<Bytes>, data: Bytes, offset: nat, c: nat)
    requires c > 0 && offset >= |data|
    ensures cut + Slices(Remaining(data, offset), c) == cut
  {
  }

  // ---------- the stream ----------

  /** The fragments arrive one `data` event at a time; `broken` is an `error` event instead of `end`. */
  method ChunkFileStream(fileId: string, fragments: seq<Bytes>, broken: bool, digest: Bytes -> string, chunkSize: nat)
    returns (r: Option<seq<ChunkMetadata>>)
    requires chunkSize > 0
    ensures r == if broken then None else Some(Describe(fileId, digest, Slices(Concat(fragments), chunkSize)))
  {
    hide Describe;
    var chunks: seq<ChunkMetadata> := [];
    DescribeStep(fileId, digest, [], []);
    var sequenceNumber := 0;
    var buffer: Bytes := [];
    ghost var cut: seq<Bytes> := [];
    var k := 0;
    while k < |fragments|
      invariant 0 <= k <= |fragments| && sequenceNumber == |cut|
      invariant chunks == Describe(fileId, digest, cut) && AllOfSize(cut, chunkSize)
      invariant Concat(fragments[..k]) == Concat(cut) + buffer
      invariant |buffer| < chunkSize
    {
      assert fragments[..k + 1][..k] == fragments[..k];
      assert Concat(cut) + buffer + fragments[k] == Concat(cut) + (buffer + fragments[k]);
      buffer := buffer + fragments[k];
      while |buffer| >= chunkSize
        invariant sequenceNumber == |cut|
        invariant chunks == Describe(fileId, digest, cut) && AllOfSize(cut, chunkSize)
        invariant Concat(fragments[..k + 1]) == Concat(cut) + buffer
        decreases |buffer|
      {
        var chunkData := buffer[..chunkSize];
        DescribeStep(fileId, digest, cut, chunkData);
        chunks := chunks + [ChunkMetadata(fileId, sequenceNumber, digest(chunkData), chunkSize, 0)];
        assert (cut + [chunkData])[..|cut|] == cut;
        assert buffer == chunkData + buffer[chunkSize..];
        assert Concat(cut) + buffer == Concat(cut) + chunkData + buffer[chunkSize..];
        cut := cut + [chunkData];
        sequenceNumber := sequenceNumber + 1;
        buffer := buffer[chunkSize..];
      }
      k := k + 1;
    }
    if broken {
      return None;
    }
    assert fragments[..k] == fragments;
    SlicesAfter(cut, buffer, chunkSize);
    if |buffer| > 0 {
      DescribeStep(fileId, digest, cut, buffer);
      chunks := chunks + [ChunkMetadata(fileId, sequenceNumber, digest(buffer), |buffer|, 0)];
    } else {
      assert cut + [] == cut;
    }
    return Some(chunks);
  }

  // ---------- reassembly ----------

  /** A readable stream over the chunks, in order. */
  class AssemblyStream {
    const chunks: seq<Bytes>
    var currentIndex: nat

    ghost predicate Valid()
      reads this
    {
      currentIndex <= |chunks|
    }

    constructor (chunks: seq<Bytes>)
      ensures Valid() && this.chunks == chunks && currentIndex == 0
    {
      this.chunks, currentIndex := chunks, 0;
    }

    /** `None` is the end of the stream. */
    method Read() returns (part: Option<Bytes>)
      requires Valid()
      modifies this
      ensures Valid()
      ensures part == if old(currentIndex) < |chunks| then Some(chunks[old(currentIndex)]) else None
      ensures currentIndex == if part.Some? then old(currentIndex) + 1 else old(currentIndex)
    {
      if currentIndex < |chunks| {
        part := Some(chunks[currentIndex]);
        currentIndex := currentIndex + 1;
      } else {
        part := None;
      }
    }
  }

  /** Everything a reader of the assembly stream gets. */
  method Assemble(chunks: seq<Bytes>) returns (data: Bytes)
    ensures data == Concat(chunks)
  {
    var stream := new AssemblyStream(chunks);
    data := [];
    var part := stream.Read();
    while part.Some?
      invariant stream.Valid() && stream.chunks == chunks && fresh(stream)
      invariant part.Some? ==> stream.currentIndex > 0 && part == Some(chunks[stream.currentIndex - 1])
      invariant part.None? ==> stream.currentIndex == |chunks|
      invariant data == Concat(chunks[..if part.Some? then stream.currentIndex - 1 else stream.currentIndex])
      decreases |chunks| - stream.currentIndex, part.Some?
    {
      assert chunks[..stream.currentIndex][..stream.currentIndex - 1] == chunks[..stream.currentIndex - 1];
      data := data + part.value;
      part := stream.Read();
    }
    assert chunks[..|chunks|] == chunks;
  }

  /** Cutting, assembling and cutting again describes the same chunks. */
  method RoundTrip(fileId: string, fileData: Bytes, digest: Bytes -> string, chunkSize: nat)
    returns (before: seq<ChunkMetadata>, assembled: Bytes, after: seq<ChunkMetadata>)
    requires chunkSize > 0
    ensures assembled == fileData
    ensures before == after == Describe(fileId, digest, Slices(fileData, chunkSize))
  {
    before := ChunkFile(fileId, fileData, digest, chunkSize);
    assembled := Assemble(Slices(fileData, chunkSize));
    ConcatSlices(fileData, chunkSize);
    after := ChunkFile(fileId, assembled, digest, chunkSize);
  }
}
