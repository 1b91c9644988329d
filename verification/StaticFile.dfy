/** Streaming a file that is stored as 64-bit words. */
module StaticFile {
  import opened Bytes

  type uint64 = w: int | 0 <= w < 0x1_0000_0000_0000_0000

  const BYTES_PER_WORD: nat := 8
  const READ_BUFFER_SIZE: nat := 512

  /** The bytes of a word, most significant first. */
  function Convert(w: uint64): (s: seq<byte>)
    ensures |s| == BYTES_PER_WORD
  {
    ToBigEndian(w, BYTES_PER_WORD)
  }

  /** Byte k of a word, from the most significant one. */
  lemma ConvertAt(w: uint64, k: nat)
    requires k < 8
    ensures Convert(w)[k] == w / Power256(7 - k) % 256
  {
    BigEndianByte(w, 8, k);
    ShiftedIsDivided(w, 7 - k);
  }

  lemma {:induction false} ShiftedIsDivided(n: nat, k: nat)
    ensures ShiftRight(n, k) == n / Power256(k)
  {
    if k > 0 {
      ShiftedIsDivided(n / 256, k - 1);
      DivideTwice(n, 256, Power256(k - 1));
    }
  }

  lemma DivideTwice(n: nat, a: nat, b: nat)
    requires a > 0 && b > 0
    ensures a * b > 0 && n / (a * b) == n / a / b
  {
    var q, r := n / a, n % a;
    var p, t := q / b, q % b;
    assert n == (p * b + t) * a + r;
    assert (p * b + t) * a == p * (a * b) + t * a;
    TimesMonotonic(t, b, a);
    assert t * a + r < a * b;
    DivisionIsUnique(n, a * b, p, t * a + r);
  }

  /** Byte p of a file: of word p / 8, byte p mod 8 from the most significant one. */
  lemma ContentOctet(data: seq<uint64>, p: nat)
    requires p < 8 * |data|
    ensures Content(data)[p] == data[p / 8] / Power256(7 - p % 8) % 256
  {
    hide Content, Convert;
    ContentAt(data, p);
    ConvertAt(data[p / 8], p % 8);
  }

  /** The bytes the words stand for. */
  function Content(data: seq<uint64>): (s: seq<byte>)
    ensures |s| == 8 * |data|
  {
    if |data| == 0 then [] else Content(data[..|data| - 1]) + Convert(data[|data| - 1])
  }

  lemma {:induction false} ContentAt(data: seq<uint64>, p: nat)
    requires p < 8 * |data|
    ensures Content(data)[p] == Convert(data[p / 8])[p % 8]
  {
    hide Convert;
    var last := |data| - 1;
    if p < 8 * last {
      ContentAt(data[..last], p);
    } else {
      assert p / 8 == last && p % 8 == p - 8 * last;
    }
  }

  /** What a read that begins at r delivers for position r + k: a word is only decoded at its first byte,
      so the rest of a word begun by an earlier read comes out as zeros. */
  function Delivered(data: seq<uint64>, r: nat, k: nat): byte
    requires r + k < 8 * |data|
  {
    if (r + k) / 8 * 8 >= r then Content(data)[r + k] else 0
  }

  function ReadResult(data: seq<uint64>, size: nat, r: nat, n: nat): (s: seq<byte>)
    requires r <= size <= 8 * |data|
    ensures |s| == Min(n, size - r)
  {
    seq(Min(n, size - r), k requires 0 <= k < Min(n, size - r) => Delivered(data, r, k))
  }

  class File {
    const data: seq<uint64>
    const size: nat
    var readIndex: nat
    var eofBit: bool

    ghost predicate Valid()
      reads this
    {
      readIndex <= size <= 8 * |data| && (eofBit <==> readIndex == size)
    }

    constructor (input: seq<uint64>, fileSize: nat)
      requires fileSize <= 8 * |input|
      ensures Valid() && data == input && size == fileSize && readIndex == 0
    {
      data, size := input, fileSize;
      readIndex, eofBit := 0, fileSize == 0;
    }

    method Read(buffer: array<byte>) returns (count: nat)
      requires Valid()
      modifies this, buffer
      ensures Valid() && readIndex == old(readIndex) + count
      ensures count == Min(buffer.Length, size - old(readIndex))
      ensures buffer[..count] == ReadResult(data, size, old(readIndex), buffer.Length)
      ensures buffer[count..] == old(buffer[count..])
    {
      hide Content, Convert, Delivered;
      ghost var r := readIndex;
      var chunk: seq<byte> := [0, 0, 0, 0, 0, 0, 0, 0];
      for index := 0 to buffer.Length
        invariant Valid() && readIndex == r + index && |chunk| == 8
        invariant forall k :: 0 <= k < index ==> buffer[k] == Delivered(data, r, k)
        invariant forall k :: index <= k < buffer.Length ==> buffer[k] == old(buffer[k])
        invariant readIndex % 8 != 0 ==>
                    chunk == if readIndex / 8 * 8 >= r then Convert(data[readIndex / 8]) else [0, 0, 0, 0, 0, 0, 0, 0]
      {
        if eofBit {
          return index;
        }
        if readIndex % BYTES_PER_WORD == 0 {
          chunk := Convert(data[readIndex / BYTES_PER_WORD]);
        }
        buffer[index] := chunk[readIndex % BYTES_PER_WORD];
        DeliveredNow(data, r, index, chunk);
        SameWord(readIndex);
        readIndex := readIndex + 1;
        if readIndex == size {
          eofBit := true;
        }
      }
      return buffer.Length;
    }

    /** The loop that serves a request: reads of 512 bytes until one returns nothing. */
    method ReadAll() returns (content: seq<byte>)
      requires Valid() && readIndex == 0
      modifies this
      ensures content == Content(data)[..size] && eofBit
    {
      hide Content, ReadResult;
      var buffer := new byte[READ_BUFFER_SIZE](_ => 0);
      content := [];
      var bytesRead: nat := Read(buffer);
      AlignedRead(data, size, 0, READ_BUFFER_SIZE);
      while bytesRead > 0
        invariant Valid() && fresh(buffer) && buffer.Length == READ_BUFFER_SIZE && bytesRead <= buffer.Length
        invariant content + buffer[..bytesRead] == Content(data)[..readIndex]
        invariant readIndex % 8 == 0 || readIndex == size
        invariant bytesRead == 0 ==> readIndex == size
        decreases size - readIndex, bytesRead
      {
        content := content + buffer[..bytesRead];
        ghost var r := readIndex;
        bytesRead := Read(buffer);
        AlignedRead(data, size, r, READ_BUFFER_SIZE);
        Splice(Content(data), r, readIndex);
      }
      assert content + buffer[..0] == content;
    }
  }

  /** The byte taken from the word at hand is the one delivered. */
  lemma DeliveredNow(data: seq<uint64>, r: nat, k: nat, chunk: seq<byte>)
    requires r + k < 8 * |data| && |chunk| == 8
    requires chunk == if (r + k) / 8 * 8 >= r then Convert(data[(r + k) / 8]) else [0, 0, 0, 0, 0, 0, 0, 0]
    ensures chunk[(r + k) % 8] == Delivered(data, r, k)
  {
    hide Content, Convert;
    ContentAt(data, r + k);
  }

  lemma Splice(s: seq<byte>, r: nat, end: nat)
    requires r <= end <= |s|
    ensures s[..end] == s[..r] + s[r..end]
  {
  }

  lemma SameWord(p: nat)
    ensures (p + 1) % 8 != 0 ==> (p + 1) / 8 == p / 8
    ensures (p + 1) % 8 == 0 ==> (p + 1) / 8 * 8 == p + 1
  {
  }

  lemma DeliveredAligned(data: seq<uint64>, r: nat, k: nat)
    requires r % 8 == 0 && r + k < 8 * |data|
    ensures Delivered(data, r, k) == Content(data)[r + k]
  {
    hide Content;
    assert (r + k) / 8 * 8 >= r;
  }

  /** A read that begins at a word, or at the end, delivers the content. */
  lemma AlignedRead(data: seq<uint64>, size: nat, r: nat, n: nat)
    requires r <= size <= 8 * |data| && (r % 8 == 0 || r == size || n == 0)
    ensures ReadResult(data, size, r, n) == Content(data)[r..r + Min(n, size - r)]
  {
    hide Content, Delivered;
    var m := Min(n, size - r);
    forall k | 0 <= k < m ensures Delivered(data, r, k) == Content(data)[r..r + m][k] {
      DeliveredAligned(data, r, k);
    }
  }

  /** What reads with buffers of these sizes deliver, one after the other, from position r on. */
  function Reads(data: seq<uint64>, size: nat, r: nat, sizes: seq<nat>): seq<byte>
    requires r <= size <= 8 * |data|
    decreases |sizes|
  {
    if |sizes| == 0 then []
    else ReadResult(data, size, r, sizes[0]) + Reads(data, size, r + Min(sizes[0], size - r), sizes[1..])
  }

  function EndOf(size: nat, r: nat, sizes: seq<nat>): (end: nat)
    requires r <= size
    ensures r <= end <= size
    decreases |sizes|
  {
    if |sizes| == 0 then r else EndOf(size, r + Min(sizes[0], size - r), sizes[1..])
  }

  /** Every read that has something to deliver begins at a word. */
  predicate Aligned(size: nat, r: nat, sizes: seq<nat>)
    requires r <= size
    decreases |sizes|
  {
    |sizes| == 0 ||
    ((sizes[0] > 0 && r < size ==> r % 8 == 0) && Aligned(size, r + Min(sizes[0], size - r), sizes[1..]))
  }

  lemma {:induction false} AlignedReads(data: seq<uint64>, size: nat, r: nat, sizes: seq<nat>)
    requires r <= size <= 8 * |data| && Aligned(size, r, sizes)
    ensures Reads(data, size, r, sizes) == Content(data)[r..EndOf(size, r, sizes)]
    decreases |sizes|
  {
    if |sizes| > 0 {
      var next := r + Min(sizes[0], size - r);
      AlignedRead(data, size, r, sizes[0]);
      AlignedReads(data, size, next, sizes[1..]);
    }
  }

  lemma AllOnes(p: nat)
    requires p < 8
    ensures Convert(0xFFFF_FFFF_FFFF_FFFF)[p] == 255
  {
    BigEndianByte(0xFFFF_FFFF_FFFF_FFFF, 8, p);
    OnesShifted(7 - p);
  }

  lemma OnesShifted(k: nat)
    requires k < 8
    ensures ShiftRight(0xFFFF_FFFF_FFFF_FFFF, k) % 256 == 255
  {
    var n7, n6, n5, n4 := 0xFF, 0xFFFF, 0xFF_FFFF, 0xFFFF_FFFF;
    var n3, n2, n1 := 0xFF_FFFF_FFFF, 0xFFFF_FFFF_FFFF, 0xFF_FFFF_FFFF_FFFF;
    assert ShiftRight(n1, 0) == n1;
    if k > 0 {
      assert ShiftRight(0xFFFF_FFFF_FFFF_FFFF, k) == ShiftRight(n1, k - 1);
    }
    if k > 1 {
      assert ShiftRight(n1, k - 1) == ShiftRight(n2, k - 2);
    }
    if k > 2 {
      assert ShiftRight(n2, k - 2) == ShiftRight(n3, k - 3);
    }
    if k > 3 {
      assert ShiftRight(n3, k - 3) == ShiftRight(n4, k - 4);
    }
    if k > 4 {
      assert ShiftRight(n4, k - 4) == ShiftRight(n5, k - 5);
    }
    if k > 5 {
      assert ShiftRight(n5, k - 5) == ShiftRight(n6, k - 6);
    }
    if k > 6 {
      assert ShiftRight(n6, k - 6) == ShiftRight(n7, k - 7);
    }
  }

  lemma FirstDelivered(data: seq<uint64>, size: nat, r: nat, n: nat)
    requires r < size <= 8 * |data| && n > 0
    ensures |ReadResult(data, size, r, n)| > 0
    ensures ReadResult(data, size, r, n)[0] == if r % 8 == 0 then Content(data)[r] else 0
  {
    hide Content;
  }

  lemma {:induction false} OnesTell(data: seq<uint64>, size: nat, r: nat, sizes: seq<nat>)
    requires r <= size <= 8 * |data| && forall w <- data :: w == 0xFFFF_FFFF_FFFF_FFFF
    requires forall i :: 0 <= i < |Reads(data, size, r, sizes)| ==> Reads(data, size, r, sizes)[i] == 255
    ensures Aligned(size, r, sizes)
    decreases |sizes|
  {
    hide Content, ReadResult;
    if |sizes| > 0 {
      var first, rest := ReadResult(data, size, r, sizes[0]), Reads(data, size, r + Min(sizes[0], size - r), sizes[1..]);
      var all := Reads(data, size, r, sizes);
      assert all == first + rest;
      forall i | 0 <= i < |rest| ensures rest[i] == 255 {
        assert rest[i] == all[|first| + i];
      }
      OnesTell(data, size, r + Min(sizes[0], size - r), sizes[1..]);
      if sizes[0] > 0 && r < size {
        assert |first| > 0 ==> first[0] == all[0];
        FirstDelivered(data, size, r, sizes[0]);
      }
    }
  }

  /** Reads with buffers of these sizes concatenate to the content, for every file of this size, if and
      only if each read that delivers something begins at a word. */
  lemma ReadsConcatenateIff(size: nat, sizes: seq<nat>)
    ensures Aligned(size, 0, sizes) <==>
            forall data: seq<uint64> :: size <= 8 * |data| ==>
              Reads(data, size, 0, sizes) == Content(data)[..EndOf(size, 0, sizes)]
  {
    hide Content, Reads, Aligned, EndOf;
    if Aligned(size, 0, sizes) {
      forall data: seq<uint64> | size <= 8 * |data|
        ensures Reads(data, size, 0, sizes) == Content(data)[..EndOf(size, 0, sizes)]
      {
        AlignedReads(data, size, 0, sizes);
      }
    }
    var ones: seq<uint64> := seq(size, _ => 0xFFFF_FFFF_FFFF_FFFF);
    if Reads(ones, size, 0, sizes) == Content(ones)[..EndOf(size, 0, sizes)] {
      forall p | 0 <= p < |Content(ones)| ensures Content(ones)[p] == 255 {
        ContentAt(ones, p);
        AllOnes(p % 8);
      }
      OnesTell(ones, size, 0, sizes);
    }
  }
}
