/** The scenarios of the repository's test suite (`test/index.ts`), stated as client methods
    of the model of `src/index.ts`, with the outcomes the tests assert proved as
    postconditions; some of them are also stated against the earlier class of `index.ts`,
    where it behaves differently. */
module Scenarios {
  import opened Common
  import opened Numerals
  import opened TextCodec
  import NodeBuffer
  import Later = Bufferlo
  import Early = EarlyBufferlo

  /** A character below U+0080 is one UTF-8 byte: its code. */
  lemma OneByte(c: char)
    requires (c as int) < 0x80
    ensures Encoded([c], Utf8) == [c as int] && ByteLength([c], Utf8) == 1
  {
    assert [c][1..] == [];
    assert CharUnits(c, Utf8) == [[c as int]];
    assert Units([c], Utf8) == [[c as int]];
    assert [[c as int]][1..] == [];
    assert Flatten([[c as int]]) == [c as int] + Flatten([]);
    ByteLengthCountsEncodedBytes([c], Utf8);
  }

  /** A fresh buffer of `size` zero bytes with `letters` appended one by one, as the tests
      prepare their instances. */
  method Prepared(size: nat, letters: string) returns (bf: Later.Bufferlo)
    requires |letters| <= size
    requires forall k :: 0 <= k < |letters| ==> (letters[k] as int) < 0x80
    ensures fresh(bf) && fresh(bf.buffer)
    ensures bf.Length() == size && bf.index == |letters| && bf.encoding == Utf8
    ensures forall k :: 0 <= k < |letters| ==> bf.Bytes()[k] == letters[k] as int
    ensures forall k :: |letters| <= k < size ==> bf.Bytes()[k] == 0
  {
    bf := new Later.Bufferlo("", Utf8);
    var _ := bf.Alloc(size, 0);
    var i := 0;
    while i < |letters|
      invariant 0 <= i <= |letters|
      invariant fresh(bf.buffer) && bf.buffer != null
      invariant bf.Length() == size && bf.index == i && bf.encoding == Utf8
      invariant forall k :: 0 <= k < i ==> bf.Bytes()[k] == letters[k] as int
      invariant forall k :: i <= k < size ==> bf.Bytes()[k] == 0
    {
      OneByte(letters[i]);
      var _ := bf.Append([letters[i]]);
      i := i + 1;
    }
  }

  /** 'Empty initialization': no buffer, UTF-8, cursor and descriptor at 0. */
  method EmptyInitialization() returns (isBuffer: bool, encoding: Encoding, index: int, fd: int)
    ensures !isBuffer && encoding == Utf8 && index == 0 && fd == 0
  {
    var bf := new Later.Bufferlo("", Utf8);
    isBuffer := bf.buffer != null;
    encoding := bf.encoding;
    index := bf.index;
    fd := bf.fd;
  }

  /** 'Buffer allocation': each of the six allocations on a new instance gives the length
      asked for, with the cursor at 0. */
  method Allocation() returns (lengths: seq<int>, indexes: seq<int>)
    ensures lengths == [1, 1, 1024, 1024, 1048576, 1048576]
    ensures indexes == [0, 0, 0, 0, 0, 0]
  {
    var a := new Later.Bufferlo("", Utf8);
    var _ := a.Alloc(1, 0);
    var b := new Later.Bufferlo("", Utf8);
    var _ := b.AllocUnsafe(1);
    var c := new Later.Bufferlo("", Utf8);
    var _ := c.AllocKiloBytes(1, 0);
    var d := new Later.Bufferlo("", Utf8);
    var _ := d.AllocKiloBytesUnsafe(1);
    var e := new Later.Bufferlo("", Utf8);
    var _ := e.AllocMegaBytes(1, 0);
    var f := new Later.Bufferlo("", Utf8);
    var _ := f.AllocMegaBytesUnsafe(1);
    lengths := [a.Length(), b.Length(), c.Length(), d.Length(), e.Length(), f.Length()];
    indexes := [a.index, b.index, c.index, d.index, e.index, f.index];
  }

  /** `isEmpty` and `isFull` on a three-byte buffer: empty and not full after allocation,
      full and not empty after three letters. */
  method EmptyThenFull() returns (emptyAtFirst: bool, fullAtFirst: bool, emptyAtLast: bool, fullAtLast: bool)
    ensures emptyAtFirst && !fullAtFirst && !emptyAtLast && fullAtLast
  {
    var bf := Prepared(3, "");
    emptyAtFirst := bf.IsEmpty();
    fullAtFirst := bf.IsFull();
    bf := Prepared(3, "abc");
    emptyAtLast := bf.IsEmpty();
    fullAtLast := bf.IsFull();
  }

  /** 'append': three letters fill three bytes, a fourth does not fit. */
  method AppendUntilFull() returns (index: int, overflow: Result<nat>)
    ensures index == 3 && overflow == Failure(NotEnoughMemory)
  {
    var bf := Prepared(3, "abc");
    index := bf.index;
    OneByte('d');
    overflow := bf.Append("d");
  }

  /** 'available': 0 without a buffer, 4 after allocating four bytes, 3 after one letter. */
  method AvailableAfterAppend() returns (unset: int, sized: int, appended: int)
    ensures unset == 0 && sized == 4 && appended == 3
  {
    var bf := new Later.Bufferlo("", Utf8);
    unset := bf.Available();
    var _ := bf.Alloc(4, 0);
    sized := bf.Available();
    OneByte('a');
    var _ := bf.Append("a");
    appended := bf.Available();
  }

  /** 'at': the appended letters read back as their codes, in every format. */
  method AtAfterAppend() returns (first: Result<Option<Converted>>, second: Result<Option<Converted>>,
                                  third: Result<Option<Converted>>, last: Result<Option<Converted>>,
                                  past: Result<Option<Converted>>, binary: Result<Option<Converted>>)
    ensures first == Success(Some(Number(Int(97))))
    ensures second == Success(Some(Number(Int(98))))
    ensures third == Success(Some(Number(Int(99))))
    ensures last == Success(Some(Number(Int(99))))
    ensures past == Success(None)
    ensures binary == Success(Some(Text("1100001")))
  {
    var bf := Prepared(3, "abc");
    first := bf.At(0, Decimal);
    second := bf.At(1, Decimal);
    third := bf.At(2, Decimal);
    last := bf.At(-1, Decimal);
    past := bf.At(3, Decimal);
    BinaryOf97();
    binary := bf.At(0, Binary);
  }

  /** 'clone': the clone equals the original and has its encoding and cursor. */
  method CloneEquals() returns (equal: Result<bool>, sameEncoding: bool, sameIndex: bool)
    ensures equal == Success(true) && sameEncoding && sameIndex
  {
    var bf := Prepared(3, "ab");
    var c := bf.Clone();
    var copy := c.value;
    equal := bf.Equals(copy);
    sameEncoding := bf.encoding == copy.encoding;
    sameIndex := bf.index == copy.index;
  }

  /** 'compare': equal letters give 0, 'a' before 'b' gives -1, 'c' after 'a' gives 1. */
  method CompareLetters() returns (same: Result<int>, before: Result<int>, after: Result<int>)
    ensures same == Success(0) && before == Success(-1) && after == Success(1)
  {
    var a1 := Prepared(1, "a");
    var a2 := Prepared(1, "a");
    var b := Prepared(1, "b");
    var c := Prepared(1, "c");
    assert a1.Bytes() == [97] && a2.Bytes() == [97];
    assert b.Bytes() == [98] && c.Bytes() == [99];
    same := a1.Compare(a2);
    before := a1.Compare(b);
    after := c.Compare(a1);
  }

  /** 'concat': three one-letter buffers join into "abc". */
  method ConcatLetters() returns (length: int, bytes: seq<Byte>)
    ensures length == 3 && bytes == [97, 98, 99]
  {
    var a := Prepared(1, "a");
    var b := Prepared(1, "b");
    var c := Prepared(1, "c");
    var list := [b, c];
    assert list[0].buffer != null && list[1].buffer != null;
    assert list[..1] == [b] && [b][..0] == [];
    assert Later.Contents(list) == Later.Contents([b]) + c.Bytes();
    assert Later.Contents([b]) == b.Bytes();
    assert a.Bytes() == [97] && b.Bytes() == [98] && c.Bytes() == [99];
    var joined := a.Bytes() + Later.Contents(list);
    assert joined == [97, 98, 99];
    var _ := a.Concat(list);
    assert a.Bytes() == joined;
    length := a.Length();
    bytes := a.Bytes();
  }

  /** 'copy', first half: the whole of "abcd" into four zero bytes. */
  method CopyWhole() returns (bytes: seq<Byte>)
    ensures bytes == [97, 98, 99, 100]
  {
    var bf := Prepared(4, "abcd");
    assert bf.Bytes() == [97, 98, 99, 100];
    var t := Prepared(4, "");
    var _ := bf.Copy(t, 0, 0, bf.Length());
    bytes := t.Bytes();
  }

  /** 'copy', second half: source positions 2 to 4 of "abcd" to position 1 of four zero
      bytes. */
  method CopyPart() returns (bytes: seq<Byte>)
    ensures bytes == [0, 99, 100, 0]
  {
    var bf := Prepared(4, "abcd");
    assert bf.Bytes()[2..4] == [99, 100];
    var t := Prepared(4, "");
    assert t.Bytes() == [0, 0, 0, 0];
    var _ := bf.Copy(t, 1, 2, 4);
    bytes := t.Bytes();
  }

  /** 'copyToIndex': "ab" lands at the target's cursor, 1. */
  method CopyToCursor() returns (bytes: seq<Byte>)
    ensures bytes == [0, 97, 98]
  {
    var bf := Prepared(3, "abc");
    assert bf.Bytes() == [97, 98, 99];
    var t := Prepared(3, "");
    assert t.Bytes() == [0, 0, 0];
    t.SetIndex(1);
    var _ := bf.CopyToIndex(t, 0, 2);
    bytes := t.Bytes();
  }

  /** 'extend': twelve more bytes after "ab" and two zero bytes, the letters kept. */
  method ExtendKeepsBytes() returns (length: int, first: Result<Option<Converted>>, second: Result<Option<Converted>>)
    ensures length == 16 && first == Success(Some(Number(Int(97)))) && second == Success(Some(Number(Int(98))))
  {
    var bf := Prepared(4, "ab");
    var _ := bf.Extend(12);
    length := bf.Length();
    first := bf.At(0, Decimal);
    second := bf.At(1, Decimal);
  }

  /** The second 'extend' test, on `equals`: same letters are equal, different ones not. */
  method EqualsLetters() returns (same: Result<bool>, different: Result<bool>)
    ensures same == Success(true) && different == Success(false)
  {
    var a1 := Prepared(1, "a");
    var a2 := Prepared(1, "a");
    var b := Prepared(1, "b");
    assert a1.Bytes() == [97] && a2.Bytes() == [97] && b.Bytes() == [98];
    same := a1.Equals(a2);
    different := a1.Equals(b);
  }

  /** 'fit': one letter fits one byte, two do not. */
  method FitOneByte() returns (one: bool, two: bool)
    ensures one && !two
  {
    var bf := Prepared(1, "");
    OneByte('a');
    one := bf.Fit("a");
    assert Encoded("ab", Utf8) == [97, 98] by {
      assert Units("ab", Utf8) == [[97]] + Units("b", Utf8);
      OneByte('b');
    }
    two := bf.Fit("ab");
  }

  /** `setBinary` stores the byte a binary rendering spells, so `at(i, 'binary')` reads the
      rendering back. */
  method SetBinaryRoundTrip() returns (read: Result<Option<Converted>>)
    ensures read == Success(Some(Text("1100001")))
  {
    var bf := Prepared(1, "");
    BinaryOf97();
    StoredRenderingIsByte(97, Binary);
    var _ := bf.SetBinary(0, "1100001");
    read := bf.At(0, Binary);
  }

  /** A fresh early instance holding a copy of `bytes`. */
  method EarlyOf(bytes: seq<Byte>) returns (bf: Early.Bufferlo)
    ensures fresh(bf) && fresh(bf.buffer) && bf.Bytes() == bytes && bf.index == 0
  {
    var a := NodeBuffer.From(bytes);
    bf := new Early.Bufferlo(a, Utf8);
  }

  /** The early `equals` on two instances holding the same byte: false, where the test
      suite's `equals` scenario expects true. */
  method EarlyEqualsIgnoresBytes() returns (sameBytes: bool, equal: bool)
    ensures sameBytes && !equal
  {
    var a1 := EarlyOf([97]);
    var a2 := EarlyOf([97]);
    sameBytes := a1.Bytes() == a2.Bytes();
    equal := a1.Equals(a2);
  }

  /** The early `equals` on two new instances: both buffers are unset, so it holds, and
      an unset instance is not equal to one holding bytes. */
  method EarlyEqualsUnset() returns (bothUnset: bool, unsetAgainstSet: bool)
    ensures bothUnset && !unsetAgainstSet
  {
    var u1 := new Early.Bufferlo(null, Utf8);
    var u2 := new Early.Bufferlo(null, Utf8);
    bothUnset := u1.Equals(u2);
    var a := EarlyOf([97]);
    unsetAgainstSet := u1.Equals(a);
  }

  /** The early `clone` of an instance holding bytes: a TypeError, where the test suite's
      `clone` scenario expects an equal copy. */
  method EarlyCloneFails() returns (clone: Result<Early.Bufferlo>)
    ensures clone == Failure(TypeError)
  {
    var bf := EarlyOf([97, 98, 0]);
    clone := bf.Clone();
  }

  /** The early `available` of a fresh instance: a TypeError, where the test suite's
      'available' scenario expects 0. */
  method EarlyAvailableUnset() returns (available: Result<int>)
    ensures available == Failure(TypeError)
  {
    var bf := new Early.Bufferlo(null, Utf8);
    available := bf.Available();
  }

  /** The early `bytesLeft` counts from the first zero byte, and is one more than the length
      when there is none. */
  method EarlyBytesLeft() returns (withZero: Result<int>, withoutZero: Result<int>)
    ensures withZero == Success(2) && withoutZero == Success(4)
  {
    var z := EarlyOf([97, 0, 0]);
    withZero := z.BytesLeft();
    var n := EarlyOf([97, 98, 99]);
    withoutZero := n.BytesLeft();
  }
}
