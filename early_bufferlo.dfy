/** The earlier `Bufferlo` class of the root `index.ts`. It keeps the same state as the later
    class, but its `length` getter dereferences the buffer unconditionally, so every member
    built on it is a TypeError while no buffer is set; `equals` compares buffer references;
    `clone` writes into the unset buffer of a fresh instance; and it adds `bytesLeft` and
    `copyFromIndex`. */
module EarlyBufferlo {
  import opened Common
  import opened TextCodec
  import NodeBuffer

  class Bufferlo {
    var buffer: array?<Byte>
    var encoding: Encoding
    var fd: int
    var index: int

    /** The stored bytes; none while no buffer is set. */
    function Bytes(): (b: seq<Byte>)
      reads this, buffer
      ensures buffer != null ==> |b| == buffer.Length
    {
      if buffer == null then [] else buffer[..]
    }

    /** The `length` getter: a TypeError while no buffer is set. */
    function Length(): (r: Result<nat>)
      reads this
      ensures r.Failure? <==> buffer == null
      ensures r.Failure? ==> r.error == TypeError
      ensures r.Success? ==> r.value == |Bytes()|
    {
      if buffer == null then Failure(TypeError) else Success(buffer.Length)
    }

    /** `available()`: the length less the cursor. */
    function Available(): (r: Result<int>)
      reads this
      ensures buffer == null ==> r == Failure(TypeError)
      ensures buffer != null ==> r == Success(buffer.Length - index)
    {
      match Length()
      case Failure(e) => Failure(e)
      case Success(n) => Success(n - index)
    }

    /** `fit(content)`: the encoded length of `content` is at most `available()`. */
    function Fit(content: string): (r: Result<bool>)
      reads this
      ensures buffer == null ==> r == Failure(TypeError)
      ensures buffer != null ==> r == Success(ByteLength(content, encoding) <= buffer.Length - index)
    {
      match Available()
      case Failure(e) => Failure(e)
      case Success(a) => Success(ByteLength(content, encoding) <= a)
    }

    /** `isEmpty()`: the cursor is at 0. It does not read the length, so it is no error
        while no buffer is set; with a buffer, everything is then available. */
    function IsEmpty(): (r: bool)
      reads this
      ensures r <==> index == 0
      ensures buffer != null ==> (r <==> Available() == Success(buffer.Length))
    {
      index == 0
    }

    /** `isFull()`: nothing is available. */
    function IsFull(): (r: Result<bool>)
      reads this
      ensures buffer == null ==> r == Failure(TypeError)
      ensures buffer != null ==> r == Success(index == buffer.Length)
    {
      match Available()
      case Failure(e) => Failure(e)
      case Success(a) => Success(a == 0)
    }

    /** `new Bufferlo(buffer, encoding)`: a copy of `adopt` when it is a `Buffer` (here: not
        null); any other argument (a string, an array, nothing) leaves the buffer unset. */
    constructor(adopt: array?<Byte>, encoding: Encoding)
      ensures adopt == null ==> buffer == null
      ensures adopt != null ==> fresh(buffer) && Bytes() == adopt[..]
      ensures this.encoding == encoding && index == 0 && fd == 0
    {
      if adopt != null {
        var a := NodeBuffer.From(adopt[..]);
        buffer := a;
      } else {
        buffer := null;
      }
      this.encoding := encoding;
      index := 0;
      fd := 0;
    }

    /** The `buffer` setter: assigns the buffer, then `fixIndex` raises a negative cursor to
        0 and lowers one past the end to the length, which is a TypeError for an unset
        buffer. */
    method SetBuffer(b: array?<Byte>) returns (r: Outcome)
      modifies this
      ensures buffer == b && encoding == old(encoding) && fd == old(fd)
      ensures b == null ==> r == Fail(TypeError) && index == (if old(index) < 0 then 0 else old(index))
      ensures b != null ==> r == Pass && index == Clamp(old(index), b.Length)
    {
      buffer := b;
      if index < 0 {
        index := 0;
      }
      if b == null {
        return Fail(TypeError);
      }
      if index > b.Length {
        index := b.Length;
      }
      r := Pass;
    }

    /** The `index` setter: no clamping. */
    method SetIndex(i: int)
      modifies this
      ensures index == i
      ensures buffer == old(buffer) && encoding == old(encoding) && fd == old(fd)
    {
      index := i;
    }

    /** `allocBytes(n, fill)` for a numeric `fill`: a RangeError for a negative size,
        otherwise fresh storage of `n` bytes, each `fill` reduced to a byte, and the cursor
        at 0. */
    method AllocBytes(n: int, fill: int) returns (r: Outcome)
      modifies this
      ensures n < 0 ==> r == Fail(RangeError) && unchanged(this)
      ensures n >= 0 ==> r == Pass && fresh(buffer) && buffer.Length == n && index == 0 && IsEmpty()
      ensures n >= 0 ==> forall k :: 0 <= k < n ==> buffer[k] == fill % 256
      ensures encoding == old(encoding) && fd == old(fd)
    {
      if n < 0 {
        return Fail(RangeError);
      }
      var a := NodeBuffer.Alloc(n, fill % 256);
      r := SetBuffer(a);
      SetIndex(0);
    }

    /** `allocKiloBytes(n, fill)`: `1024 * n` bytes. */
    method AllocKiloBytes(n: int, fill: int) returns (r: Outcome)
      modifies this
      ensures n < 0 ==> r == Fail(RangeError) && unchanged(this)
      ensures n >= 0 ==> r == Pass && fresh(buffer) && buffer.Length == 1024 * n && index == 0 && IsEmpty()
      ensures n >= 0 ==> forall k :: 0 <= k < buffer.Length ==> buffer[k] == fill % 256
      ensures encoding == old(encoding) && fd == old(fd)
    {
      r := AllocBytes(1024 * n, fill);
    }

    /** `allocMegaBytes(n, fill)`: `1024 * 1024 * n` bytes. */
    method AllocMegaBytes(n: int, fill: int) returns (r: Outcome)
      modifies this
      ensures n < 0 ==> r == Fail(RangeError) && unchanged(this)
      ensures n >= 0 ==> r == Pass && fresh(buffer) && buffer.Length == 1048576 * n && index == 0 && IsEmpty()
      ensures n >= 0 ==> forall k :: 0 <= k < buffer.Length ==> buffer[k] == fill % 256
      ensures encoding == old(encoding) && fd == old(fd)
    {
      r := AllocBytes(1048576 * n, fill);
    }

    /** `write(content, offset)`: as in the later class, `buffer.write` stores the whole units
        that fit after `offset` and the cursor moves to just after them. */
    method Write(content: string, offset: int) returns (r: Result<nat>)
      modifies this, buffer
      ensures buffer == old(buffer) && encoding == old(encoding) && fd == old(fd)
      ensures buffer == null ==> r == Failure(TypeError) && index == old(index)
      ensures buffer != null && !(0 <= offset <= buffer.Length) ==>
        r == Failure(RangeError) && index == old(index) && Bytes() == old(Bytes())
      ensures buffer != null && 0 <= offset <= buffer.Length ==>
        var bytes := NodeBuffer.Written(content, encoding, buffer.Length - offset);
        r == Success(|bytes|) && index == offset + |bytes| &&
        Bytes() == NodeBuffer.Stored(old(Bytes()), offset, bytes)
    {
      if buffer == null {
        return Failure(TypeError);
      }
      r := NodeBuffer.Write(buffer, content, offset, encoding);
      if r.Success? {
        index := offset + r.value;
      }
    }

    /** `append(content)`: `fit` first (a TypeError while no buffer is set), then "Not
        enough memory available!" unless `content` fits, otherwise all of its encoding is
        written at the cursor, which advances past it. */
    method Append(content: string) returns (r: Result<nat>)
      modifies this, buffer
      ensures buffer == old(buffer) && encoding == old(encoding) && fd == old(fd)
      ensures buffer == null ==> r == Failure(TypeError) && index == old(index)
      ensures old(Fit(content)) == Success(false) ==>
        r == Failure(NotEnoughMemory) && index == old(index) && Bytes() == old(Bytes())
      ensures old(Fit(content)) == Success(true) && old(index) < 0 ==>
        r == Failure(RangeError) && index == old(index) && Bytes() == old(Bytes())
      ensures old(Fit(content)) == Success(true) && old(index) >= 0 ==>
        old(index) + |Encoded(content, encoding)| <= buffer.Length
      ensures old(Fit(content)) == Success(true) && old(index) >= 0 ==>
        r == Success(|Encoded(content, encoding)|) &&
        Bytes() == NodeBuffer.Stored(old(Bytes()), old(index), Encoded(content, encoding)) &&
        index == old(index) + |Encoded(content, encoding)|
    {
      var fits := Fit(content);
      if fits.Failure? {
        return Failure(fits.error);
      }
      if !fits.value {
        return Failure(NotEnoughMemory);
      }
      if index >= 0 {
        ByteLengthCountsEncodedBytes(content, encoding);
        NodeBuffer.WrittenIsFittingPrefix(content, encoding, buffer.Length - index);
      }
      r := Write(content, index);
    }

    /** `bytesLeft()`: the length less the position of the first zero byte. With no zero
        byte `indexOf` gives -1, so the result is one more than the length. */
    method BytesLeft() returns (r: Result<int>)
      ensures buffer == null ==> r == Failure(TypeError)
      ensures buffer != null ==> r == Success(|Bytes()| - NodeBuffer.FirstIndexOf(Bytes(), 0))
      ensures buffer != null && 0 !in Bytes() ==> r == Success(|Bytes()| + 1)
      ensures buffer != null && 0 in Bytes() ==> r.Success? && 1 <= r.value <= |Bytes()| && Bytes()[|Bytes()| - r.value] == 0
    {
      if buffer == null {
        return Failure(TypeError);
      }
      var z := NodeBuffer.IndexOf(buffer, 0);
      r := Success(buffer.Length - z);
    }

    /** `clone()`: `bufferlo.buffer.set(this.buffer)` dereferences the unset buffer of the
        fresh instance, so every clone is a TypeError. */
    method Clone() returns (r: Result<Bufferlo>)
      ensures r == Failure(TypeError)
    {
      var b := new Bufferlo(null, Utf8);
      if b.buffer == null {
        return Failure(TypeError);
      }
      r := Success(b);
    }

    /** `compare(other)`: `Buffer.compare` of the two buffers; a TypeError when either is
        unset. */
    method Compare(other: Bufferlo) returns (r: Result<int>)
      ensures buffer == null || other.buffer == null ==> r == Failure(TypeError)
      ensures buffer != null && other.buffer != null ==> r == Success(NodeBuffer.Ordering(Bytes(), other.Bytes()))
    {
      if buffer == null || other.buffer == null {
        return Failure(TypeError);
      }
      var c := NodeBuffer.Compare(buffer, other.buffer);
      r := Success(c);
    }

    /** `equals(other)`: whether the two instances hold the very same buffer object (two
        unset buffers count as equal). Bytes are not looked at. */
    function Equals(other: Bufferlo): (r: bool)
      reads this, other
      ensures r ==> Bytes() == other.Bytes()
      ensures r <==> buffer == other.buffer
      ensures buffer == null ==> (r <==> other.buffer == null)
    {
      buffer == other.buffer
    }

    /** `concat(...list)`: fresh storage holding this buffer's bytes followed by those of
        every buffer in `list`, assigned through the setter; a TypeError, with nothing
        changed, when any of the buffers is unset. */
    method Concat(list: seq<Bufferlo>) returns (r: Outcome)
      modifies this
      ensures encoding == old(encoding) && fd == old(fd)
      ensures old(buffer) == null || (exists k :: 0 <= k < |list| && old(list[k].buffer) == null) ==>
        r == Fail(TypeError) && unchanged(this)
      ensures old(buffer) != null && (forall k :: 0 <= k < |list| ==> old(list[k].buffer) != null) ==>
        r == Pass && fresh(buffer) && Bytes() == old(Bytes() + Contents(list)) &&
        index == Clamp(old(index), buffer.Length)
    {
      if buffer == null {
        return Fail(TypeError);
      }
      var rest := JoinContents(list);
      if rest.None? {
        return Fail(TypeError);
      }
      var joined := Bytes() + rest.value;
      var a := NodeBuffer.From(joined);
      r := SetBuffer(a);
    }

    /** `copy(target, targetStart, sourceStart, sourceEnd)`: `buffer.copy` into the target's
        buffer; only the target's bytes change. */
    method Copy(target: Bufferlo, targetStart: int, sourceStart: int, sourceEnd: int) returns (r: Result<nat>)
      modifies target.buffer
      ensures buffer == null || target.buffer == null ==> r == Failure(TypeError)
      ensures buffer != null && target.buffer != null ==>
        r == NodeBuffer.CopyCount(buffer.Length, target.buffer.Length, targetStart, sourceStart, sourceEnd)
      ensures r.Success? && r.value > 0 ==>
        target.Bytes() == NodeBuffer.Stored(old(target.Bytes()), targetStart, old(Bytes())[sourceStart..sourceStart + r.value])
      ensures r.Failure? || r.value == 0 ==> target.Bytes() == old(target.Bytes())
    {
      if buffer == null || target.buffer == null {
        return Failure(TypeError);
      }
      r := NodeBuffer.Copy(buffer, target.buffer, targetStart, sourceStart, sourceEnd);
    }

    /** `copyFromIndex(target)`: copies this buffer from its cursor to its end into the
        target from the target's cursor on. */
    method CopyFromIndex(target: Bufferlo) returns (r: Result<nat>)
      modifies target.buffer
      ensures buffer == null || target.buffer == null ==> r == Failure(TypeError)
      ensures buffer != null && target.buffer != null && (index < 0 || index > buffer.Length || target.index < 0) ==>
        r == Failure(RangeError)
      ensures buffer != null && target.buffer != null && 0 <= index <= buffer.Length && 0 <= target.index ==>
        r == Success(if target.index >= target.buffer.Length then 0
                     else Min(buffer.Length - index, target.buffer.Length - target.index))
      ensures r.Success? && r.value > 0 ==>
        target.Bytes() == NodeBuffer.Stored(old(target.Bytes()), target.index, old(Bytes())[index..index + r.value])
      ensures r.Failure? || r.value == 0 ==> target.Bytes() == old(target.Bytes())
    {
      match Length()
      case Failure(e) =>
        return Failure(e);
      case Success(n) =>
        r := Copy(target, target.index, index, n);
    }

    /** `extend(n)`: `Buffer.alloc(n)` first (a RangeError for a negative size), then fresh
        storage holding the bytes followed by `n` zero bytes, assigned through the setter. */
    method Extend(n: int) returns (r: Outcome)
      modifies this
      ensures encoding == old(encoding) && fd == old(fd)
      ensures n < 0 ==> r == Fail(RangeError) && unchanged(this)
      ensures n >= 0 && old(buffer) == null ==> r == Fail(TypeError) && unchanged(this)
      ensures n >= 0 && old(buffer) != null ==>
        r == Pass && fresh(buffer) && buffer.Length == old(buffer.Length) + n &&
        Bytes()[..old(buffer.Length)] == old(Bytes()) &&
        (forall k :: old(buffer.Length) <= k < buffer.Length ==> buffer[k] == 0) &&
        index == Clamp(old(index), buffer.Length)
    {
      if n < 0 {
        return Fail(RangeError);
      }
      var zeros := NodeBuffer.Alloc(n, 0);
      if buffer == null {
        return Fail(TypeError);
      }
      var a := NodeBuffer.From(Bytes() + zeros[..]);
      r := SetBuffer(a);
    }

    /** `fromUtf8(content)`: the buffer becomes `content` encoded as UTF-8. The cursor is not
        reset; the setter only moves it into `[0, length]`. */
    method FromUtf8(content: string) returns (r: Outcome)
      modifies this
      ensures r == Pass && fresh(buffer) && Bytes() == Encoded(content, Utf8)
      ensures index == Clamp(old(index), buffer.Length)
      ensures encoding == old(encoding) && fd == old(fd)
    {
      var a := NodeBuffer.From(Encoded(content, Utf8));
      r := SetBuffer(a);
    }
  }

  /** The bytes of every buffer in `list`, in order; the same definition as
      `Bufferlo.Contents`, over instances of the earlier class. */
  function Contents(list: seq<Bufferlo>): seq<Byte>
    reads list, set o | o in list :: o.buffer
  {
    if list == [] then [] else Contents(list[..|list| - 1]) + list[|list| - 1].Bytes()
  }

  /** The bytes of every buffer in `list`, in order (the argument `Buffer.concat` receives
      from `list.map(b => b.buffer)`), or nothing when one of the buffers is unset. */
  method JoinContents(list: seq<Bufferlo>) returns (r: Option<seq<Byte>>)
    ensures r.None? <==> exists k :: 0 <= k < |list| && list[k].buffer == null
    ensures r.Some? ==> r.value == Contents(list)
  {
    var joined := [];
    var i := 0;
    while i < |list|
      invariant 0 <= i <= |list|
      invariant forall k :: 0 <= k < i ==> list[k].buffer != null
      invariant joined == Contents(list[..i])
    {
      if list[i].buffer == null {
        return None;
      }
      assert list[..i + 1][..i] == list[..i];
      joined := joined + list[i].Bytes();
      i := i + 1;
    }
    assert list[..i] == list;
    return Some(joined);
  }
}
