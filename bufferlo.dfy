/** The `Bufferlo` class of `src/index.ts`: a fixed-capacity byte buffer with a write cursor
    (`index`), a declared text encoding and a file-descriptor slot. The buffer may be unset
    (`null`); only assigning a new buffer clamps the cursor into `[0, length]`, while the
    cursor itself may be set to any integer. */
module Bufferlo {
  import opened Common
  import opened Numerals
  import opened TextCodec
  import NodeBuffer

  /** The targets of `moveIndex`. */
  datatype Position = Start | Center | End | Empty

  class Bufferlo {
    var buffer: array?<Byte>
    var encoding: Encoding
    var fd: int
    var index: int

    /** The `length` getter: 0 while no buffer is set, where the earlier getter throws. */
    function Length(): (n: nat)
      reads this
      ensures buffer == null ==> n == 0
      ensures buffer != null ==> n == buffer.Length
    {
      if buffer == null then 0 else buffer.Length
    }

    /** The stored bytes; none while no buffer is set. */
    function Bytes(): (b: seq<Byte>)
      reads this, buffer
      ensures |b| == Length()
    {
      if buffer == null then [] else buffer[..]
    }

    /** `available()`: the bytes between the cursor and the end; never an error, and 0 for a
        new instance. */
    function Available(): (a: int)
      reads this
      ensures a + index == Length()
      ensures buffer == null && index == 0 ==> a == 0
    {
      Length() - index
    }

    /** `fit(content)`: `Buffer.byteLength` of `content` is at most `available()`. In every
        encoding but hex that is exactly "all the bytes `Buffer.from` makes fit"; in hex the
        decoded bytes fit whenever `fit` holds. */
    function Fit(content: string): (r: bool)
      reads this
      ensures encoding != Encoding.Hex ==> (r <==> |Encoded(content, encoding)| <= Available())
      ensures encoding == Encoding.Hex && r ==> |Encoded(content, encoding)| <= Available()
    {
      ByteLengthCountsEncodedBytes(content, encoding);
      ByteLength(content, encoding) <= Available()
    }

    /** `isEmpty()`: the cursor is at 0, so everything is available. */
    function IsEmpty(): (r: bool)
      reads this
      ensures r <==> Available() == Length()
    {
      index == 0
    }

    /** `isFull()`: nothing is available, so the cursor is at the end. */
    function IsFull(): (r: bool)
      reads this
      ensures r <==> index == Length()
    {
      Available() == 0
    }

    /** `new Bufferlo(content, encoding)`: a non-empty `content` becomes the buffer, encoded
        as UTF-8 whatever `encoding` says, with the cursor at its end; an empty one leaves
        the buffer unset. */
    constructor(content: string, encoding: Encoding)
      ensures content == [] ==> buffer == null && index == 0 && IsEmpty()
      ensures content != [] ==> fresh(buffer) && Bytes() == Encoded(content, Utf8)
      ensures content != [] ==> index == |Encoded(content, Utf8)| && IsFull()
      ensures this.encoding == encoding && fd == 0
    {
      if content != [] {
        var a := NodeBuffer.From(Encoded(content, Utf8));
        buffer := a;
        index := a.Length;
      } else {
        buffer := null;
        index := 0;
      }
      this.encoding := encoding;
      fd := 0;
    }

    /** `Bufferlo.ofArray(data)`: a fresh instance over `Buffer.from(data)`, each element
        reduced to a byte; the cursor stays at 0. */
    static method OfArray(data: seq<int>) returns (b: Bufferlo)
      ensures fresh(b) && fresh(b.buffer)
      ensures b.Length() == |data|
      ensures forall k :: 0 <= k < |data| ==> b.buffer[k] == Uint8(Int(data[k]))
      ensures b.index == 0 && b.encoding == Utf8 && b.fd == 0
    {
      b := new Bufferlo("", Utf8);
      var a := NodeBuffer.From(seq(|data|, k requires 0 <= k < |data| => Uint8(Int(data[k]))));
      b.SetBuffer(a);
    }

    /** The `buffer` setter: assigns the buffer, then `fixIndex` clamps the cursor. */
    method SetBuffer(b: array?<Byte>)
      modifies this
      ensures buffer == b && index == Clamp(old(index), Length())
      ensures encoding == old(encoding) && fd == old(fd)
    {
      buffer := b;
      index := Clamp(index, Length());
    }

    /** The `index` setter: no clamping. */
    method SetIndex(i: int)
      modifies this
      ensures index == i
      ensures buffer == old(buffer) && encoding == old(encoding) && fd == old(fd)
    {
      index := i;
    }

    /** `alloc(size, fill)` for a numeric `fill`: a RangeError for a negative size, otherwise
        a fresh zero-based buffer of `size` bytes, each `fill` reduced to a byte. */
    method Alloc(size: int, fill: int) returns (r: Outcome)
      modifies this
      ensures size < 0 ==> r == Fail(RangeError) && unchanged(this)
      ensures size >= 0 ==> r == Pass && fresh(buffer) && Length() == size && index == 0 && IsEmpty()
      ensures size >= 0 ==> forall k :: 0 <= k < size ==> buffer[k] == Uint8(Int(fill))
      ensures encoding == old(encoding) && fd == old(fd)
    {
      if size < 0 {
        return Fail(RangeError);
      }
      var a := NodeBuffer.Alloc(size, Uint8(Int(fill)));
      SetBuffer(a);
      SetIndex(0);
      r := Pass;
    }

    /** `allocKiloBytes(size, fill)`: `alloc(1024 * size, fill)`. */
    method AllocKiloBytes(size: int, fill: int) returns (r: Outcome)
      modifies this
      ensures size < 0 ==> r == Fail(RangeError) && unchanged(this)
      ensures size >= 0 ==> r == Pass && fresh(buffer) && Length() == 1024 * size && index == 0 && IsEmpty()
      ensures size >= 0 ==> forall k :: 0 <= k < Length() ==> buffer[k] == Uint8(Int(fill))
      ensures encoding == old(encoding) && fd == old(fd)
    {
      r := Alloc(1024 * size, fill);
    }

    /** `allocMegaBytes(size, fill)`: `alloc(1024 * 1024 * size, fill)`. */
    method AllocMegaBytes(size: int, fill: int) returns (r: Outcome)
      modifies this
      ensures size < 0 ==> r == Fail(RangeError) && unchanged(this)
      ensures size >= 0 ==> r == Pass && fresh(buffer) && Length() == 1048576 * size && index == 0 && IsEmpty()
      ensures size >= 0 ==> forall k :: 0 <= k < Length() ==> buffer[k] == Uint8(Int(fill))
      ensures encoding == old(encoding) && fd == old(fd)
    {
      r := Alloc(1048576 * size, fill);
    }

    /** `allocUnsafe(size)`: like `alloc`, but the new bytes are whatever the memory held. */
    method AllocUnsafe(size: int) returns (r: Outcome)
      modifies this
      ensures size < 0 ==> r == Fail(RangeError) && unchanged(this)
      ensures size >= 0 ==> r == Pass && fresh(buffer) && Length() == size && index == 0 && IsEmpty()
      ensures encoding == old(encoding) && fd == old(fd)
    {
      if size < 0 {
        return Fail(RangeError);
      }
      var a := new Byte[size];
      SetBuffer(a);
      SetIndex(0);
      r := Pass;
    }

    /** `allocKiloBytesUnsafe(size)`: `allocUnsafe(1024 * size)`. */
    method AllocKiloBytesUnsafe(size: int) returns (r: Outcome)
      modifies this
      ensures size < 0 ==> r == Fail(RangeError) && unchanged(this)
      ensures size >= 0 ==> r == Pass && fresh(buffer) && Length() == 1024 * size && index == 0 && IsEmpty()
      ensures encoding == old(encoding) && fd == old(fd)
    {
      r := AllocUnsafe(1024 * size);
    }

    /** `allocMegaBytesUnsafe(size)`: `allocUnsafe(1024 * 1024 * size)`. */
    method AllocMegaBytesUnsafe(size: int) returns (r: Outcome)
      modifies this
      ensures size < 0 ==> r == Fail(RangeError) && unchanged(this)
      ensures size >= 0 ==> r == Pass && fresh(buffer) && Length() == 1048576 * size && index == 0 && IsEmpty()
      ensures encoding == old(encoding) && fd == old(fd)
    {
      r := AllocUnsafe(1048576 * size);
    }

    /** `write(content, offset)`: `buffer.write(content, offset, encoding)` stores the whole
        units of `content` that fit after `offset`, and the cursor moves to just after them.
        A TypeError while no buffer is set, a RangeError for an offset outside the buffer. */
    method Write(content: string, offset: int) returns (r: Result<nat>)
      modifies this, buffer
      ensures buffer == old(buffer) && encoding == old(encoding) && fd == old(fd)
      ensures buffer == null ==> r == Failure(TypeError) && index == old(index)
      ensures buffer != null && !(0 <= offset <= Length()) ==>
        r == Failure(RangeError) && index == old(index) && Bytes() == old(Bytes())
      ensures buffer != null && 0 <= offset <= Length() ==>
        var bytes := NodeBuffer.Written(content, encoding, Length() - offset);
        r == Success(|bytes|) && index == offset + |bytes| &&
        Bytes() == NodeBuffer.Stored(old(Bytes()), offset, bytes)
      ensures r.Success? ==> Available() == Length() - offset - r.value
    {
      if buffer == null {
        return Failure(TypeError);
      }
      r := NodeBuffer.Write(buffer, content, offset, encoding);
      if r.Success? {
        index := offset + r.value;
      }
    }

    /** `append(content)`: "Not enough memory available!" unless `content` fits; otherwise
        all of its encoding is written at the cursor, which advances past it. The cursor can
        be negative (after `moveIndex('empty')` found no zero byte), and then the write at it
        is a RangeError. */
    method Append(content: string) returns (r: Result<nat>)
      modifies this, buffer
      ensures buffer == old(buffer) && encoding == old(encoding) && fd == old(fd)
      ensures !old(Fit(content)) ==> r == Failure(NotEnoughMemory) && index == old(index) && Bytes() == old(Bytes())
      ensures old(Fit(content)) && buffer == null ==> r == Failure(TypeError) && index == old(index)
      ensures old(Fit(content)) && buffer != null && old(index) < 0 ==>
        r == Failure(RangeError) && index == old(index) && Bytes() == old(Bytes())
      ensures old(Fit(content)) && buffer != null && old(index) >= 0 ==>
        old(index) + |Encoded(content, encoding)| <= Length()
      ensures old(Fit(content)) && buffer != null && old(index) >= 0 ==>
        r == Success(|Encoded(content, encoding)|) &&
        Bytes() == NodeBuffer.Stored(old(Bytes()), old(index), Encoded(content, encoding)) &&
        index == old(index) + |Encoded(content, encoding)|
      ensures r.Success? && encoding != Encoding.Hex ==>
        r.value == ByteLength(content, encoding) && Available() == old(Available()) - ByteLength(content, encoding)
    {
      if !Fit(content) {
        return Failure(NotEnoughMemory);
      }
      if buffer != null && index >= 0 {
        ByteLengthCountsEncodedBytes(content, encoding);
        NodeBuffer.WrittenIsFittingPrefix(content, encoding, Length() - index);
      }
      r := Write(content, index);
    }

    /** `at(i, format)`: a negative `i` counts from the end; a position at or past the end
        gives nothing; a byte is handed out as a number or, for another format, as its
        `decimalTo` rendering. A position still negative after counting from the end reads
        `undefined` from a set buffer, which `decimalTo` cannot render, and fails on an
        unset one. */
    function At(i: int, format: Format): (r: Result<Option<Converted>>)
      reads this, buffer
      ensures 0 <= i < Length() ==> r == Success(Some(Render(Int(Bytes()[i]), format)))
      ensures i < 0 && 0 <= Length() + i ==> r == Success(Some(Render(Int(Bytes()[Length() + i]), format)))
      ensures i >= Length() ==> r == Success(None)
      ensures Length() + i < 0 && buffer != null && format == Decimal ==> r == Success(None)
      ensures Length() + i < 0 && (buffer == null || format != Decimal) ==> r == Failure(TypeError)
    {
      var fixed := if i < 0 then Length() + i else i;
      if fixed >= Length() then Success(None)
      else if fixed >= 0 then Success(Some(Render(Int(Bytes()[fixed]), format)))
      else if buffer == null || format != Decimal then Failure(TypeError)
      else Success(None)
    }

    /** The typed-array store `buffer[i] = n`: the number reduced to a byte at a position
        inside the buffer, nothing at any other position, a TypeError while no buffer is
        set. */
    method Store(i: int, n: Num) returns (r: Outcome)
      modifies buffer
      ensures buffer == null ==> r == Fail(TypeError)
      ensures buffer != null ==> (r == Pass &&
        Bytes() == if 0 <= i < Length() then old(Bytes())[i := Uint8(n)] else old(Bytes()))
      ensures buffer != null && 0 <= i < Length() ==> At(i, Decimal) == Success(Some(Number(Int(Uint8(n)))))
    {
      if buffer == null {
        return Fail(TypeError);
      }
      if 0 <= i < buffer.Length {
        buffer[i] := Uint8(n);
      }
      r := Pass;
    }

    /** `set(i, value)`: a raw store, no range or value check. */
    method Set(i: int, value: int) returns (r: Outcome)
      modifies buffer
      ensures buffer == null ==> r == Fail(TypeError)
      ensures buffer != null ==> (r == Pass &&
        Bytes() == if 0 <= i < Length() then old(Bytes())[i := value % 256] else old(Bytes()))
      ensures buffer != null && 0 <= i < Length() ==> At(i, Decimal) == Success(Some(Number(Int(value % 256))))
    {
      r := Store(i, Int(value));
    }

    /** `setBase(i, text, radix)`: stores `parseInt(text, radix)`; text that is not a
        numeral parses to NaN and stores 0. */
    method SetBase(i: int, text: string, radix: Radix) returns (r: Outcome)
      modifies buffer
      ensures buffer == null ==> r == Fail(TypeError)
      ensures buffer != null ==> (r == Pass &&
        Bytes() == if 0 <= i < Length() then old(Bytes())[i := Uint8(ParseInt(text, radix))] else old(Bytes()))
    {
      r := Store(i, ParseInt(text, radix));
    }

    /** `setBinary(i, text)`. */
    method SetBinary(i: int, text: string) returns (r: Outcome)
      modifies buffer
      ensures buffer == null ==> r == Fail(TypeError)
      ensures buffer != null ==> (r == Pass &&
        Bytes() == if 0 <= i < Length() then old(Bytes())[i := Uint8(ParseInt(text, Binary))] else old(Bytes()))
    {
      r := SetBase(i, text, Binary);
    }

    /** `setHex(i, text)`. */
    method SetHex(i: int, text: string) returns (r: Outcome)
      modifies buffer
      ensures buffer == null ==> r == Fail(TypeError)
      ensures buffer != null ==> (r == Pass &&
        Bytes() == if 0 <= i < Length() then old(Bytes())[i := Uint8(ParseInt(text, Format.Hex))] else old(Bytes()))
    {
      r := SetBase(i, text, Format.Hex);
    }

    /** `setOctal(i, text)`. */
    method SetOctal(i: int, text: string) returns (r: Outcome)
      modifies buffer
      ensures buffer == null ==> r == Fail(TypeError)
      ensures buffer != null ==> (r == Pass &&
        Bytes() == if 0 <= i < Length() then old(Bytes())[i := Uint8(ParseInt(text, Octal))] else old(Bytes()))
    {
      r := SetBase(i, text, Octal);
    }

    /** `copy(target, targetStart, sourceStart, sourceEnd)`: `buffer.copy` into the target's
        buffer. Only the target's bytes change, never a cursor; copying within one buffer
        reads every source byte before writing. */
    method Copy(target: Bufferlo, targetStart: int, sourceStart: int, sourceEnd: int) returns (r: Result<nat>)
      modifies target.buffer
      ensures buffer == null || target.buffer == null ==> r == Failure(TypeError)
      ensures buffer != null && target.buffer != null ==>
        r == NodeBuffer.CopyCount(Length(), target.Length(), targetStart, sourceStart, sourceEnd)
      ensures r.Success? && r.value > 0 ==>
        target.Bytes() == NodeBuffer.Stored(old(target.Bytes()), targetStart, old(Bytes())[sourceStart..sourceStart + r.value])
      ensures r.Failure? || r.value == 0 ==> target.Bytes() == old(target.Bytes())
      ensures buffer != target.buffer ==> Bytes() == old(Bytes())
    {
      if buffer == null || target.buffer == null {
        return Failure(TypeError);
      }
      ghost var source := buffer[..];
      r := NodeBuffer.Copy(buffer, target.buffer, targetStart, sourceStart, sourceEnd);
      assert buffer != target.buffer ==> buffer[..] == source;
    }

    /** `copyToIndex(target, sourceStart, sourceEnd)`: a copy to the target's cursor. */
    method CopyToIndex(target: Bufferlo, sourceStart: int, sourceEnd: int) returns (r: Result<nat>)
      modifies target.buffer
      ensures buffer == null || target.buffer == null ==> r == Failure(TypeError)
      ensures buffer != null && target.buffer != null ==>
        r == NodeBuffer.CopyCount(Length(), target.Length(), target.index, sourceStart, sourceEnd)
      ensures r.Success? && r.value > 0 ==>
        target.Bytes() == NodeBuffer.Stored(old(target.Bytes()), target.index, old(Bytes())[sourceStart..sourceStart + r.value])
      ensures r.Failure? || r.value == 0 ==> target.Bytes() == old(target.Bytes())
    {
      r := Copy(target, target.index, sourceStart, sourceEnd);
    }

    /** `clone()`: a new instance over separately allocated storage holding the same bytes,
        with the same encoding and cursor and no file descriptor. The copy into the new
        storage fails while no buffer is set. */
    method Clone() returns (r: Result<Bufferlo>)
      ensures buffer == null ==> r == Failure(TypeError)
      ensures buffer != null ==> r.Success? && fresh(r.value) && fresh(r.value.buffer)
      ensures r.Success? ==> r.value.Bytes() == Bytes() && r.value.encoding == encoding
      ensures r.Success? ==> r.value.index == index && r.value.fd == 0
    {
      var b := new Bufferlo("", Utf8);
      var a := NodeBuffer.Alloc(Length(), 0);
      b.SetBuffer(a);
      var n := Copy(b, 0, 0, Length());
      if n.Failure? {
        return Failure(n.error);
      }
      b.encoding := encoding;
      b.SetIndex(index);
      r := Success(b);
    }

    /** `compare(other)`: `Buffer.compare` of the two buffers; a TypeError when either is
        unset. */
    method Compare(other: Bufferlo) returns (r: Result<int>)
      ensures buffer == null || other.buffer == null ==> r == Failure(TypeError)
      ensures buffer != null && other.buffer != null ==> r == Success(NodeBuffer.Ordering(Bytes(), other.Bytes()))
    {
      if buffer == null || other.buffer == null {
        return Failure(TypeError);
      }
      var c := NodeBuffer.Compare(buffer, other.buffer);
      r := Success(c);
    }

    /** `equals(other)`: `Buffer.equals`, true exactly when the stored bytes are the same,
        which is exactly when `compare` gives 0. */
    method Equals(other: Bufferlo) returns (r: Result<bool>)
      ensures buffer == null || other.buffer == null ==> r == Failure(TypeError)
      ensures buffer != null && other.buffer != null ==> r == Success(Bytes() == other.Bytes())
      ensures r.Success? ==> (r.value <==> NodeBuffer.Ordering(Bytes(), other.Bytes()) == 0)
    {
      if buffer == null || other.buffer == null {
        return Failure(TypeError);
      }
      var c := NodeBuffer.Compare(buffer, other.buffer);
      NodeBuffer.OrderingZeroIffEqual(buffer[..], other.buffer[..]);
      r := Success(c == 0);
    }

    /** `concat(...list)`: the buffer becomes fresh storage holding its bytes followed by
        those of every buffer in `list`; the setter then clamps the cursor. A TypeError,
        with nothing changed, when any of the buffers is unset. */
    method Concat(list: seq<Bufferlo>) returns (r: Outcome)
      modifies this
      ensures encoding == old(encoding) && fd == old(fd)
      ensures old(buffer) == null || (exists k :: 0 <= k < |list| && old(list[k].buffer) == null) ==>
        r == Fail(TypeError) && unchanged(this)
      ensures old(buffer) != null && (forall k :: 0 <= k < |list| ==> old(list[k].buffer) != null) ==>
        r == Pass && fresh(buffer) && Bytes() == old(Bytes() + Contents(list)) &&
        index == Clamp(old(index), Length())
    {
      if buffer == null {
        return Fail(TypeError);
      }
      var rest := JoinContents(list);
      if rest.None? {
        return Fail(TypeError);
      }
      var joined := Bytes() + rest.value;
      var a := NodeBuffer.From(joined);
      SetBuffer(a);
      r := Pass;
    }

    /** `extend(size)`: the buffer becomes fresh storage holding its bytes followed by `size`
        zero bytes; the setter then clamps the cursor. `Buffer.alloc(size)` runs first, so a
        negative size is a RangeError even while no buffer is set. */
    method Extend(size: int) returns (r: Outcome)
      modifies this
      ensures encoding == old(encoding) && fd == old(fd)
      ensures size < 0 ==> r == Fail(RangeError) && unchanged(this)
      ensures size >= 0 && old(buffer) == null ==> r == Fail(TypeError) && unchanged(this)
      ensures size >= 0 && old(buffer) != null ==>
        r == Pass && fresh(buffer) && Length() == old(Length()) + size &&
        Bytes()[..old(Length())] == old(Bytes()) &&
        (forall k :: old(Length()) <= k < Length() ==> Bytes()[k] == 0) &&
        index == Clamp(old(index), Length())
    {
      if size < 0 {
        return Fail(RangeError);
      }
      var zeros := NodeBuffer.Alloc(size, 0);
      if buffer == null {
        return Fail(TypeError);
      }
      var a := NodeBuffer.From(Bytes() + zeros[..]);
      SetBuffer(a);
      r := Pass;
    }

    /** `moveIndex(position)`: the cursor goes to 0, to half the length (rounded down), to
        the last byte (0 for an empty buffer), or to the first zero byte. The last uses
        `indexOf(0)` and so sets -1 when there is no zero byte; it is a TypeError while no
        buffer is set. */
    method MoveIndex(position: Position) returns (r: Outcome)
      modifies this
      ensures buffer == old(buffer) && encoding == old(encoding) && fd == old(fd)
      ensures position == Start ==> r == Pass && index == 0 && IsEmpty()
      ensures position == Center ==> r == Pass && index == Length() / 2
      ensures position == End ==> r == Pass && index == Max(0, Length() - 1)
      ensures position == Empty && buffer == null ==> r == Fail(TypeError) && index == old(index)
      ensures position == Empty && buffer != null ==> r == Pass && index == NodeBuffer.FirstIndexOf(Bytes(), 0)
      ensures position == Empty && buffer != null ==> (index == -1 <==> 0 !in Bytes())
    {
      r := Pass;
      match position
      case Start =>
        index := 0;
      case Center =>
        index := Length() / 2;
      case End =>
        index := Max(0, Length() - 1);
      case Empty =>
        if buffer == null {
          return Fail(TypeError);
        }
        index := NodeBuffer.IndexOf(buffer, 0);
    }

    /** `fromAscii(content)`: the encoding becomes ASCII and the buffer `content` encoded in
        it, with the cursor at its end. */
    method FromAscii(content: string)
      modifies this
      ensures encoding == Ascii && fresh(buffer) && Bytes() == Encoded(content, Ascii)
      ensures index == Length() && IsFull() && fd == old(fd)
    {
      encoding := Ascii;
      var a := NodeBuffer.From(Encoded(content, Ascii));
      SetBuffer(a);
      SetIndex(a.Length);
    }

    /** `fromHex(content)`: the encoding becomes hex and the buffer the bytes `content`
        spells, up to its first pair that is not two hex digits, with the cursor at the end.
        `toHex` gives back any even-length lower-case hex `content`. */
    method FromHex(content: string)
      modifies this
      ensures encoding == Encoding.Hex && fresh(buffer) && Bytes() == Encoded(content, Encoding.Hex)
      ensures index == Length() && IsFull() && fd == old(fd)
      ensures IsCanonicalHex(content) ==> ToHex() == Success(content)
    {
      encoding := Encoding.Hex;
      var a := NodeBuffer.From(Encoded(content, Encoding.Hex));
      SetBuffer(a);
      SetIndex(a.Length);
      if IsCanonicalHex(content) {
        HexDecodeCanonical(content);
      }
    }

    /** `toHex()`: two lower-case hex digits per byte, which `fromHex` reads back to the same
        bytes; a TypeError while no buffer is set. */
    function ToHex(): (r: Result<string>)
      reads this, buffer
      ensures buffer == null ==> r == Failure(TypeError)
      ensures buffer != null ==> r.Success? && |r.value| == 2 * Length() && IsCanonicalHex(r.value)
      ensures buffer != null ==> Encoded(r.value, Encoding.Hex) == Bytes()
    {
      if buffer == null then Failure(TypeError)
      else
        var s := HexEncode(buffer[..]);
        HexRoundTrip(buffer[..]);
        Success(s)
    }
  }

  /** The bytes of every buffer in `list`, in order. */
  function Contents(list: seq<Bufferlo>): seq<Byte>
    reads list, set o | o in list :: o.buffer
  {
    if list == [] then [] else Contents(list[..|list| - 1]) + list[|list| - 1].Bytes()
  }

  /** The bytes of every buffer in `list`, in order (the argument `Buffer.concat` receives
      from `list.map(b => b.buffer)`), or nothing when one of the buffers is unset. */
  method JoinContents(list: seq<Bufferlo>) returns (r: Option<seq<Byte>>)
    ensures r.None? <==> exists k :: 0 <= k < |list| && list[k].buffer == null
    ensures r.Some? ==> r.value == Contents(list)
  {
    var joined := [];
    var i := 0;
    while i < |list|
      invariant 0 <= i <= |list|
      invariant forall k :: 0 <= k < i ==> list[k].buffer != null
      invariant joined == Contents(list[..i])
    {
      if list[i].buffer == null {
        return None;
      }
      assert list[..i + 1][..i] == list[..i];
      joined := joined + list[i].Bytes();
      i := i + 1;
    }
    assert list[..i] == list;
    return Some(joined);
  }
}
