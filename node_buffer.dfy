/** The Node.js `Buffer` primitives the class delegates to, over a byte array: `buf.write`,
    `buf.copy`, `buf.compare`/`Buffer.compare` and `buf.indexOf(0)`. Each is a loop proved
    against a function that states what it computes. Argument checks follow Node 20's
    `lib/buffer.js`. */
module NodeBuffer {
  import opened Common
  import opened TextCodec

  /** `Buffer.from(bytes)`: fresh storage holding a copy of `bytes`. */
  method From(bytes: seq<Byte>) returns (a: array<Byte>)
    ensures fresh(a) && a[..] == bytes
  {
    a := new Byte[|bytes|](k requires 0 <= k < |bytes| => bytes[k]);
  }

  /** `Buffer.alloc(size, fill)` for a byte `fill`: fresh storage of `size` bytes, each `fill`. */
  method Alloc(size: nat, fill: Byte) returns (a: array<Byte>)
    ensures fresh(a) && a.Length == size
    ensures forall k :: 0 <= k < size ==> a[k] == fill
  {
    a := new Byte[size];
    var k := 0;
    while k < size
      invariant 0 <= k <= size
      invariant forall j :: 0 <= j < k ==> a[j] == fill
    {
      a[k] := fill;
      k := k + 1;
    }
  }

  /** `d` with `bytes` stored from position `at` on, every other byte kept. */
  function Stored(d: seq<Byte>, at: nat, bytes: seq<Byte>): (r: seq<Byte>)
    requires at + |bytes| <= |d|
    ensures |r| == |d|
    ensures r[at..at + |bytes|] == bytes
    ensures forall k :: 0 <= k < |d| && !(at <= k < at + |bytes|) ==> r[k] == d[k]
  {
    d[..at] + bytes + d[at + |bytes|..]
  }

  /** The element-by-element store of `TypedArray.prototype.set(bytes, at)`. */
  method Store(dst: array<Byte>, at: nat, bytes: seq<Byte>)
    requires at + |bytes| <= dst.Length
    modifies dst
    ensures dst[..] == Stored(old(dst[..]), at, bytes)
  {
    var k := 0;
    while k < |bytes|
      invariant 0 <= k <= |bytes|
      invariant forall j :: 0 <= j < dst.Length && !(at <= j < at + k) ==> dst[j] == old(dst[j])
      invariant forall j :: at <= j < at + k ==> dst[j] == bytes[j - at]
    {
      dst[at + k] := bytes[k];
      k := k + 1;
    }
    assert dst[..] == Stored(old(dst[..]), at, bytes);
  }

  /** How many leading units fit whole into `room` bytes. */
  function FitCount(units: seq<seq<Byte>>, room: nat): (k: nat)
    ensures k <= |units|
    ensures |Flatten(units[..k])| <= room
    ensures k < |units| ==> |Flatten(units[..k + 1])| > room
  {
    if units == [] || |units[0]| > room then
      assert Flatten(units[..0]) == [];
      0
    else
      var k := FitCount(units[1..], room - |units[0]|);
      FlattenFirst(units, k);
      if k < |units| - 1 then FlattenFirst(units, k + 1); k + 1 else k + 1
  }

  /** The leading `j + 1` units are the first unit and the next `j`. */
  lemma FlattenFirst(units: seq<seq<Byte>>, j: nat)
    requires j < |units|
    ensures Flatten(units[..j + 1]) == units[0] + Flatten(units[1..][..j])
  {
    assert units[..j + 1] == [units[0]] + units[1..][..j];
    FlattenAppend([units[0]], units[1..][..j]);
  }

  /** The bytes `buf.write(content, offset, enc)` stores when `room` bytes lie after
      `offset`: the longest run of whole units of `content` that fits. */
  function Written(content: string, enc: Encoding, room: nat): seq<Byte>
  {
    var units := Units(content, enc);
    Flatten(units[..FitCount(units, room)])
  }

  /** The bytes of the leading `j` units begin the bytes of all of them. */
  lemma FlattenPrefix(units: seq<seq<Byte>>, j: nat)
    requires j <= |units|
    ensures Flatten(units[..j]) <= Flatten(units)
  {
    assert units == units[..j] + units[j..];
    FlattenAppend(units[..j], units[j..]);
  }

  /** What is written is a prefix of the encoding, no longer than the room, and all of it
      whenever all of it fits. */
  lemma WrittenIsFittingPrefix(content: string, enc: Encoding, room: nat)
    ensures |Written(content, enc, room)| <= room
    ensures Written(content, enc, room) <= Encoded(content, enc)
    ensures |Encoded(content, enc)| <= room ==> Written(content, enc, room) == Encoded(content, enc)
  {
    var units := Units(content, enc);
    var k := FitCount(units, room);
    FlattenPrefix(units, k);
    if k < |units| {
      FlattenPrefix(units, k + 1);
    } else {
      assert units[..k] == units;
    }
  }

  /** `buf.write(content, offset, enc)`: a RangeError unless `0 <= offset <= buf.length`,
      otherwise the whole units of `content` that fit are stored at `offset` and their byte
      count is returned. */
  method Write(buf: array<Byte>, content: string, offset: int, enc: Encoding) returns (r: Result<nat>)
    modifies buf
    ensures !(0 <= offset <= buf.Length) ==> r == Failure(RangeError) && buf[..] == old(buf[..])
    ensures 0 <= offset <= buf.Length ==>
      var bytes := Written(content, enc, buf.Length - offset);
      r == Success(|bytes|) && buf[..] == Stored(old(buf[..]), offset, bytes)
  {
    if offset < 0 || offset > buf.Length {
      return Failure(RangeError);
    }
    var bytes := Written(content, enc, buf.Length - offset);
    WrittenIsFittingPrefix(content, enc, buf.Length - offset);
    Store(buf, offset, bytes);
    r := Success(|bytes|);
  }

  /** The argument checks and the byte count of `buf.copy(target, targetStart, sourceStart,
      sourceEnd)`: negative positions and a source start past the source's end are
      RangeErrors; otherwise the count is limited by the source range, the room after
      `targetStart` and the bytes after `sourceStart`. */
  function CopyCount(srcLen: nat, dstLen: nat, targetStart: int, sourceStart: int, sourceEnd: int): (r: Result<nat>)
    ensures r.Failure? <==> targetStart < 0 || sourceStart < 0 || sourceStart > srcLen || sourceEnd < 0
    ensures r.Failure? ==> r.error == RangeError
    ensures r.Success? ==> r.value <= Max(0, sourceEnd - sourceStart)
    ensures r.Success? ==> sourceStart + r.value <= srcLen
    ensures r.Success? && r.value > 0 ==> targetStart + r.value <= dstLen
    ensures r.Success? && targetStart < dstLen ==>
      r.value == Max(0, Min(sourceEnd - sourceStart, Min(dstLen - targetStart, srcLen - sourceStart)))
  {
    if targetStart < 0 || sourceStart < 0 || sourceStart > srcLen || sourceEnd < 0 then Failure(RangeError)
    else if targetStart >= dstLen || sourceStart >= sourceEnd then Success(0)
    else Success(Min(sourceEnd - sourceStart, Min(dstLen - targetStart, srcLen - sourceStart)))
  }

  /** `src.copy(dst, targetStart, sourceStart, sourceEnd)`. The source bytes are read before
      any is written, so a copy within one array behaves like `memmove`. */
  method Copy(src: array<Byte>, dst: array<Byte>, targetStart: int, sourceStart: int, sourceEnd: int)
    returns (r: Result<nat>)
    modifies dst
    ensures r == CopyCount(src.Length, dst.Length, targetStart, sourceStart, sourceEnd)
    ensures r.Success? && r.value > 0 ==>
      dst[..] == Stored(old(dst[..]), targetStart, old(src[..])[sourceStart..sourceStart + r.value])
    ensures r.Failure? || r.value == 0 ==> dst[..] == old(dst[..])
  {
    r := CopyCount(src.Length, dst.Length, targetStart, sourceStart, sourceEnd);
    if r.Success? && r.value > 0 {
      var bytes := src[sourceStart..sourceStart + r.value];
      Store(dst, targetStart, bytes);
    }
  }

  /** The result of `Buffer.compare(a, b)`: the first differing byte decides, and a proper
      prefix comes first. */
  function Ordering(a: seq<Byte>, b: seq<Byte>): (r: int)
    ensures -1 <= r <= 1
  {
    if a == [] && b == [] then 0
    else if a == [] then -1
    else if b == [] then 1
    else if a[0] < b[0] then -1
    else if a[0] > b[0] then 1
    else Ordering(a[1..], b[1..])
  }

  /** `Buffer.compare(a, b)`: a byte-by-byte scan over the common length, then the lengths. */
  method Compare(a: array<Byte>, b: array<Byte>) returns (r: int)
    ensures r == Ordering(a[..], b[..])
  {
    var i := 0;
    while i < a.Length && i < b.Length
      invariant 0 <= i <= a.Length && 0 <= i <= b.Length
      invariant Ordering(a[..], b[..]) == Ordering(a[i..], b[i..])
    {
      if a[i] != b[i] {
        return if a[i] < b[i] then -1 else 1;
      }
      assert a[i..][1..] == a[i + 1..] && b[i..][1..] == b[i + 1..];
      i := i + 1;
    }
    r := if a.Length == b.Length then 0 else if a.Length < b.Length then -1 else 1;
  }

  /** `Buffer.compare` is 0 exactly on equal byte sequences. */
  lemma {:induction false} OrderingZeroIffEqual(a: seq<Byte>, b: seq<Byte>)
    ensures Ordering(a, b) == 0 <==> a == b
  {
    if a != [] && b != [] && a[0] == b[0] {
      OrderingZeroIffEqual(a[1..], b[1..]);
      assert a == [a[0]] + a[1..] && b == [b[0]] + b[1..];
    }
  }

  /** `Buffer.compare` is decided by the first position where the bytes differ. */
  lemma {:induction false} OrderingFirstDifference(a: seq<Byte>, b: seq<Byte>, k: nat)
    requires k < |a| && k < |b| && a[..k] == b[..k] && a[k] != b[k]
    ensures Ordering(a, b) == if a[k] < b[k] then -1 else 1
  {
    if k > 0 {
      assert a[0] == a[..k][0] == b[..k][0] == b[0];
      assert a[1..][..k - 1] == a[..k][1..] == b[..k][1..] == b[1..][..k - 1];
      OrderingFirstDifference(a[1..], b[1..], k - 1);
    }
  }

  /** A proper prefix comes first in `Buffer.compare`. */
  lemma {:induction false} OrderingProperPrefix(a: seq<Byte>, b: seq<Byte>)
    requires |a| < |b| && a == b[..|a|]
    ensures Ordering(a, b) == -1
  {
    if a != [] {
      assert a[0] == b[0];
      assert a[1..] == b[1..][..|a| - 1];
      OrderingProperPrefix(a[1..], b[1..]);
    }
  }

  /** Swapping the operands of `Buffer.compare` negates the result. */
  lemma {:induction false} OrderingAntisymmetric(a: seq<Byte>, b: seq<Byte>)
    ensures Ordering(a, b) == -Ordering(b, a)
  {
    if a != [] && b != [] && a[0] == b[0] {
      OrderingAntisymmetric(a[1..], b[1..]);
    }
  }

  /** `Buffer.compare` orders transitively. */
  lemma {:induction false} OrderingTransitive(a: seq<Byte>, b: seq<Byte>, c: seq<Byte>)
    requires Ordering(a, b) == -1 && Ordering(b, c) == -1
    ensures Ordering(a, c) == -1
  {
    if a != [] && b != [] && c != [] && a[0] == b[0] && b[0] == c[0] {
      OrderingTransitive(a[1..], b[1..], c[1..]);
    }
  }

  /** `indexOf(v)` on a byte sequence: the first position holding `v`, or -1. */
  function FirstIndexOf(s: seq<Byte>, v: Byte): (r: int)
    ensures -1 <= r < |s|
    ensures r >= 0 ==> s[r] == v && forall k :: 0 <= k < r ==> s[k] != v
    ensures r == -1 <==> forall k :: 0 <= k < |s| ==> s[k] != v
  {
    if s == [] then -1
    else if s[0] == v then 0
    else
      var i := FirstIndexOf(s[1..], v);
      if i < 0 then -1 else i + 1
  }

  /** `buf.indexOf(v)` for a byte value: a left-to-right scan. */
  method IndexOf(a: array<Byte>, v: Byte) returns (r: int)
    ensures r == FirstIndexOf(a[..], v)
  {
    var i := 0;
    while i < a.Length
      invariant 0 <= i <= a.Length
      invariant forall k :: 0 <= k < i ==> a[k] != v
    {
      if a[i] == v {
        return i;
      }
      i := i + 1;
    }
    r := -1;
  }
}
