/** RCF's scatter/gather slicing: `forEachByteBuffer` hands a functor the pieces of
    a list of buffers that lie in one range of their joined bytes. */
module ByteBuffer {
  import opened Prelude

  type size_t = uint64

  /** `npos`, which is also the default length. */
  const NPOS: size_t := TWO_64 - 1

  /** A buffer is a stretch of some storage that other buffers may share. */
  datatype ByteBuffer = ByteBuffer(storage: Bytes, start: nat, length: size_t, leftMargin: nat, readOnly: bool) {

    predicate Valid()
    {
      start + length <= |storage|
    }

    function Contents(): (s: Bytes)
      requires Valid()
      ensures |s| == length
    {
      storage[start..start + length]
    }

    /** The constructor that makes a buffer from part of another. */
    function Sub(offset: size_t, len: size_t): (b: ByteBuffer)
      requires Valid() && offset <= length && (len == NPOS || offset + len <= length)
      ensures b.Valid() && b.Inside(this)
      ensures b.Contents() == Contents()[offset..if len == NPOS then length else offset + len]
    {
      var n := if len == NPOS then length - offset else len;
      SliceOfSlice(storage, start, start + length, offset, offset + n);
      ByteBuffer(storage, start + offset, n, if offset > 0 then 0 else leftMargin, readOnly)
    }

    /** A stretch of the same storage that does not leave the other's. */
    predicate Inside(other: ByteBuffer)
    {
      storage == other.storage && other.start <= start && start + length <= other.start + other.length
    }
  }

  lemma SliceOfSlice(s: Bytes, a: nat, b: nat, i: nat, j: nat)
    requires a <= b <= |s| && i <= j <= b - a
    ensures s[a..b][i..j] == s[a + i..a + j]
  {
    forall k | 0 <= k < j - i
      ensures s[a..b][i..j][k] == s[a + i..a + j][k]
    {
      assert s[a..b][i + k] == s[a + (i + k)];
    }
  }

  predicate AllValid(buffers: seq<ByteBuffer>)
  {
    forall b | b in buffers :: b.Valid()
  }

  function Flatten(buffers: seq<ByteBuffer>): Bytes
    requires AllValid(buffers)
  {
    if buffers == [] then [] else Flatten(buffers[..|buffers| - 1]) + buffers[|buffers| - 1].Contents()
  }

  /** The bytes from `offset` on, at most `length` of them. */
  function Window(s: Bytes, offset: nat, length: nat): Bytes
  {
    s[Min(offset, |s|)..Min(offset + length, |s|)]
  }

  /** Which bytes those are. */
  lemma WindowBytes(s: Bytes, offset: nat, length: nat)
    ensures |Window(s, offset, length)|
         == if offset >= |s| then 0 else if offset + length <= |s| then length else |s| - offset
    ensures forall i | 0 <= i < |Window(s, offset, length)| :: Window(s, offset, length)[i] == s[offset + i]
  {
  }

  /** Where the bytes of a buffer are among the joined bytes: after those of the
      buffers before it. */
  lemma FlattenAt(buffers: seq<ByteBuffer>, k: nat)
    requires AllValid(buffers) && k < |buffers|
    ensures AllValid(buffers[..k]) && buffers[k] in buffers
    ensures Flatten(buffers[..k]) + buffers[k].storage[buffers[k].start..buffers[k].start + buffers[k].length]
         <= Flatten(buffers)
  {
    FlattenNext(buffers, k);
    FlattenPrefix(buffers, k + 1);
  }

  lemma FlattenNext(buffers: seq<ByteBuffer>, i: nat)
    requires AllValid(buffers) && i < |buffers|
    ensures AllValid(buffers[..i]) && AllValid(buffers[..i + 1])
    ensures Flatten(buffers[..i + 1]) == Flatten(buffers[..i]) + buffers[i].Contents()
  {
    assert buffers[..i + 1][..i] == buffers[..i];
  }

  lemma {:induction false} FlattenPrefix(buffers: seq<ByteBuffer>, i: nat)
    requires AllValid(buffers) && i <= |buffers|
    ensures AllValid(buffers[..i]) && Flatten(buffers[..i]) <= Flatten(buffers)
    decreases |buffers| - i
  {
    if i < |buffers| {
      FlattenPrefix(buffers, i + 1);
      FlattenNext(buffers, i);
    } else {
      assert buffers[..i] == buffers;
    }
  }

  lemma FlattenOne(slices: seq<ByteBuffer>, b: ByteBuffer)
    requires AllValid(slices) && b.Valid()
    ensures AllValid(slices + [b]) && Flatten(slices + [b]) == Flatten(slices) + b.Contents()
  {
    assert (slices + [b])[..|slices|] == slices;
  }

  /** Every slice lies inside a buffer of its own among the first `n`, in order. */
  ghost predicate SlicesOf(slices: seq<ByteBuffer>, sources: seq<nat>, buffers: seq<ByteBuffer>, n: nat)
    requires n <= |buffers|
  {
    && |sources| == |slices|
    && (forall k | 0 <= k < |slices| :: sources[k] < n && slices[k].Inside(buffers[sources[k]]))
    && (forall j, k | 0 <= j < k < |sources| :: sources[j] < sources[k])
  }

  lemma SlicesNext(slices: seq<ByteBuffer>, sources: seq<nat>, buffers: seq<ByteBuffer>, i: nat, piece: ByteBuffer)
    requires i < |buffers| && SlicesOf(slices, sources, buffers, i)
    ensures SlicesOf(slices, sources, buffers, i + 1)
    ensures piece.Inside(buffers[i]) ==> SlicesOf(slices + [piece], sources + [i], buffers, i + 1)
  {
  }

  // How the window grows when bytes are appended: by nothing before it is reached,
  // by the part from its start, and by what it still lacks.

  lemma WindowNotReached(s: Bytes, b: Bytes, offset: nat, length: nat)
    requires |s| + |b| <= offset
    ensures Window(s + b, offset, length) == Window(s, offset, length)
  {
  }

  lemma WindowEntered(s: Bytes, b: Bytes, offset: nat, length: nat)
    requires |s| <= offset < |s| + |b|
    ensures Window(s, offset, length) == []
    ensures var len := Min(|s| + |b| - offset, length);
            Window(s + b, offset, length) == Window(s, offset, length) + b[offset - |s|..offset - |s| + len]
  {
    var len, from := Min(|s| + |b| - offset, length), offset - |s|;
    assert (s + b)[|s|..|s| + |b|] == b;
    SliceOfSlice(s + b, |s|, |s| + |b|, from, from + len);
  }

  lemma WindowContinued(s: Bytes, b: Bytes, offset: nat, length: nat)
    requires offset < |s|
    ensures |Window(s, offset, length)| <= length
    ensures var len := Min(|b|, length - |Window(s, offset, length)|);
            Window(s + b, offset, length) == Window(s, offset, length) + b[..len]
  {
    if offset + length <= |s| {
      assert (s + b)[0..|s|] == s;
      SliceOfSlice(s + b, 0, |s|, offset, offset + length);
    } else {
      var len := Min(|b|, offset + length - |s|);
      assert (s + b)[offset..|s| + len] == s[offset..] + b[..len];
    }
  }

  /** What was handed out is the window of the bytes passed so far, and `remaining`
      is what the window still lacks. */
  ghost predicate Progress(given: Bytes, passed: Bytes, offset: nat, length: nat, remaining: nat)
  {
    given == Window(passed, offset, length) && remaining + |given| == length
  }

  lemma ProgressEntered(given: Bytes, passed: Bytes, b: Bytes, offset: nat, length: nat, remaining: nat)
    requires Progress(given, passed, offset, length, remaining) && |passed| <= offset < |passed| + |b|
    ensures var from, len := offset - |passed|, Min(|passed| + |b| - offset, remaining);
            Progress(given + b[from..from + len], passed + b, offset, length, remaining - len)
  {
    WindowEntered(passed, b, offset, length);
  }

  lemma ProgressContinued(given: Bytes, passed: Bytes, b: Bytes, offset: nat, length: nat, remaining: nat)
    requires Progress(given, passed, offset, length, remaining) && offset < |passed|
    ensures var len := Min(|b|, remaining); Progress(given + b[..len], passed + b, offset, length, remaining - len)
    ensures remaining == 0 ==> Progress(given, passed + b, offset, length, remaining)
  {
    WindowContinued(passed, b, offset, length);
    assert given + b[..0] == given;
  }

  /** Where the cursor stands: at the end of the bytes passed until the range is
      entered, and anywhere beyond the offset from then on. */
  ghost predicate Cursor(pos0: nat, passed: nat, offset: nat)
  {
    pos0 <= passed && if pos0 <= offset then pos0 == passed else offset < passed
  }

  /** One turn of the loop: the piece of `b` that is handed out, if any, and the
      cursor and length for the next. In the third branch `pos0` is left where the
      first piece ended, while the loop moves on: from then on it only serves to
      tell that the range has been entered and to measure the next buffer. */
  method Visit(b: ByteBuffer, offset: size_t, pos0: size_t, remaining: size_t,
               ghost given: Bytes, ghost passed: Bytes, ghost length: nat)
    returns (next: size_t, left: size_t, piece: Option<ByteBuffer>)
    requires b.Valid() && |passed| + b.length < TWO_64 && Cursor(pos0, |passed|, offset)
    requires Progress(given, passed, offset, length, remaining)
    ensures piece.Some? ==> piece.value.Valid() && piece.value.Inside(b)
    ensures Cursor(next, |passed| + b.length, offset)
    ensures Progress(if piece.Some? then given + piece.value.Contents() else given,
                     passed + b.Contents(), offset, length, left)
  {
    next, left, piece := pos0, remaining, None;
    var pos1 := pos0 + b.length;
    if pos1 <= offset {
      WindowNotReached(passed, b.Contents(), offset, length);
      next := pos1;
    } else if pos0 <= offset < pos1 {
      ProgressEntered(given, passed, b.Contents(), offset, length, remaining);
      var len := Min(pos1 - offset, remaining);
      var part := b.Sub(offset - pos0, len);
      assert part.Contents() == b.Contents()[offset - pos0..offset - pos0 + len];
      next, left, piece := pos1, remaining - len, Some(part);
    } else {
      ProgressContinued(given, passed, b.Contents(), offset, length, remaining);
      if remaining > 0 {
        var len := Min(pos1 - pos0, remaining);
        var part := b.Sub(0, len);
        assert part.Contents() == b.Contents()[..len];
        pos1 := pos0;
        left, piece := remaining - len, Some(part);
      }
    }
  }

  /** Calls the functor, here the end of a list, on every piece. */
  method ForEachByteBuffer(buffers: seq<ByteBuffer>, offset: size_t, length: size_t)
    returns (slices: seq<ByteBuffer>, ghost sources: seq<nat>)
    requires AllValid(buffers) && |Flatten(buffers)| < TWO_64
    ensures AllValid(slices) && Flatten(slices) == Window(Flatten(buffers), offset, length)
    ensures SlicesOf(slices, sources, buffers, |buffers|)
  {
    slices, sources := [], [];
    var pos0: size_t, remaining: size_t := 0, length;
    ghost var given: Bytes, passed: Bytes := [], [];
    for i := 0 to |buffers|
      invariant SlicesOf(slices, sources, buffers, i)
      invariant AllValid(slices) && given == Flatten(slices)
      invariant AllValid(buffers[..i]) && passed == Flatten(buffers[..i])
      invariant Cursor(pos0, |passed|, offset) && Progress(given, passed, offset, length, remaining)
    {
      ghost var number: nat := i;
      FlattenNext(buffers, i);
      FlattenPrefix(buffers, i + 1);
      SlicesNext(slices, sources, buffers, i, buffers[i]);
      var piece;
      pos0, remaining, piece := Visit(buffers[i], offset, pos0, remaining, given, passed, length);
      if piece.Some? {
        SlicesNext(slices, sources, buffers, i, piece.value);
        FlattenOne(slices, piece.value);
        slices, sources, given := slices + [piece.value], sources + [number], given + piece.value.Contents();
      }
      passed := passed + buffers[i].Contents();
    }
    assert buffers[..|buffers|] == buffers;
  }

  /** `sliceByteBuffers`. */
  method SliceByteBuffers(buffers: seq<ByteBuffer>, offset: size_t, length: size_t) returns (slices: seq<ByteBuffer>)
    requires AllValid(buffers) && |Flatten(buffers)| < TWO_64
    ensures AllValid(slices) && Flatten(slices) == Window(Flatten(buffers), offset, length)
  {
    ghost var sources;
    slices, sources := ForEachByteBuffer(buffers, offset, length);
  }

  /** `lengthByteBuffers`. */
  method LengthByteBuffers(buffers: seq<ByteBuffer>) returns (length: size_t)
    requires AllValid(buffers) && |Flatten(buffers)| < TWO_64
    ensures length == |Flatten(buffers)|
  {
    length := 0;
    for i := 0 to |buffers|
      invariant AllValid(buffers[..i]) && length == |Flatten(buffers[..i])|
    {
      FlattenNext(buffers, i);
      FlattenPrefix(buffers, i + 1);
      length := length + buffers[i].length;
    }
    assert buffers[..|buffers|] == buffers;
  }

  // ------------------------------------------------------------- composition

  /** A window of a window is a window: slicing what was sliced hands out the same
      bytes as slicing once. */
  lemma WindowComposes(s: Bytes, o1: nat, l1: nat, o2: nat, l2: nat)
    ensures Window(Window(s, o1, l1), o2, l2) == if o2 <= l1 then Window(s, o1 + o2, Min(l2, l1 - o2)) else []
  {
    var a, b := Min(o1, |s|), Min(o1 + l1, |s|);
    var i, j := Min(o2, b - a), Min(o2 + l2, b - a);
    SliceOfSlice(s, a, b, i, j);
    WindowBounds(|s|, o1, l1, o2, l2);
  }

  /** The bounds of a window of a window of `n` bytes. */
  lemma WindowBounds(n: nat, o1: nat, l1: nat, o2: nat, l2: nat)
    ensures var a, b := Min(o1, n), Min(o1 + l1, n);
      var i, j := Min(o2, b - a), Min(o2 + l2, b - a);
      if o2 > l1 then i == j
      else
        var len := Min(l2, l1 - o2);
        || (i < j && a + i == Min(o1 + o2, n) && a + j == Min(o1 + o2 + len, n))
        || (i == j && Min(o1 + o2, n) == Min(o1 + o2 + len, n))
  {
  }

  /** Slicing the slices hands out the bytes that slicing once would. */
  method SliceTwice(buffers: seq<ByteBuffer>, o1: size_t, l1: size_t, o2: size_t, l2: size_t)
    returns (slices: seq<ByteBuffer>)
    requires AllValid(buffers) && |Flatten(buffers)| < TWO_64
    ensures AllValid(slices)
    ensures Flatten(slices) == if o2 <= l1 then Window(Flatten(buffers), o1 + o2, Min(l2, l1 - o2)) else []
  {
    slices := SliceByteBuffers(buffers, o1, l1);
    WindowComposes(Flatten(buffers), o1, l1, o2, l2);
    slices := SliceByteBuffers(slices, o2, l2);
  }

  /** The offset after some writes, each of which took part of what was left. */
  function Written(writes: seq<nat>): nat
  {
    if writes == [] then 0 else Written(writes[..|writes| - 1]) + writes[|writes| - 1]
  }

  /** The bytes each write took. */
  function Sent(s: Bytes, writes: seq<nat>): Bytes
  {
    if writes == [] then []
    else
      var earlier := writes[..|writes| - 1];
      Sent(s, earlier) + Window(Window(s, Written(earlier), NPOS), 0, writes[|writes| - 1])
  }

  /** A write of `n` bytes at the offset `from` takes these. */
  lemma WriteTakes(s: Bytes, from: nat, n: nat)
    requires from + n <= |s| < TWO_64
    ensures Window(Window(s, from, NPOS), 0, n) == s[from..from + n]
    ensures s[..from] + s[from..from + n] == s[..from + n]
  {
    WindowComposes(s, from, NPOS, 0, n);
  }

  /** Advancing the offset over partial writes neither loses nor repeats a byte. */
  lemma {:induction false} PartialWrites(s: Bytes, writes: seq<nat>)
    requires Written(writes) <= |s| < TWO_64
    ensures Sent(s, writes) == s[..Written(writes)]
    ensures Sent(s, writes) + Window(s, Written(writes), NPOS) == s
    decreases writes
  {
    if writes != [] {
      var earlier, last := writes[..|writes| - 1], writes[|writes| - 1];
      PartialWrites(s, earlier);
      WriteTakes(s, Written(earlier), last);
    }
    var sent := Written(writes);
    assert Window(s, sent, NPOS) == s[sent..];
  }
}
