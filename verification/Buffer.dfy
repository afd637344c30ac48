/** The growing byte buffer behind every connection: one block, a reader index and a writer index. */
module Buffers {
  import opened Numbers
  import opened Strings

  /**
   * `memcpy` as a forward byte copy. When source and destination are the same block, the
   * destination must not start behind the source, or the two ranges must not meet.
   */
  method CopyForward(dst: array<char>, d: nat, src: array<char>, s: nat, n: nat)
    requires d + n <= dst.Length && s + n <= src.Length
    requires dst == src ==> d <= s || s + n <= d
    modifies dst
    ensures dst[d..d + n] == old(src[s..s + n])
    ensures dst[..d] == old(dst[..d]) && dst[d + n..] == old(dst[d + n..])
  {
    ghost var from, to := src[..], dst[..];
    var i := 0;
    while i < n
      invariant i <= n
      invariant dst[d..d + i] == from[s..s + i]
      invariant forall j :: 0 <= j < d || d + i <= j < dst.Length ==> dst[j] == to[j]
      invariant src != dst ==> src[..] == from
    {
      dst[d + i] := src[s + i];
      i := i + 1;
    }
  }

  /** The three numbers that decide where bytes go: reader index, writer index, capacity. */
  datatype Layout = Layout(reader: nat, writer: nat, capacity: nat) {
    predicate Valid() {
      reader <= writer <= capacity
    }

    function Size(): nat
      requires Valid()
    {
      writer - reader
    }

    function Writable(): nat
      requires Valid()
    {
      capacity - writer
    }

    /** What making room for `n` more bytes does to the layout: nothing, compaction or a new block. */
    function Ensured(n: nat): (l: Layout)
      requires Valid()
      ensures l.Valid() && l.Size() == Size() && l.Writable() >= n
    {
      if Writable() > n then this
      else if reader + Writable() >= n then Layout(0, Size(), capacity)
      else Layout(0, Size(), writer + n * 2)
    }
  }

  /** Two neighbouring ranges of a block are the two parts of the range they make up. */
  lemma Parts(block: array<char>, a: nat, b: nat, c: nat)
    requires a <= b <= c <= block.Length
    ensures block[a..b] == block[a..c][..b - a] && block[b..c] == block[a..c][b - a..]
    ensures forall j :: a <= j < c ==> block[a..c][j - a] == block[j]
  {
  }

  /** Trimming a range that has blanks up to a non-blank, or blanks only. */
  lemma TrimmedLeft(block: array<char>, a: nat, b: nat, c: nat)
    requires a <= b <= c <= block.Length && (b < c ==> !IsBlank(block[b]))
    requires forall j :: a <= j < b ==> IsBlank(block[j])
    ensures TrimLeft(block[a..c]) == block[b..c]
  {
    hide TrimLeft;
    Parts(block, a, b, c);
    assert forall j :: 0 <= j < b - a ==> block[a..c][j] == block[a + j];
    TrimLeftUnique(block[a..c], b - a);
  }

  lemma TrimmedRight(block: array<char>, a: nat, b: nat, c: nat)
    requires a <= b <= c <= block.Length && (a < b ==> !IsBlank(block[b - 1]))
    requires forall j :: b <= j < c ==> IsBlank(block[j])
    ensures TrimRight(block[a..c]) == block[a..b]
  {
    hide TrimRight;
    Parts(block, a, b, c);
    assert forall j :: 0 <= j < c - a ==> block[a..c][j] == block[a + j];
    TrimRightUnique(block[a..c], b - a);
  }

  class Buffer {
    var data: array<char>
    var reader: nat
    var writer: nat
    var capacity: nat

    ghost predicate Valid()
      reads this
    {
      reader <= writer <= capacity == data.Length
    }

    /** The readable bytes. */
    ghost function Contents(): string
      requires Valid()
      reads this, data
    {
      data[reader..writer]
    }

    ghost function Shape(): Layout
      reads this
    {
      Layout(reader, writer, capacity)
    }

    constructor (size: nat)
      ensures Valid() && fresh(data) && Contents() == "" && Shape() == Layout(0, 0, size)
    {
      data := new char[size];
      reader, writer, capacity := 0, 0, size;
    }

    function WritableBytes(): nat
      requires Valid()
      reads this
    {
      capacity - writer
    }

    function Size(): nat
      requires Valid()
      reads this
    {
      writer - reader
    }

    method Reset()
      requires Valid()
      modifies this`reader, this`writer
      ensures Valid() && Contents() == "" && Shape() == Step(old(Shape()), Clear)
      ensures reader == 0 && writer == 0
    {
      reader, writer := 0, 0;
    }

    method MoveReadableToHead()
      requires Valid()
      modifies this`reader, this`writer, data
      ensures Valid() && Contents() == old(Contents())
      ensures Shape() == Layout(0, old(Size()), old(capacity))
    {
      var canFree := reader;
      CopyForward(data, 0, data, reader, Size());
      reader := 0;
      writer := writer - canFree;
    }

    method EnsureBytesForWrite(n: nat)
      requires Valid()
      modifies this, data
      ensures Valid() && (data == old(data) || fresh(data))
      ensures Contents() == old(Contents())
      ensures Shape() == Step(old(Shape()), Room(n)) && WritableBytes() >= n
      ensures old(WritableBytes()) > n ==> data == old(data) && reader == old(reader)
      ensures old(WritableBytes()) <= n ==> reader == 0
      ensures old(WritableBytes()) <= n <= old(reader + WritableBytes()) ==> data == old(data)
      ensures old(reader + WritableBytes()) < n ==> fresh(data) && capacity == old(writer) + 2 * n
    {
      if WritableBytes() <= n {
        var free := reader + WritableBytes();
        if free >= n {
          MoveReadableToHead();
        } else {
          var newSize := writer + n * 2;
          var place := new char[newSize];
          var r := Size();
          CopyForward(place, 0, data, reader, r);
          data := place;
          capacity := newSize;
          reader := 0;
          writer := r;
        }
      }
    }

    /** Copies `n` bytes of `src` behind the readable bytes, where there must be room. */
    method Put(src: array<char>, s: nat, n: nat)
      requires Valid() && n <= WritableBytes() && s + n <= src.Length
      requires src == data ==> s + n <= writer
      modifies this`writer, data
      ensures Valid() && writer == old(writer) + n
      ensures Contents() == old(Contents()) + old(src[s..s + n])
    {
      ghost var kept := data[..writer];
      ghost var added := src[s..s + n];
      CopyForward(data, writer, src, s, n);
      assert data[..writer + n] == kept + added;
      writer := writer + n;
      assert Contents() == (kept + added)[reader..];
    }

    method Append(value: string)
      requires Valid()
      modifies this, data
      ensures Valid() && (data == old(data) || fresh(data))
      ensures Contents() == old(Contents()) + value
      ensures Shape() == Step(old(Shape()), Write(|value|))
    {
      var bytes := new char[|value|](i requires 0 <= i < |value| => value[i]);
      assert bytes[0..|value|] == value;
      EnsureBytesForWrite(|value|);
      Put(bytes, 0, |value|);
    }

    /** Appends the readable bytes of `other`, which may be this buffer itself. */
    method AppendBuffer(other: Buffer)
      requires Valid() && other.Valid()
      requires other != this ==> other.data != data
      modifies this, data
      ensures Valid() && (data == old(data) || fresh(data))
      ensures Contents() == old(Contents()) + old(other.Contents())
      ensures Shape() == Step(old(Shape()), Write(old(other.Size())))
    {
      hide Layout.Ensured;
      ghost var mine, added := Contents(), other.Contents();
      var s := other.Size();
      EnsureBytesForWrite(s);
      assert Contents() == mine && other.Contents() == added;
      Put(other.data, other.reader, s);
    }

    method ReaderIdxForward(len: nat)
      requires Valid()
      modifies this`reader
      ensures Valid() && Shape() == Step(old(Shape()), Read(len))
      ensures Contents() == old(Contents())[Min(len, old(Size()))..]
    {
      Parts(data, reader, reader + Min(len, Size()), writer);
      reader := reader + Min(len, Size());
    }

    /** Un-reads up to `len` of the bytes in front of the reader index. */
    method ReaderIdxBackward(len: nat)
      requires Valid()
      modifies this`reader
      ensures Valid() && Shape() == Step(old(Shape()), Unread(len))
      ensures Size() == old(Size()) + if len <= old(reader) then len else old(reader)
      ensures Contents() == data[reader..old(reader)] + old(Contents())
    {
      reader := reader - Min(len, reader);
    }

    method WriterIdxForward(len: nat)
      requires Valid()
      modifies this`writer
      ensures Valid() && Shape() == Step(old(Shape()), Unlock(len))
      ensures Size() == old(Size()) + if len <= old(WritableBytes()) then len else old(WritableBytes())
      ensures Contents() == old(Contents()) + data[old(writer)..writer]
    {
      writer := writer + Min(len, WritableBytes());
    }

    method WriterIdxBackward(len: nat)
      requires Valid()
      modifies this`writer
      ensures Valid() && Shape() == Step(old(Shape()), Unwrite(len))
      ensures Contents() == old(Contents())[..old(Size()) - Min(len, old(Size()))]
    {
      Parts(data, reader, writer - Min(len, Size()), writer);
      writer := writer - Min(len, Size());
    }

    /**
     * The character at `index`, or the last readable one when `index` is too large. When nothing is
     * readable, the unsigned `ReadableBytes() - 1` wraps around and bounds nothing: the byte read is
     * whatever the block holds at that place, which must lie within the block.
     */
    method ReadableCharacterAt(index: nat) returns (c: char)
      requires Valid() && (Size() == 0 ==> reader + index < capacity)
      ensures Size() > 0 ==> c == Contents()[Min(index, Size() - 1)]
      ensures Size() == 0 ==> c == data[reader + index]
    {
      c := data[reader + if Size() == 0 then index else Min(index, Size() - 1)];
    }

    /** Reads up to the first `delim` and skips it; reads nothing when there is none, or when `delim` is empty. */
    method ReadStringAndForwardTill(delim: string) returns (line: string, found: bool)
      requires Valid()
      modifies this`reader
      ensures Valid() && found == Occurs(old(Contents()), delim)
      ensures !found ==> line == "" && Contents() == old(Contents())
      ensures found ==> line == BeforeFirst(old(Contents()), delim) && Contents() == AfterFirst(old(Contents()), delim)
    {
      var readable := data[reader..writer];
      var offset := FindSub(readable, delim);
      if offset == |readable| {
        return "", false;
      }
      ReaderIdxForward(offset + |delim|);
      line, found := readable[..offset], true;
    }

    method ReadAll() returns (all: string)
      requires Valid()
      modifies this`reader
      ensures Valid() && all == old(Contents()) && Contents() == ""
      ensures Shape() == Step(old(Shape()), Read(old(Size())))
    {
      all := data[reader..writer];
      ReaderIdxForward(Size());
    }

    method TrimLeft()
      requires Valid()
      modifies this`reader
      ensures Valid() && Contents() == Strings.TrimLeft(old(Contents()))
    {
      hide Strings.TrimLeft, Layout.Ensured;
      ghost var first := reader;
      while reader < writer
        invariant first <= reader && Valid()
        invariant forall j :: first <= j < reader ==> IsBlank(data[j])
        decreases writer - reader
      {
        var c := ReadableCharacterAt(0);
        assert c == data[reader];
        ghost var at := reader;
        if IsBlank(c) {
          ReaderIdxForward(1);
          assert reader == at + 1;
        } else {
          break;
        }
      }
      TrimmedLeft(data, first, reader, writer);
    }

    method TrimRight()
      requires Valid()
      modifies this`writer
      ensures Valid() && Contents() == Strings.TrimRight(old(Contents()))
    {
      hide Strings.TrimRight;
      ghost var last := writer;
      while reader < writer
        invariant writer <= last && Valid()
        invariant forall j :: writer <= j < last ==> IsBlank(data[j])
        decreases writer - reader
      {
        var c := ReadableCharacterAt(Size() - 1);
        assert c == data[writer - 1];
        if IsBlank(c) {
          writer := writer - 1;
        } else {
          break;
        }
      }
      TrimmedRight(data, reader, writer, last);
    }
  }

  // -------------------------------------------------------------------------
  // Reading into the free room
  // -------------------------------------------------------------------------

  const READ_SIZE := 4096

  /** A system call puts bytes behind the writer index, past the methods of the buffer. */
  method PutBehind(buffer: Buffer, bytes: string)
    requires buffer.Valid() && |bytes| <= buffer.WritableBytes()
    modifies buffer.data
    ensures buffer.data[..buffer.writer] == old(buffer.data[..buffer.writer])
    ensures buffer.data[buffer.writer..buffer.writer + |bytes|] == bytes
  {
    var source := new char[|bytes|](i requires 0 <= i < |bytes| => bytes[i]);
    assert source[0..|bytes|] == bytes;
    CopyForward(buffer.data, buffer.writer, source, 0, |bytes|);
  }

  /** Makes room, lets a system call fill it, and makes the bytes readable that it put there. */
  method ReadOnce(buffer: Buffer, bytes: string)
    requires buffer.Valid() && |bytes| <= READ_SIZE
    modifies buffer, buffer.data
    ensures buffer.Valid() && (buffer.data == old(buffer.data) || fresh(buffer.data))
    ensures buffer.Contents() == old(buffer.Contents()) + bytes
  {
    hide Layout.Ensured;
    ghost var before := buffer.Contents();
    if buffer.WritableBytes() < READ_SIZE {
      buffer.EnsureBytesForWrite(READ_SIZE);
    }
    PutBehind(buffer, bytes);
    assert buffer.Contents() == before by {
      assert buffer.Contents() == buffer.data[..buffer.writer][buffer.reader..];
    }
    buffer.WriterIdxForward(|bytes|);
  }

  /** One turn for each successful read; the buffer gains exactly the bytes that were read. */
  method ReadToBuffer(buffer: Buffer, chunks: seq<string>) returns (total: nat)
    requires buffer.Valid() && forall k :: 0 <= k < |chunks| ==> 0 < |chunks[k]| <= READ_SIZE
    modifies buffer, buffer.data
    ensures buffer.Valid() && (buffer.data == old(buffer.data) || fresh(buffer.data))
    ensures buffer.Contents() == old(buffer.Contents()) + Flat(chunks) && total == |Flat(chunks)|
  {
    hide Layout.Ensured;
    total := 0;
    ghost var before := buffer.Contents();
    assert before + Flat(chunks[..0]) == before;
    for i := 0 to |chunks|
      invariant buffer.Valid() && (buffer.data == old(buffer.data) || fresh(buffer.data))
      invariant buffer.Contents() == before + Flat(chunks[..i]) && total == |Flat(chunks[..i])|
    {
      ReadOnce(buffer, chunks[i]);
      total := total + |chunks[i]|;
      assert chunks[..i + 1] == chunks[..i] + [chunks[i]];
      FlatAppend(chunks[..i], chunks[i]);
      Associative(before, Flat(chunks[..i]), chunks[i]);
    }
    assert chunks[..|chunks|] == chunks;
  }

  // -------------------------------------------------------------------------
  // Whole runs: how far a buffer can grow
  // -------------------------------------------------------------------------

  function Appended(l: Layout, n: nat): (r: Layout)
    requires l.Valid()
    ensures r.Valid() && r.Size() == l.Size() + n
  {
    var e := l.Ensured(n);
    e.(writer := e.writer + n)
  }

  /**
   * The operations of a buffer, as far as they move its indices. Reading a line, reading all and
   * trimming move the reader or the writer as `Read` and `Unwrite` do; `Unlock` is how bytes that
   * a system call put behind the writer index become readable.
   */
  datatype Op =
    | Room(n: nat)
    | Write(n: nat)
    | Unlock(n: nat)
    | Read(n: nat)
    | Unread(n: nat)
    | Unwrite(n: nat)
    | Clear
  {
    /** The room the operation asks for. */
    function Request(): nat {
      if Room? || Write? then n else 0
    }
  }

  function Step(l: Layout, op: Op): (r: Layout)
    requires l.Valid()
    ensures r.Valid()
  {
    match op
    case Room(n) => l.Ensured(n)
    case Write(n) => Appended(l, n)
    case Unlock(n) => l.(writer := l.writer + Min(n, l.Writable()))
    case Read(n) => l.(reader := l.reader + Min(n, l.Size()))
    case Unread(n) => l.(reader := l.reader - Min(n, l.reader))
    case Unwrite(n) => l.(writer := l.writer - Min(n, l.Size()))
    case Clear => Layout(0, 0, l.capacity)
  }

  function Run(l: Layout, ops: seq<Op>): (r: Layout)
    requires l.Valid()
    ensures r.Valid()
    decreases |ops|
  {
    if ops == [] then l else Run(Step(l, ops[0]), ops[1..])
  }

  /** The largest sum of readable and requested bytes that any operation of the run meets. */
  function Peak(l: Layout, ops: seq<Op>): nat
    requires l.Valid()
    decreases |ops|
  {
    if ops == [] then 0 else Max(l.Size() + ops[0].Request(), Peak(Step(l, ops[0]), ops[1..]))
  }

  /**
   * Over every run the capacity never shrinks, and it stays within three times the peak demand
   * once that exceeds the initial capacity.
   */
  lemma {:induction false} CapacityBound(l: Layout, ops: seq<Op>)
    requires l.Valid()
    ensures l.capacity <= Run(l, ops).capacity <= Max(l.capacity, 3 * Peak(l, ops))
    decreases |ops|
  {
    if ops != [] {
      CapacityBound(Step(l, ops[0]), ops[1..]);
    }
  }

  /** A buffer that always had room for what it was asked to hold keeps its block. */
  lemma {:induction false} NoGrowthBelowCapacity(l: Layout, ops: seq<Op>)
    requires l.Valid() && Peak(l, ops) <= l.capacity
    ensures Run(l, ops).capacity == l.capacity
    decreases |ops|
  {
    if ops != [] {
      NoGrowthBelowCapacity(Step(l, ops[0]), ops[1..]);
    }
  }
}
