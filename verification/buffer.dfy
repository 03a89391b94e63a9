/** The staging buffer of `buffer.h`: a byte region of capacity `size`
    with two cursors. Bytes before `cur` are consumed, bytes in
    `[cur, last)` are pending (written but not yet consumed) and bytes in
    `[last, size)` are free space a producer may write into.

    The C structure holds three pointers into one allocation; here the
    allocation is the sequence `mem` (its length is `size`) and the
    pointers are offsets from `data`. Memory handed out by `malloc` and
    `realloc` holds unspecified bytes; the model fills it with zeros, which
    no operation can observe through the pending view. */
module StagingBuffer {
  import opened Bytes

  datatype Buffer = Buffer(mem: seq<byte>, cur: nat, last: nat) {

    /** `data <= cur <= last <= data + size` */
    predicate Valid() {
      cur <= last <= |mem|
    }

    /** `size` */
    function Capacity(): nat {
      |mem|
    }

    /** `buffer_data_len`: bytes written since the origin */
    function DataLen(): nat {
      last
    }

    /** `buffer_pending_len`, the `size()` of the C++ wrapper */
    function PendingLen(): nat
      requires Valid()
    {
      last - cur
    }

    /** `buffer_space_left`, `spaceLeft()` of the wrapper */
    function SpaceLeft(): nat
      requires Valid()
    {
      |mem| - last
    }

    /** The bytes of the pending view `[begin(), end())` */
    function Pending(): seq<byte>
      requires Valid()
    {
      mem[cur..last]
    }

    /** The bytes of the free-space view starting at `end()` */
    function Space(): seq<byte>
      requires Valid()
    {
      mem[last..]
    }
  }

  /** The three regions partition the allocation: consumed bytes, then
      the pending view, then the free space; the lengths the accessors
      report are the sizes of those regions. */
  lemma Regions(b: Buffer)
    requires b.Valid()
    ensures b.mem == b.mem[..b.cur] + b.Pending() + b.Space()
    ensures |b.Pending()| == b.PendingLen() && |b.Space()| == b.SpaceLeft()
    ensures b.DataLen() == b.cur + b.PendingLen()
    ensures b.DataLen() + b.SpaceLeft() == b.Capacity()
  {
    assert b.mem[..b.cur] + b.mem[b.cur..b.last] == b.mem[..b.last];
  }

  /** Zero bytes standing for freshly allocated, unspecified memory. */
  function Fresh(n: nat): (r: seq<byte>)
    ensures |r| == n
  {
    seq(n, _ => 0)
  }

  /** `buffer_create`: an empty buffer of capacity `size`. */
  function Create(size: nat): (r: Buffer)
    ensures r.Valid()
    ensures r.Capacity() == size
    ensures r.PendingLen() == 0 && r.DataLen() == 0
    ensures r.SpaceLeft() == size
  {
    Buffer(Fresh(size), 0, 0)
  }

  /** `buffer_clear`: drops all pending bytes; the capacity and the
      allocation are untouched. */
  function Clear(b: Buffer): (r: Buffer)
    requires b.Valid()
    ensures r.Valid()
    ensures r.PendingLen() == 0 && r.DataLen() == 0
    ensures r.SpaceLeft() == b.Capacity()
    ensures r.mem == b.mem
  {
    Buffer(b.mem, 0, 0)
  }

  /** `buffer_skip`: consumes the first `count` pending bytes. */
  function Skip(b: Buffer, count: nat): (r: Buffer)
    requires b.Valid()
    requires count <= b.PendingLen()
    ensures r.Valid()
    ensures r.Pending() == b.Pending()[count..]
    ensures r.PendingLen() == b.PendingLen() - count
    ensures r.SpaceLeft() == b.SpaceLeft()
    ensures r.DataLen() == b.DataLen()
    ensures r.mem == b.mem
  {
    Buffer(b.mem, b.cur + count, b.last)
  }

  /** `buffer_shrink`: `memmove(data, cur, len)` then `cur = data`. The
      first `len` bytes of the region receive the pending bytes; every byte
      from offset `len` on keeps its value, as `memmove` leaves it. */
  function Shrink(b: Buffer): (r: Buffer)
    requires b.Valid()
    ensures r.Valid()
    ensures r.Pending() == b.Pending()
    ensures r.cur == 0
    ensures r.DataLen() == b.PendingLen()
    ensures r.SpaceLeft() == b.SpaceLeft() + b.cur
    ensures r.Capacity() == b.Capacity()
  {
    var len := b.last - b.cur;
    Buffer(b.mem[b.cur..b.last] + b.mem[len..], 0, len)
  }

  /** `buffer_shrink` with the move written out as the forward byte copy a
      `memmove` performs when the destination precedes the source: each
      source byte is read before any write can reach it, so the
      overlapping copy is exact. */
  method ShrinkByCopy(b: Buffer) returns (r: Buffer)
    requires b.Valid()
    ensures r == Shrink(b)
    ensures r.Pending() == b.Pending()
  {
    var len := b.last - b.cur;
    var m := b.mem;
    var i := 0;
    while i < len
      invariant 0 <= i <= len
      invariant |m| == |b.mem|
      invariant forall k :: 0 <= k < i ==> m[k] == b.mem[b.cur + k]
      invariant forall k :: i <= k < |m| ==> m[k] == b.mem[k]
    {
      m := m[i := m[b.cur + i]];
      i := i + 1;
    }
    assert m[..len] == b.mem[b.cur..b.last];
    assert m[len..] == b.mem[len..];
    assert m == m[..len] + m[len..];
    r := Buffer(m, 0, len);
  }

  /** `buffer_reserve`: ensures at least `size` bytes of free space by
      growing the allocation by exactly the shortfall. `realloc` keeps the
      old contents and the cursor offsets; its failure path is not part of
      this model. */
  function Reserve(b: Buffer, size: nat): (r: Buffer)
    requires b.Valid()
    ensures r.Valid()
    ensures b.SpaceLeft() >= size ==> r == b
    ensures b.SpaceLeft() < size ==>
      && r.Capacity() == b.Capacity() + (size - b.SpaceLeft())
      && r.SpaceLeft() == size
    ensures r.cur == b.cur && r.last == b.last
    ensures r.Pending() == b.Pending()
    ensures r.mem[..b.Capacity()] == b.mem
  {
    var spaceLeft := b.SpaceLeft();
    if spaceLeft < size then
      Buffer(b.mem + Fresh(size - spaceLeft), b.cur, b.last)
    else
      b
  }

  /** `buffer_read_byte`: returns the first pending byte and consumes it. */
  function ReadByte(b: Buffer): (r: (byte, Buffer))
    requires b.Valid()
    requires b.PendingLen() > 0
    ensures r.1.Valid()
    ensures [r.0] + r.1.Pending() == b.Pending()
    ensures r.1.SpaceLeft() == b.SpaceLeft()
  {
    (b.mem[b.cur], Buffer(b.mem, b.cur + 1, b.last))
  }

  /** `buffer_push`: appends one byte. */
  function Push(b: Buffer, c: byte): (r: Buffer)
    requires b.Valid()
    requires b.SpaceLeft() >= 1
    ensures r.Valid()
    ensures r.Pending() == b.Pending() + [c]
    ensures r.SpaceLeft() == b.SpaceLeft() - 1
    ensures r.Capacity() == b.Capacity()
  {
    Buffer(b.mem[b.last := c], b.cur, b.last + 1)
  }

  /** `buffer_write`: appends `len` bytes. With a source (`Some`) they are
      copied from it; with a null source (`None`) the bytes already sitting
      at the start of the free space become pending, which is how a `read`
      into `end()` is committed. */
  function Write(b: Buffer, src: Option<seq<byte>>, len: nat): (r: Buffer)
    requires b.Valid()
    requires b.SpaceLeft() >= len
    requires src.Some? ==> |src.value| == len
    ensures r.Valid()
    ensures r.Pending() == b.Pending() + (if src.Some? then src.value else b.Space()[..len])
    ensures r.SpaceLeft() == b.SpaceLeft() - len
    ensures r.Capacity() == b.Capacity()
    ensures r.cur == b.cur
  {
    var bytes := if src.Some? then src.value else b.mem[b.last..b.last + len];
    assert src.None? ==> bytes == b.Space()[..len];
    var m := b.mem[..b.last] + bytes + b.mem[b.last + len..];
    assert m[b.cur..b.last + len] == b.mem[b.cur..b.last] + bytes;
    Buffer(m, b.cur, b.last + len)
  }

  /** A producer writing `d` through the free-space view `end()` (a `read`
      callback, or an encoder handed `out.end()`); no cursor moves. */
  function Fill(b: Buffer, d: seq<byte>): (r: Buffer)
    requires b.Valid()
    requires |d| <= b.SpaceLeft()
    ensures r.Valid()
    ensures r.cur == b.cur && r.last == b.last && r.Capacity() == b.Capacity()
    ensures r.Pending() == b.Pending()
    ensures r.Space()[..|d|] == d
  {
    Buffer(b.mem[..b.last] + d + b.mem[b.last + |d|..], b.cur, b.last)
  }

  /** `buffer_set_end`: moves `last` to `end`. The C code only asserts
      `end <= data + size`; the model also demands `end >= cur`, without
      which the pending length would be negative. */
  function SetEnd(b: Buffer, end: nat): (r: Buffer)
    requires b.Valid()
    requires b.cur <= end <= b.Capacity()
    ensures r.Valid()
    ensures end >= b.last ==> r.Pending() == b.Pending() + b.Space()[..end - b.last]
    ensures end < b.last ==> r.Pending() == b.Pending()[..end - b.cur]
    ensures r.SpaceLeft() == b.Capacity() - end
    ensures r.mem == b.mem
  {
    assert end < b.last ==> b.mem[b.cur..end] == b.mem[b.cur..b.last][..end - b.cur];
    Buffer(b.mem, b.cur, end)
  }

  /** `Buffer::operator[]`: the `i`-th pending byte, guarded by
      `assert(i < size())`. */
  function At(b: Buffer, i: nat): (r: byte)
    requires b.Valid()
    requires i < b.PendingLen()
    ensures r == b.Pending()[i]
  {
    b.mem[b.cur + i]
  }

  /** `Buffer::back()`: `end()[-1]`, the byte just before the free space.
      It is the last pending byte only while something is pending;
      otherwise it is an already consumed byte. */
  function Back(b: Buffer): (r: byte)
    requires b.Valid()
    requires b.last > 0
    ensures b.PendingLen() > 0 ==> r == b.Pending()[b.PendingLen() - 1]
    ensures b.PendingLen() == 0 ==> r == b.mem[b.cur - 1]
  {
    b.mem[b.last - 1]
  }

  /** Committing bytes a producer put into the free space (the `read`
      path: `Fill`, then `write(0, n)`) has the same effect as copying
      them in with `write(d, n)`. */
  lemma FillThenCommit(b: Buffer, d: seq<byte>)
    requires b.Valid()
    requires |d| <= b.SpaceLeft()
    ensures Write(Fill(b, d), None, |d|) == Write(b, Some(d), |d|)
  {
    var f := Fill(b, d);
    assert f.mem[f.last..f.last + |d|] == d;
    assert f.mem[..f.last] == b.mem[..b.last];
    assert f.mem[f.last + |d|..] == b.mem[b.last + |d|..];
  }

  /** A second `shrink` finds nothing to reclaim. */
  lemma ShrinkIdempotent(b: Buffer)
    requires b.Valid()
    ensures Shrink(Shrink(b)) == Shrink(b)
  {
    var s := Shrink(b);
    var len := s.last;
    assert s.mem[s.cur..s.last] + s.mem[len..] == s.mem[..len] + s.mem[len..];
    assert s.mem[..len] + s.mem[len..] == s.mem;
  }
}
