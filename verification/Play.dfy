/** `litepcie_play`: a file sent over and over again, one DMA buffer at a time. */
module Play {
  import opened Bits
  import opened DmaConfig

  class File {
    const data: seq<int>
    var pos: nat
    var eof: bool

    predicate Valid()
      reads this
    {
      pos <= |data| && (eof ==> pos == |data|)
    }

    constructor (data: seq<int>)
      ensures Valid() && this.data == data && pos == 0 && !eof
    {
      this.data := data;
      pos, eof := 0, false;
    }

    /** `fread(buf + at, 1, n, fo)`: the end-of-file indicator is set only by an attempt to read past the end. */
    method Fread(buf: array<int>, at: nat, n: nat) returns (len: nat)
      requires Valid() && at + n <= buf.Length
      modifies this, buf
      ensures Valid() && len == Min(n, |data| - old(pos)) && pos == old(pos) + len && eof == (old(eof) || len < n)
      ensures forall j :: 0 <= j < buf.Length ==> buf[j] == if at <= j < at + len then data[old(pos) + j - at] else old(buf[j])
    {
      len := Min(n, |data| - pos);
      forall j | 0 <= j < len {
        buf[at + j] := data[pos + j];
      }
      pos := pos + len;
      eof := eof || len < n;
    }

    method Rewind()
      requires Valid()
      modifies this
      ensures Valid() && pos == 0 && !eof
    {
      pos, eof := 0, false;
    }
  }

  /** Bytes put into a buffer when the file, `size` bytes long, stands at `pos`, and where it stands afterwards. */
  function Supplied(size: nat, pos: nat): nat
    requires pos <= size
  {
    var first := Min(DMA_BUFFER_SIZE, size - pos);
    if first < DMA_BUFFER_SIZE then first + Min(DMA_BUFFER_SIZE - first, size) else first
  }

  function NextPos(size: nat, pos: nat): (next: nat)
    requires pos <= size
    ensures next <= size
  {
    var first := Min(DMA_BUFFER_SIZE, size - pos);
    if first < DMA_BUFFER_SIZE then Min(DMA_BUFFER_SIZE - first, size) else pos + first
  }

  /** Position of the file before buffer `k` is filled. */
  function Position(size: nat, k: nat): (pos: nat)
    ensures pos <= size
  {
    if k == 0 then 0 else NextPos(size, Position(size, k - 1))
  }

  /** All buffers are filled completely, exactly when the file is at least a buffer long. */
  lemma AlwaysFull(size: nat)
    ensures (forall k: nat :: Supplied(size, Position(size, k)) == DMA_BUFFER_SIZE) <==> size >= DMA_BUFFER_SIZE
  {
    if size < DMA_BUFFER_SIZE {
      var k := ShortBuffer(size, 0);
      assert Supplied(size, Position(size, k)) != DMA_BUFFER_SIZE;
    }
  }

  /** With a shorter file the position creeps up, until one rewind is not enough. */
  lemma {:induction false} ShortBuffer(size: nat, from: nat) returns (k: nat)
    requires size < DMA_BUFFER_SIZE
    ensures Supplied(size, Position(size, k)) < DMA_BUFFER_SIZE
    decreases size - Position(size, from)
  {
    if Supplied(size, Position(size, from)) < DMA_BUFFER_SIZE {
      k := from;
    } else {
      k := ShortBuffer(size, from + 1);
    }
  }

  class Player {
    const loops: int
    const file: File
    var currentLoop: nat
    var keepRunning: bool

    /** After `total` bytes were supplied: the number of times the end of the file was passed, and the position. */
    predicate Supplying(total: nat)
      reads this, file
    {
      && file.Valid() && !file.eof
      && total == |file.data| * currentLoop + file.pos
      && (total > 0 ==> file.pos > 0)
      && (keepRunning ==> currentLoop == 0 || currentLoop < loops)
    }

    constructor (file: File, loops: int)
      requires file.Valid() && file.pos == 0 && !file.eof
      ensures Supplying(0) && this.file == file && this.loops == loops && currentLoop == 0 && keepRunning
    {
      this.file, this.loops := file, loops;
      currentLoop, keepRunning := 0, true;
    }

    /** The body of the writing loop, for one buffer. */
    method FillBuffer(buf: array<int>) returns (len: nat)
      requires file.Valid() && buf.Length == DMA_BUFFER_SIZE
      modifies this, file, buf
      ensures file.Valid()
      ensures len == Supplied(|file.data|, old(file.pos)) && file.pos == NextPos(|file.data|, old(file.pos))
      ensures var first := |file.data| - old(file.pos);
        forall j :: 0 <= j < len ==> buf[j] == file.data[if j < first then old(file.pos) + j else j - first]
      ensures forall j :: len <= j < DMA_BUFFER_SIZE ==> buf[j] == old(buf[j])
      ensures currentLoop == old(currentLoop) + (if |file.data| - old(file.pos) < DMA_BUFFER_SIZE || old(file.eof) then 1 else 0)
      ensures keepRunning <==> old(keepRunning) && (currentLoop == old(currentLoop) || currentLoop < loops)
      ensures len == DMA_BUFFER_SIZE ==> !file.eof
    {
      len := file.Fread(buf, 0, DMA_BUFFER_SIZE);
      if file.eof {
        currentLoop := currentLoop + 1;
        if currentLoop >= loops {
          keepRunning := false;
        }
        file.Rewind();
        var more := file.Fread(buf, len, DMA_BUFFER_SIZE - len);
        len := len + more;
      }
    }

    /** With a file at least a buffer long, every buffer is full, and continues the endless repetition of the file
        where the last one stopped. */
    method FillNext(buf: array<int>, ghost total: nat)
      requires Supplying(total) && buf.Length == DMA_BUFFER_SIZE && |file.data| >= DMA_BUFFER_SIZE
      modifies this, file, buf
      ensures Supplying(total + DMA_BUFFER_SIZE)
      ensures forall j :: 0 <= j < DMA_BUFFER_SIZE ==> buf[j] == file.data[(total + j) % |file.data|]
    {
      ghost var size, pos, loop := |file.data|, file.pos, currentLoop;
      var len := FillBuffer(buf);
      forall j | 0 <= j < DMA_BUFFER_SIZE
        ensures buf[j] == file.data[(total + j) % size]
      {
        Wrapped(total, size, loop, pos, j);
      }
      assert size * (loop + 1) == size * loop + size;
    }

    /** Any number of buffers: byte `j` of buffer `k` is byte `k * 65536 + j` of the endless repetition, and the end
        of the file was passed once for every time a byte was needed behind it. */
    method PlayBuffers(n: nat) returns (buffers: seq<seq<int>>)
      requires Supplying(0) && currentLoop == 0 && |file.data| >= DMA_BUFFER_SIZE
      modifies this, file
      ensures |buffers| == n
      ensures forall k :: 0 <= k < n ==> |buffers[k]| == DMA_BUFFER_SIZE
      ensures forall k, j :: 0 <= k < n && 0 <= j < DMA_BUFFER_SIZE ==> buffers[k][j] == file.data[(k * DMA_BUFFER_SIZE + j) % |file.data|]
      ensures Supplying(n * DMA_BUFFER_SIZE)
      ensures n > 0 ==> currentLoop == (n * DMA_BUFFER_SIZE - 1) / |file.data|
    {
      buffers := [];
      var buf := new int[DMA_BUFFER_SIZE];
      for k := 0 to n
        invariant |buffers| == k && Supplying(k * DMA_BUFFER_SIZE)
        invariant forall i :: 0 <= i < k ==> |buffers[i]| == DMA_BUFFER_SIZE
        invariant forall i, j :: 0 <= i < k && 0 <= j < DMA_BUFFER_SIZE ==> buffers[i][j] == file.data[(i * DMA_BUFFER_SIZE + j) % |file.data|]
      {
        FillNext(buf, k * DMA_BUFFER_SIZE);
        buffers := buffers + [buf[..]];
      }
      if n > 0 {
        DivModUnique(n * DMA_BUFFER_SIZE - 1, |file.data|, currentLoop, file.pos as int - 1);
      }
    }
  }

  /** Which byte of the file is `j` bytes behind the position `pos` of round `loop`. */
  lemma Wrapped(total: nat, size: nat, loop: nat, pos: nat, j: nat)
    requires total == size * loop + pos && pos <= size && j < size
    ensures size > 0 && (total + j) % size == if j < size - pos then pos + j else j - (size - pos)
  {
    if j < size - pos {
      DivModUnique(total + j, size, loop, pos + j);
    } else {
      assert size * (loop + 1) == size * loop + size;
      DivModUnique(total + j, size, loop + 1, j - (size - pos));
    }
  }
}
