/** `rechunk`: a stream of pieces of any size becomes a stream of chunks of one size, filled in place in three
    rotating buffers. A row stands for one sample of all channels. */
module Rechunk {
  import opened Bits

  function Flatten<T>(pieces: seq<seq<T>>): seq<T> {
    if pieces == [] then [] else Flatten(pieces[..|pieces| - 1]) + pieces[|pieces| - 1]
  }

  /** The consecutive slices of `size` rows of `x`; an incomplete one at the end is dropped. */
  function Chunks<T>(x: seq<T>, size: nat): seq<seq<T>>
    requires size > 0
  {
    if |x| < size then [] else [x[..size]] + Chunks(x[size..], size)
  }

  lemma {:induction false} ChunkCount<T>(x: seq<T>, size: nat)
    requires size > 0
    ensures |Chunks(x, size)| == |x| / size
    decreases |x|
  {
    if |x| < size {
      DivModUnique(|x|, size, 0, |x|);
    } else {
      ChunkCount(x[size..], size);
      var q, r := (|x| - size) / size, (|x| - size) % size;
      assert |x| == size * (q + 1) + r;
      DivModUnique(|x|, size, q + 1, r);
    }
  }

  /** Chunk `k` of `|x| / size` starts at row `k * size`. */
  lemma {:induction false} ChunkAt<T>(x: seq<T>, size: nat, k: nat)
    requires size > 0 && k < |Chunks(x, size)|
    ensures k * size + size <= |x| && Chunks(x, size)[k] == x[k * size..k * size + size]
    decreases |x|
  {
    if k > 0 {
      ChunkAt(x[size..], size, k - 1);
      var at := (k - 1) * size;
      assert k * size == at + size;
      assert x[size..][at..at + size] == x[at + size..at + size + size];
    }
  }

  lemma {:induction false} FlattenJoin<T>(a: seq<seq<T>>, b: seq<seq<T>>)
    ensures Flatten(a + b) == Flatten(a) + Flatten(b)
    decreases |b|
  {
    if b == [] {
      assert a + b == a;
    } else {
      var n := |b| - 1;
      FlattenJoin(a, b[..n]);
      assert (a + b)[..|a + b| - 1] == a + b[..n];
    }
  }

  /** Cutting pieces of the right size, followed by less than one more, gives those pieces. */
  lemma {:induction false} ChunksOfPieces<T>(pieces: seq<seq<T>>, rest: seq<T>, size: nat)
    requires |rest| < size && forall k :: 0 <= k < |pieces| ==> |pieces[k]| == size
    ensures Chunks(Flatten(pieces) + rest, size) == pieces
    decreases |pieces|
  {
    if pieces == [] {
      assert Flatten(pieces) + rest == rest;
    } else {
      var first, others := pieces[0], pieces[1..];
      assert pieces == [first] + others;
      FlattenFirst(first, others);
      var x := Flatten(pieces) + rest;
      assert x[..size] == first && x[size..] == Flatten(others) + rest;
      ChunksOfPieces(others, rest, size);
    }
  }

  lemma FlattenLast<T>(pieces: seq<seq<T>>, last: seq<T>)
    ensures Flatten(pieces + [last]) + [] == Flatten(pieces) + last
  {
    assert (pieces + [last])[..|pieces|] == pieces;
  }

  lemma FlattenFirst<T>(first: seq<T>, others: seq<seq<T>>)
    ensures Flatten([first] + others) == first + Flatten(others)
  {
    FlattenJoin([first], others);
    assert Flatten([first]) == Flatten([first][..0]) + first;
  }

  /** The chunks put end to end are what was cut, less an incomplete chunk. */
  lemma {:induction false} FlattenChunks<T>(x: seq<T>, size: nat) returns (rest: seq<T>)
    requires size > 0
    ensures x == Flatten(Chunks(x, size)) + rest && |rest| < size
    decreases |x|
  {
    if |x| < size {
      rest := x;
      assert x == [] + rest;
    } else {
      rest := FlattenChunks(x[size..], size);
      var cut := Chunks(x[size..], size);
      FlattenFirst(x[..size], cut);
      Joined(x, size, Flatten(cut), rest);
    }
  }

  lemma Joined<T>(x: seq<T>, n: nat, a: seq<T>, b: seq<T>)
    requires n <= |x| && x[n..] == a + b
    ensures x == x[..n] + a + b
  {}

  lemma {:induction false} ChunksOfPrefix<T>(x: seq<T>, more: seq<T>, size: nat)
    requires size > 0
    ensures Chunks(x, size) <= Chunks(x + more, size)
    decreases |x|
  {
    if |x| >= size {
      ChunksOfPrefix(x[size..], more, size);
      assert (x + more)[size..] == x[size..] + more && (x + more)[..size] == x[..size];
    }
  }

  /** Rechunking twice gives a beginning of what rechunking once to the last size gives. */
  lemma RechunkTwice<T>(x: seq<T>, a: nat, b: nat)
    requires a > 0 && b > 0
    ensures Chunks(Flatten(Chunks(x, a)), b) <= Chunks(x, b)
  {
    var rest := FlattenChunks(x, a);
    ChunksOfPrefix(Flatten(Chunks(x, a)), rest, b);
  }

  class Rechunker<T(0)> {
    const chunkSize: nat
    var chunks: seq<array<T>>
    /** Channels of the chunks: none until the first rows come. */
    var channels: nat
    var chunkFilled: nat
    var chunkIdx: nat
    /** The chunks put into the outgoing channel. */
    var sent: seq<array<T>>
    /** What those held when they were put, and all rows taken so far. */
    ghost var delivered: seq<seq<T>>
    ghost var taken: seq<T>

    ghost predicate Valid()
      reads this, chunks
    {
      && chunkSize > 0 && |chunks| == 3 && chunks[0] != chunks[1] && chunks[1] != chunks[2] && chunks[2] != chunks[0]
      && 1 <= chunkIdx <= 3 && chunkFilled < chunkSize
      && (forall c :: c in chunks ==> c.Length == if channels == 0 then 0 else chunkSize)
      && (channels == 0 ==> chunkFilled == 0 && sent == [])
      && chunkIdx == |sent| % 3 + 1
      && |delivered| == |sent|
      && (forall k :: 0 <= k < |delivered| ==> |delivered[k]| == chunkSize)
      && taken == Flatten(delivered) + chunks[chunkIdx - 1][..chunkFilled]
      && Intact()
    }

    /** The two chunks sent last still hold what they held when they were sent. */
    ghost predicate Intact()
      reads this, chunks
    {
      && |chunks| == 3 && |delivered| == |sent|
      && forall k {:trigger sent[k]} :: 0 <= k < |sent| ==> sent[k] == chunks[k % 3] && (|sent| - 2 <= k ==> sent[k][..] == delivered[k])
    }

    constructor (chunkSize: nat)
      requires chunkSize > 0
      ensures Valid() && this.chunkSize == chunkSize && channels == 0 && taken == [] && delivered == []
      ensures fresh(chunks)
    {
      this.chunkSize := chunkSize;
      channels, chunkFilled, chunkIdx, sent, delivered, taken := 0, 0, 1, [], [], [];
      var a, b, c := new T[0], new T[0], new T[0];
      chunks := [a, b, c];
    }

    /** What was sent is what `Chunks` makes of all that was taken. */
    lemma DeliveredChunks()
      requires Valid()
      ensures delivered == Chunks(taken, chunkSize)
    {
      ChunksOfPieces(delivered, chunks[chunkIdx - 1][..chunkFilled], chunkSize);
    }

    /** Not so the chunk before those: it is the one being filled. */
    lemma ThirdIsReused()
      requires Valid() && |sent| >= 3
      ensures sent[|sent| - 3] == chunks[chunkIdx - 1]
    {
      assert (|sent| - 3) % 3 == |sent| % 3;
    }

    method MakeChunks(numChannels: nat)
      requires Valid() && numChannels > 0 && channels in {0, numChannels}
      modifies this
      ensures Valid() && channels == numChannels && delivered == old(delivered) && taken == old(taken)
      ensures chunks == old(chunks) || fresh(chunks)
    {
      if channels != numChannels {
        var a, b, c := new T[chunkSize], new T[chunkSize], new T[chunkSize];
        chunks := [a, b, c];
        channels := numChannels;
        assert taken == [];
      }
    }

    /** Part of one piece goes into the chunk being filled, which is sent once full. */
    method Take(data: seq<T>) returns (samplesTaken: nat)
      requires Valid() && data != [] && channels > 0
      modifies this, chunks
      ensures Valid() && channels == old(channels) && chunks == old(chunks)
      ensures 0 < samplesTaken <= |data| && taken == old(taken) + data[..samplesTaken]
      ensures old(delivered) <= delivered
    {
      var samplesWanted := chunkSize - chunkFilled;
      samplesTaken := if |data| < samplesWanted then |data| else samplesWanted;
      Fill(data[..samplesTaken]);
      if chunkFilled >= chunkSize {
        Send();
      }
    }

    /** Valid, but that the chunk being filled may be full. */
    ghost predicate Filling()
      reads this, chunks
    {
      && chunkSize > 0 && |chunks| == 3 && chunks[0] != chunks[1] && chunks[1] != chunks[2] && chunks[2] != chunks[0]
      && 1 <= chunkIdx <= 3 && chunkFilled <= chunkSize && channels > 0
      && (forall c :: c in chunks ==> c.Length == chunkSize)
      && chunkIdx == |sent| % 3 + 1
      && (forall k :: 0 <= k < |delivered| ==> |delivered[k]| == chunkSize)
      && taken == Flatten(delivered) + chunks[chunkIdx - 1][..chunkFilled]
      && Intact()
    }

    method Fill(rows: seq<T>)
      requires Valid() && channels > 0 && chunkFilled + |rows| <= chunkSize
      modifies this, chunks[chunkIdx - 1]
      ensures Filling() && channels == old(channels) && chunks == old(chunks) && delivered == old(delivered)
      ensures chunkFilled == old(chunkFilled) + |rows| && taken == old(taken) + rows
    {
      var chunk := chunks[chunkIdx - 1];
      ghost var before := chunk[..chunkFilled];
      forall k | 0 <= k < |rows| {
        chunk[chunkFilled + k] := rows[k];
      }
      chunkFilled := chunkFilled + |rows|;
      taken := taken + rows;
      assert chunk[..chunkFilled] == before + rows;
      assert Flatten(delivered) + (before + rows) == Flatten(delivered) + before + rows;
      forall k {:trigger sent[k]} | 0 <= k < |sent| && |sent| - 2 <= k ensures sent[k][..] == delivered[k] {
        assert k % 3 != |sent| % 3;
        assert old(sent[k][..]) == delivered[k];
      }
    }

    method Send()
      requires Filling() && chunkFilled == chunkSize
      modifies this
      ensures Valid() && channels == old(channels) && chunks == old(chunks) && taken == old(taken)
      ensures delivered == old(delivered) + [chunks[old(chunkIdx) - 1][..]]
    {
      var chunk := chunks[chunkIdx - 1];
      assert chunk[..chunkFilled] == chunk[..];
      FlattenLast(delivered, chunk[..]);
      sent, delivered := sent + [chunk], delivered + [chunk[..]];
      chunkIdx := chunkIdx % 3 + 1;
      chunkFilled := 0;
    }

    /** The handler of one incoming piece. */
    method Consume(data: seq<T>, numChannels: nat)
      requires Valid() && numChannels > 0 && channels in {0, numChannels}
      modifies this, chunks
      ensures Valid() && channels in {0, numChannels} && taken == old(taken) + data && old(delivered) <= delivered
      ensures chunks == old(chunks) || fresh(chunks)
    {
      var view := data;
      while view != []
        invariant Valid() && channels in {0, numChannels}
        invariant taken + view == old(taken) + data && old(delivered) <= delivered
        invariant chunks == old(chunks) || fresh(chunks)
        decreases |view|
      {
        MakeChunks(numChannels);
        ghost var before := taken;
        var samplesTaken := Take(view);
        Rejoined(before, view, samplesTaken);
        view := view[samplesTaken..];
      }
      assert taken + view == taken;
    }
  }

  lemma Rejoined<T>(x: seq<T>, view: seq<T>, n: nat)
    requires n <= |view|
    ensures x + view[..n] + view[n..] == x + view
  {}

  /** `rechunk` of a whole channel: however the rows were cut into pieces, the chunks sent are the consecutive
      slices of all of them. */
  method RechunkAll<T(0)>(pieces: seq<seq<T>>, numChannels: nat, chunkSize: nat) returns (r: Rechunker<T>)
    requires numChannels > 0 && chunkSize > 0
    ensures fresh(r) && r.Valid() && r.delivered == Chunks(Flatten(pieces), chunkSize)
  {
    r := new Rechunker<T>(chunkSize);
    for i := 0 to |pieces|
      invariant fresh(r) && fresh(r.chunks) && r.chunkSize == chunkSize
      invariant r.Valid() && r.channels in {0, numChannels} && r.taken == Flatten(pieces[..i])
    {
      r.Consume(pieces[i], numChannels);
      assert pieces[..i + 1][..i] == pieces[..i];
    }
    assert pieces[..|pieces|] == pieces;
    r.DeliveredChunks();
  }
}
