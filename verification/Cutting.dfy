/** Cutting a byte string at multiples of a size, as both the shards of a file and the frames of a
    directory are cut. */
module Cutting {
  import opened Bytes
  import opened Frame

  function CeilDiv(a: nat, n: nat): nat
    requires n > 0
  {
    (a + n - 1) / n
  }

  /** Full pieces, then what is left; an empty file is one empty piece. */
  function Pieces(size: nat, file: seq<byte>): seq<seq<byte>>
    requires size > 0
  {
    var full, rest := FullChunks(size, file), Rest(size, file);
    if rest == [] && full != [] then full else full + [rest]
  }

  lemma PiecesConserve(size: nat, file: seq<byte>)
    requires size > 0
    ensures Flatten(Pieces(size, file)) == file
  {
    var full, rest := FullChunks(size, file), Rest(size, file);
    ChunksConserve(size, file);
    FlattenSnoc(full, rest);
    assert Flatten(full) + [] == Flatten(full);
  }

  lemma PieceCount(size: nat, file: seq<byte>)
    requires size > 0
    ensures |Pieces(size, file)| == if file == [] then 1 else CeilDiv(|file|, size)
  {
    var full, rest := FullChunks(size, file), Rest(size, file);
    ChunksHaveLength(size, file);
    assert |file| == size * |full| + |rest|;
    if rest == [] {
      DivRange(|file| + size - 1, size, |full|);
    } else {
      assert size * (|full| + 1) == size * |full| + size;
      DivRange(|file| + size - 1, size, |full| + 1);
    }
  }

  function ReadAt(file: seq<byte>, offset: nat, limit: nat): seq<byte> {
    if offset >= |file| then [] else file[offset..Min(offset + limit, |file|)]
  }

  lemma PiecesUnfold(n: nat, file: seq<byte>)
    requires n > 0
    ensures Pieces(n, file) == if |file| <= n then [file] else [file[..n]] + Pieces(n, file[n..])
  {
    if |file| >= n {
      var later := file[n..];
      assert FullChunks(n, file) == [file[..n]] + FullChunks(n, later) && Rest(n, file) == Rest(n, later);
      if later == [] {
        assert file[..n] == file && FullChunks(n, later) == [];
      } else {
        Assoc([file[..n]], FullChunks(n, later), [Rest(n, later)]);
      }
    }
  }

  /** Seeking to i * size and reading at most size bytes yields piece i. */
  lemma {:induction false} PieceAt(size: nat, file: seq<byte>, i: nat)
    requires size > 0 && i < |Pieces(size, file)|
    ensures ReadAt(file, Offset(i, size), size) == Pieces(size, file)[i]
    decreases i
  {
    hide Pieces, ReadAt, Offset;
    PiecesUnfold(size, file);
    FirstRead(file, size);
    if i > 0 {
      PieceAt(size, file[size..], i - 1);
      NextOffset(i, size);
      ReadLater(file, size, Offset(i - 1, size));
    }
  }

  function Offset(i: nat, size: nat): nat {
    i * size
  }

  lemma NextOffset(i: nat, size: nat)
    requires i > 0
    ensures Offset(i, size) == Offset(i - 1, size) + size
  {
  }

  lemma FirstRead(file: seq<byte>, n: nat)
    ensures Offset(0, n) == 0
    ensures ReadAt(file, 0, n) == if |file| <= n then file else file[..n]
  {
  }

  lemma ReadLater(file: seq<byte>, n: nat, offset: nat)
    requires n <= |file|
    ensures ReadAt(file, offset + n, n) == ReadAt(file[n..], offset, n)
  {
  }
}
