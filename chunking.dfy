/** `split_input` (six_frame_aminoacid.py:45-53): cutting a string into
    consecutive chunks of at most `chunk_size` characters. The script uses it
    with size 80 to wrap output lines, and `translate` repeats the same loop
    with size 3 to cut codons. */
module Chunking {
  import opened PyStrings

  /** The chunk count as the source computes it: Python 2 integer division,
      plus one when there is a remainder. It is the ceiling of n / d. */
  function CeilDiv(n: nat, d: nat): (q: nat)
    requires d > 0
    ensures q * d >= n
    ensures q > 0 ==> (q - 1) * d < n
  {
    var q := n / d + (if n % d != 0 then 1 else 0);
    assert n == (n / d) * d + n % d;
    assert (q - 1) * d == q * d - d;
    q
  }

  /** The chunks of `s`: a first chunk of `size` characters, then the chunks
      of the rest; a string no longer than `size` is one chunk. */
  function Chunks(s: string, size: nat): seq<string>
    requires size > 0
    decreases |s|
  {
    if s == [] then []
    else if |s| <= size then [s]
    else [s[..size]] + Chunks(s[size..], size)
  }

  /** Joining the chunks in order gives back the input exactly. */
  lemma {:induction false} ChunksJoin(s: string, size: nat)
    requires size > 0
    ensures Concat(Chunks(s, size)) == s
    decreases |s|
  {
    if |s| > size {
      var rest := Chunks(s[size..], size);
      ChunksJoin(s[size..], size);
      assert Chunks(s, size) == [s[..size]] + rest;
      assert Concat([s[..size]] + rest) == s[..size] + Concat(rest);
    }
  }

  /** Every chunk is non-empty and at most `size` long, and all but the last
      are exactly `size` long. */
  lemma {:induction false} ChunksShape(s: string, size: nat)
    requires size > 0
    ensures forall i :: 0 <= i < |Chunks(s, size)| ==> 0 < |Chunks(s, size)[i]| <= size
    ensures forall i :: 0 <= i < |Chunks(s, size)| - 1 ==> |Chunks(s, size)[i]| == size
    decreases |s|
  {
    if |s| > size {
      ChunksShape(s[size..], size);
      assert Chunks(s, size) == [s[..size]] + Chunks(s[size..], size);
    }
  }

  /** Multiplication by a positive number is monotone. */
  lemma MulMonotone(a: int, b: int, d: nat)
    requires a <= b
    ensures a * d <= b * d
  {
    assert b * d - a * d == (b - a) * d;
  }

  /** Removing one chunk's worth of characters removes exactly one chunk. */
  lemma CeilDivStep(n: nat, d: nat)
    requires d > 0 && n > d
    ensures CeilDiv(n, d) == CeilDiv(n - d, d) + 1
  {
    var p, q := CeilDiv(n, d), CeilDiv(n - d, d);
    assert q * d >= n - d;
    assert q > 0 ==> (q - 1) * d < n - d;
    assert p * d >= n && (p - 1) * d < n;
    if p > q + 1 {
      MulMonotone(q + 1, p - 1, d);
      MulSucc(d, q);
      assert false;
    } else if p < q + 1 {
      MulMonotone(p, q, d);
      assert false;
    }
  }

  /** The number of chunks is ceil(|s| / size); in particular "" gives none. */
  lemma {:induction false} ChunksCount(s: string, size: nat)
    requires size > 0
    ensures |Chunks(s, size)| == CeilDiv(|s|, size)
    decreases |s|
  {
    if s == [] {
    } else if |s| <= size {
      var q := CeilDiv(|s|, size);
      if q > 1 {
        MulMonotone(1, q - 1, size);
      }
    } else {
      ChunksCount(s[size..], size);
      CeilDivStep(|s|, size);
    }
  }

  /** Chunk i is the Python slice `s[size*i : size*(i+1)]`, which is what the
      source's loop appends at step i. */
  lemma {:induction false} ChunkAt(s: string, size: nat, i: nat)
    requires size > 0 && i < |Chunks(s, size)|
    ensures Chunks(s, size)[i] == Slice(s, size * i, size * (i + 1))
    decreases |s|
  {
    if i == 0 {
      ChunksHead(s, size);
      assert size * i == 0 && size * (i + 1) == size;
    } else {
      ChunksTail(s, size, i);
      ChunkAt(s[size..], size, i - 1);
      SliceShift(s, size, i);
    }
  }

  lemma ChunksHead(s: string, size: nat)
    requires size > 0 && s != []
    ensures Chunks(s, size)[0] == Slice(s, 0, size)
  {
  }

  lemma ChunksTail(s: string, size: nat, i: nat)
    requires size > 0 && 0 < i < |Chunks(s, size)|
    ensures |s| > size && i - 1 < |Chunks(s[size..], size)|
    ensures Chunks(s, size)[i] == Chunks(s[size..], size)[i - 1]
  {
  }

  lemma SliceShift(s: string, size: nat, i: nat)
    requires 0 < i && size <= |s|
    ensures Slice(s[size..], size * (i - 1), size * i) == Slice(s, size * i, size * (i + 1))
  {
    MulSucc(size, i - 1);
    MulSucc(size, i);
    SliceOfSuffix(s, size, size * (i - 1), size * i);
  }

  lemma MulSucc(a: nat, b: nat)
    ensures a * (b + 1) == a * b + a
  {
  }

  /** Euclidean remainders are unique. */
  lemma ModUnique(x: nat, d: nat, a: int, r: int)
    requires d > 0 && 0 <= r < d && x == a * d + r
    ensures x % d == r
  {
    var k := a - x / d;
    assert x == (x / d) * d + x % d;
    assert k * d == a * d - (x / d) * d;
    if k >= 1 {
      MulMonotone(1, k, d);
    } else if k <= -1 {
      MulMonotone(k, -1, d);
    }
  }

  lemma ModMinus(n: nat, d: nat)
    requires d > 0 && n >= d
    ensures (n - d) % d == n % d
  {
    var q := n / d;
    assert n == q * d + n % d;
    assert (q - 1) * d == q * d - d;
    ModUnique(n - d, d, q - 1, n % d);
  }

  lemma SliceOfSuffix(s: string, k: nat, lo: nat, hi: nat)
    requires k <= |s|
    ensures Slice(s[k..], lo, hi) == Slice(s, lo + k, hi + k)
  {
  }

  /** Chunking distributes over a concatenation whose left part is a whole
      number of chunks. */
  lemma {:induction false} ChunksAppend(a: string, b: string, size: nat)
    requires size > 0 && |a| % size == 0
    ensures Chunks(a + b, size) == Chunks(a, size) + Chunks(b, size)
    decreases |a|
  {
    if a == [] {
      assert a + b == b;
    } else if b == [] {
      assert a + b == a;
    } else {
      assert |a| >= size;
      ChunksAppendStep(a, b, size);
      if |a| > size {
        var head, rest := a[..size], a[size..];
        ModMinus(|a|, size);
        assert |rest| % size == 0;
        ChunksAppend(rest, b, size);
        ChunksUnfold(a, size);
        var cr, cb := Chunks(rest, size), Chunks(b, size);
        assert Chunks(a + b, size) == [head] + (cr + cb);
        assert [head] + (cr + cb) == ([head] + cr) + cb;
      }
    }
  }

  lemma ChunksAppendStep(a: string, b: string, size: nat)
    requires 0 < size <= |a| && b != []
    ensures Chunks(a + b, size) == [a[..size]] + Chunks(a[size..] + b, size)
    ensures |a| == size ==> Chunks(a, size) == [a] && a[size..] + b == b
  {
    var ab := a + b;
    assert ab[size..] == a[size..] + b;
    assert ab[..size] == a[..size];
    ChunksUnfold(ab, size);
    if |a| == size {
      assert a[size..] == [];
    }
  }

  lemma ChunksUnfold(s: string, size: nat)
    requires 0 < size < |s|
    ensures Chunks(s, size) == [s[..size]] + Chunks(s[size..], size)
  {
  }

  /** split_input: the index loop of the source, proved to produce `Chunks`. */
  method SplitInput(s: string, chunkSize: nat) returns (output: seq<string>)
    requires chunkSize > 0
    ensures output == Chunks(s, chunkSize)
  {
    var numChunks := |s| / chunkSize;
    if |s| % chunkSize != 0 {
      numChunks := numChunks + 1;
    }
    ghost var cs := Chunks(s, chunkSize);
    ChunksCount(s, chunkSize);
    assert numChunks == |cs|;
    output := [];
    for i := 0 to numChunks
      invariant output == cs[..i]
    {
      ChunkAt(s, chunkSize, i);
      var chunk := Slice(s, chunkSize * i, chunkSize * (i + 1));
      assert cs[..i + 1] == cs[..i] + [chunk];
      output := output + [chunk];
    }
    assert cs[..numChunks] == cs;
  }
}
