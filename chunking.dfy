/**
  Cutting a sequence into consecutive batches of a fixed width: every batch but
  the last holds exactly `w` elements, the last holds what is left, and the
  batches concatenated in order give back the sequence.
 */
module Chunking {

  /** `s` cut into consecutive pieces of `w` elements, the last possibly shorter. */
  function Chunks<T>(s: seq<T>, w: nat): seq<seq<T>>
    requires w > 0
    decreases |s|
  {
    if |s| == 0 then []
    else if |s| <= w then [s]
    else [s[..w]] + Chunks(s[w..], w)
  }

  /** The concatenation of a sequence of sequences, in order. */
  function Flatten<T>(ss: seq<seq<T>>): seq<T>
    decreases |ss|
  {
    if ss == [] then [] else ss[0] + Flatten(ss[1..])
  }

  lemma {:induction false} FlattenAppend<T>(a: seq<seq<T>>, b: seq<seq<T>>)
    ensures Flatten(a + b) == Flatten(a) + Flatten(b)
    decreases |a|
  {
    if a == [] {
      assert a + b == b;
    } else {
      assert (a + b)[0] == a[0];
      assert (a + b)[1..] == a[1..] + b;
      FlattenAppend(a[1..], b);
    }
  }

  /** Nothing is lost, duplicated or reordered: the batches concatenate back to `s`. */
  lemma {:induction false} FlattenChunks<T>(s: seq<T>, w: nat)
    requires w > 0
    ensures Flatten(Chunks(s, w)) == s
    decreases |s|
  {
    if |s| == 0 {
    } else if |s| <= w {
      assert Flatten([s]) == s + Flatten([s][1..]);
    } else {
      FlattenChunks(s[w..], w);
      var cs := [s[..w]] + Chunks(s[w..], w);
      assert cs[1..] == Chunks(s[w..], w);
      assert s == s[..w] + s[w..];
    }
  }

  /**
    Batch count and sizes: there are ceil(|s| / w) batches, none when `s` is
    empty; every batch but the last holds exactly `w` elements and the last
    holds the rest, so it is never empty.
   */
  lemma {:induction false} ChunkSizes<T>(s: seq<T>, w: nat)
    requires w > 0
    ensures var cs := Chunks(s, w);
      && (|cs| == 0 <==> |s| == 0)
      && (|s| > 0 ==> (|cs| - 1) * w < |s| <= |cs| * w)
      && (forall k :: 0 <= k < |cs| - 1 ==> |cs[k]| == w)
      && (|cs| > 0 ==> |cs[|cs| - 1]| == |s| - (|cs| - 1) * w > 0)
    decreases |s|
  {
    if |s| > w {
      var rest := Chunks(s[w..], w);
      ChunkSizes(s[w..], w);
      var cs := [s[..w]] + rest;
      assert forall k :: 1 <= k < |cs| ==> cs[k] == rest[k - 1];
      assert (|cs| - 1) * w == (|rest| - 1) * w + w;
      assert |cs| * w == |rest| * w + w;
    }
  }

  /** The number of batches, written as Python's ceiling division would compute it. */
  lemma ChunkCount<T>(s: seq<T>, w: nat)
    requires w > 0
    ensures |Chunks(s, w)| == (|s| + w - 1) / w
  {
    ChunkSizes(s, w);
    var c := |Chunks(s, w)|;
    if |s| > 0 {
      CeilingUnique(|s|, w, c);
    }
  }

  /**
    The last batch holds |s| mod w elements, or a full `w` when w divides |s|;
    the other batches are full.
   */
  lemma LastChunkSize<T>(s: seq<T>, w: nat)
    requires w > 0 && |s| > 0
    ensures var cs := Chunks(s, w);
      |cs| > 0 && |cs[|cs| - 1]| == if |s| % w == 0 then w else |s| % w
  {
    ChunkSizes(s, w);
    var c := |Chunks(s, w)|;
    RemainderOfBlocks(|s|, w, c - 1);
  }

  /** Whole batches followed by a short tail: the tail becomes one more batch. */
  lemma ChunksAppendTail<T>(p: seq<T>, q: seq<T>, w: nat)
    requires w > 0 && |p| % w == 0 && 0 < |q| <= w
    ensures Chunks(p + q, w) == Chunks(p, w) + [q]
  {
    WholeBlocks(|p|, w);
    ChunksAppendBlocks(p, q, w, |p| / w);
  }

  lemma {:induction false} ChunksAppendBlocks<T>(p: seq<T>, q: seq<T>, w: nat, k: nat)
    requires w > 0 && |p| == k * w && 0 < |q| <= w
    ensures Chunks(p + q, w) == Chunks(p, w) + [q]
    decreases k
  {
    if k == 0 {
      assert p + q == q;
    } else {
      var s := p + q;
      var tail := p[w..];
      assert |tail| == (k - 1) * w;
      assert Chunks(s, w) == [s[..w]] + Chunks(s[w..], w);
      assert s[..w] == p[..w];
      assert s[w..] == tail + q;
      ChunksAppendBlocks(tail, q, w, k - 1);
      if k == 1 {
        assert Chunks(p, w) == [p];
        assert Chunks(tail, w) == [];
        assert p[..w] == p;
      } else {
        assert Chunks(p, w) == [p[..w]] + Chunks(tail, w);
      }
    }
  }

  /** The full batches of `s`: its leading pieces of exactly `w` elements, the short rest left out. */
  function FullChunks<T>(s: seq<T>, w: nat): seq<seq<T>>
    requires w > 0
    decreases |s|
  {
    if |s| < w then [] else [s[..w]] + FullChunks(s[w..], w)
  }

  /**
    The full batches hold w elements each, they concatenate to a prefix of `s`,
    and fewer than w elements are left out.
   */
  lemma {:induction false} FullChunksSizes<T>(s: seq<T>, w: nat)
    requires w > 0
    ensures var fs := FullChunks(s, w);
      && (forall k :: 0 <= k < |fs| ==> |fs[k]| == w)
      && |fs| * w <= |s| < |fs| * w + w
      && Flatten(fs) == s[..|fs| * w]
    decreases |s|
  {
    if |s| >= w {
      var rest := s[w..];
      FullChunksSizes(rest, w);
      var fs := FullChunks(s, w);
      var rs := FullChunks(rest, w);
      assert fs == [s[..w]] + rs;
      assert fs[0] == s[..w] && fs[1..] == rs;
      assert forall k :: 1 <= k < |fs| ==> fs[k] == rs[k - 1];
      var m := |rs| * w;
      MultiplySuccessor(|rs|, w);
      assert |fs| * w == m + w;
      assert s[..m + w] == s[..w] + rest[..m];
    }
  }

  /** Whole blocks followed by fewer than w elements: the full batches are the blocks' batches. */
  lemma {:induction false} FullChunksOfBlocks<T>(p: seq<T>, q: seq<T>, w: nat, k: nat)
    requires w > 0 && |p| == k * w && |q| < w
    ensures FullChunks(p + q, w) == Chunks(p, w)
    decreases k
  {
    if k == 0 {
      assert p + q == q;
    } else {
      var s := p + q;
      var tail := p[w..];
      assert |tail| == (k - 1) * w;
      assert s[..w] == p[..w];
      assert s[w..] == tail + q;
      FullChunksOfBlocks(tail, q, w, k - 1);
      if k == 1 {
        assert Chunks(p, w) == [p];
        assert Chunks(tail, w) == [];
        assert p[..w] == p;
      } else {
        assert Chunks(p, w) == [p[..w]] + Chunks(tail, w);
      }
    }
  }

  // Arithmetic helpers for the lemmas above.

  lemma CeilingUnique(n: nat, w: nat, c: nat)
    requires w > 0 && (c - 1) * w < n <= c * w
    ensures c == (n + w - 1) / w
  {
    var q := (n + w - 1) / w;
    var r := (n + w - 1) % w;
    assert n + w - 1 == q * w + r && 0 <= r < w;
    if q < c {
      assert q <= c - 1;
      MultiplyMonotone(q, c - 1, w);
      assert false;
    } else if q > c {
      assert c + 1 <= q;
      MultiplyMonotone(c + 1, q, w);
      assert false;
    }
  }

  lemma RemainderOfBlocks(n: nat, w: nat, k: nat)
    requires w > 0 && k * w < n <= k * w + w
    ensures n - k * w == if n % w == 0 then w else n % w
  {
    var q := n / w;
    var r := n % w;
    assert n == q * w + r && 0 <= r < w;
    if q < k {
      MultiplyMonotone(q + 1, k, w);
      assert false;
    } else if q > k + 1 {
      MultiplyMonotone(k + 2, q, w);
      assert false;
    } else if q == k + 1 {
      assert q * w == k * w + w;
    }
  }

  /** m whole blocks of w plus c < w more leave a remainder of c. */
  lemma RemainderAfterBlocks(m: nat, w: nat, c: nat)
    requires c < w
    ensures (m * w + c) % w == c
  {
    var n := m * w + c;
    var q := n / w;
    var r := n % w;
    assert n == q * w + r && 0 <= r < w;
    if q < m {
      MultiplyMonotone(q + 1, m, w);
      assert false;
    } else if q > m {
      MultiplyMonotone(m + 1, q, w);
      assert false;
    }
  }

  lemma MultiplySuccessor(a: int, w: int)
    ensures (a + 1) * w == a * w + w
  {
  }

  lemma WholeBlocks(n: nat, w: nat)
    requires w > 0 && n % w == 0
    ensures n == (n / w) * w
  {
  }

  lemma MultiplyMonotone(a: int, b: int, w: nat)
    requires a <= b
    ensures a * w <= b * w
  {
    assert b * w == a * w + (b - a) * w;
  }
}
