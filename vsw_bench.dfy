/**
  Target construction of the vectorised Smith-Waterman benchmark: a random
  query of `seqLen` bases, then, on every iteration, a target of `tlen`
  bases made of a random left flank of `front` bases, the query copied
  verbatim, and a random right flank of `end` bases, filled through one
  cursor `k` that runs across the three loops.

  The generator `tmap_rand_get` is the stream `draws`: its n-th call
  returns `draws(n)`, a value in [0, 1).  The alignment engine called on
  each target is not part of this model (its results are discarded).
*/
module VswBench {
  import opened FmapStr

  /** C's signed division by 2, which truncates toward zero. */
  function TruncHalf(x: int): (h: int)
    ensures x >= 0 ==> 0 <= h && h + h <= x <= h + h + 1
    ensures x < 0 ==> h <= 0 && h + h - 1 <= x <= h + h
  {
    if x >= 0 then x / 2 else -((-x) / 2)
  }

  /** `front = (tlen - seq_len) / 2` and `end = tlen - seq_len - front`, for any lengths. */
  function FlankSplit(seqLen: int, tlen: int): (p: (int, int))
    ensures p.0 + seqLen + p.1 == tlen
    ensures tlen >= seqLen ==> 0 <= p.0 <= p.1 <= p.0 + 1
    ensures tlen < seqLen ==> p.0 - 1 <= p.1 <= p.0 <= 0
  {
    var front := TruncHalf(tlen - seqLen);
    (front, tlen - seqLen - front)
  }

  /**
    When the target can hold the query, the flanks and the query fill it
    exactly, the right flank is the longer one by at most one base.
  */
  lemma FlankSplitFits(seqLen: int, tlen: int)
    requires 0 <= seqLen <= tlen
    ensures FlankSplit(seqLen, tlen).0 + seqLen + FlankSplit(seqLen, tlen).1 == tlen
    ensures 0 <= FlankSplit(seqLen, tlen).0 <= FlankSplit(seqLen, tlen).1
    ensures FlankSplit(seqLen, tlen).1 - FlankSplit(seqLen, tlen).0 <= 1
  {
  }

  /**
    Where the cursor stands after the query loop, as written: the left-flank
    loop runs `front` times when `front` is positive and not at all otherwise.
  */
  function CursorAfterQuery(seqLen: int, tlen: int): int
  {
    var front := FlankSplit(seqLen, tlen).0;
    (if front > 0 then front else 0) + seqLen
  }

  /**
    With a query of 150 bases and a target of 100, `front` and `end` are
    both -25, no flank is drawn, and the query loop writes target bytes 0
    to 149 of a 100-byte buffer.
  */
  lemma ShortTargetOverruns()
    ensures FlankSplit(150, 100) == (-25, -25)
    ensures CursorAfterQuery(150, 100) == 150 > 100
  {
  }

  /** The base a draw in [0, 1) gives: `(uint8_t)(4 * r)`, the truncation of `4 * r`. */
  function DrawBase(r: real): (b: byte)
    requires 0.0 <= r < 1.0
    ensures b <= 3 && b as real <= 4.0 * r < b as real + 1.0
  {
    (4.0 * r).Floor
  }

  /**
    `t` is the target built from `query` with the draws starting at call
    `start`: `front` drawn bases, the query, `end` drawn bases.
  */
  ghost predicate Layout(t: seq<byte>, query: seq<byte>, draws: nat -> real, start: nat, front: nat, end: nat)
    requires forall n :: 0.0 <= draws(n) < 1.0
  {
    |t| == front + |query| + end &&
    (forall k :: 0 <= k < front ==> t[k] == DrawBase(draws(start + k))) &&
    (forall j :: 0 <= j < |query| ==> t[front + j] == query[j]) &&
    (forall k :: front + |query| <= k < |t| ==> t[k] == DrawBase(draws(start + k - |query|)))
  }

  /**
    One iteration's three loops: the cursor `k` runs over the whole target,
    writing `front` drawn bases, the query, then `end` drawn bases, with the
    draws taken from call `start` on.  Returns the number of the next call
    and the final cursor.
  */
  method FillTarget(target: array<byte>, sq: array<byte>, front: nat, end: nat,
                    draws: nat -> real, start: nat) returns (next: nat, k: nat)
    requires target.Length == front + sq.Length + end && target != sq
    requires forall n :: 0.0 <= draws(n) < 1.0
    modifies target
    ensures next == start + front + end
    ensures k == target.Length
    ensures Layout(target[..], sq[..], draws, start, front, end)
  {
    var d := start;
    var j := 0;
    k := 0;
    while j < front
      invariant 0 <= j <= front && k == j && d == start + j
      invariant forall m :: 0 <= m < j ==> target[m] == DrawBase(draws(start + m))
    {
      target[k] := DrawBase(draws(d));
      d := d + 1;
      j, k := j + 1, k + 1;
    }
    j := 0;
    while j < sq.Length
      invariant 0 <= j <= sq.Length && k == front + j && d == start + front
      invariant forall m :: 0 <= m < front ==> target[m] == DrawBase(draws(start + m))
      invariant forall m :: 0 <= m < j ==> target[front + m] == sq[m]
    {
      target[k] := sq[j];
      j, k := j + 1, k + 1;
    }
    j := 0;
    while j < end
      invariant 0 <= j <= end && k == front + sq.Length + j && d == start + front + j
      invariant forall m :: 0 <= m < front ==> target[m] == DrawBase(draws(start + m))
      invariant forall m :: 0 <= m < sq.Length ==> target[front + m] == sq[m]
      invariant forall m :: front + sq.Length <= m < k ==> target[m] == DrawBase(draws(start + m - sq.Length))
    {
      target[k] := DrawBase(draws(d));
      d := d + 1;
      j, k := j + 1, k + 1;
    }
    next := d;
  }

  /** Every base of a target laid out from a query of bases 0 to 3 is in 0 to 3. */
  lemma LayoutBases(t: seq<byte>, query: seq<byte>, draws: nat -> real, start: nat, front: nat, end: nat)
    requires forall n :: 0.0 <= draws(n) < 1.0
    requires forall j :: 0 <= j < |query| ==> query[j] <= 3
    requires Layout(t, query, draws, start, front, end)
    ensures forall k :: 0 <= k < |t| ==> t[k] <= 3
  {
    forall k | 0 <= k < |t|
      ensures t[k] <= 3
    {
      if front <= k < front + |query| {
        assert t[front + (k - front)] == query[k - front];
      }
    }
  }

  /**
    The number of the first draw of iteration `i`: the query takes the first
    `seqLen` draws and every iteration takes `width` more, one per flank base.
  */
  function IterStart(seqLen: nat, width: nat, i: nat): nat
  {
    if i == 0 then seqLen else IterStart(seqLen, width, i - 1) + width
  }

  lemma {:induction false} IterStartClosed(seqLen: nat, width: nat, i: nat)
    ensures IterStart(seqLen, width, i) == seqLen + i * width
  {
    if i > 0 {
      IterStartClosed(seqLen, width, i - 1);
      assert i * width == (i - 1) * width + width;
    }
  }

  /**
    Target `n` of `targets` has length `tlen`, is laid out from the draws of
    iteration `n`, and holds only bases 0 to 3.
  */
  ghost predicate TargetsBuilt(targets: seq<seq<byte>>, query: seq<byte>, draws: nat -> real,
                               seqLen: nat, tlen: nat, front: nat, end: nat)
    requires seqLen <= tlen
    requires forall n :: 0.0 <= draws(n) < 1.0
  {
    forall n :: 0 <= n < |targets| ==>
      |targets[n]| == tlen &&
      Layout(targets[n], query, draws, IterStart(seqLen, tlen - seqLen, n), front, end) &&
      (forall k :: 0 <= k < |targets[n]| ==> targets[n][k] <= 3)
  }

  lemma TargetsBuiltAppend(targets: seq<seq<byte>>, t: seq<byte>, query: seq<byte>, draws: nat -> real,
                           seqLen: nat, tlen: nat, front: nat, end: nat)
    requires seqLen <= tlen
    requires forall n :: 0.0 <= draws(n) < 1.0
    requires TargetsBuilt(targets, query, draws, seqLen, tlen, front, end)
    requires |t| == tlen && Layout(t, query, draws, IterStart(seqLen, tlen - seqLen, |targets|), front, end)
    requires forall k :: 0 <= k < |t| ==> t[k] <= 3
    ensures TargetsBuilt(targets + [t], query, draws, seqLen, tlen, front, end)
  {
    var all := targets + [t];
    forall n | 0 <= n < |all|
      ensures |all[n]| == tlen &&
        Layout(all[n], query, draws, IterStart(seqLen, tlen - seqLen, n), front, end) &&
        (forall k :: 0 <= k < |all[n]| ==> all[n][k] <= 3)
    {
      if n < |targets| {
        assert all[n] == targets[n];
      } else {
        assert all[n] == t;
      }
    }
  }

  /** The query loop of `tmap_vsw_bm_core`: base `j` of the query is drawn by call `j`. */
  method DrawQuery(seqLen: nat, draws: nat -> real) returns (sq: array<byte>)
    requires forall n :: 0.0 <= draws(n) < 1.0
    ensures fresh(sq) && sq.Length == seqLen
    ensures forall j :: 0 <= j < seqLen ==> sq[j] == DrawBase(draws(j))
  {
    sq := new byte[seqLen];
    var i := 0;
    while i < seqLen
      invariant 0 <= i <= seqLen
      invariant forall j :: 0 <= j < i ==> sq[j] == DrawBase(draws(j))
    {
      sq[i] := DrawBase(draws(i));
      i := i + 1;
    }
  }

  /**
    `tmap_vsw_bm_core` without the alignment engine: returns the query and
    the target handed to the engine on each of the `nIter` iterations.
    Each target is rebuilt in full from the query and fresh draws, holds
    the query verbatim at offset `front`, and holds only bases 0 to 3.
  */
  method BenchCore(seqLen: int, tlen: int, nIter: int, draws: nat -> real)
    returns (query: seq<byte>, targets: seq<seq<byte>>)
    requires 0 <= seqLen <= tlen
    requires forall n :: 0.0 <= draws(n) < 1.0
    ensures |query| == seqLen
    ensures forall j :: 0 <= j < seqLen ==> query[j] == DrawBase(draws(j))
    ensures |targets| == if nIter > 0 then nIter else 0
    ensures forall i :: 0 <= i < |targets| ==>
      |targets[i]| == tlen &&
      Layout(targets[i], query, draws, IterStart(seqLen, tlen - seqLen, i),
             FlankSplit(seqLen, tlen).0, FlankSplit(seqLen, tlen).1)
    ensures forall i, k :: 0 <= i < |targets| && 0 <= k < |targets[i]| ==> targets[i][k] <= 3
  {
    var sq := DrawQuery(seqLen, draws);
    var target := new byte[tlen];
    var d: nat := seqLen;
    query := sq[..];
    var split := FlankSplit(seqLen, tlen);
    var front, end := split.0, split.1;
    FlankSplitFits(seqLen, tlen);
    targets := [];
    var i := 0;
    while i < nIter
      invariant 0 <= i && (nIter > 0 ==> i <= nIter) && (nIter <= 0 ==> i == 0)
      invariant |targets| == i
      invariant sq[..] == query
      invariant d == IterStart(seqLen, tlen - seqLen, i)
      invariant TargetsBuilt(targets, query, draws, seqLen, tlen, front, end)
    {
      var cursor;
      d, cursor := FillTarget(target, sq, front, end, draws, d);
      var t := target[..];
      LayoutBases(t, query, draws, IterStart(seqLen, tlen - seqLen, i), front, end);
      TargetsBuiltAppend(targets, t, query, draws, seqLen, tlen, front, end);
      targets := targets + [t];
      i := i + 1;
    }
  }
}
