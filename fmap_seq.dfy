/**
  The read record `fmap_seq_t`: a name, the bases and the base qualities,
  each an `fmap_string_t` held by value, plus the `is_int` flag saying
  whether the bases are in character form or in the 2-bit integer form.
  Only the three operations the exact-hit reporter calls are modelled:
  clone, conversion to integer form and reverse(-complement).
*/
module FmapSeq {
  import opened FmapStr

  /** The abstract value of a read. */
  datatype ReadValue = ReadValue(name: seq<byte>, bases: seq<byte>, qual: seq<byte>, isInt: bool)

  /** `s` with every character translated through `t`. */
  function Translate(s: seq<byte>, t: Table): (r: seq<byte>)
    ensures |r| == |s|
    ensures forall k :: 0 <= k < |s| ==> r[k] == t[s[k]]
  {
    if s == [] then [] else [t[s[0]]] + Translate(s[1..], t)
  }

  /** The read after `fmap_seq_reverse(seq, 1)`: bases reverse-complemented, qualities reversed. */
  function Flipped(v: ReadValue, rcChar: Table): ReadValue
  {
    v.(bases := RevComp(v.bases, v.isInt, rcChar), qual := Reversed(v.qual))
  }

  /** The read after `fmap_seq_to_int`: bases in integer form. */
  function Encoded(v: ReadValue, charToInt: Table): ReadValue
  {
    if v.isInt then v else v.(bases := Translate(v.bases, charToInt), isInt := true)
  }

  /** Flipping keeps the name, the encoding and the read length. */
  lemma FlippedShape(v: ReadValue, rcChar: Table)
    ensures Flipped(v, rcChar).name == v.name && Flipped(v, rcChar).isInt == v.isInt
    ensures |Flipped(v, rcChar).bases| == |v.bases| && |Flipped(v, rcChar).qual| == |v.qual|
  {
    RevCompLength(v.bases, v.isInt, rcChar);
    ReversedLength(v.qual);
  }

  /** Flipping twice restores the read wherever the complement map undoes itself. */
  lemma FlipFlip(v: ReadValue, rcChar: Table)
    requires ComplementUndoesOn(v.bases, v.isInt, rcChar)
    ensures Flipped(Flipped(v, rcChar), rcChar) == v
  {
    RevCompInvolutive(v.bases, v.isInt, rcChar);
    ReversedInvolutive(v.qual);
  }

  /** A read in integer form is always restored by flipping twice. */
  lemma FlipFlipInt(v: ReadValue, rcChar: Table)
    requires v.isInt
    ensures Flipped(Flipped(v, rcChar), rcChar) == v
  {
    IntComplementUndoes(v.bases, rcChar);
    FlipFlip(v, rcChar);
  }

  class Read {
    const name: FmapString
    const bases: FmapString
    const qual: FmapString
    var isInt: bool

    ghost predicate Valid()
      reads this, name, bases, qual
    {
      name.Valid() && bases.Valid() && qual.Valid() &&
      name.s != bases.s && name.s != qual.s && bases.s != qual.s
    }

    function Value(): ReadValue
      reads this, name, bases, qual, name.s, bases.s, qual.s
      requires Valid()
    {
      ReadValue(name.Contents(), bases.Contents(), qual.Contents(), isInt)
    }

    constructor Make(name: FmapString, bases: FmapString, qual: FmapString, isInt: bool)
      requires name.Valid() && bases.Valid() && qual.Valid()
      requires name.s != bases.s && name.s != qual.s && bases.s != qual.s
      ensures this.name == name && this.bases == bases && this.qual == qual
      ensures Valid() && Value() == ReadValue(name.Contents(), bases.Contents(), qual.Contents(), isInt)
    {
      this.name, this.bases, this.qual, this.isInt := name, bases, qual, isInt;
    }

    /** `fmap_seq_clone`: a distinct read, sharing no buffer, with the same value. */
    method Clone() returns (r: Read)
      requires Valid()
      ensures fresh(r) && fresh(r.name) && fresh(r.bases) && fresh(r.qual)
      ensures fresh(r.name.s) && fresh(r.bases.s) && fresh(r.qual.s)
      ensures r.Valid() && r.Value() == Value()
    {
      var n := name.Clone();
      var b := bases.Clone();
      var q := qual.Clone();
      r := new Read.Make(n, b, q, isInt);
    }

    /** `fmap_seq_to_int`: translates character bases through `charToInt`. */
    method ToInt(charToInt: Table)
      requires Valid()
      modifies this, bases.s
      ensures Valid() && Value() == Encoded(old(Value()), charToInt)
    {
      if isInt {
        return;
      }
      ghost var was := bases.Contents();
      var buf, n := bases.s, bases.l;
      var i := 0;
      while i < n
        invariant 0 <= i <= n == bases.l <= buf.Length && buf == bases.s
        invariant isInt == old(isInt)
        invariant buf[..i] == Translate(was[..i], charToInt)
        invariant buf[i..n] == was[i..]
      {
        assert Translate(was[..i + 1], charToInt) == Translate(was[..i], charToInt) + [charToInt[was[i]]];
        buf[i] := charToInt[buf[i]];
        i := i + 1;
      }
      isInt := true;
      assert was[..n] == was;
    }

    /**
      `fmap_seq_reverse(seq, 1)`: reverse-complements the bases in their
      current encoding and reverses the qualities.
    */
    method Reverse(rcChar: Table)
      requires Valid()
      modifies bases.s, qual.s
      ensures Valid() && Value() == Flipped(old(Value()), rcChar)
    {
      bases.ReverseCompliment(isInt, rcChar);
      qual.Reverse();
    }
  }
}
