/**
  The generic string buffer `fmap_string_t {l, m, s}` and its orientation
  operations: reverse, reverse-complement (character or integer form), copy,
  clone and the prefix-preserving formatted write.

  The buffer holds C `char`s; here each is a `byte`.  The allocated memory `m`
  is the length of the array `s`, and the invariant is `l <= m`.
*/
module FmapStr {

  type byte = b: int | 0 <= b < 256

  /** A 256-entry lookup table indexed by a byte, such as `nt_char_to_rc_char`. */
  type Table = t: seq<byte> | |t| == 256 witness seq(256, i => 0)

  /** The characters of `s` in reverse order. */
  function Reversed<T>(s: seq<T>): seq<T>
  {
    if s == [] then [] else Reversed(s[1..]) + [s[0]]
  }

  lemma {:induction false} ReversedAt<T>(s: seq<T>, k: nat)
    requires k < |s|
    ensures |Reversed(s)| == |s|
    ensures Reversed(s)[k] == s[|s| - 1 - k]
  {
    if k < |s| - 1 {
      ReversedAt(s[1..], k);
    } else {
      ReversedLength(s[1..]);
    }
  }

  lemma {:induction false} ReversedLength<T>(s: seq<T>)
    ensures |Reversed(s)| == |s|
  {
    if s != [] {
      ReversedLength(s[1..]);
    }
  }

  /** Reversal is an involution. */
  lemma ReversedInvolutive<T>(s: seq<T>)
    ensures Reversed(Reversed(s)) == s
  {
    ReversedLength(s);
    ReversedLength(Reversed(s));
    forall k | 0 <= k < |s|
      ensures Reversed(Reversed(s))[k] == s[k]
    {
      ReversedAt(Reversed(s), k);
      ReversedAt(s, |s| - 1 - k);
    }
  }

  /**
    The complement of a base in the 2-bit integer encoding A=0, C=1, G=2, T=3:
    `3 - c` for the four bases, and any other code (4 stands for N) unchanged.
  */
  function IntComplement(c: byte): byte
  {
    if c < 4 then 3 - c else c
  }

  /** The complement map in effect: the integer map or the character table. */
  function Complement(c: byte, isInt: bool, rcChar: Table): byte
  {
    if isInt then IntComplement(c) else rcChar[c]
  }

  /** `s` reversed with every character complemented. */
  function RevComp(s: seq<byte>, isInt: bool, rcChar: Table): seq<byte>
  {
    if s == [] then [] else RevComp(s[1..], isInt, rcChar) + [Complement(s[0], isInt, rcChar)]
  }

  lemma {:induction false} RevCompAt(s: seq<byte>, isInt: bool, rcChar: Table, k: nat)
    requires k < |s|
    ensures |RevComp(s, isInt, rcChar)| == |s|
    ensures RevComp(s, isInt, rcChar)[k] == Complement(s[|s| - 1 - k], isInt, rcChar)
  {
    if k < |s| - 1 {
      RevCompAt(s[1..], isInt, rcChar, k);
    } else {
      RevCompLength(s[1..], isInt, rcChar);
    }
  }

  lemma {:induction false} RevCompLength(s: seq<byte>, isInt: bool, rcChar: Table)
    ensures |RevComp(s, isInt, rcChar)| == |s|
  {
    if s != [] {
      RevCompLength(s[1..], isInt, rcChar);
    }
  }

  /** The complement map undoes itself on every character of `s`. */
  predicate ComplementUndoesOn(s: seq<byte>, isInt: bool, rcChar: Table)
  {
    forall k :: 0 <= k < |s| ==> Complement(Complement(s[k], isInt, rcChar), isInt, rcChar) == s[k]
  }

  /** The integer complement is its own inverse on every code. */
  lemma IntComplementUndoes(s: seq<byte>, rcChar: Table)
    ensures ComplementUndoesOn(s, true, rcChar)
  {
  }

  /** Reverse-complement is an involution wherever the complement map is. */
  lemma RevCompInvolutive(s: seq<byte>, isInt: bool, rcChar: Table)
    requires ComplementUndoesOn(s, isInt, rcChar)
    ensures RevComp(RevComp(s, isInt, rcChar), isInt, rcChar) == s
  {
    var r := RevComp(s, isInt, rcChar);
    RevCompLength(s, isInt, rcChar);
    RevCompLength(r, isInt, rcChar);
    forall k | 0 <= k < |s|
      ensures RevComp(r, isInt, rcChar)[k] == s[k]
    {
      RevCompAt(r, isInt, rcChar, k);
      RevCompAt(s, isInt, rcChar, |s| - 1 - k);
    }
  }

  /** Reverse-complement is an involution only where the complement map is. */
  lemma RevCompInvolutiveOnlyIf(s: seq<byte>, isInt: bool, rcChar: Table)
    requires RevComp(RevComp(s, isInt, rcChar), isInt, rcChar) == s
    ensures ComplementUndoesOn(s, isInt, rcChar)
  {
    var r := RevComp(s, isInt, rcChar);
    RevCompLength(s, isInt, rcChar);
    forall k | 0 <= k < |s|
      ensures Complement(Complement(s[k], isInt, rcChar), isInt, rcChar) == s[k]
    {
      RevCompAt(r, isInt, rcChar, k);
      RevCompAt(s, isInt, rcChar, |s| - 1 - k);
    }
  }

  /** A string buffer: `l` characters in use out of the `m == s.Length` allocated. */
  class FmapString {
    var s: array<byte>
    var l: nat

    ghost predicate Valid()
      reads this
    {
      l <= s.Length
    }

    /** The allocated memory `m`. */
    function Mem(): nat
      reads this
    {
      s.Length
    }

    /** The string proper: the first `l` characters of the buffer. */
    function Contents(): seq<byte>
      reads this, s
      requires Valid()
    {
      s[..l]
    }

    /** `fmap_string_init`: an empty string with `mem` characters allocated. */
    constructor Init(mem: nat)
      ensures Valid() && fresh(s)
      ensures Mem() == mem && Contents() == []
    {
      s := new byte[mem];
      l := 0;
    }

    /** `fmap_string_reverse`: reverses the characters in place. */
    method Reverse()
      requires Valid()
      modifies s
      ensures Valid()
      ensures Contents() == Reversed(old(Contents()))
      ensures s[l..] == old(s[l..])
    {
      ghost var was := s[..l];
      var buf, n := s, l;
      var i := 0;
      while i < n / 2
        invariant 0 <= i <= n / 2
        invariant forall k :: 0 <= k < i ==> buf[k] == was[n - 1 - k] && buf[n - 1 - k] == was[k]
        invariant forall k :: i <= k < n - i ==> buf[k] == was[k]
        invariant forall k :: n <= k < buf.Length ==> buf[k] == old(buf[k])
      {
        buf[i], buf[n - 1 - i] := buf[n - 1 - i], buf[i];
        i := i + 1;
      }
      ReversedLength(was);
      forall k | 0 <= k < n
        ensures buf[k] == Reversed(was)[k]
      {
        ReversedAt(was, k);
      }
      assert buf[..n] == Reversed(was);
      assert buf[n..] == old(buf[n..]);
    }

    /**
      `fmap_string_reverse_compliment`: reverses the characters and complements
      each, with the integer map when `isInt` holds and the character table
      `rcChar` (the role of `nt_char_to_rc_char`) otherwise.
    */
    method ReverseCompliment(isInt: bool, rcChar: Table)
      requires Valid()
      modifies s
      ensures Valid()
      ensures Contents() == RevComp(old(Contents()), isInt, rcChar)
      ensures s[l..] == old(s[l..])
    {
      ghost var was := s[..l];
      ReverseComplementPrefix(s, l, isInt, rcChar);
      RevCompLength(was, isInt, rcChar);
      forall k | 0 <= k < l
        ensures s[k] == RevComp(was, isInt, rcChar)[k]
      {
        RevCompAt(was, isInt, rcChar, k);
      }
      assert s[..l] == RevComp(was, isInt, rcChar);
      assert s[l..] == old(s[l..]);
    }

    /**
      `fmap_string_copy`, analogous to `strcpy`: afterwards this string has the
      contents and length of `src`, and `src` is unchanged.  When the memory
      is too small it is replaced by a fresh, large enough buffer.
    */
    method Copy(src: FmapString)
      requires Valid() && src.Valid()
      requires src.s != s
      modifies this, s
      ensures Valid() && src.Valid()
      ensures Contents() == old(src.Contents())
      ensures src.s == old(src.s) && src.l == old(src.l) && src.s[..] == old(src.s[..])
      ensures s == old(s) || fresh(s)
    {
      var buf := s;
      if buf.Length < src.l {
        buf := new byte[src.l];
      }
      var i := 0;
      while i < src.l
        invariant 0 <= i <= src.l <= buf.Length
        invariant buf[..i] == src.s[..i]
        invariant src.s[..] == old(src.s[..])
      {
        buf[i] := src.s[i];
        i := i + 1;
      }
      s, l := buf, src.l;
    }

    /** `fmap_string_clone`: a distinct string with the same contents and memory. */
    method Clone() returns (r: FmapString)
      requires Valid()
      ensures fresh(r) && fresh(r.s)
      ensures r.Valid() && r.Contents() == Contents() && r.Mem() == Mem()
    {
      r := new FmapString.Init(s.Length);
      var buf := r.s;
      var i := 0;
      while i < l
        invariant 0 <= i <= l <= buf.Length == s.Length
        invariant r.s == buf
        invariant buf[..i] == s[..i]
      {
        buf[i] := s[i];
        i := i + 1;
      }
      r.l := l;
    }

    /**
      `fmap_string_lsprintf(dest, n, format, ...)`: writes the rendered text
      `text` after the first `n` characters, which are not modified.  The
      buffer is replaced by a fresh, large enough one when needed.
    */
    method Lsprintf(n: nat, text: seq<byte>)
      requires Valid()
      requires n <= l
      modifies this, s
      ensures Valid() && l == n + |text|
      ensures Contents()[..n] == old(Contents()[..n])
      ensures Contents() == old(Contents()[..n]) + text
      ensures s == old(s) || fresh(s)
    {
      ghost var prefix := s[..n];
      assert prefix == s[..l][..n];
      var buf := s;
      if buf.Length < n + |text| {
        buf := GrownCopy(s, n, n + |text|);
      }
      var j := 0;
      while j < |text|
        invariant 0 <= j <= |text|
        invariant n + |text| <= buf.Length
        invariant buf[..n] == prefix
        invariant buf[n..n + j] == text[..j]
      {
        buf[n + j] := text[j];
        j := j + 1;
      }
      s, l := buf, n + |text|;
      assert s[..l] == s[..n] + s[n..l];
      assert s[..l][..n] == prefix;
    }
  }

  /**
    The swap loop of the reverse complement: the first `n` bytes of `buf`
    end reversed and complemented, the bytes past them unchanged.
  */
  method ReverseComplementPrefix(buf: array<byte>, n: nat, isInt: bool, rcChar: Table)
    requires n <= buf.Length
    modifies buf
    ensures forall k :: 0 <= k < n ==> buf[k] == Complement(old(buf[n - 1 - k]), isInt, rcChar)
    ensures forall k :: n <= k < buf.Length ==> buf[k] == old(buf[k])
  {
    ghost var was := buf[..];
    var i := 0;
    while i < n / 2
      invariant 0 <= i <= n / 2
      invariant forall k :: 0 <= k < i ==> buf[k] == Complement(was[n - 1 - k], isInt, rcChar)
      invariant forall k :: n - i <= k < n ==> buf[k] == Complement(was[n - 1 - k], isInt, rcChar)
      invariant forall k :: i <= k < n - i ==> buf[k] == was[k]
      invariant forall k :: n <= k < buf.Length ==> buf[k] == was[k]
    {
      var tmp := buf[n - 1 - i];
      buf[n - 1 - i] := Complement(buf[i], isInt, rcChar);
      buf[i] := Complement(tmp, isInt, rcChar);
      i := i + 1;
    }
    if n % 2 == 1 {
      buf[i] := Complement(buf[i], isInt, rcChar);
    }
  }

  /** A fresh buffer of `size` bytes starting with the first `n` bytes of `from`. */
  method GrownCopy(from: array<byte>, n: nat, size: nat) returns (buf: array<byte>)
    requires n <= from.Length && n <= size
    ensures fresh(buf) && buf.Length == size
    ensures buf[..n] == from[..n]
  {
    buf := new byte[size];
    var i := 0;
    while i < n
      invariant 0 <= i <= n
      invariant buf[..i] == from[..i]
    {
      buf[i] := from[i];
      i := i + 1;
    }
  }
}
