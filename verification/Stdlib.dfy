/** The memory and string primitives of the kernel library. */
module Stdlib {
  import opened KernelTypes

  // ---------------------------------------------------------------- MmCopy

  /**
   The byte that an ascending copy of memory `was` onto itself leaves i bytes past
   the destination: behind a destination that overlaps its source from above, the
   first `to - from` bytes repeat.
   */
  function CopiedByte(was: seq<u8>, from: nat, to: nat, i: nat): u8
    requires from + i < |was|
    decreases i
  {
    if from < to <= from + i then CopiedByte(was, from, to, from + i - to) else was[from + i]
  }

  /** `MmCopy`: byte by byte, upwards; a null source copies nothing. */
  method MmCopy(src: array?<u8>, from: nat, dst: array<u8>, to: nat, size: nat)
    requires src != null ==> from + size <= src.Length
    requires src != null ==> to + size <= dst.Length
    modifies dst
    ensures src == null ==> dst[..] == old(dst[..])
    ensures forall k :: 0 <= k < dst.Length && !(to <= k < to + size) ==> dst[k] == old(dst[k])
    ensures src != null && src != dst ==> dst[to..to + size] == src[from..from + size]
    ensures src == dst ==>
              forall i :: 0 <= i < size ==> dst[to + i] == CopiedByte(old(dst[..]), from, to, i)
  {
    if src == null || size == 0 {
      return;
    }
    ghost var was := dst[..];
    var n := 0;
    while n < size
      invariant 0 <= n <= size
      invariant forall k :: 0 <= k < dst.Length && !(to <= k < to + n) ==> dst[k] == was[k]
      invariant src != dst ==> forall k :: to <= k < to + n ==> dst[k] == src[from + k - to]
      invariant src == dst ==> forall k :: to <= k < to + n ==> dst[k] == CopiedByte(was, from, to, k - to)
    {
      dst[to + n] := src[from + n];
      n := n + 1;
    }
  }

  /** An ascending copy is a move exactly when the destination does not start inside the source. */
  lemma AscendingCopyIsMove(size: nat, from: nat, to: nat)
    ensures (forall was: seq<u8>, i ::
               from + size <= |was| && to + size <= |was| && 0 <= i < size ==>
                 CopiedByte(was, from, to, i) == was[from + i])
            <==> !(from < to < from + size)
  {
    if from < to < from + size {
      var was: seq<u8> := seq(to + size, k => if k == to then 1 else 0);
      var d := to - from;
      assert CopiedByte(was, from, to, d) == CopiedByte(was, from, to, 0) == was[from];
      assert CopiedByte(was, from, to, d) != was[from + d];
    } else {
      forall was: seq<u8>, i | from + size <= |was| && to + size <= |was| && 0 <= i < size
        ensures CopiedByte(was, from, to, i) == was[from + i]
      {
      }
    }
  }

  // ---------------------------------------------------------------- C strings

  const NUL: Char := '\0'

  /** Memory from a `char *` on: a string that ends somewhere. */
  predicate IsCString(memory: seq<Char>) {
    NUL in memory
  }

  /** The string itself: what comes before the first NUL. */
  function Text(memory: seq<Char>): (text: seq<Char>)
    requires IsCString(memory)
    ensures |text| < |memory| && memory[..|text|] == text && memory[|text|] == NUL && NUL !in text
  {
    if memory[0] == NUL then [] else [memory[0]] + Text(memory[1..])
  }

  datatype CharPointer = NullPointer | At(memory: seq<Char>)

  /** A C `char` is signed on this machine. */
  function Signed(c: Char): int {
    if c as int < 0x80 then c as int else c as int - 0x100
  }

  /** The lexicographic order of strings as -1, 0 or 1. */
  function Lex(a: seq<Char>, b: seq<Char>): int {
    if a == [] && b == [] then 0
    else if a == [] then -1
    else if b == [] then 1
    else if Signed(a[0]) < Signed(b[0]) then -1
    else if Signed(a[0]) > Signed(b[0]) then 1
    else Lex(a[1..], b[1..])
  }

  /** The order that `StrCmp` answers: a string without characters counts as equal to any other. */
  function StrOrder(a: seq<Char>, b: seq<Char>): int {
    if a == [] || b == [] then 0 else Lex(a, b)
  }

  method StrCmp(str1: CharPointer, str2: CharPointer) returns (r: int)
    requires str1.At? ==> IsCString(str1.memory)
    requires str2.At? ==> IsCString(str2.memory)
    ensures r == if str1.NullPointer? || str2.NullPointer? then -2
                 else StrOrder(Text(str1.memory), Text(str2.memory))
  {
    if str1.NullPointer? {
      return -2;
    }
    if str2.NullPointer? {
      return -2;
    }
    var s, t := str1.memory, str2.memory;
    ghost var a, b := Text(s), Text(t);
    var index := 0;
    assert a[0..] == a && b[0..] == b;
    while s[index] != NUL && t[index] != NUL
      invariant 0 <= index <= |a| && index <= |b| && Lex(a, b) == Lex(a[index..], b[index..])
      invariant index > 0 ==> (index == |a| <==> index == |b|)
      decreases |s| - index
    {
      TextAt(s, index);
      TextAt(t, index);
      if Signed(s[index]) < Signed(t[index]) {
        return -1;
      }
      if Signed(s[index]) > Signed(t[index]) {
        return 1;
      }
      assert a[index..][1..] == a[index + 1..] && b[index..][1..] == b[index + 1..];
      if s[index + 1] == NUL && t[index + 1] != NUL {
        return -1;
      }
      if t[index + 1] == NUL && s[index + 1] != NUL {
        return 1;
      }
      index := index + 1;
    }
    TextAt(s, index);
    TextAt(t, index);
    return 0;
  }

  /** Within the string and at its end, NUL is at the end only. */
  lemma TextAt(memory: seq<Char>, i: nat)
    requires IsCString(memory) && i <= |Text(memory)|
    ensures memory[i] == NUL <==> i == |Text(memory)|
    ensures i < |Text(memory)| ==> memory[i] == Text(memory)[i] && (memory[i + 1] == NUL <==> i + 1 == |Text(memory)|)
  {
    var text := Text(memory);
    assert forall k :: 0 <= k < |text| ==> text[k] == memory[k] && text[k] in text;
  }

  lemma {:induction false} LexZeroIffEqual(a: seq<Char>, b: seq<Char>)
    ensures Lex(a, b) == 0 <==> a == b
    decreases |a|
  {
    if a != [] && b != [] {
      LexZeroIffEqual(a[1..], b[1..]);
      assert a == [a[0]] + a[1..] && b == [b[0]] + b[1..];
      if Signed(a[0]) == Signed(b[0]) {
        assert a[0] == b[0];
      }
    }
  }

  /** Zero does not mean equal: it also means that one of the strings is empty. */
  lemma StrOrderZeroIff(a: seq<Char>, b: seq<Char>)
    ensures StrOrder(a, b) == 0 <==> a == b || a == [] || b == []
  {
    LexZeroIffEqual(a, b);
  }

  lemma {:induction false} LexFirstDifference(a: seq<Char>, b: seq<Char>, i: nat)
    requires i <= |a| && i <= |b| && a[..i] == b[..i]
    ensures i < |a| && i < |b| && a[i] != b[i] ==>
              Lex(a, b) == if (a[i] as int + 128) % 256 < (b[i] as int + 128) % 256 then -1 else 1
    ensures |a| == i < |b| ==> Lex(a, b) == -1
    ensures |b| == i < |a| ==> Lex(a, b) == 1
    decreases i
  {
    if i > 0 {
      assert a[0] == a[..i][0] == b[..i][0] == b[0];
      assert a[1..][..i - 1] == a[..i][1..] == b[..i][1..] == b[1..][..i - 1];
      LexFirstDifference(a[1..], b[1..], i - 1);
    }
  }

  /**
   The first difference decides: codes from 128 on come before the others.  Without
   one, the shorter string comes first, unless it is empty.
   */
  lemma FirstDifference(a: seq<Char>, b: seq<Char>, i: nat)
    requires i <= |a| && i <= |b| && a[..i] == b[..i]
    ensures i < |a| && i < |b| && a[i] != b[i] ==>
              StrOrder(a, b) == if (a[i] as int + 128) % 256 < (b[i] as int + 128) % 256 then -1 else 1
    ensures 0 < |a| == i < |b| ==> StrOrder(a, b) == -1
    ensures 0 < |b| == i < |a| ==> StrOrder(a, b) == 1
  {
    LexFirstDifference(a, b, i);
  }

  /** Strings are totally ordered by `Lex`: antisymmetric and transitive. */
  lemma {:induction false} LexOrder(a: seq<Char>, b: seq<Char>, c: seq<Char>)
    ensures Lex(b, a) == -Lex(a, b)
    ensures Lex(a, b) <= 0 && Lex(b, c) <= 0 ==> Lex(a, c) <= 0
    decreases |a| + |b| + |c|
  {
    if a != [] && b != [] {
      LexOrder(a[1..], b[1..], if c == [] then [] else c[1..]);
    }
  }
}
