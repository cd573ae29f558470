/** Lists of strings in one double-zero-terminated buffer (BootEncryption.cpp, lines 4624-4703). */
module MultiString {
  import opened Bytes

  /** A string without its terminator. */
  predicate IsString(s: seq<byte>) {
    s != [] && forall k :: 0 <= k < |s| ==> s[k] != 0
  }

  predicate IsList(l: seq<seq<byte>>) {
    forall i :: 0 <= i < |l| ==> IsString(l[i])
  }

  /** The strings, each terminated. */
  function Body(l: seq<seq<byte>>): seq<byte> {
    if l == [] then [] else l[0] + [0] + Body(l[1..])
  }

  /** The buffer contents as they should be. */
  function Encoded(l: seq<seq<byte>>): seq<byte> {
    Body(l) + [0]
  }

  function Fold(c: byte): byte {
    if 0x41 <= c <= 0x5A then c + 0x20 else c
  }

  /** _stricmp in the C locale. */
  predicate SameUpToCase(s: seq<byte>, t: seq<byte>) {
    |s| == |t| && forall k :: 0 <= k < |s| ==> Fold(s[k]) == Fold(t[k])
  }

  predicate ListsAgree(l: seq<seq<byte>>, m: seq<seq<byte>>) {
    |l| == |m| && forall i :: 0 <= i < |l| ==> SameUpToCase(l[i], m[i])
  }

  /** The list without its first string that equals `s` up to case. */
  function Removed(l: seq<seq<byte>>, s: seq<byte>): seq<seq<byte>> {
    if l == [] then [] else if SameUpToCase(l[0], s) then l[1..] else [l[0]] + Removed(l[1..], s)
  }

  predicate Contains(l: seq<seq<byte>>, s: seq<byte>) {
    exists i :: 0 <= i < |l| && SameUpToCase(l[i], s)
  }

  /** The first zero from a position on. */
  function StrEnd(b: seq<byte>, pos: nat): (e: nat)
    requires pos <= |b|
    ensures pos <= e <= |b| && (e < |b| ==> b[e] == 0) && forall k :: pos <= k < e ==> b[k] != 0
    decreases |b| - pos
  {
    if pos == |b| || b[pos] == 0 then pos else StrEnd(b, pos + 1)
  }

  lemma {:induction false} BodyConcat(l: seq<seq<byte>>, m: seq<seq<byte>>)
    ensures Body(l + m) == Body(l) + Body(m)
    decreases |l|
  {
    if l == [] {
      assert l + m == m;
    } else {
      assert (l + m)[0] == l[0] && (l + m)[1..] == l[1..] + m;
      BodyConcat(l[1..], m);
    }
  }

  /** At a position where the rest of the list begins stands its first string. */
  lemma FirstString(b: seq<byte>, pos: nat, l: seq<seq<byte>>, rest: seq<byte>)
    requires pos <= |b| && b[pos..] == Body(l) + rest && IsList(l) && l != []
    ensures StrEnd(b, pos) == pos + |l[0]| < |b| && b[pos..pos + |l[0]|] == l[0] && b[pos] != 0
    ensures b[pos + |l[0]| + 1..] == Body(l[1..]) + rest
  {
    hide *;
    BodyFirst(l, rest);
    StringFirst(b[pos..], l[0], Body(l[1..]) + rest);
    SuffixAt(b, pos, |l[0]|);
  }

  lemma BodyFirst(l: seq<seq<byte>>, rest: seq<byte>)
    requires IsList(l) && l != []
    ensures IsString(l[0]) && |l[0]| > 0 && Body(l) + rest == l[0] + ([0] + (Body(l[1..]) + rest))
  {
    var tail := Body(l[1..]);
    assert Body(l) == l[0] + [0] + tail;
    hide Body;
    ConcatAssoc(l[0] + [0], tail, rest);
    ConcatAssoc(l[0], [0], tail + rest);
  }

  lemma StringFirst(t: seq<byte>, s: seq<byte>, tail: seq<byte>)
    requires t == s + ([0] + tail)
    ensures |t| > |s| && t[..|s|] == s && t[|s|] == 0 && t[|s| + 1..] == tail
  {
  }

  lemma SuffixAt(b: seq<byte>, pos: nat, n: nat)
    requires pos + n < |b| && b[pos..][n] == 0 && n > 0 && IsString(b[pos..][..n])
    ensures b[pos..pos + n] == b[pos..][..n] && b[pos + n + 1..] == b[pos..][n + 1..] && b[pos] != 0
    ensures StrEnd(b, pos) == pos + n
  {
    forall k | pos <= k < pos + n ensures b[k] != 0 {
      assert b[pos..][..n][k - pos] == b[k];
    }
  }

  /** Buffers that hold a list: the strings terminated, and then at least one zero. */
  predicate Holds(b: seq<byte>, l: seq<seq<byte>>, zeros: nat) {
    IsList(l) && zeros >= 1 && b == Body(l) + Zeros(zeros)
  }

  /** Where a walk over the list stands: at string i, or at the end. */
  predicate AtString(b: seq<byte>, pos: nat, l: seq<seq<byte>>, i: nat, zeros: nat) {
    && IsList(l) && i <= |l| && zeros >= 1 && pos < |b|
    && b[pos..] == Body(l[i..]) + Zeros(zeros) && b[..pos] == Body(l[..i])
  }

  lemma WalkStarts(b: seq<byte>, l: seq<seq<byte>>, zeros: nat)
    requires Holds(b, l, zeros)
    ensures AtString(b, 0, l, 0, zeros)
  {
    assert b[0..] == b && l[0..] == l;
  }

  lemma WalkStep(b: seq<byte>, pos: nat, l: seq<seq<byte>>, i: nat, zeros: nat)
    requires AtString(b, pos, l, i, zeros)
    ensures i <= |l| && pos < |b| && (b[pos] == 0 <==> i == |l|)
    ensures i == |l| ==> StrEnd(b, pos) == pos
    ensures i < |l| ==> StrEnd(b, pos) == pos + |l[i]| < |b| && b[pos..pos + |l[i]|] == l[i] && l[i] != []
    ensures i < |l| ==> AtString(b, pos + |l[i]| + 1, l, i + 1, zeros)
  {
    if i == |l| {
      assert b[pos] == b[pos..][0];
    } else {
      assert l[i..][0] == l[i] && l[i..][1..] == l[i + 1..];
      FirstString(b, pos, l[i..], Zeros(zeros));
      PrefixGrows(b, pos, l, i);
    }
  }

  lemma PrefixGrows(b: seq<byte>, pos: nat, l: seq<seq<byte>>, i: nat)
    requires i < |l| && pos + |l[i]| < |b| && b[..pos] == Body(l[..i])
    requires b[pos..pos + |l[i]|] == l[i] && b[pos + |l[i]|] == 0
    ensures b[..pos + |l[i]| + 1] == Body(l[..i + 1])
  {
    hide Body;
    var n := |l[i]|;
    assert b[..pos + n + 1] == b[..pos] + (b[pos..pos + n] + [0]);
    assert l[..i + 1] == l[..i] + [l[i]];
    BodyConcat(l[..i], [l[i]]);
    OneString(l[i]);
  }

  lemma OneString(s: seq<byte>)
    ensures Body([s]) == s + [0]
  {
    assert [s][1..] == [];
    assert Body([s][1..]) == [];
  }

  // ---- comparing ----

  method CompareMultiString(str1: array?<byte>, str2: array?<byte>, ghost l: seq<seq<byte>>, ghost m: seq<seq<byte>>,
                            ghost y: nat, ghost z: nat)
    returns (same: bool)
    requires str1 != null ==> Holds(str1[..], l, y)
    requires str2 != null ==> Holds(str2[..], m, z)
    ensures same <==> str1 != null && str2 != null && ListsAgree(l, m)
  {
    hide AtString, Holds, StrEnd, SameUpToCase;
    if str1 == null || str2 == null {
      return false;
    }
    var s1, s2 := str1[..], str2[..];
    var p1: nat, p2: nat := 0, 0;
    ghost var i := 0;
    WalkStarts(s1, l, y);
    WalkStarts(s2, m, z);
    while true
      invariant AtString(s1, p1, l, i, y) && AtString(s2, p2, m, i, z)
      invariant forall j :: 0 <= j < i && j < |l| && j < |m| ==> SameUpToCase(l[j], m[j])
      decreases |l| - i
    {
      WalkStep(s1, p1, l, i, y);
      WalkStep(s2, p2, m, i, z);
      var l1 := StrEnd(s1, p1) - p1;
      var l2 := StrEnd(s2, p2) - p2;
      if l1 == l2 {
        if l1 == 0 {
          return true;
        }
        var equal := Stricmp(s1[p1..p1 + l1], s2[p2..p2 + l2]);
        if !equal {
          return false;
        }
        p1 := p1 + l1 + 1;
        p2 := p2 + l2 + 1;
        i := i + 1;
      } else {
        LengthsDiffer(l, m, i);
        return false;
      }
    }
  }

  lemma LengthsDiffer(l: seq<seq<byte>>, m: seq<seq<byte>>, i: nat)
    requires i <= |l| && i <= |m|
    requires (if i < |l| then |l[i]| else 0) != (if i < |m| then |m[i]| else 0)
    ensures !ListsAgree(l, m)
  {
  }

  method Stricmp(s: seq<byte>, t: seq<byte>) returns (equal: bool)
    ensures equal <==> SameUpToCase(s, t)
  {
    if |s| != |t| {
      return false;
    }
    for k := 0 to |s|
      invariant forall j :: 0 <= j < k ==> Fold(s[j]) == Fold(t[j])
    {
      if Fold(s[k]) != Fold(t[k]) {
        return false;
      }
    }
    equal := true;
  }

  // ---- removing ----

  /** memmove of n bytes down by `offset`. */
  method MoveDown(mszDest: array<byte>, p: nat, offset: nat, n: nat)
    requires p + offset + n <= mszDest.Length
    modifies mszDest
    ensures mszDest[..p + n] == old(mszDest[..p]) + old(mszDest[p + offset..p + offset + n])
  {
    forall k | 0 <= k < n {
      mszDest[p + k] := mszDest[p + offset + k];
    }
  }

  /** The walk to the first match. */
  method FindString(b: seq<byte>, input: seq<byte>, ghost l: seq<seq<byte>>, ghost zeros: nat)
    returns (found: bool, p: nat, ghost i: nat)
    requires Holds(b, l, zeros)
    ensures found ==> AtString(b, p, l, i, zeros) && i < |l| && SameUpToCase(l[i], input) && p + |input| + 1 <= |b|
    ensures forall j :: 0 <= j < i && j < |l| ==> !SameUpToCase(l[j], input)
    ensures !found ==> i == |l|
  {
    hide AtString, StrEnd, SameUpToCase, Holds;
    found, p, i := false, 0, 0;
    WalkStarts(b, l, zeros);
    WalkStep(b, p, l, i, zeros);
    while b[p] != 0
      invariant p < |b| && AtString(b, p, l, i, zeros)
      invariant forall j :: 0 <= j < i && j < |l| ==> !SameUpToCase(l[j], input)
      decreases |l| - i
    {
      WalkStep(b, p, l, i, zeros);
      var len := StrEnd(b, p) - p;
      var equal := Stricmp(b[p..p + len], input);
      if equal {
        SameLength(l[i], input);
        return true, p, i;
      }
      p := p + (len + 1);
      i := i + 1;
      WalkStep(b, p, l, i, zeros);
    }
    WalkStep(b, p, l, i, zeros);
  }

  method RemoveFromMultiString(mszDest: array?<byte>, destSize: nat, input: seq<byte>, ghost l: seq<seq<byte>>,
                               ghost zeros: nat)
    returns (found: bool, size: nat)
    requires mszDest != null ==> destSize <= mszDest.Length && Holds(mszDest[..destSize], l, zeros)
    modifies if mszDest == null then {} else {mszDest}
    ensures found <==> mszDest != null && Contains(l, input)
    ensures mszDest != null ==> size <= destSize && Holds(mszDest[..size], Removed(l, input), zeros)
    ensures !found ==> size == destSize && (mszDest != null ==> mszDest[..] == old(mszDest[..]))
  {
    hide AtString, SameUpToCase, Removed, Holds, Contains;
    size, found := destSize, false;
    if mszDest == null {
      return;
    }
    ghost var b := mszDest[..destSize];
    var p;
    ghost var i;
    found, p, i := FindString(mszDest[..destSize], input, l, zeros);
    if found {
      SameLength(l[i], input);
      var offset := |input| + 1;
      var remainingSize := destSize - p;
      MoveDown(mszDest, p, offset, remainingSize - offset);
      size := size - offset;
      assert mszDest[..size] == b[..p] + b[p + offset..];
      RemovedHolds(b, p, l, i, zeros, input);
    } else {
      NotContained(l, input);
    }
  }

  lemma SameLength(s: seq<byte>, t: seq<byte>)
    requires SameUpToCase(s, t)
    ensures |s| == |t|
  {
  }

  lemma RemovedHolds(b: seq<byte>, p: nat, l: seq<seq<byte>>, i: nat, zeros: nat, input: seq<byte>)
    requires AtString(b, p, l, i, zeros) && i < |l| && SameUpToCase(l[i], input)
    requires forall j :: 0 <= j < i && j < |l| ==> !SameUpToCase(l[j], input)
    ensures Contains(l, input) && p + |l[i]| + 1 <= |b| && Holds(b[..p] + b[p + |l[i]| + 1..], Removed(l, input), zeros)
  {
    hide StrEnd, SameUpToCase, Removed, Contains;
    WalkStep(b, p, l, i, zeros);
    RemovedAt(l, input, i);
    BodyConcat(l[..i], l[i + 1..]);
  }

  /** Removing takes out string i when it is the first that matches. */
  lemma {:induction false} RemovedAt(l: seq<seq<byte>>, s: seq<byte>, i: nat)
    requires i < |l| && SameUpToCase(l[i], s) && forall j :: 0 <= j < i ==> !SameUpToCase(l[j], s)
    ensures Removed(l, s) == l[..i] + l[i + 1..]
    ensures Contains(l, s) && (IsList(l) ==> IsList(Removed(l, s)))
    decreases i
  {
    if i > 0 {
      assert !SameUpToCase(l[0], s);
      RemovedAt(l[1..], s, i - 1);
      assert l[1..][..i - 1] == l[1..i] && [l[0]] + l[1..i] == l[..i];
      assert l[1..][i..] == l[i + 1..];
    }
  }

  lemma {:induction false} NotContained(l: seq<seq<byte>>, s: seq<byte>)
    requires forall j :: 0 <= j < |l| ==> !SameUpToCase(l[j], s)
    ensures Removed(l, s) == l && !Contains(l, s)
  {
    if l != [] {
      NotContained(l[1..], s);
    }
  }

  // ---- appending ----

  /** The contents without the zeros at the end. */
  function Joined(l: seq<seq<byte>>): seq<byte> {
    if l == [] then [] else Body(l)[..|Body(l)| - 1]
  }

  /** Where the last string ends. */
  function EndOfLast(b: seq<byte>, index: nat): (e: nat)
    requires index <= |b|
    ensures e <= index && (e > 0 ==> b[e - 1] != 0) && forall k :: e <= k < index ==> b[k] == 0
  {
    if index > 0 && b[index - 1] == 0 then EndOfLast(b, index - 1) else index
  }

  lemma {:induction false} BodyEnds(l: seq<seq<byte>>)
    requires IsList(l) && l != []
    ensures |Body(l)| >= 2 && Body(l)[|Body(l)| - 1] == 0 && Body(l)[|Body(l)| - 2] != 0
  {
    assert IsString(l[0]);
    if |l| == 1 {
      OneString(l[0]);
      assert l == [l[0]];
    } else {
      BodyEnds(l[1..]);
      assert Body(l) == (l[0] + [0]) + Body(l[1..]);
    }
  }

  /** The last string ends where the joined strings do. */
  lemma EndFound(b: seq<byte>, l: seq<seq<byte>>, zeros: nat)
    requires IsList(l) && b == Joined(l) + Zeros(zeros)
    ensures EndOfLast(b, |b|) == |Joined(l)|
  {
    var e := EndOfLast(b, |b|);
    if l == [] {
      assert b == Zeros(zeros);
      assert forall k :: 0 <= k < |b| ==> b[k] == 0;
    } else {
      BodyEnds(l);
      var n := |Joined(l)|;
      assert b[n - 1] == Joined(l)[n - 1] != 0;
      assert forall k :: n <= k < |b| ==> b[k] == Zeros(zeros)[k - n];
    }
  }

  /** What is appended fits, as the code counts: one place is never used. */
  predicate RoomFor(maxSize: nat, l: seq<seq<byte>>, input: seq<byte>) {
    maxSize > |Joined(l)| + 1 + (|input| + 1) + 1
  }

  lemma RoomMeans(maxSize: nat, l: seq<seq<byte>>, input: seq<byte>)
    ensures RoomFor(maxSize, l, input) <==> maxSize > |Joined(l)| + |input| + 3
  {
  }

  /** strlen(input) + 1 bytes and a second zero written from `at` on. */
  method PutString(mszDest: array<byte>, at: nat, input: seq<byte>)
    requires at + |input| + 2 <= mszDest.Length
    modifies mszDest
    ensures mszDest[..at + |input| + 2] == old(mszDest[..at]) + input + [0, 0]
  {
    forall k | 0 <= k < |input| {
      mszDest[at + k] := input[k];
    }
    mszDest[at + |input|] := 0;
    mszDest[at + |input| + 1] := 0;
  }

  /** The string at `index` terminated, and the next put behind it. */
  method PutBehind(mszDest: array<byte>, index: nat, input: seq<byte>)
    requires index + 1 + |input| + 2 <= mszDest.Length
    modifies mszDest
    ensures mszDest[..index + 1 + |input| + 2] == old(mszDest[..index]) + [0] + input + [0, 0]
  {
    mszDest[index] := 0;
    assert mszDest[..index + 1] == old(mszDest[..index]) + [0];
    PutString(mszDest, index + 1, input);
  }

  /** AppendToMultiString, for a buffer whose strings are followed by any number of zeros. */
  method AppendToMultiString(mszDest: array<byte>, maxSize: nat, destSize: nat, input: seq<byte>,
                             ghost l: seq<seq<byte>>, ghost zeros: nat)
    returns (size: nat)
    requires destSize <= maxSize <= mszDest.Length && IsList(l) && (input == [] || IsString(input))
    requires mszDest[..destSize] == Joined(l) + Zeros(zeros)
    modifies mszDest
    ensures RoomFor(maxSize, l, input) ==> size <= maxSize
    ensures RoomFor(maxSize, l, input) && input != [] ==> mszDest[..size] == Encoded(l + [input])
    ensures RoomFor(maxSize, l, input) && input == [] ==> mszDest[..size] == Joined(l) + Zeros(if l == [] then 2 else 3)
    ensures !RoomFor(maxSize, l, input) ==> size == destSize && mszDest[..] == old(mszDest[..])
  {
    hide *;
    RoomMeans(maxSize, l, input);
    ghost var b := mszDest[..destSize];
    var inputSize := |input| + 1;
    var index := EndOfLast(mszDest[..destSize], destSize);
    EndFound(b, l, zeros);
    size := destSize;
    if maxSize > index + 1 + inputSize + 1 {
      if index == 0 {
        PutString(mszDest, 0, input);
        size := inputSize + 1;
        assert mszDest[..size] == input + [0, 0];
        AppendedFirst(l, input);
      } else {
        assert mszDest[..index] == b[..index] == Joined(l);
        PutBehind(mszDest, index, input);
        size := index + 1 + inputSize + 1;
        AppendedBehind(l, input);
      }
    }
  }

  lemma AppendedFirst(l: seq<seq<byte>>, input: seq<byte>)
    requires IsList(l) && Joined(l) == []
    ensures input != [] ==> input + [0, 0] == Encoded(l + [input])
    ensures input == [] ==> l == [] && input + [0, 0] == Joined(l) + Zeros(2)
  {
    JoinedEmpty(l);
    AppendedBody(l, input);
  }

  lemma AppendedBehind(l: seq<seq<byte>>, input: seq<byte>)
    requires IsList(l) && Joined(l) != []
    ensures input != [] ==> Joined(l) + [0] + input + [0, 0] == Encoded(l + [input])
    ensures input == [] ==> l != [] && Joined(l) + [0] + input + [0, 0] == Joined(l) + Zeros(3)
  {
    JoinedNotEmpty(l);
    AppendedBody(l, input);
    if input == [] {
      EmptyAppended(l, input);
    }
  }

  /** Appending the empty string adds zeros only. */
  lemma EmptyAppended(l: seq<seq<byte>>, input: seq<byte>)
    requires input == []
    ensures (Joined(l) + [0]) + input + [0, 0] == Joined(l) + Zeros(3)
  {
    hide Joined;
    assert [0] + [0, 0] == Zeros(3);
    assert (Joined(l) + [0]) + input + [0, 0] == Joined(l) + ([0] + [0, 0]);
  }

  lemma JoinedEmpty(l: seq<seq<byte>>)
    requires IsList(l) && Joined(l) == []
    ensures l == []
  {
    if l != [] {
      BodyEnds(l);
    }
  }

  lemma JoinedNotEmpty(l: seq<seq<byte>>)
    requires IsList(l) && Joined(l) != []
    ensures l != [] && Joined(l) + [0] == Body(l)
  {
    BodyEnds(l);
    assert Body(l) == Body(l)[..|Body(l)| - 1] + [Body(l)[|Body(l)| - 1]];
  }

  lemma AppendedBody(l: seq<seq<byte>>, input: seq<byte>)
    ensures Encoded(l + [input]) == Body(l) + input + [0, 0]
    ensures l == [] ==> Encoded(l + [input]) == input + [0, 0]
  {
    BodyConcat(l, [input]);
    OneString(input);
    assert input + [0] + [0] == input + [0, 0];
  }

  /** Removing a string that was appended and was not there before gives the list back, exactly as it should be
      stored; the size too, if that is how it was stored. */
  method AppendThenRemove(mszDest: array<byte>, maxSize: nat, destSize: nat, input: seq<byte>, ghost l: seq<seq<byte>>)
    returns (size: nat)
    requires destSize <= maxSize <= mszDest.Length && IsList(l) && IsString(input) && !Contains(l, input)
    requires mszDest[..destSize] == Encoded(l) && RoomFor(maxSize, l, input)
    modifies mszDest
    ensures size == destSize && mszDest[..size] == Encoded(l)
  {
    hide Joined, Body, Removed, Contains;
    EncodedIsJoined(l);
    var n := AppendToMultiString(mszDest, maxSize, destSize, input, l, if l == [] then 1 else 2);
    HoldsAppended(l, input);
    var found;
    found, size := RemoveFromMultiString(mszDest, n, input, l + [input], 1);
    RemovedAppended(l, input);
    assert Zeros(1) == [0];
  }

  lemma EncodedIsJoined(l: seq<seq<byte>>)
    requires IsList(l)
    ensures Encoded(l) == Joined(l) + Zeros(if l == [] then 1 else 2)
  {
    if l != [] {
      BodyEnds(l);
      assert Body(l) == Body(l)[..|Body(l)| - 1] + [Body(l)[|Body(l)| - 1]];
      assert [0] + [0] == Zeros(2);
    }
  }

  lemma HoldsAppended(l: seq<seq<byte>>, input: seq<byte>)
    requires IsList(l) && IsString(input)
    ensures Holds(Encoded(l + [input]), l + [input], 1)
  {
    assert Zeros(1) == [0];
  }

  lemma {:induction false} RemovedAppended(l: seq<seq<byte>>, input: seq<byte>)
    requires !Contains(l, input)
    ensures Removed(l + [input], input) == l
  {
    var m := l + [input];
    forall j | 0 <= j < |l| ensures !SameUpToCase(m[j], input) {
      assert m[j] == l[j];
    }
    RemovedAt(m, input, |l|);
  }
}
