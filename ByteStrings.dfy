/**
 * Byte strings as the server sees them. A Go `string` is an immutable
 * sequence of bytes and `len` counts bytes, so every string of the server
 * (path, method, header values, response text) is a `Bytes` here. A byte is
 * a character whose code is below 256, so ASCII literals are byte strings.
 */
module ByteStrings {

  type Byte = c: char | c as int < 256 witness 'a'
  type Bytes = seq<Byte>

  datatype Option<+T> = None | Some(value: T)

  /** `t` occurs in `s` starting at index `i`. */
  ghost predicate OccursAt(s: Bytes, t: Bytes, i: int)
  {
    0 <= i && i + |t| <= |s| && s[i..i + |t|] == t
  }

  /** Go's `strings.HasPrefix`. */
  predicate HasPrefix(s: Bytes, p: Bytes)
  {
    |p| <= |s| && s[..|p|] == p
  }

  /** Go's `strings.Contains`: some occurrence of `t` inside `s`. */
  function Contains(s: Bytes, t: Bytes): (r: bool)
    ensures r <==> exists i :: OccursAt(s, t, i)
    decreases |s|
  {
    if |s| < |t| then
      assert forall i :: !OccursAt(s, t, i);
      false
    else if s[..|t|] == t then
      assert OccursAt(s, t, 0);
      true
    else
      var r := Contains(s[1..], t);
      ShiftOccurrence(s, t);
      r
  }

  /** An occurrence in `s` other than at index 0 is an occurrence in `s[1..]`. */
  lemma ShiftOccurrence(s: Bytes, t: Bytes)
    requires |s| >= |t| && s[..|t|] != t
    ensures (exists i :: OccursAt(s, t, i)) <==> (exists i :: OccursAt(s[1..], t, i))
  {
    if exists i :: OccursAt(s, t, i) {
      var i :| OccursAt(s, t, i);
      assert i != 0;
      assert s[1..][i - 1..i - 1 + |t|] == s[i..i + |t|];
      assert OccursAt(s[1..], t, i - 1);
    }
    if exists i :: OccursAt(s[1..], t, i) {
      var i :| OccursAt(s[1..], t, i);
      assert s[1..][i..i + |t|] == s[i + 1..i + 1 + |t|];
      assert OccursAt(s, t, i + 1);
    }
  }

  /** `i` is the first index at which `t` occurs in `s`. */
  ghost predicate FirstOccurrence(s: Bytes, t: Bytes, i: int)
  {
    OccursAt(s, t, i) && forall j :: 0 <= j < i ==> !OccursAt(s, t, j)
  }

  /** The first occurrence in `s[1..]` is one index later in `s`, if `t` is not at index 0. */
  lemma FirstOccurrenceShift(s: Bytes, t: Bytes)
    requires |s| >= |t| && s[..|t|] != t
    ensures forall i :: FirstOccurrence(s[1..], t, i) ==>
              FirstOccurrence(s, t, i + 1) && s[1..][i + |t|..] == s[i + 1 + |t|..]
  {
    forall i | FirstOccurrence(s[1..], t, i)
      ensures FirstOccurrence(s, t, i + 1) && s[1..][i + |t|..] == s[i + 1 + |t|..]
    {
      SliceShift(s, t, i + 1);
      forall j | 1 <= j < i + 1
        ensures !OccursAt(s, t, j)
      {
        assert !OccursAt(s[1..], t, j - 1);
        if j + |t| <= |s| {
          SliceShift(s, t, j);
        }
      }
    }
  }

  lemma SliceShift(s: Bytes, t: Bytes, j: int)
    requires 1 <= j && j + |t| <= |s|
    ensures s[j..j + |t|] == s[1..][j - 1..j - 1 + |t|]
  {
    var here, there := s[j..j + |t|], s[1..][j - 1..j - 1 + |t|];
    forall k | 0 <= k < |t|
      ensures here[k] == there[k]
    {
      assert s[1..][j - 1 + k] == s[j + k];
    }
  }

  /** A string without the first byte of `t` cannot contain `t`. */
  lemma FirstByteAbsent(s: Bytes, t: Bytes)
    requires |t| > 0 && t[0] !in s
    ensures !Contains(s, t)
  {
  }

  /**
   * Cuts `s` at the first occurrence of byte `c`: the part before it and the
   * part after it, or None when `c` does not occur.
   */
  function SplitAtFirst(s: Bytes, c: Byte): (r: Option<(Bytes, Bytes)>)
    ensures r.None? <==> c !in s
    ensures r.Some? ==> c !in r.value.0 && s == r.value.0 + [c] + r.value.1
    decreases |s|
  {
    if |s| == 0 then None
    else if s[0] == c then Some(([], s[1..]))
    else match SplitAtFirst(s[1..], c)
      case None => None
      case Some((a, b)) => Some(([s[0]] + a, b))
  }

  /** Cutting at the first `c` finds the piece before it whenever that piece is free of `c`. */
  lemma {:induction false} SplitAtFirstOf(a: Bytes, c: Byte, b: Bytes)
    requires c !in a
    ensures SplitAtFirst(a + [c] + b, c) == Some((a, b))
  {
    var s := a + [c] + b;
    if |a| == 0 {
      assert s[1..] == b;
    } else {
      assert s[1..] == a[1..] + [c] + b;
      SplitAtFirstOf(a[1..], c, b);
      assert [a[0]] + a[1..] == a;
    }
  }

  /** Number of occurrences of byte `c` in `s`. */
  function Count(s: Bytes, c: Byte): nat
  {
    if |s| == 0 then 0 else (if s[0] == c then 1 else 0) + Count(s[1..], c)
  }

  lemma {:induction false} CountAppend(a: Bytes, b: Bytes, c: Byte)
    ensures Count(a + b, c) == Count(a, c) + Count(b, c)
  {
    if |a| == 0 {
      assert a + b == b;
    } else {
      assert (a + b)[1..] == a[1..] + b;
      CountAppend(a[1..], b, c);
    }
  }

  lemma {:induction false} CountAbsent(a: Bytes, c: Byte)
    ensures Count(a, c) == 0 <==> c !in a
  {
    if |a| > 0 {
      CountAbsent(a[1..], c);
      assert a == [a[0]] + a[1..];
    }
  }

}
