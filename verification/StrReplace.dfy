/**
 * `xsan_str_replace` of src/utils/string_utils.c: count the matches, size the result, then fill it. Sizes are 64-bit
 * and the difference of the two lengths may wrap on the way.
 */
module StrReplace {
  import Arith
  import opened Buffers
  import opened MachineInts
  import opened Outcomes

  predicate At(s: string, pattern: string, i: nat) {
    i + |pattern| <= |s| && s[i..i + |pattern|] == pattern
  }

  /** The first place the pattern occurs. */
  function First(s: string, pattern: string): (r: Option<nat>)
    ensures r.None? ==> forall i: nat :: !At(s, pattern, i)
    ensures r.Some? ==> At(s, pattern, r.value) && forall i: nat :: i < r.value ==> !At(s, pattern, i)
  {
    if |s| < |pattern| then None
    else if At(s, pattern, 0) then Some(0)
    else
      var r := First(s[1..], pattern);
      assert forall i: nat :: i > 0 ==> At(s, pattern, i) == At(s[1..], pattern, i - 1) by {
        forall i: nat | i > 0
          ensures At(s, pattern, i) == At(s[1..], pattern, i - 1)
        {
          Shifted(s, pattern, i);
        }
      }
      match r case None => None case Some(i) => Some(i + 1)
  }

  lemma Shifted(s: string, pattern: string, i: nat)
    requires s != [] && i > 0
    ensures At(s, pattern, i) == At(s[1..], pattern, i - 1)
  {
    if i + |pattern| <= |s| {
      assert s[1..][i - 1..i - 1 + |pattern|] == s[i..i + |pattern|];
    }
  }

  /** What stands between the matches, taken leftmost first and without overlap. */
  function Pieces(s: string, pattern: string): (r: seq<string>)
    requires pattern != []
    ensures r != []
    decreases |s|
  {
    match First(s, pattern)
    case None => [s]
    case Some(i) => [s[..i]] + Pieces(s[i + |pattern|..], pattern)
  }

  function Join(pieces: seq<string>, glue: string): string
    requires pieces != []
  {
    if |pieces| == 1 then pieces[0] else pieces[0] + glue + Join(pieces[1..], glue)
  }

  /** The pieces put back together around the pattern are the string itself. */
  lemma {:induction false} JoinPieces(s: string, pattern: string)
    requires pattern != []
    ensures Join(Pieces(s, pattern), pattern) == s
    decreases |s|
  {
    hide First;
    match First(s, pattern)
    case None =>
    case Some(i) =>
      var rest := s[i + |pattern|..];
      JoinPieces(rest, pattern);
      assert Pieces(s, pattern)[1..] == Pieces(rest, pattern);
      assert s == s[..i] + s[i..i + |pattern|] + rest;
  }

  lemma AtPrefix(s: string, pattern: string, p: nat, i: nat)
    requires p <= |s|
    ensures At(s[..p], pattern, i) <==> i + |pattern| <= p && At(s, pattern, i)
  {
    if i + |pattern| <= p {
      assert s[..p][i..i + |pattern|] == s[i..i + |pattern|];
    }
  }

  /** No match starts inside a piece: the split is the leftmost one. */
  lemma {:induction false} PiecesHoldNoMatch(s: string, pattern: string, k: nat)
    requires pattern != [] && k < |Pieces(s, pattern)|
    ensures forall i: nat :: !At(Pieces(s, pattern)[k], pattern, i)
    decreases |s|
  {
    hide First;
    match First(s, pattern)
    case None =>
    case Some(p) =>
      var rest := s[p + |pattern|..];
      if k > 0 {
        PiecesHoldNoMatch(rest, pattern, k - 1);
        assert Pieces(s, pattern)[k] == Pieces(rest, pattern)[k - 1];
      } else {
        forall i: nat
          ensures !At(s[..p], pattern, i)
        {
          AtPrefix(s, pattern, p, i);
        }
      }
  }

  /** Each piece but the last is followed by the first match there is from its start on. */
  lemma {:induction false} PiecesAreLeftmost(s: string, pattern: string, k: nat)
    requires pattern != [] && k + 1 < |Pieces(s, pattern)|
    ensures var ps := Pieces(s, pattern);
      var from := Join(ps[k..], pattern);
      At(from, pattern, |ps[k]|) && forall i: nat :: i < |ps[k]| ==> !At(from, pattern, i)
    decreases |s|
  {
    hide First;
    var i := First(s, pattern).value;
    var rest := s[i + |pattern|..];
    var ps := Pieces(s, pattern);
    if k == 0 {
      JoinPieces(s, pattern);
      assert ps[0..] == ps;
    } else {
      PiecesAreLeftmost(rest, pattern, k - 1);
      assert ps[k..] == Pieces(rest, pattern)[k - 1..];
    }
  }

  /** The exact length of the result. */
  lemma {:induction false} JoinedLength(s: string, pattern: string, glue: string)
    requires pattern != []
    ensures |Join(Pieces(s, pattern), glue)| == |s| + (|Pieces(s, pattern)| - 1) * (|glue| - |pattern|)
    decreases |s|
  {
    hide First, Join;
    match First(s, pattern)
    case None => LastStep(s, pattern, glue);
    case Some(i) =>
      var rest := s[i + |pattern|..];
      JoinedLength(rest, pattern, glue);
      var n := |Pieces(rest, pattern)| - 1;
      Step(s, pattern, glue);
      Arith.Distribute(n, 1, |glue| - |pattern|);
  }

  /** The wrapped size arithmetic gives the exact length, even when the replacement is the shorter one. */
  lemma SizeIsExact(s: string, pattern: string, glue: string)
    requires pattern != []
    ensures var count := |Pieces(s, pattern)| - 1; var exact := |Join(Pieces(s, pattern), glue)|;
      Wrap64(|s| + Wrap64(count * Wrap64(|glue| - |pattern|))) == Wrap64(exact)
  {
    hide Wrap64;
    var count, diff := |Pieces(s, pattern)| - 1, |glue| - |pattern|;
    JoinedLength(s, pattern, glue);
    WrapTimes(count, diff);
    WrapAdds(count * diff, |s|);
  }

  lemma WrapTimes(n: nat, d: int)
    ensures Wrap64(n * Wrap64(d)) == Wrap64(n * d)
  {
    var q := d / TWO64;
    assert n * Wrap64(d) == n * d - (n * q) * TWO64 by {
      assert Wrap64(d) == d - q * TWO64;
    }
    WrapPeriodic(n * d, n * q);
  }

  /** `strstr` from a position on. */
  method Strstr(s: string, pattern: string, from: nat) returns (r: Option<nat>)
    requires from <= |s|
    ensures r == First(s[from..], pattern)
  {
    hide First;
    var i := 0;
    var rest := s[from..];
    while i + |pattern| <= |rest|
      invariant i <= |rest| + 1 && forall j: nat :: j < i ==> !At(rest, pattern, j)
    {
      if rest[i..i + |pattern|] == pattern {
        assert At(rest, pattern, i);
        FirstIs(rest, pattern, i);
        return Some(i);
      }
      i := i + 1;
    }
    return None;
  }

  lemma FirstIs(s: string, pattern: string, i: nat)
    requires At(s, pattern, i) && forall j: nat :: j < i ==> !At(s, pattern, j)
    ensures First(s, pattern) == Some(i)
  {
    hide First;
  }

  /** `xsan_str_replace`; `granted` says whether the C allocator finds room. */
  method Replace(s: string, pattern: string, glue: string, granted: bool) returns (r: Option<string>)
    requires pattern != [] ==> |Join(Pieces(s, pattern), glue)| + 1 < TWO64
    ensures !granted ==> r == None
    ensures granted ==> r == Some(if pattern == [] then s else Join(Pieces(s, pattern), glue))
  {
    hide First, Pieces, Join;
    if pattern == [] {
      return if granted then Some(s) else None;
    }
    var count := CountMatches(s, pattern);
    if count == 0 {
      OnePiece(s, pattern, glue);
      return if granted then Some(s) else None;
    }
    SizeIsExact(s, pattern, glue);
    var newLength: nat := Wrap64(|s| + Wrap64(count * Wrap64(|glue| - |pattern|)));
    if !granted {
      return None;
    }
    var result := Fill(s, pattern, glue, newLength + 1);
    return Some(result[..newLength]);
  }

  lemma OnePiece(s: string, pattern: string, glue: string)
    requires pattern != [] && |Pieces(s, pattern)| == 1
    ensures Join(Pieces(s, pattern), glue) == s
  {
    JoinPieces(s, pattern);
  }

  method CountMatches(s: string, pattern: string) returns (count: nat)
    requires pattern != []
    ensures count == |Pieces(s, pattern)| - 1
  {
    hide First;
    count := 0;
    var pos := 0;
    assert s[0..] == s;
    var next := Strstr(s, pattern, pos);
    while next.Some?
      invariant pos <= |s| && next == First(s[pos..], pattern)
      invariant count + |Pieces(s[pos..], pattern)| == |Pieces(s, pattern)|
      decreases |s| - pos
    {
      assert s[pos..][next.value + |pattern|..] == s[pos + next.value + |pattern|..];
      count := count + 1;
      pos := pos + next.value + |pattern|;
      next := Strstr(s, pattern, pos);
    }
  }

  /** The second pass: every write lands inside the buffer, and the last one is the terminator at its end. */
  method Fill(s: string, pattern: string, glue: string, size: nat) returns (result: array<char>)
    requires pattern != [] && size == |Join(Pieces(s, pattern), glue)| + 1
    ensures fresh(result) && result.Length == size
    ensures result[..size - 1] == Join(Pieces(s, pattern), glue) && result[size - 1] == '\0'
  {
    hide First, Join, Pieces;
    result := new char[size];
    var dest, src := 0, 0;
    ghost var whole := Join(Pieces(s, pattern), glue);
    assert s[0..] == s;
    var next := Strstr(s, pattern, src);
    while next.Some?
      invariant 0 <= src <= |s| && 0 <= dest < size && next == First(s[src..], pattern)
      invariant result[..dest] + Join(Pieces(s[src..], pattern), glue) == whole
      decreases |s| - src
    {
      Step(s[src..], pattern, glue);
      assert s[src..][next.value + |pattern|..] == s[src + next.value + |pattern|..];
      dest := CopyPiece(result, dest, s[src..][..next.value], glue, Join(Pieces(s[src + next.value + |pattern|..], pattern), glue));
      src := src + next.value + |pattern|;
      next := Strstr(s, pattern, src);
    }
    LastStep(s[src..], pattern, glue);
    CopyInto(result, dest, s[src..] + ['\0']);
    assert result[..size] == whole + ['\0'];
  }

  /** One round: the text before a match, then the replacement. `rest` is what is still to come. */
  method CopyPiece(buffer: array<char>, at: nat, prefix: string, glue: string, ghost rest: string) returns (end: nat)
    requires at + |prefix| + |glue| + |rest| < buffer.Length
    modifies buffer
    ensures end == at + |prefix| + |glue|
    ensures buffer[..end] + rest == old(buffer[..at]) + (prefix + glue + rest)
  {
    CopyInto(buffer, at, prefix);
    CopyInto(buffer, at + |prefix|, glue);
    end := at + |prefix| + |glue|;
  }

  lemma Step(s: string, pattern: string, glue: string)
    requires pattern != [] && First(s, pattern).Some?
    ensures var i := First(s, pattern).value;
      Join(Pieces(s, pattern), glue) == s[..i] + glue + Join(Pieces(s[i + |pattern|..], pattern), glue)
  {
    hide First;
    var i := First(s, pattern).value;
    assert Pieces(s, pattern)[1..] == Pieces(s[i + |pattern|..], pattern);
  }

  lemma LastStep(s: string, pattern: string, glue: string)
    requires pattern != [] && First(s, pattern).None?
    ensures Join(Pieces(s, pattern), glue) == s
  {
  }
}
