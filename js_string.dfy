/**
 * The JavaScript string and array built-ins the client relies on, for
 * strings as sequences of characters: `String.prototype.indexOf`,
 * `String.prototype.substring`, `String.prototype.split` with a string
 * separator and `Array.prototype.join`.
 */
module JsString {

  /** `sep` occurs in `s` starting at position `i`. */
  predicate OccursAt(s: string, sep: string, i: int)
  {
    0 <= i && i + |sep| <= |s| && s[i..i + |sep|] == sep
  }

  function Last<T>(s: seq<T>): T
    requires |s| > 0
  {
    s[|s| - 1]
  }

  /** What `Array.prototype.pop` leaves behind. */
  function DropLast<T>(s: seq<T>): seq<T>
    requires |s| > 0
  {
    s[..|s| - 1]
  }

  /** `s.indexOf(sep)`: the first position of `sep` in `s`, or -1 (see IndexOfFirst). */
  function IndexOf(s: string, sep: string): (r: int)
    ensures r == -1 || OccursAt(s, sep, r)
    decreases |s|
  {
    if |s| < |sep| then -1
    else if s[..|sep|] == sep then 0
    else
      var r := IndexOf(s[1..], sep);
      if r < 0 then -1
      else
        assert s[r + 1..r + 1 + |sep|] == s[1..][r..r + |sep|];
        r + 1
  }

  predicate Contains(s: string, sep: string)
  {
    IndexOf(s, sep) >= 0
  }

  /** Every occurrence of `sep` is at or after the position `indexOf` reports. */
  lemma {:induction false} IndexOfFirst(s: string, sep: string, j: int)
    requires OccursAt(s, sep, j)
    ensures 0 <= IndexOf(s, sep) <= j
    decreases |s|
  {
    if s[..|sep|] != sep {
      assert j != 0;
      var t := s[1..];
      assert t[j - 1..j - 1 + |sep|] == s[j..j + |sep|];
      IndexOfFirst(t, sep, j - 1);
      assert IndexOf(s, sep) == IndexOf(t, sep) + 1;
    }
  }

  /** IndexOfFirst, for a position that may or may not hold an occurrence. */
  lemma IndexOfFirstIf(s: string, sep: string, j: int)
    ensures OccursAt(s, sep, j) ==> 0 <= IndexOf(s, sep) <= j
  {
    if OccursAt(s, sep, j) {
      IndexOfFirst(s, sep, j);
    }
  }

  lemma OccursInPrefix(s: string, k: nat, sep: string, j: int)
    requires k <= |s| && OccursAt(s[..k], sep, j)
    ensures OccursAt(s, sep, j)
  {
    assert s[..k][j..j + |sep|] == s[j..j + |sep|];
  }

  lemma OccursInExtension(s: string, t: string, sep: string, j: int)
    requires 0 <= j && j + |sep| <= |s|
    ensures OccursAt(s + t, sep, j) <==> OccursAt(s, sep, j)
  {
    assert (s + t)[j..j + |sep|] == s[j..j + |sep|];
  }

  lemma OccursAfterPrefix(u: string, x: string, sep: string, j: int)
    requires |u| <= j
    ensures OccursAt(u + x, sep, j) <==> OccursAt(x, sep, j - |u|)
  {
    if j + |sep| <= |u + x| {
      assert (u + x)[j..j + |sep|] == x[j - |u|..j - |u| + |sep|];
    }
  }

  /** Clamps a `substring` argument into `[0, n]`. */
  function Clamp(x: int, n: nat): (r: nat)
    ensures r <= n
    ensures 0 <= x <= n ==> r == x
  {
    if x < 0 then 0 else if x > n then n else x
  }

  /** `s.substring(start, end)`: both bounds clamped, swapped when reversed. */
  function Substring(s: string, start: int, end: int): (r: string)
    ensures 0 <= start <= end <= |s| ==> r == s[start..end]
    ensures end < 0 ==> r == s[..Clamp(start, |s|)]
  {
    var a := Clamp(start, |s|);
    var b := Clamp(end, |s|);
    if a <= b then s[a..b] else s[b..a]
  }

  /**
   * `parts.join(sep)`; `Array.prototype.join()` without an argument
   * uses `","`.
   */
  function Join(parts: seq<string>, sep: string): string
  {
    if |parts| == 0 then ""
    else if |parts| == 1 then parts[0]
    else parts[0] + sep + Join(parts[1..], sep)
  }

  /**
   * `s.split(sep)` for a non-empty string separator: the pieces between the
   * leftmost non-overlapping occurrences of `sep`; never an empty list.
   */
  function Split(s: string, sep: string): (r: seq<string>)
    requires |sep| > 0
    ensures |r| >= 1
    decreases |s|
  {
    var i := IndexOf(s, sep);
    if i < 0 then [s] else [s[..i]] + Split(s[i + |sep|..], sep)
  }

  /** One step of a split that finds a separator. */
  lemma SplitStep(s: string, sep: string)
    requires |sep| > 0 && Contains(s, sep)
    ensures var i := IndexOf(s, sep);
      Split(s, sep) == [s[..i]] + Split(s[i + |sep|..], sep)
  {
  }

  /** A split yields a single piece exactly when the separator does not occur, and that piece is the string. */
  lemma SplitSingle(s: string, sep: string)
    requires |sep| > 0
    ensures |Split(s, sep)| == 1 <==> !Contains(s, sep)
    ensures !Contains(s, sep) ==> Split(s, sep) == [s]
  {
  }

  /** The text before the first separator contains no separator. */
  lemma HeadFree(s: string, sep: string)
    requires |sep| > 0 && Contains(s, sep)
    ensures !Contains(s[..IndexOf(s, sep)], sep)
  {
    var i := IndexOf(s, sep);
    var head := s[..i];
    var k := IndexOf(head, sep);
    if k >= 0 {
      OccursInPrefix(s, i, sep, k);
      IndexOfFirst(s, sep, k);
      assert false;
    }
  }

  /** No piece of a split contains the separator. */
  lemma {:induction false} SplitPiecesFree(s: string, sep: string)
    requires |sep| > 0
    ensures forall k :: 0 <= k < |Split(s, sep)| ==> !Contains(Split(s, sep)[k], sep)
    decreases |s|
  {
    if Contains(s, sep) {
      HeadFree(s, sep);
      SplitStep(s, sep);
      SplitPiecesFree(s[IndexOf(s, sep) + |sep|..], sep);
    }
  }

  /** The first piece of a split is the text before the first separator. */
  lemma SplitHead(s: string, sep: string)
    requires |sep| > 0
    ensures Split(s, sep)[0] == if Contains(s, sep) then s[..IndexOf(s, sep)] else s
  {
  }

  /** Two parts joined: `[a, b].join(sep)`. */
  lemma JoinPair(a: string, b: string, sep: string)
    ensures Join([a, b], sep) == a + sep + b
  {
    assert [a, b][1..] == [b];
  }

  lemma JoinCons(head: string, tail: seq<string>, sep: string)
    requires |tail| > 0
    ensures Join([head] + tail, sep) == head + sep + Join(tail, sep)
  {
    assert ([head] + tail)[1..] == tail;
  }

  lemma SplitAround(s: string, sep: string, i: int)
    requires OccursAt(s, sep, i)
    ensures s[..i] + sep + s[i + |sep|..] == s
  {
  }

  /** Joining the pieces of a split with the same separator gives back the string. */
  lemma {:induction false} JoinSplit(s: string, sep: string)
    requires |sep| > 0
    ensures Join(Split(s, sep), sep) == s
    decreases |s|
  {
    var i := IndexOf(s, sep);
    if i >= 0 {
      var rest := s[i + |sep|..];
      var tail := Split(rest, sep);
      calc {
        Join(Split(s, sep), sep);
        { SplitStep(s, sep); }
        Join([s[..i]] + tail, sep);
        { JoinCons(s[..i], tail, sep); }
        s[..i] + sep + Join(tail, sep);
        { JoinSplit(rest, sep); }
        s[..i] + sep + rest;
        { SplitAround(s, sep, i); }
        s;
      }
    }
  }

  /** A one-character separator is found only where that character is. */
  lemma CharContained(s: string, c: char)
    ensures Contains(s, [c]) ==> c in s && s[IndexOf(s, [c])] == c
  {
    if Contains(s, [c]) {
      var r := IndexOf(s, [c]);
      assert s[r..r + 1] == [c];
      assert s[r] == s[r..r + 1][0];
      assert s[r] in s;
    }
  }

  /**
   * For a one-character separator that no part contains, splitting the
   * joined parts gives the parts back.
   */
  lemma {:induction false} SplitJoin(parts: seq<string>, c: char)
    requires |parts| >= 1
    requires forall k :: 0 <= k < |parts| ==> c !in parts[k]
    ensures Split(Join(parts, [c]), [c]) == parts
  {
    var s := Join(parts, [c]);
    if |parts| == 1 {
      CharContained(s, c);
    } else {
      var p := parts[0];
      var rest := Join(parts[1..], [c]);
      assert s == p + [c] + rest;
      assert OccursAt(s, [c], |p|);
      IndexOfFirst(s, [c], |p|);
      var r := IndexOf(s, [c]);
      CharContained(s, c);
      assert r == |p|;
      assert s[|p| + 1..] == rest;
      assert s[..|p|] == p;
      SplitStep(s, [c]);
      SplitJoin(parts[1..], c);
    }
  }

  /**
   * Appending text after a string that already contains the separator does
   * not move its first occurrence, so the split keeps more than one piece.
   */
  lemma SplitExtend(s: string, t: string, sep: string)
    requires |sep| > 0 && Contains(s, sep)
    ensures IndexOf(s + t, sep) == IndexOf(s, sep)
    ensures |Split(s + t, sep)| >= 2
  {
    IndexOfExtend(s, t, sep);
    SplitStep(s + t, sep);
  }

  /** Text appended after a separator does not move the first one. */
  lemma IndexOfExtend(s: string, t: string, sep: string)
    requires |sep| > 0 && Contains(s, sep)
    ensures IndexOf(s + t, sep) == IndexOf(s, sep)
  {
    var i := IndexOf(s, sep);
    OccursInExtension(s, t, sep, i);
    IndexOfFirst(s + t, sep, i);
    var r := IndexOf(s + t, sep);
    OccursInExtension(s, t, sep, r);
    IndexOfFirst(s, sep, r);
  }

  /** The slices of `x + y` around a position inside `x`. */
  lemma SlicesBeforeSuffix(x: string, y: string, i: nat, n: nat)
    requires i + n <= |x|
    ensures (x + y)[..i] == x[..i]
    ensures (x + y)[i + n..] == x[i + n..] + y
  {
  }

  /** After the first separator of `x`, splitting `x + y` goes on with the rest of `x` and `y`. */
  lemma SplitAppendStep(x: string, y: string, sep: string, i: int, head: string, rest: string)
    requires |sep| > 0 && i == IndexOf(x, sep) && i >= 0
    requires head == x[..i] && rest == x[i + |sep|..]
    ensures Split(x + y, sep) == [head] + Split(rest + y, sep)
  {
    IndexOfExtend(x, y, sep);
    SlicesBeforeSuffix(x, y, i, |sep|);
    SplitStepAt(x + y, sep, i, head, rest + y);
  }

  /** The sequence bookkeeping of SplitAppend, stated over plain values. */
  lemma AppendPieces(h: string, tail: seq<string>, whole: seq<string>, joined: seq<string>, rest: seq<string>, last: seq<string>)
    requires |tail| > 0 && whole == [h] + tail
    requires joined == [h] + rest && rest == DropLast(tail) + last
    ensures |whole| > 0 && Last(whole) == Last(tail)
    ensures joined == DropLast(whole) + last
  {
    assert DropLast(whole) == [h] + DropLast(tail);
  }

  /**
   * Splitting `x + y` splits `x` up to its last separator and continues with
   * the text after it followed by `y`.
   */
  lemma {:induction false} SplitAppend(x: string, y: string, sep: string)
    requires |sep| > 0
    ensures Split(x + y, sep) == DropLast(Split(x, sep)) + Split(Last(Split(x, sep)) + y, sep)
    decreases |x|
  {
    if !Contains(x, sep) {
      SplitSingle(x, sep);
    } else {
      var i := IndexOf(x, sep);
      var h := x[..i];
      var x' := x[i + |sep|..];
      var tail := Split(x', sep);
      SplitAppendStep(x, y, sep, i, h, x');
      SplitAppend(x', y, sep);
      SplitStepAt(x, sep, i, h, x');
      AppendPieces(h, tail, Split(x, sep), Split(x + y, sep), Split(x' + y, sep), Split(Last(tail) + y, sep));
    }
  }

  /** The position of the first separator in `u + x` when none starts inside `u`. */
  lemma IndexAfterPrefix(u: string, x: string, sep: string)
    requires forall j :: 0 <= j < |u| ==> !OccursAt(u + x, sep, j)
    ensures IndexOf(u + x, sep) == if Contains(x, sep) then |u| + IndexOf(x, sep) else -1
  {
    var s := u + x;
    var i := IndexOf(x, sep);
    var r := IndexOf(s, sep);
    if r >= 0 {
      OccursAfterPrefix(u, x, sep, r);
      IndexOfFirst(x, sep, r - |u|);
    }
    if i >= 0 {
      OccursAfterPrefix(u, x, sep, |u| + i);
      IndexOfFirst(s, sep, |u| + i);
    }
  }

  /** The slices of `u + x` around a position inside `x`. */
  lemma SlicesAfterPrefix(u: string, x: string, i: nat, n: nat)
    requires i + n <= |x|
    ensures (u + x)[..|u| + i] == u + x[..i]
    ensures (u + x)[|u| + i + n..] == x[i + n..]
  {
  }

  /** The sequence bookkeeping of SplitPrependFound, stated over plain values. */
  lemma PrependPieces(u: string, h: string, tail: seq<string>, whole: seq<string>, pieces: seq<string>)
    requires whole == [u + h] + tail && pieces == [h] + tail
    ensures whole == [u + pieces[0]] + pieces[1..]
  {
    assert pieces[1..] == tail;
  }

  /** One step of a split, at a known first separator. */
  lemma SplitStepAt(s: string, sep: string, j: int, head: string, rest: string)
    requires |sep| > 0 && j == IndexOf(s, sep) && j >= 0
    requires head == s[..j] && rest == s[j + |sep|..]
    ensures Split(s, sep) == [head] + Split(rest, sep)
  {
    assert Contains(s, sep);
    assert Split(s, sep) == [s[..j]] + Split(s[j + |sep|..], sep);
  }

  /** SplitPrepend when `x` holds a separator, given where the first one of `u + x` is. */
  lemma SplitPrependFound(u: string, x: string, sep: string)
    requires |sep| > 0 && Contains(x, sep) && IndexOf(u + x, sep) == |u| + IndexOf(x, sep)
    ensures Split(u + x, sep) == [u + Split(x, sep)[0]] + Split(x, sep)[1..]
  {
    var i := IndexOf(x, sep);
    var h := x[..i];
    var r := x[i + |sep|..];
    SlicesAfterPrefix(u, x, i, |sep|);
    SplitStepAt(u + x, sep, |u| + i, u + h, r);
    SplitStepAt(x, sep, i, h, r);
    PrependPieces(u, h, Split(r, sep), Split(u + x, sep), Split(x, sep));
  }

  /**
   * Putting `u` in front of `x` only lengthens the first piece, provided no
   * separator starts inside `u`.
   */
  lemma SplitPrepend(u: string, x: string, sep: string)
    requires |sep| > 0
    requires forall j :: 0 <= j < |u| ==> !OccursAt(u + x, sep, j)
    ensures Split(u + x, sep) == [u + Split(x, sep)[0]] + Split(x, sep)[1..]
  {
    IndexAfterPrefix(u, x, sep);
    if Contains(x, sep) {
      SplitPrependFound(u, x, sep);
    } else {
      SplitSingle(u + x, sep);
      SplitSingle(x, sep);
    }
  }
}
