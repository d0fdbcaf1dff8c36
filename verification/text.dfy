/** String operations of the Swift standard library and Foundation that the
    update checker relies on, over `string` as a sequence of characters. */
module Text {
  import opened Wrappers

  /** `s.firstIndex(of: c)`: the position of the first `c`, if any. */
  function FirstIndexOf(s: string, c: char): (r: Option<nat>)
    ensures r.Some? ==> r.value < |s| && s[r.value] == c && c !in s[..r.value]
    ensures r.None? <==> c !in s
  {
    if |s| == 0 then None
    else if s[0] == c then Some(0)
    else
      match FirstIndexOf(s[1..], c)
      case None => None
      case Some(i) =>
        assert s[..i + 1] == [s[0]] + s[1..][..i];
        Some(i + 1)
  }

  /** The first occurrence of a separator that does not occur before it. */
  lemma {:induction false} FirstIndexOfJoin(a: string, c: char, b: string)
    requires c !in a
    ensures FirstIndexOf(a + [c] + b, c) == Some(|a|)
  {
    if |a| > 0 {
      assert (a + [c] + b)[1..] == a[1..] + [c] + b;
      FirstIndexOfJoin(a[1..], c, b);
    }
  }

  /** `s.split(separator: sep)` with Swift's default
      `omittingEmptySubsequences: true`: the separator-free runs of `s` in
      order, empty runs dropped. */
  function Split(s: string, sep: char): (pieces: seq<string>)
    ensures forall k :: 0 <= k < |pieces| ==> |pieces[k]| > 0 && sep !in pieces[k]
    ensures |pieces| <= |s|
    decreases |s|
  {
    match FirstIndexOf(s, sep)
    case None => if |s| == 0 then [] else [s]
    case Some(i) => (if i == 0 then [] else [s[..i]]) + Split(s[i + 1..], sep)
  }

  /** The pieces written back with one separator between neighbours. */
  function Join(pieces: seq<string>, sep: char): string
  {
    if |pieces| == 0 then ""
    else if |pieces| == 1 then pieces[0]
    else pieces[0] + [sep] + Join(pieces[1..], sep)
  }

  /** The pieces `Split` can return: non-empty and free of the separator. */
  predicate SplitPieces(pieces: seq<string>, sep: char)
  {
    forall k :: 0 <= k < |pieces| ==> |pieces[k]| > 0 && sep !in pieces[k]
  }

  /** Splitting undoes joining. */
  lemma {:induction false} SplitJoin(pieces: seq<string>, sep: char)
    requires SplitPieces(pieces, sep)
    ensures Split(Join(pieces, sep), sep) == pieces
  {
    if |pieces| == 1 {
      assert FirstIndexOf(pieces[0], sep) == None;
    } else if |pieces| > 1 {
      var rest := Join(pieces[1..], sep);
      FirstIndexOfJoin(pieces[0], sep, rest);
      var s := pieces[0] + [sep] + rest;
      assert s[..|pieces[0]|] == pieces[0];
      assert s[|pieces[0]| + 1..] == rest;
      SplitJoin(pieces[1..], sep);
      assert [pieces[0]] + pieces[1..] == pieces;
    }
  }

  /** A separator ends every run: splitting `x`, a separator, then `y`
      gives the pieces of `x` followed by the pieces of `y`. */
  lemma {:induction false} SplitAround(x: string, sep: char, y: string)
    ensures Split(x + [sep] + y, sep) == Split(x, sep) + Split(y, sep)
    decreases |x|, 1
  {
    match FirstIndexOf(x, sep)
    case Some(i) => SplitAroundCut(x, sep, y, i);
    case None => SplitAroundLast(x, sep, y);
  }

  /** The inductive step of `SplitAround`: the piece before the first
      separator of `x` starts both splits, the rest is the hypothesis. */
  lemma {:induction false} SplitAroundCut(x: string, sep: char, y: string, i: nat)
    requires FirstIndexOf(x, sep) == Some(i)
    ensures Split(x + [sep] + y, sep) == Split(x, sep) + Split(y, sep)
    decreases |x|, 0
  {
    var head := SplitAroundStep(x, sep, y, i);
    SplitAround(x[i + 1..], sep, y);
    AppendAssociative(head, Split(x[i + 1..], sep), Split(y, sep));
  }

  lemma AppendAssociative<T>(a: seq<T>, b: seq<T>, c: seq<T>)
    ensures a + (b + c) == (a + b) + c
  {
  }

  /** The base of `SplitAround`: `x` holds no separator, so it is one piece
      (or none when empty). */
  lemma SplitAroundLast(x: string, sep: char, y: string)
    requires FirstIndexOf(x, sep) == None
    ensures Split(x + [sep] + y, sep) == Split(x, sep) + Split(y, sep)
  {
    var s := x + [sep] + y;
    FirstIndexOfJoin(x, sep, y);
    assert s[..|x|] == x;
    assert s[|x| + 1..] == y;
  }

  /** One step of `SplitAround`: both splits begin with the same piece
      before the first separator of `x`. */
  lemma SplitAroundStep(x: string, sep: char, y: string, i: nat) returns (head: seq<string>)
    requires FirstIndexOf(x, sep) == Some(i)
    ensures Split(x + [sep] + y, sep) == head + Split(x[i + 1..] + [sep] + y, sep)
    ensures Split(x, sep) == head + Split(x[i + 1..], sep)
  {
    var s := x + [sep] + y;
    assert s[..i + 1] == x[..i + 1];
    FirstIndexOfPrefix(s, x[..i + 1], sep);
    FirstIndexOfPrefix(x, x[..i + 1], sep);
    assert s[..i] == x[..i];
    assert s[i + 1..] == x[i + 1..] + [sep] + y;
    head := SplitAt(x, sep, i);
    var head' := SplitAt(s, sep, i);
  }

  /** `Split` cut at the first separator, at `i`. */
  lemma SplitAt(s: string, sep: char, i: nat) returns (head: seq<string>)
    requires FirstIndexOf(s, sep) == Some(i)
    ensures head == (if i == 0 then [] else [s[..i]])
    ensures Split(s, sep) == head + Split(s[i + 1..], sep)
  {
    head := if i == 0 then [] else [s[..i]];
  }

  /** Two separators in a row split like one: the empty piece between them
      is dropped. */
  lemma SplitDoubleSeparator(a: string, sep: char, b: string)
    ensures Split(a + [sep, sep] + b, sep) == Split(a + [sep] + b, sep)
  {
    var tail: string := [sep] + b;
    assert a + [sep, sep] + b == a + [sep] + tail;
    SplitAround(a, sep, tail);
    SplitLeadingSeparator(sep, b);
    SplitAround(a, sep, b);
  }

  /** A leading separator contributes no piece. */
  lemma SplitLeadingSeparator(sep: char, b: string)
    ensures Split([sep] + b, sep) == Split(b, sep)
  {
    var empty: string := [];
    assert [sep] + b == empty + [sep] + b;
    SplitAround(empty, sep, b);
    assert Split(empty, sep) == [];
  }

  /** The first occurrence inside a prefix is the first occurrence. */
  lemma {:induction false} FirstIndexOfPrefix(s: string, p: string, c: char)
    requires |p| <= |s| && s[..|p|] == p && c in p
    ensures FirstIndexOf(s, c) == FirstIndexOf(p, c)
  {
    if p[0] != c {
      assert s[1..][..|p| - 1] == p[1..];
      FirstIndexOfPrefix(s[1..], p[1..], c);
    }
  }

  /** A character absent from `s` is absent from every piece of its split. */
  lemma {:induction false} SplitAvoids(s: string, sep: char, c: char)
    requires c !in s
    ensures forall k :: 0 <= k < |Split(s, sep)| ==> c !in Split(s, sep)[k]
    decreases |s|
  {
    match FirstIndexOf(s, sep)
    case None =>
    case Some(i) =>
      SplitAvoids(s[i + 1..], sep, c);
  }

  /** A separator-free join has no character that none of its pieces has. */
  lemma {:induction false} JoinAvoids(pieces: seq<string>, sep: char, c: char)
    requires c != sep
    requires forall k :: 0 <= k < |pieces| ==> c !in pieces[k]
    ensures c !in Join(pieces, sep)
    ensures |pieces| > 0 && |pieces[0]| > 0 ==> |Join(pieces, sep)| > 0 && Join(pieces, sep)[0] == pieces[0][0]
  {
    if |pieces| > 1 {
      JoinAvoids(pieces[1..], sep, c);
    }
  }

  /** Past a stretch without `c`, the first `c` is found where it is in the
      rest, shifted by the length of the stretch. */
  lemma {:induction false} FirstIndexOfSkip(x: string, y: string, c: char)
    requires c !in x
    ensures FirstIndexOf(x + y, c) == (match FirstIndexOf(y, c) case None => None case Some(k) => Some(|x| + k))
  {
    if |x| > 0 {
      assert (x + y)[1..] == x[1..] + y;
      FirstIndexOfSkip(x[1..], y, c);
    } else {
      assert x + y == y;
    }
  }

  /** A split of a string that does not start with the separator begins
      with a piece that starts like the string. */
  lemma SplitFirstPiece(s: string, sep: char)
    requires |s| > 0 && s[0] != sep
    ensures |Split(s, sep)| > 0 && Split(s, sep)[0][0] == s[0]
  {
    match FirstIndexOf(s, sep)
    case None =>
    case Some(i) =>
      assert i > 0;
      assert Split(s, sep)[0] == s[..i];
  }

  /** `s.hasPrefix(p)`. */
  predicate HasPrefix(s: string, p: string)
  {
    |p| <= |s| && s[..|p|] == p
  }

  /** `sub` occurs in `s` starting at index `i`. */
  predicate OccursAt(s: string, sub: string, i: int)
  {
    0 <= i && i + |sub| <= |s| && s[i..i + |sub|] == sub
  }

  /** `s.contains(sub)` for a string argument: `sub` occurs somewhere in `s`. */
  predicate Contains(s: string, sub: string)
    decreases |s|
  {
    HasPrefix(s, sub) || (|s| > 0 && Contains(s[1..], sub))
  }

  /** `Contains` finds exactly the occurrences `OccursAt` describes. */
  lemma {:induction false} ContainsIffOccurs(s: string, sub: string)
    ensures Contains(s, sub) <==> exists i :: OccursAt(s, sub, i)
    decreases |s|
  {
    if Contains(s, sub) {
      if HasPrefix(s, sub) {
        assert OccursAt(s, sub, 0);
      } else {
        ContainsIffOccurs(s[1..], sub);
        var i :| OccursAt(s[1..], sub, i);
        assert s[i + 1..i + 1 + |sub|] == s[1..][i..i + |sub|];
        assert OccursAt(s, sub, i + 1);
      }
    }
    if exists i :: OccursAt(s, sub, i) {
      var i :| OccursAt(s, sub, i);
      if i > 0 {
        assert s[1..][i - 1..i - 1 + |sub|] == s[i..i + |sub|];
        assert OccursAt(s[1..], sub, i - 1);
        ContainsIffOccurs(s[1..], sub);
      }
    }
  }

  /** An occurrence of a non-empty `sub` puts its first character in `s`. */
  lemma ContainsNeedsFirstChar(s: string, sub: string)
    requires |sub| > 0
    ensures Contains(s, sub) ==> sub[0] in s
  {
    ContainsIffOccurs(s, sub);
    if Contains(s, sub) {
      var i :| OccursAt(s, sub, i);
      assert s[i] == sub[0];
    }
  }

  /** A string contains everything its prefix contains. */
  lemma {:induction false} ContainsExtends(s: string, t: string, sub: string)
    requires Contains(s, sub)
    ensures Contains(s + t, sub)
  {
    ContainsIffOccurs(s, sub);
    var i :| OccursAt(s, sub, i);
    assert (s + t)[i..i + |sub|] == s[i..i + |sub|];
    assert OccursAt(s + t, sub, i);
    ContainsIffOccurs(s + t, sub);
  }

  /** The ASCII part of Swift's `Character.lowercased()`. */
  function LowerChar(c: char): char
  {
    if 'A' <= c <= 'Z' then (c as int - 'A' as int + 'a' as int) as char else c
  }

  /** `s.lowercased()`, restricted to ASCII case mapping. */
  function Lowercased(s: string): (r: string)
    ensures |r| == |s|
    ensures forall i :: 0 <= i < |s| ==> !('A' <= r[i] <= 'Z')
  {
    seq(|s|, i requires 0 <= i < |s| => LowerChar(s[i]))
  }

  /** Lowercasing twice is lowercasing once, and keeps everything but case. */
  lemma LowercasedIdempotent(s: string)
    ensures Lowercased(Lowercased(s)) == Lowercased(s)
    ensures forall i :: 0 <= i < |s| ==> LowerChar(Lowercased(s)[i]) == LowerChar(s[i])
  {
  }

  /** `s.replacingOccurrences(of: [from], with: [to])` for one-character
      patterns: every `from` becomes `to`, everything else stays. */
  function ReplaceChar(s: string, from: char, to: char): (r: string)
    ensures |r| == |s|
    ensures forall i :: 0 <= i < |s| && s[i] == from ==> r[i] == to
    ensures forall i :: 0 <= i < |s| && s[i] != from ==> r[i] == s[i]
    ensures from != to ==> from !in r
  {
    seq(|s|, i requires 0 <= i < |s| => if s[i] == from then to else s[i])
  }
}
