/** The JavaScript string operations the library relies on: `indexOf`/`includes`,
    `replace` with a string pattern (first occurrence only), `split` and `join`
    with a one-character separator. */
module Strings {
  import opened Wrappers

  /** `sub` occurs in `s` starting at index `i`. */
  predicate OccursAt(s: string, sub: string, i: nat) {
    i + |sub| <= |s| && s[i..i + |sub|] == sub
  }

  /** The first index at or after `i` where `sub` occurs (JavaScript `indexOf(sub, i)`). */
  function IndexOfFrom(s: string, sub: string, i: nat): (r: Option<nat>)
    requires i <= |s|
    ensures r.Some? ==> i <= r.value && OccursAt(s, sub, r.value)
    ensures r.Some? ==> forall j :: i <= j < r.value ==> !OccursAt(s, sub, j)
    ensures r.None? ==> forall j :: i <= j <= |s| ==> !OccursAt(s, sub, j)
    decreases |s| - i
  {
    if OccursAt(s, sub, i) then Some(i)
    else if i == |s| then None
    else IndexOfFrom(s, sub, i + 1)
  }

  function IndexOf(s: string, sub: string): Option<nat> {
    IndexOfFrom(s, sub, 0)
  }

  /** JavaScript `s.includes(sub)`. */
  predicate Contains(s: string, sub: string) {
    IndexOf(s, sub).Some?
  }

  lemma ContainsIff(s: string, sub: string)
    ensures Contains(s, sub) <==> exists i :: 0 <= i <= |s| && OccursAt(s, sub, i)
  {
    if Contains(s, sub) {
      assert OccursAt(s, sub, IndexOf(s, sub).value);
    }
  }

  /** JavaScript `s.replace(pat, rep)` with a string pattern: only the first
      occurrence of `pat` is replaced; `s` is returned unchanged when `pat`
      does not occur. */
  function ReplaceFirst(s: string, pat: string, rep: string): (r: string)
    ensures !Contains(s, pat) ==> r == s
    ensures Contains(s, pat) ==> |r| == |s| - |pat| + |rep|
  {
    match IndexOf(s, pat)
    case None => s
    case Some(i) => s[..i] + rep + s[i + |pat|..]
  }

  /** Replacing at the first occurrence: the text before it is kept, the
      occurrence becomes `rep`, and everything after it is kept verbatim. */
  lemma ReplaceFirstAt(s: string, pat: string, rep: string, i: nat)
    requires OccursAt(s, pat, i)
    requires forall j :: 0 <= j < i ==> !OccursAt(s, pat, j)
    ensures ReplaceFirst(s, pat, rep) == s[..i] + rep + s[i + |pat|..]
  {
    var k := IndexOf(s, pat);
    assert k.Some? && k.value <= i;
  }

  /** JavaScript `s.split(c)` for a one-character separator. */
  function Split(s: string, c: char): (parts: seq<string>)
    ensures |parts| >= 1
    decreases |s|
  {
    if |s| == 0 then [""]
    else
      var rest := Split(s[1..], c);
      if s[0] == c then [""] + rest
      else [[s[0]] + rest[0]] + rest[1..]
  }

  /** No piece of a split contains the separator. */
  lemma {:induction false} SplitParts(s: string, c: char)
    ensures forall i :: 0 <= i < |Split(s, c)| ==> c !in Split(s, c)[i]
    decreases |s|
  {
    if |s| > 0 {
      SplitParts(s[1..], c);
      var rest := Split(s[1..], c);
      if s[0] != c {
        assert c !in [s[0]] + rest[0];
      }
    }
  }

  /** JavaScript `parts.join(c)`. */
  function Join(parts: seq<string>, c: char): string
    decreases |parts|
  {
    if |parts| == 0 then ""
    else if |parts| == 1 then parts[0]
    else parts[0] + [c] + Join(parts[1..], c)
  }

  lemma JoinCons(a: string, ps: seq<string>, c: char)
    requires |ps| >= 1
    ensures Join([a + ps[0]] + ps[1..], c) == a + Join(ps, c)
  {
    var qs := [a + ps[0]] + ps[1..];
    if |ps| > 1 {
      assert qs[1..] == ps[1..];
    }
  }

  /** Joining the pieces of a split gives back the original string. */
  lemma {:induction false} JoinSplit(s: string, c: char)
    ensures Join(Split(s, c), c) == s
    decreases |s|
  {
    if |s| > 0 {
      var rest := Split(s[1..], c);
      JoinSplit(s[1..], c);
      if s[0] == c {
        assert ([""] + rest)[1..] == rest;
        assert s == [c] + s[1..];
      } else {
        JoinCons([s[0]], rest, c);
        assert s == [s[0]] + s[1..];
      }
    }
  }

  lemma {:induction false} SplitNoSep(a: string, c: char)
    requires c !in a
    ensures Split(a, c) == [a]
    decreases |a|
  {
    if |a| > 0 {
      SplitNoSep(a[1..], c);
      assert [a[0]] + a[1..] == a;
    }
  }

  lemma {:induction false} SplitSepAfter(a: string, c: char, t: string)
    requires c !in a
    ensures Split(a + [c] + t, c) == [a] + Split(t, c)
    decreases |a|
  {
    var s := a + [c] + t;
    if |a| == 0 {
      assert s[1..] == t;
    } else {
      assert s[1..] == a[1..] + [c] + t;
      SplitSepAfter(a[1..], c, t);
      assert [a[0]] + a[1..] == a;
    }
  }

  /** Splitting a join gives back the pieces, provided no piece contains the
      separator. */
  lemma {:induction false} SplitJoin(ps: seq<string>, c: char)
    requires |ps| >= 1
    requires forall i :: 0 <= i < |ps| ==> c !in ps[i]
    ensures Split(Join(ps, c), c) == ps
    decreases |ps|
  {
    if |ps| == 1 {
      SplitNoSep(ps[0], c);
    } else {
      SplitJoin(ps[1..], c);
      SplitSepAfter(ps[0], c, Join(ps[1..], c));
      assert [ps[0]] + ps[1..] == ps;
    }
  }

  lemma {:induction false} JoinAppend(ps: seq<string>, x: string, c: char)
    requires |ps| >= 1
    ensures Join(ps + [x], c) == Join(ps, c) + [c] + x
    decreases |ps|
  {
    if |ps| == 1 {
      assert (ps + [x])[1..] == [x];
    } else {
      assert (ps + [x])[1..] == ps[1..] + [x];
      JoinAppend(ps[1..], x, c);
    }
  }

  /** What follows the first piece of a join: nothing, or a separator and the
      join of the rest. */
  function JoinTail(ps: seq<string>, c: char): string {
    if |ps| == 0 then "" else [c] + Join(ps, c)
  }

  lemma JoinHead(x: string, ps: seq<string>, c: char)
    ensures Join([x] + ps, c) == x + JoinTail(ps, c)
  {
    if |ps| > 0 {
      assert ([x] + ps)[1..] == ps;
    }
  }

  lemma {:induction false} JoinConcat(a: seq<string>, b: seq<string>, c: char)
    requires |a| >= 1 && |b| >= 1
    ensures Join(a + b, c) == Join(a, c) + [c] + Join(b, c)
    decreases |a|
  {
    if |a| == 1 {
      assert (a + b)[1..] == b;
    } else {
      assert (a + b)[1..] == a[1..] + b;
      JoinConcat(a[1..], b, c);
    }
  }

  /** Splitting at a separator between two strings splits each side. */
  lemma {:induction false} SplitSepConcat(a: string, c: char, b: string)
    ensures Split(a + [c] + b, c) == Split(a, c) + Split(b, c)
    decreases |a|
  {
    var s := a + [c] + b;
    var sb := Split(b, c);
    if |a| == 0 {
      assert s[1..] == b;
      assert Split(s, c) == [""] + sb;
    } else {
      var t := a[1..] + [c] + b;
      assert s[1..] == t && s[0] == a[0];
      SplitSepConcat(a[1..], c, b);
      SplitConsStep(a, c, t, Split(a[1..], c), sb);
    }
  }

  /** The step of `SplitSepConcat`: one more leading character. */
  lemma SplitConsStep(a: string, c: char, t: string, ra: seq<string>, sb: seq<string>)
    requires |a| >= 1 && ra == Split(a[1..], c) && Split(t, c) == ra + sb
    ensures Split([a[0]] + t, c) == Split(a, c) + sb
  {
    var s := [a[0]] + t;
    assert s[1..] == t && s[0] == a[0];
    if a[0] == c {
      Assoc([""], ra, sb);
    } else {
      HeadTail(ra, sb);
      Assoc([[a[0]] + ra[0]], ra[1..], sb);
    }
  }

  lemma Assoc<T>(a: seq<T>, b: seq<T>, c: seq<T>)
    ensures a + (b + c) == (a + b) + c
  {
  }

  lemma HeadTail<T>(a: seq<T>, b: seq<T>)
    requires |a| >= 1
    ensures (a + b)[0] == a[0] && (a + b)[1..] == a[1..] + b
  {
  }

  /** Every string split at `c`, the pieces concatenated in order. */
  function Pieces(xs: seq<string>, c: char): seq<string>
    decreases |xs|
  {
    if |xs| == 0 then [] else Split(xs[0], c) + Pieces(xs[1..], c)
  }

  /** Splitting a join splits every joined string. */
  lemma {:induction false} SplitJoinPieces(xs: seq<string>, c: char)
    requires |xs| >= 1
    ensures Split(Join(xs, c), c) == Pieces(xs, c)
    decreases |xs|
  {
    if |xs| > 1 {
      SplitSepConcat(xs[0], c, Join(xs[1..], c));
      SplitJoinPieces(xs[1..], c);
    }
  }

  lemma {:induction false} PiecesAppend(xs: seq<string>, ys: seq<string>, c: char)
    ensures Pieces(xs + ys, c) == Pieces(xs, c) + Pieces(ys, c)
    decreases |xs|
  {
    if |xs| == 0 {
      assert xs + ys == ys;
    } else {
      assert (xs + ys)[1..] == xs[1..] + ys;
      PiecesAppend(xs[1..], ys, c);
    }
  }

  /** Strings without the separator are their own pieces. */
  lemma {:induction false} PiecesNoSep(xs: seq<string>, c: char)
    requires forall i :: 0 <= i < |xs| ==> c !in xs[i]
    ensures Pieces(xs, c) == xs
    decreases |xs|
  {
    if |xs| > 0 {
      SplitNoSep(xs[0], c);
      PiecesNoSep(xs[1..], c);
      assert [xs[0]] + xs[1..] == xs;
    }
  }
}
