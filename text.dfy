/**
 The string operations that the subnet-mask calculator is built from:
 repetition (`c * n`), left justification (`ljust`), cutting a string into
 slices of eight (`[s[i:i + 8] for i in range(0, len(s), 8)]`), joining
 with a separator (`sep.join(xs)`) and its inverse, splitting on a
 separator (`s.split(sep)`).
 */
module Text {

  function Min(a: int, b: int): int { if a <= b then a else b }

  /** The string made of `n` copies of `c`. */
  function Repeat(c: char, n: nat): (r: string)
    ensures |r| == n
    ensures forall i :: 0 <= i < n ==> r[i] == c
  {
    if n == 0 then "" else Repeat(c, n - 1) + [c]
  }

  /** `s` padded on the right with `fill` up to `width` characters;
      a string already that long is returned unchanged. */
  function LJust(s: string, width: nat, fill: char): (r: string)
    ensures |r| == if |s| >= width then |s| else width
    ensures r[..|s|] == s
    ensures forall i :: |s| <= i < |r| ==> r[i] == fill
  {
    if |s| >= width then s else s + Repeat(fill, width - |s|)
  }

  /** The concatenation of all strings of `ss`, in order. */
  function Flatten(ss: seq<string>): string
  {
    if |ss| == 0 then "" else ss[0] + Flatten(ss[1..])
  }

  lemma {:induction false} FlattenLength(ss: seq<string>, k: nat)
    requires forall j :: 0 <= j < |ss| ==> |ss[j]| == k
    ensures |Flatten(ss)| == k * |ss|
  {
    if |ss| > 0 {
      FlattenLength(ss[1..], k);
    }
  }

  /** The consecutive slices of eight characters of `s`, the last one
      possibly shorter: what stepping through `s` eight characters at a
      time produces. */
  function Chunks8(s: string): (r: seq<string>)
    ensures |r| == (|s| + 7) / 8
    ensures forall j :: 0 <= j < |r| ==> 0 < |r[j]| <= 8
    ensures forall j :: 0 <= j < |r| ==> |r[j]| == Min(8, |s| - 8 * j)
    decreases |s|
  {
    if |s| == 0 then []
    else if |s| <= 8 then [s]
    else [s[..8]] + Chunks8(s[8..])
  }

  /** Gluing the slices back together gives the string that was cut. */
  lemma {:induction false} FlattenChunks8(s: string)
    ensures Flatten(Chunks8(s)) == s
    decreases |s|
  {
    if |s| > 8 {
      var rest := s[8..];
      FlattenChunks8(rest);
      assert Chunks8(s)[1..] == Chunks8(rest);
      assert s[..8] + rest == s;
    }
  }

  /** Slice `j` is the characters of `s` from `8 * j` up to, but not
      including, `8 * j + 8`, clipped at the end of `s`. */
  lemma {:induction false} Chunks8At(s: string, j: nat)
    requires j < |Chunks8(s)|
    ensures Chunks8(s)[j] == s[8 * j .. Min(8 * j + 8, |s|)]
    decreases |s|
  {
    if |s| > 8 && j > 0 {
      Chunks8At(s[8..], j - 1);
    }
  }

  /** The elements of `xs` with one `sep` between each neighbouring pair:
      the first element at the front, then the separator when more follow. */
  function Join(sep: char, xs: seq<string>): (r: string)
    ensures |xs| == 0 ==> r == ""
    ensures |xs| > 0 ==> |r| >= |xs[0]| && r[..|xs[0]|] == xs[0]
    ensures |xs| > 1 ==> |r| > |xs[0]| && r[|xs[0]|] == sep
  {
    if |xs| == 0 then ""
    else if |xs| == 1 then xs[0]
    else xs[0] + [sep] + Join(sep, xs[1..])
  }

  /** A join holds every character of the elements and one separator
      fewer than there are elements. */
  lemma {:induction false} JoinLength(sep: char, xs: seq<string>)
    requires |xs| > 0
    ensures |Join(sep, xs)| == |Flatten(xs)| + |xs| - 1
  {
    if |xs| > 1 {
      JoinLength(sep, xs[1..]);
    }
  }

  lemma JoinFour(t: seq<string>)
    requires |t| == 4
    ensures Join('.', t) == t[0] + "." + t[1] + "." + t[2] + "." + t[3]
  {
    var t1, t2, t3 := t[1..], t[2..], t[3..];
    assert t1[1..] == t2 && t2[1..] == t3;
    assert Join('.', t3) == t[3];
    assert Join('.', t2) == t[2] + "." + Join('.', t3);
    assert Join('.', t1) == t[1] + "." + Join('.', t2);
  }

  /** The maximal pieces of `s` between occurrences of `sep`; an empty
      string yields one empty piece. */
  function Split(s: string, sep: char): (r: seq<string>)
    ensures |r| > 0
    ensures forall j :: 0 <= j < |r| ==> sep !in r[j]
    ensures Join(sep, r) == s
  {
    if |s| == 0 then [""]
    else
      var rest := Split(s[1..], sep);
      if s[0] == sep then
        assert ([""] + rest)[1..] == rest;
        [""] + rest
      else
        var r := [[s[0]] + rest[0]] + rest[1..];
        assert r[1..] == rest[1..];
        assert Join(sep, r) == s by {
          if |rest| == 1 {
            assert s == [s[0]] + s[1..];
          } else {
            assert Join(sep, rest) == rest[0] + [sep] + Join(sep, rest[1..]);
            assert [s[0]] + s[1..] == s;
          }
        }
        r
  }

  lemma {:induction false} SplitWithoutSep(a: string, sep: char)
    requires sep !in a
    ensures Split(a, sep) == [a]
  {
    if |a| > 0 {
      SplitWithoutSep(a[1..], sep);
      assert [a[0]] + a[1..] == a;
    }
  }

  lemma {:induction false} SplitAfterPiece(a: string, b: string, sep: char)
    requires sep !in a
    ensures Split(a + [sep] + b, sep) == [a] + Split(b, sep)
    decreases |a|
  {
    if |a| == 0 {
      assert (a + [sep] + b)[1..] == b;
    } else {
      assert (a + [sep] + b)[1..] == a[1..] + [sep] + b;
      SplitAfterPiece(a[1..], b, sep);
      assert [a[0]] + a[1..] == a;
    }
  }

  /** Splitting undoes joining, as long as no piece contains the separator. */
  lemma {:induction false} SplitJoin(xs: seq<string>, sep: char)
    requires |xs| > 0
    requires forall j :: 0 <= j < |xs| ==> sep !in xs[j]
    ensures Split(Join(sep, xs), sep) == xs
  {
    if |xs| == 1 {
      SplitWithoutSep(xs[0], sep);
    } else {
      SplitJoin(xs[1..], sep);
      SplitAfterPiece(xs[0], Join(sep, xs[1..]), sep);
      assert [xs[0]] + xs[1..] == xs;
    }
  }
}
