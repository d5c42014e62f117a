/**
 * The few operations of Go's `strings` package that the paginator uses,
 * on strings as sequences of characters, each with the property that
 * characterises it.
 */
module Strings {

  /** strings.Join: the parts with `sep` between each two neighbours. */
  function Join(parts: seq<string>, sep: string): string
  {
    if |parts| == 0 then ""
    else if |parts| == 1 then parts[0]
    else parts[0] + sep + Join(parts[1..], sep)
  }

  /** A join starts with the first part and ends with the last. */
  lemma {:induction false} JoinEnds(parts: seq<string>, sep: string)
    requires |parts| > 0
    ensures parts[0] <= Join(parts, sep)
    ensures |parts[|parts| - 1]| <= |Join(parts, sep)|
    ensures Join(parts, sep)[|Join(parts, sep)| - |parts[|parts| - 1]|..] == parts[|parts| - 1]
  {
    if |parts| > 1 {
      JoinEnds(parts[1..], sep);
      var j := Join(parts[1..], sep);
      var p := parts[0] + sep;
      assert Join(parts, sep) == p + j;
      assert (p + j)[|p + j| - |parts[|parts| - 1]|..] == j[|j| - |parts[|parts| - 1]|..];
    }
  }

  /** Joining one more part at the end adds the separator and that part. */
  lemma {:induction false} JoinSnoc(parts: seq<string>, last: string, sep: string)
    requires |parts| > 0
    ensures Join(parts + [last], sep) == Join(parts, sep) + sep + last
  {
    if |parts| == 1 {
      assert parts + [last] == [parts[0], last];
      assert [last][1..] == [];
    } else {
      assert (parts + [last])[1..] == parts[1..] + [last];
      JoinSnoc(parts[1..], last, sep);
    }
  }

  /**
   * strings.Split with a one-character separator: the maximal pieces
   * between occurrences of `c`. There is always at least one piece, no
   * piece contains `c`, and joining the pieces back with `c` gives `s`.
   */
  function Split(s: string, c: char): (parts: seq<string>)
    ensures |parts| >= 1
    ensures forall i :: 0 <= i < |parts| ==> c !in parts[i]
    ensures Join(parts, [c]) == s
    decreases |s|
  {
    if |s| == 0 then [""]
    else
      var rest := Split(s[1..], c);
      if s[0] == c then
        assert Join([""] + rest, [c]) == "" + [c] + Join(rest, [c]) by {
          assert ([""] + rest)[1..] == rest;
        }
        [""] + rest
      else
        var head := [s[0]] + rest[0];
        assert Join([head] + rest[1..], [c]) == [s[0]] + Join(rest, [c]) by {
          if |rest| > 1 {
            assert ([head] + rest[1..])[1..] == rest[1..];
          }
        }
        [head] + rest[1..]
  }

  /** A string without the separator is split into itself alone. */
  lemma {:induction false} SplitNoSeparator(s: string, c: char)
    requires c !in s
    ensures Split(s, c) == [s]
    decreases |s|
  {
    if |s| > 0 {
      assert c !in s[1..] by {
        forall k | 0 <= k < |s[1..]| ensures s[1..][k] != c { assert s[1..][k] == s[k + 1]; }
      }
      SplitNoSeparator(s[1..], c);
      assert [s[0]] + s[1..] == s;
    }
  }

  /** A piece without the separator, then the separator, becomes the first piece. */
  lemma {:induction false} SplitAfterPiece(x: string, y: string, c: char)
    requires c !in x
    ensures Split(x + [c] + y, c) == [x] + Split(y, c)
    decreases |x|
  {
    if |x| == 0 {
      assert x + [c] + y == [c] + y;
      assert ([c] + y)[1..] == y;
    } else {
      var s := x + [c] + y;
      assert s[1..] == x[1..] + [c] + y;
      assert c !in x[1..] by {
        forall k | 0 <= k < |x[1..]| ensures x[1..][k] != c { assert x[1..][k] == x[k + 1]; }
      }
      SplitAfterPiece(x[1..], y, c);
      assert s[0] == x[0] && s[0] != c;
      assert [x[0]] + x[1..] == x;
    }
  }

  /** Two pieces without the separator, joined by it, split back into the two. */
  lemma {:induction false} SplitPair(x: string, y: string, c: char)
    requires c !in x && c !in y
    ensures Split(x + [c] + y, c) == [x, y]
  {
    SplitAfterPiece(x, y, c);
    SplitNoSeparator(y, c);
  }

  /** Split undoes Join when no part contains the separator. */
  lemma {:induction false} SplitJoin(parts: seq<string>, c: char)
    requires |parts| >= 1
    requires forall i :: 0 <= i < |parts| ==> c !in parts[i]
    ensures Split(Join(parts, [c]), c) == parts
  {
    if |parts| == 1 {
      SplitNoSeparator(parts[0], c);
    } else {
      SplitJoin(parts[1..], c);
      assert Join(parts, [c]) == parts[0] + [c] + Join(parts[1..], [c]);
      SplitAfterPiece(parts[0], Join(parts[1..], [c]), c);
      assert [parts[0]] + parts[1..] == parts;
    }
  }

  /** strings.TrimLeft for a one-character cutset: drop every leading `c`. */
  function TrimLeft(s: string, c: char): (r: string)
    ensures |r| <= |s| && r == s[|s| - |r|..]
    ensures forall i :: 0 <= i < |s| - |r| ==> s[i] == c
    ensures r == [] || r[0] != c
    decreases |s|
  {
    if |s| > 0 && s[0] == c then
      var r := TrimLeft(s[1..], c);
      assert s[1..][|s| - 1 - |r|..] == s[|s| - |r|..];
      assert forall i :: 1 <= i < |s| - |r| ==> s[i] == s[1..][i - 1];
      r
    else s
  }

  /** strings.TrimRight for a one-character cutset: drop every trailing `c`. */
  function TrimRight(s: string, c: char): (r: string)
    ensures |r| <= |s| && r == s[..|r|]
    ensures forall i :: |r| <= i < |s| ==> s[i] == c
    ensures r == [] || r[|r| - 1] != c
    decreases |s|
  {
    if |s| > 0 && s[|s| - 1] == c then
      var r := TrimRight(s[..|s| - 1], c);
      assert s[..|s| - 1][..|r|] == s[..|r|];
      assert forall i :: |r| <= i < |s| - 1 ==> s[i] == s[..|s| - 1][i];
      r
    else s
  }

  /** strings.Trim for a one-character cutset: drop `c` from both ends. */
  function Trim(s: string, c: char): string
  {
    TrimRight(TrimLeft(s, c), c)
  }

  /**
   * The trimmed string is a slice of `s` that neither starts nor ends
   * with `c`, and everything of `s` around it is `c`.
   */
  lemma TrimSlice(s: string, c: char)
    ensures var lo := |s| - |TrimLeft(s, c)|;
      lo + |Trim(s, c)| <= |s| && Trim(s, c) == s[lo..lo + |Trim(s, c)|]
      && (forall i :: 0 <= i < lo ==> s[i] == c) && (forall i :: lo + |Trim(s, c)| <= i < |s| ==> s[i] == c)
    ensures Trim(s, c) == [] || (Trim(s, c)[0] != c && Trim(s, c)[|Trim(s, c)| - 1] != c)
  {
    var l := TrimLeft(s, c);
    var r := TrimRight(l, c);
    var lo := |s| - |l|;
    assert l == s[lo..] && r == l[..|r|];
    forall i | lo + |r| <= i < |s| ensures s[i] == c {
      assert s[i] == l[i - lo];
    }
  }

  /** Trimming a string framed by one `c` on each side, with no `c` inside, leaves the inside. */
  lemma {:induction false} TrimFramed(x: string, c: char)
    requires c !in x
    ensures Trim([c] + x + [c], c) == x
  {
    TrimLeftFramed(x, c);
    if |x| > 0 {
      assert x[|x| - 1] in x;
      TrimRightDropsOne(x, c);
    }
  }

  /** TrimLeft removes only the opening `c` of a framed string with no `c` inside. */
  lemma {:induction false} TrimLeftFramed(x: string, c: char)
    requires c !in x
    ensures TrimLeft([c] + x + [c], c) == if |x| == 0 then [] else x + [c]
  {
    var y := x + [c];
    assert [c] + x + [c] == [c] + y;
    TrimLeftDropsOne(c, y);
    if |x| == 0 {
      assert y == [c] + [];
      TrimLeftDropsOne(c, []);
    } else {
      assert y[0] == x[0] && x[0] in x;
    }
  }

  lemma {:induction false} TrimLeftDropsOne(c: char, y: string)
    ensures TrimLeft([c] + y, c) == TrimLeft(y, c)
    ensures y == [] || y[0] != c ==> TrimLeft(y, c) == y
  {
    assert ([c] + y)[1..] == y;
  }

  lemma {:induction false} TrimRightDropsOne(y: string, c: char)
    ensures TrimRight(y + [c], c) == TrimRight(y, c)
    ensures y == [] || y[|y| - 1] != c ==> TrimRight(y, c) == y
  {
    assert (y + [c])[..|y|] == y;
  }

  /** The number of occurrences of `c` in `s`. */
  function Count(s: string, c: char): nat
  {
    if |s| == 0 then 0 else (if s[0] == c then 1 else 0) + Count(s[1..], c)
  }

  /** Occurrences in a concatenation add up. */
  lemma {:induction false} CountConcat(a: string, b: string, c: char)
    ensures Count(a + b, c) == Count(a, c) + Count(b, c)
  {
    if |a| > 0 {
      assert (a + b)[1..] == a[1..] + b;
      CountConcat(a[1..], b, c);
    } else {
      assert a + b == b;
    }
  }

  /** A string that does not contain `c` has no occurrence of it. */
  lemma {:induction false} CountAbsent(s: string, c: char)
    requires c !in s
    ensures Count(s, c) == 0
  {
    if |s| > 0 {
      assert c !in s[1..] by {
        forall k | 0 <= k < |s[1..]| ensures s[1..][k] != c { assert s[1..][k] == s[k + 1]; }
      }
      CountAbsent(s[1..], c);
    }
  }
}
