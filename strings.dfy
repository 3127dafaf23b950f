/** The operations of Go's `strings` package that the parser calls, for a
    separator of one character: `Split`, `SplitN`, `ReplaceAll(s, c, "")` and
    `TrimSpace`, each with the facts the parser's proofs need. `Contains`,
    `HasPrefix` and `HasSuffix` need no model: they are membership and the
    first and last element. `Count` and `Index` are not called by the parser:
    `Count` states how many pieces a split gives, and `Index` is the search
    both splits make for the next separator. `Join` is the inverse of `Split`
    and of the two-piece `SplitN`. */
module Strings {
  import opened Unicode

  /** Number of occurrences of `c` in `s` (`strings.Count`). */
  function Count(s: string, c: char): (n: nat)
    ensures n <= |s|
    ensures n == 0 <==> c !in s
  {
    if s == [] then 0 else (if s[0] == c then 1 else 0) + Count(s[1..], c)
  }

  lemma {:induction false} CountConcat(a: string, b: string, c: char)
    ensures Count(a + b, c) == Count(a, c) + Count(b, c)
  {
    if a == [] {
      assert a + b == b;
    } else {
      assert (a + b)[1..] == a[1..] + b;
      CountConcat(a[1..], b, c);
    }
  }

  /** `c` once between `a` and `b` adds one to their counts. */
  lemma CountAround(a: string, c: char, b: string)
    ensures Count(a + [c] + b, c) == Count(a, c) + 1 + Count(b, c)
  {
    CountConcat(a + [c], b, c);
    CountConcat(a, [c], c);
    assert [c][1..] == [];
  }

  /** `strings.Index` for one character: the position of the first `c` in
      `s`, or -1 when there is none. */
  function Index(s: string, c: char): (i: int)
    ensures -1 <= i < |s|
    ensures i == -1 <==> c !in s
    ensures 0 <= i ==> s[i] == c && c !in s[..i]
  {
    if s == [] then -1
    else if s[0] == c then 0
    else
      var j := Index(s[1..], c);
      if j < 0 then -1
      else
        assert s[..j + 1] == [s[0]] + s[1..][..j];
        j + 1
  }

  /** The first `c` cuts `s` into a part free of `c`, the `c`, and the rest. */
  lemma IndexCut(s: string, c: char)
    requires 0 <= Index(s, c)
    ensures s == s[..Index(s, c)] + [c] + s[Index(s, c) + 1..]
    ensures Count(s[..Index(s, c)], c) == 0
  {
  }

  /** The first occurrence is the one after a prefix free of `c`. */
  lemma IndexAfterPrefix(p: string, c: char, e: string)
    requires c !in p
    ensures Index(p + [c] + e, c) == |p|
  {
    var s := p + [c] + e;
    var i := Index(s, c);
    assert s[|p|] == c;
    assert forall k :: 0 <= k < |p| ==> s[k] == p[k];
    forall k | 0 <= k < i
      ensures s[k] != c
    {
      assert s[k] == s[..i][k];
    }
  }

  /** `strings.Split(s, sep)`: the pieces of `s` between the occurrences of `sep`. */
  function Split(s: string, sep: char): (parts: seq<string>)
    ensures |parts| >= 1
    ensures forall k :: 0 <= k < |parts| ==> sep !in parts[k]
    decreases |s|
  {
    var i := Index(s, sep);
    if i < 0 then [s]
    else [s[..i]] + Split(s[i + 1..], sep)
  }

  /** `strings.Join(parts, sep)`. */
  function Join(parts: seq<string>, sep: char): string
    requires |parts| >= 1
  {
    if |parts| == 1 then parts[0] else parts[0] + [sep] + Join(parts[1..], sep)
  }

  /** `Join` of a first piece and at least one more. */
  lemma JoinCons(p: string, sep: char, rest: seq<string>)
    requires |rest| >= 1
    ensures Join([p] + rest, sep) == p + [sep] + Join(rest, sep)
  {
    assert ([p] + rest)[1..] == rest;
  }

  /** One step of `Split`: cut at the first separator. */
  lemma SplitStep(s: string, sep: char)
    requires 0 <= Index(s, sep)
    ensures Split(s, sep) == [s[..Index(s, sep)]] + Split(s[Index(s, sep) + 1..], sep)
  {
  }

  /** Splitting loses nothing: joining the pieces gives the string back. */
  lemma {:induction false} JoinSplit(s: string, sep: char)
    ensures Join(Split(s, sep), sep) == s
    decreases |s|
  {
    var i := Index(s, sep);
    if i >= 0 {
      var t := s[i + 1..];
      IndexCut(s, sep);
      JoinSplit(t, sep);
      SplitStep(s, sep);
      JoinCons(s[..i], sep, Split(t, sep));
    }
  }

  /** Joining pieces free of `sep` and splitting again gives the pieces back. */
  lemma {:induction false} SplitJoin(parts: seq<string>, sep: char)
    requires |parts| >= 1
    requires forall k :: 0 <= k < |parts| ==> sep !in parts[k]
    ensures Split(Join(parts, sep), sep) == parts
  {
    if |parts| > 1 {
      var rest := Join(parts[1..], sep);
      var s := parts[0] + [sep] + rest;
      IndexAfterPrefix(parts[0], sep, rest);
      assert s[..|parts[0]|] == parts[0];
      assert s[|parts[0]| + 1..] == rest;
      SplitStep(s, sep);
      SplitJoin(parts[1..], sep);
      assert parts == [parts[0]] + parts[1..];
    }
  }

  /** `Split` yields one piece more than there are separators. */
  lemma {:induction false} SplitCount(s: string, sep: char)
    ensures |Split(s, sep)| == Count(s, sep) + 1
    decreases |s|
  {
    var i := Index(s, sep);
    if i >= 0 {
      var t := s[i + 1..];
      SplitCount(t, sep);
      SplitStep(s, sep);
      IndexCut(s, sep);
      CountAround(s[..i], sep, t);
    }
  }

  /** With exactly one separator, nothing follows the first one. */
  lemma CountOneTail(s: string, sep: char)
    requires Count(s, sep) == 1
    ensures 0 <= Index(s, sep) && sep !in s[Index(s, sep) + 1..]
  {
    var i := Index(s, sep);
    var t := s[i + 1..];
    IndexCut(s, sep);
    CountAround(s[..i], sep, t);
  }

  /** With exactly one separator, `Split` cuts the string at it into two. */
  lemma SplitOnce(s: string, sep: char)
    requires Count(s, sep) == 1
    ensures sep in s
    ensures Split(s, sep) == [s[..Index(s, sep)], s[Index(s, sep) + 1..]]
  {
    CountOneTail(s, sep);
    var t := s[Index(s, sep) + 1..];
    assert Split(t, sep) == [t];
  }

  /** Two pieces free of `sep`, joined by one `sep`, split back into the two. */
  lemma SplitAtOne(a: string, b: string, sep: char)
    requires sep !in a && sep !in b
    ensures Split(a + [sep] + b, sep) == [a, b]
  {
    assert Join([b], sep) == b;
    assert Join([a, b], sep) == a + [sep] + b;
    SplitJoin([a, b], sep);
  }

  /** Joining more than one piece puts `sep` right before the last one. */
  lemma {:induction false} JoinLast(parts: seq<string>, sep: char)
    requires |parts| > 1
    ensures Join(parts, sep) == Join(parts[..|parts| - 1], sep) + [sep] + parts[|parts| - 1]
    decreases |parts|
  {
    if |parts| > 2 {
      var rest := parts[1..];
      JoinLast(rest, sep);
      assert parts[..|parts| - 1] == [parts[0]] + rest[..|rest| - 1];
      JoinCons(parts[0], sep, rest[..|rest| - 1]);
    }
  }

  /** `strings.SplitN(s, sep, n)`: at most `n` pieces, the last one holding the
      unsplit remainder; no pieces at all for `n == 0`. */
  function SplitN(s: string, sep: char, n: nat): (parts: seq<string>)
    ensures |parts| <= n
    ensures n > 0 ==> |parts| >= 1
    decreases n
  {
    if n == 0 then []
    else
      var i := Index(s, sep);
      if n == 1 || i < 0 then [s]
      else [s[..i]] + SplitN(s[i + 1..], sep, n - 1)
  }

  /** One step of `SplitN` with room for more than one piece. */
  lemma SplitNStep(s: string, sep: char, n: nat)
    requires n > 1 && 0 <= Index(s, sep)
    ensures SplitN(s, sep, n) == [s[..Index(s, sep)]] + SplitN(s[Index(s, sep) + 1..], sep, n - 1)
  {
  }

  /** `SplitN(s, sep, 2)` cuts at the first separator, if there is one; the
      second piece may contain further separators. */
  lemma SplitFirst(s: string, sep: char)
    ensures var parts := SplitN(s, sep, 2);
            (sep !in s ==> parts == [s]) &&
            (sep in s ==> |parts| == 2 && sep !in parts[0] && s == parts[0] + [sep] + parts[1])
  {
    var i := Index(s, sep);
    if i >= 0 {
      SplitNStep(s, sep, 2);
      IndexCut(s, sep);
    }
  }

  /** Joining the two pieces of `SplitN(s, sep, 2)` gives `s` back. */
  lemma JoinSplitFirst(s: string, sep: char)
    ensures Join(SplitN(s, sep, 2), sep) == s
  {
    SplitFirst(s, sep);
    var parts := SplitN(s, sep, 2);
    if |parts| == 2 {
      assert Join(parts, sep) == parts[0] + [sep] + Join(parts[1..], sep);
    }
  }

  /** Cut at a known first separator, `SplitN(_, sep, 2)` gives the two sides. */
  lemma SplitNAtFirst(p: string, sep: char, e: string)
    requires sep !in p
    ensures SplitN(p + [sep] + e, sep, 2) == [p, e]
  {
    var s := p + [sep] + e;
    IndexAfterPrefix(p, sep, e);
    assert s[..|p|] == p;
    assert s[|p| + 1..] == e;
  }

  /** `strings.ReplaceAll(s, c, "")`: `s` with every `c` taken out, the other
      characters kept in order. */
  function RemoveAll(s: string, c: char): (r: string)
    ensures |r| + Count(s, c) == |s|
  {
    if s == [] then [] else (if s[0] == c then [] else [s[0]]) + RemoveAll(s[1..], c)
  }

  /** No `c` is left. */
  lemma RemoveAllRemoves(s: string, c: char)
    ensures c !in RemoveAll(s, c)
  {
    RemoveAllCount(s, c, c);
  }

  /** Only `c` is removed: every other character occurs as often as before. */
  lemma {:induction false} RemoveAllCount(s: string, c: char, d: char)
    ensures Count(RemoveAll(s, c), d) == if d == c then 0 else Count(s, d)
  {
    if s != [] {
      RemoveAllCount(s[1..], c, d);
      CountConcat(if s[0] == c then [] else [s[0]], RemoveAll(s[1..], c), d);
      if s[0] != c {
        assert [s[0]][1..] == [];
      }
    }
  }

  /** Removal works piece by piece, so the order of what is kept is the order of `s`. */
  lemma {:induction false} RemoveAllConcat(a: string, b: string, c: char)
    ensures RemoveAll(a + b, c) == RemoveAll(a, c) + RemoveAll(b, c)
  {
    if a == [] {
      assert a + b == b;
    } else {
      assert (a + b)[1..] == a[1..] + b;
      RemoveAllConcat(a[1..], b, c);
    }
  }

  /** Removing `c` from `a + [c] + b`, where neither side holds `c`, glues the sides. */
  lemma RemoveAllOne(a: string, c: char, b: string)
    requires c !in a && c !in b
    ensures RemoveAll(a + [c] + b, c) == a + b
  {
    RemoveAllConcat(a + [c], b, c);
    RemoveAllConcat(a, [c], c);
    assert RemoveAll([c], c) == [] by {
      assert [c][1..] == [];
    }
    RemoveAllAbsent(a, c);
    assert RemoveAll(a + [c], c) == a;
    RemoveAllAbsent(b, c);
  }

  /** Removing `c` around a kept character `d` works on each side. */
  lemma RemoveAllAround(a: string, d: char, b: string, c: char)
    requires d != c
    ensures RemoveAll(a + [d] + b, c) == RemoveAll(a, c) + [d] + RemoveAll(b, c)
  {
    RemoveAllConcat(a + [d], b, c);
    RemoveAllConcat(a, [d], c);
    assert RemoveAll([d], c) == [d] by {
      assert [d][1..] == [];
    }
  }

  /** A string without `c` is left as it is; in particular removal is idempotent. */
  lemma {:induction false} RemoveAllAbsent(s: string, c: char)
    requires c !in s
    ensures RemoveAll(s, c) == s
  {
    if s != [] {
      RemoveAllAbsent(s[1..], c);
    }
  }

  /** `s` with its leading white space removed. */
  function TrimLeftSpace(s: string): (r: string)
    ensures |r| <= |s| && r == s[|s| - |r|..]
    ensures forall k :: 0 <= k < |s| - |r| ==> IsSpace(s[k])
    ensures r != [] ==> !IsSpace(r[0])
  {
    if s != [] && IsSpace(s[0]) then TrimLeftSpace(s[1..]) else s
  }

  /** `s` with its trailing white space removed. */
  function TrimRightSpace(s: string): (r: string)
    ensures |r| <= |s| && r == s[..|r|]
    ensures forall k :: |r| <= k < |s| ==> IsSpace(s[k])
    ensures r != [] ==> !IsSpace(r[|r| - 1])
  {
    if s != [] && IsSpace(s[|s| - 1]) then TrimRightSpace(s[..|s| - 1]) else s
  }

  /** `strings.TrimSpace`: `s` without its leading and trailing white space. */
  function TrimSpace(s: string): (r: string)
    ensures r == [] || (!IsSpace(r[0]) && !IsSpace(r[|r| - 1]))
  {
    TrimRightSpace(TrimLeftSpace(s))
  }

  predicate AllSpace(s: string) {
    forall k :: 0 <= k < |s| ==> IsSpace(s[k])
  }

  /** `TrimLeftSpace(s)` is `s` with some white space `a` cut from its start. */
  lemma TrimLeftCut(s: string) returns (a: string)
    ensures AllSpace(a) && s == a + TrimLeftSpace(s)
  {
    var l := TrimLeftSpace(s);
    a := s[..|s| - |l|];
    assert s == a + s[|s| - |l|..];
    forall k | 0 <= k < |a|
      ensures IsSpace(a[k])
    {
      assert a[k] == s[k];
    }
  }

  /** `TrimRightSpace(s)` is `s` with some white space `b` cut from its end. */
  lemma TrimRightCut(s: string) returns (b: string)
    ensures AllSpace(b) && s == TrimRightSpace(s) + b
  {
    var r := TrimRightSpace(s);
    b := s[|r|..];
    forall k | 0 <= k < |b|
      ensures IsSpace(b[k])
    {
      assert b[k] == s[|r| + k];
    }
  }

  /** `TrimSpace(s)` is `s` with some white space `a` cut from its start and
      some `b` from its end. */
  lemma TrimSpaceCuts(s: string) returns (a: string, b: string)
    ensures AllSpace(a) && AllSpace(b) && s == a + TrimSpace(s) + b
  {
    a := TrimLeftCut(s);
    b := TrimRightCut(TrimLeftSpace(s));
  }

  /** Trimming keeps every other character: `c` occurs as often after it. */
  lemma TrimSpaceCount(s: string, c: char)
    requires !IsSpace(c)
    ensures Count(TrimSpace(s), c) == Count(s, c)
  {
    var a, b := TrimSpaceCuts(s);
    CountConcat(a + TrimSpace(s), b, c);
    CountConcat(a, TrimSpace(s), c);
    assert c !in a && c !in b;
  }

  /** ... and exactly as much as is there: any such cut whose middle starts and
      ends with a non-space character, or is empty, is what `TrimSpace` gives. */
  lemma TrimSpaceUnique(a: string, m: string, b: string)
    requires AllSpace(a) && AllSpace(b)
    requires m == [] || (!IsSpace(m[0]) && !IsSpace(m[|m| - 1]))
    ensures TrimSpace(a + m + b) == m
  {
    if m == [] {
      assert a + m + b == (a + b) + [];
      assert AllSpace(a + b) by {
        forall k | 0 <= k < |a + b|
          ensures IsSpace((a + b)[k])
        {
          if k >= |a| {
            assert (a + b)[k] == b[k - |a|];
          }
        }
      }
      TrimLeftUnique(a + b, []);
    } else {
      assert a + m + b == a + (m + b);
      TrimLeftUnique(a, m + b);
      TrimRightUnique(m, b);
    }
  }

  /** The leading trim removes exactly a white-space prefix before a non-space. */
  lemma {:induction false} TrimLeftUnique(a: string, m: string)
    requires AllSpace(a)
    requires m == [] || !IsSpace(m[0])
    ensures TrimLeftSpace(a + m) == m
  {
    if a == [] {
      assert a + m == m;
    } else {
      assert (a + m)[0] == a[0];
      assert (a + m)[1..] == a[1..] + m;
      TrimLeftUnique(a[1..], m);
    }
  }

  /** The trailing trim removes exactly a white-space suffix after a non-space. */
  lemma {:induction false} TrimRightUnique(m: string, b: string)
    requires AllSpace(b)
    requires m == [] || !IsSpace(m[|m| - 1])
    ensures TrimRightSpace(m + b) == m
    decreases |b|
  {
    if b == [] {
      assert m + b == m;
    } else {
      var s := m + b;
      assert s[|s| - 1] == b[|b| - 1];
      assert s[..|s| - 1] == m + b[..|b| - 1];
      TrimRightUnique(m, b[..|b| - 1]);
    }
  }

  /** Trimming twice is trimming once. */
  lemma TrimSpaceIdempotent(s: string)
    ensures TrimSpace(TrimSpace(s)) == TrimSpace(s)
  {
    var m := TrimSpace(s);
    assert TrimLeftSpace(m) == m;
    assert TrimRightSpace(m) == m;
  }
}
