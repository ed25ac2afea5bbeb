/**
 * The JavaScript string and regular-expression operations that the masking
 * engine is built from, written as total functions on strings:
 *
 *   s.replace(/\D/g, '')              Digits(s)
 *   s.replace(/(\d*)/g, '')           NonDigits(s)
 *   s.split(c).join('')               Strip(s, c)
 *   s.match(/.{1,n}/g)                Chunks(s, n)
 *   chunks.join(c)                    Join(chunks, c)
 *   s.match(/.{1,n}/g)?.join(c) || '' Grouped(s, n, c)
 *   s.toLocaleUpperCase()             UpperAscii(s)   (ASCII letters only)
 *   d.match(/^(\d{0,k1})...(\d{0,km})$/)  GreedySplit(d, [k1, ..., km])
 */
module StringOps {

  datatype Option<+T> = None | Some(value: T)

  function Min(a: int, b: int): int { if a < b then a else b }

  /** `\d` of a JavaScript regular expression without the `u` flag: the ASCII digits only. */
  predicate IsDigit(c: char) { '0' <= c <= '9' }

  predicate AllDigits(s: string) { forall i :: 0 <= i < |s| ==> IsDigit(s[i]) }

  // ---------------------------------------------------------------------------
  // Removing characters: `replace(/class/g, '')` and `split(c).join('')`
  // ---------------------------------------------------------------------------

  /**
   * The characters of `s` that satisfy `keep`, in their original order. Every
   * `replace` of the engine whose pattern matches single characters (or runs of
   * them) and replaces them by the empty string is an instance.
   */
  function Filter(keep: char -> bool, s: string): (r: string)
    ensures |r| <= |s|
    ensures forall i :: 0 <= i < |r| ==> keep(r[i])
  {
    if s == [] then [] else (if keep(s[0]) then [s[0]] else []) + Filter(keep, s[1..])
  }

  /** Nothing kept is lost or invented: every kept character occurs as often as in `s`, every dropped one not at all. */
  lemma {:induction false} FilterCounts(keep: char -> bool, s: string, c: char)
    ensures multiset(Filter(keep, s))[c] == if keep(c) then multiset(s)[c] else 0
  {
    if s != [] {
      FilterCounts(keep, s[1..], c);
      assert s == [s[0]] + s[1..];
    }
  }

  /** `s.replace(/\D/g, '')`, also written `s.replace(/[^\d]/g, '')`. */
  function Digits(s: string): (r: string)
    ensures AllDigits(r) && |r| <= |s|
  {
    Filter(IsDigit, s)
  }

  /** `s.replace(/(\d*)/g, '')`: the empty matches of `\d*` remove nothing, the others remove every digit. */
  function NonDigits(s: string): (r: string)
    ensures forall i :: 0 <= i < |r| ==> !IsDigit(r[i])
    ensures |r| <= |s|
  {
    Filter(c => !IsDigit(c), s)
  }

  /** `s.split(sep).join('')` for a one-character separator: every occurrence of `sep` removed. */
  function Strip(s: string, sep: char): (r: string)
    ensures forall i :: 0 <= i < |r| ==> r[i] != sep
    ensures |r| <= |s|
  {
    Filter(c => c != sep, s)
  }

  /** Filtering distributes over concatenation: the kept characters stay in input order. */
  lemma {:induction false} FilterConcat(keep: char -> bool, a: string, b: string)
    ensures Filter(keep, a + b) == Filter(keep, a) + Filter(keep, b)
  {
    if a == [] {
      assert a + b == b;
    } else {
      assert (a + b)[1..] == a[1..] + b;
      FilterConcat(keep, a[1..], b);
    }
  }

  /** A string whose every character is kept comes out unchanged. */
  lemma {:induction false} FilterKeepsAll(keep: char -> bool, s: string)
    requires forall i :: 0 <= i < |s| ==> keep(s[i])
    ensures Filter(keep, s) == s
  {
    if s != [] {
      FilterKeepsAll(keep, s[1..]);
    }
  }

  /** Removing digits and then digits again changes nothing more: `Digits` is idempotent. */
  lemma DigitsIdempotent(s: string)
    ensures Digits(Digits(s)) == Digits(s)
  {
    FilterKeepsAll(IsDigit, Digits(s));
  }

  // ---------------------------------------------------------------------------
  // Cutting into chunks and joining: `match(/.{1,n}/g)` and `join(c)`
  // ---------------------------------------------------------------------------

  function Concat(ss: seq<string>): string
  {
    if ss == [] then [] else ss[0] + Concat(ss[1..])
  }

  /**
   * `s.match(/.{1,n}/g)`: the global match takes, left to right, the longest
   * run of at most `n` characters each time. JavaScript returns `null` when
   * there is no match at all, which happens exactly when `s` is empty; that
   * case is the empty sequence here.
   */
  function Chunks(s: string, n: nat): (r: seq<string>)
    requires n > 0
    ensures Concat(r) == s
    ensures forall i :: 0 <= i < |r| ==> 0 < |r[i]| <= n
    ensures forall i :: 0 <= i < |r| - 1 ==> |r[i]| == n
    ensures r == [] <==> s == []
    decreases |s|
  {
    if s == [] then []
    else if |s| <= n then [s]
    else
      var rest := Chunks(s[n..], n);
      assert ([s[..n]] + rest)[1..] == rest;
      [s[..n]] + rest
  }

  /** `chunks.join(sep)` for a one-character separator. */
  function Join(chunks: seq<string>, sep: char): string
  {
    if chunks == [] then []
    else if |chunks| == 1 then chunks[0]
    else chunks[0] + [sep] + Join(chunks[1..], sep)
  }

  /**
   * `s.match(/.{1,n}/g)?.join(sep) || ''`: `s` cut into chunks of `n`, joined
   * by `sep`; the empty string when there is nothing to match. Written as one
   * chunk, the separator and the grouping of the rest; `GroupedJoinsChunks`
   * shows it is the match followed by the join.
   */
  function Grouped(s: string, n: nat, sep: char): (r: string)
    requires n > 0
    ensures r == [] <==> s == []
    decreases |s|
  {
    if |s| <= n then s else s[..n] + [sep] + Grouped(s[n..], n, sep)
  }

  /** The grouping is `Join` applied to the `Chunks` of the text, or empty when there are none. */
  lemma {:induction false} GroupedJoinsChunks(s: string, n: nat, sep: char)
    requires n > 0
    ensures Grouped(s, n, sep) == if Chunks(s, n) == [] then [] else Join(Chunks(s, n), sep)
    decreases |s|
  {
    if |s| > n {
      var rest := Chunks(s[n..], n);
      GroupedJoinsChunks(s[n..], n, sep);
      assert rest != [];
      assert Chunks(s, n) == [s[..n]] + rest;
      assert ([s[..n]] + rest)[1..] == rest;
    }
  }

  /** A string of at most `n` characters is its own single chunk. */
  lemma GroupedShort(s: string, n: nat, sep: char)
    requires 0 < n && |s| <= n
    ensures Grouped(s, n, sep) == s
  {
  }

  /** A longer string is its first chunk, the separator, and the grouping of the rest. */
  lemma GroupedSplit(s: string, n: nat, sep: char)
    requires 0 < n < |s|
    ensures Grouped(s, n, sep) == s[..n] + [sep] + Grouped(s[n..], n, sep)
  {
  }

  lemma DivStep(x: int, m: int)
    requires x >= m > 0
    ensures (x - m) / m == x / m - 1
    ensures (x - m) % m == x % m
  {
    var q, r := x / m, x % m;
    assert x - m == m * (q - 1) + r;
    DivUnique(x - m, m, q - 1, r);
  }

  lemma {:induction false} MulAtLeast(m: int, a: int)
    requires m > 0 && a >= 1
    ensures m * a >= m
    decreases a
  {
    if a > 1 {
      MulAtLeast(m, a - 1);
      assert m * a == m * (a - 1) + m;
    }
  }

  /** Euclidean division is determined by its quotient-remainder equation. */
  lemma DivUnique(x: int, m: int, q: int, r: int)
    requires m > 0 && 0 <= r < m && x == m * q + r
    ensures x / m == q && x % m == r
  {
    var q', r' := x / m, x % m;
    assert m * (q - q') == r' - r;
    if q > q' {
      MulAtLeast(m, q - q');
    } else if q < q' {
      assert m * (q' - q) == r - r';
      MulAtLeast(m, q' - q);
    }
  }

  /** `q * w`, by repeated addition, so that the grouping lemmas stay within linear arithmetic. */
  function Stride(q: nat, w: nat): nat
  {
    if q == 0 then 0 else Stride(q - 1, w) + w
  }

  lemma {:induction false} StrideIsProduct(q: nat, w: nat)
    ensures Stride(q, w) == q * w
  {
    if q > 0 {
      StrideIsProduct(q - 1, w);
      assert q * w == (q - 1) * w + w;
    }
  }

  /**
   * Where everything lands in `Grouped(s, n, sep)`: position `i = q * (n + 1) + r`
   * of the display holds the separator when `r == n`, and character
   * `j = q * n + r` of `s` otherwise (`Stride(q, w)` is `q * w`).
   */
  lemma {:induction false} GroupedAt(s: string, n: nat, sep: char, q: nat, r: nat, i: nat, j: nat)
    requires n > 0 && r <= n
    requires i == Stride(q, n + 1) + r && j == Stride(q, n) + r
    requires i < |Grouped(s, n, sep)|
    ensures r < n ==> j < |s|
    ensures Grouped(s, n, sep)[i] == if r == n then sep else s[j]
    decreases q
  {
    if |s| <= n {
      assert q == 0;
    } else {
      var rest := Grouped(s[n..], n, sep);
      JoinedAt(s[..n], sep, rest, i);
      if q > 0 {
        GroupedAt(s[n..], n, sep, q - 1, r, i - (n + 1), j - n);
        if r < n {
          assert s[n..][j - n] == s[j];
        }
      }
    }
  }

  /** Indexing into `h + [sep] + rest`. */
  lemma JoinedAt(h: string, sep: char, rest: string, i: nat)
    requires i < |h| + 1 + |rest|
    ensures (h + [sep] + rest)[i] == if i < |h| then h[i] else if i == |h| then sep else rest[i - |h| - 1]
  {
  }

  /** A non-empty `s` grows by one separator per chunk boundary: `(|s| - 1) / n` of them. */
  lemma {:induction false} GroupedLength(s: string, n: nat, sep: char)
    requires n > 0
    ensures |Grouped(s, n, sep)| == if s == [] then 0 else |s| + (|s| - 1) / n
    decreases |s|
  {
    if s != [] {
      if |s| <= n {
        GroupedShort(s, n, sep);
        DivUnique(|s| - 1, n, 0, |s| - 1);
      } else {
        GroupedSplit(s, n, sep);
        GroupedLength(s[n..], n, sep);
        DivStep(|s| - 1, n);
      }
    }
  }

  /** Grouping a string whose first part fills `q` whole chunks: the two parts are grouped apart and joined by `sep`. */
  lemma {:induction false} GroupedAppend(a: string, b: string, n: nat, sep: char, q: nat)
    requires n > 0 && q > 0 && |a| == Stride(q, n) && b != []
    ensures Grouped(a + b, n, sep) == Grouped(a, n, sep) + [sep] + Grouped(b, n, sep)
    decreases q
  {
    GroupedSplit(a + b, n, sep);
    assert (a + b)[..n] == a[..n];
    assert (a + b)[n..] == a[n..] + b;
    if q == 1 {
      assert a[n..] == [];
      GroupedShort(a, n, sep);
    } else {
      GroupedSplit(a, n, sep);
      GroupedAppend(a[n..], b, n, sep, q - 1);
    }
  }

  /** A filter that drops the separator sees through the grouping. */
  lemma {:induction false} GroupedFilter(keep: char -> bool, s: string, n: nat, sep: char)
    requires n > 0 && !keep(sep)
    ensures Filter(keep, Grouped(s, n, sep)) == Filter(keep, s)
    decreases |s|
  {
    if |s| <= n {
      GroupedShort(s, n, sep);
    } else {
      GroupedSplit(s, n, sep);
      var head, tail := s[..n], s[n..];
      var rest := Grouped(tail, n, sep);
      GroupedFilter(keep, tail, n, sep);
      FilterConcat(keep, head + [sep], rest);
      FilterConcat(keep, head, [sep]);
      assert Filter(keep, [sep]) == [];
      FilterConcat(keep, head, tail);
      assert head + tail == s;
    }
  }

  /** Round trip: removing the separator from `Grouped(s, n, sep)` gives `s` back, provided `s` never contains it. */
  lemma GroupedStrip(s: string, n: nat, sep: char)
    requires n > 0
    requires forall i :: 0 <= i < |s| ==> s[i] != sep
    ensures Strip(Grouped(s, n, sep), sep) == s
  {
    GroupedFilter(c => c != sep, s, n, sep);
    FilterKeepsAll(c => c != sep, s);
  }

  // ---------------------------------------------------------------------------
  // Upper-casing
  // ---------------------------------------------------------------------------

  /** Upper-casing of one character, restricted to ASCII: 'a'..'z' become 'A'..'Z'. */
  function UpperChar(c: char): char
  {
    if 'a' <= c <= 'z' then (c as int - 32) as char else c
  }

  /** `s.toLocaleUpperCase()`, as ASCII upper-casing. */
  function UpperAscii(s: string): (r: string)
    ensures |r| == |s|
    ensures forall i :: 0 <= i < |s| ==> r[i] == UpperChar(s[i])
    ensures forall i :: 0 <= i < |r| ==> !('a' <= r[i] <= 'z')
    ensures forall i :: 0 <= i < |r| ==> (IsDigit(r[i]) <==> IsDigit(s[i]))
  {
    if s == [] then [] else [UpperChar(s[0])] + UpperAscii(s[1..])
  }

  // ---------------------------------------------------------------------------
  // The anchored, greedy group match `^(\d{0,k1})(\d{0,k2})...(\d{0,km})$`
  // ---------------------------------------------------------------------------

  function Sum(sizes: seq<nat>): nat
  {
    if sizes == [] then 0 else sizes[0] + Sum(sizes[1..])
  }

  /** The captures `g` are one way for the anchored pattern with group bounds `sizes` to match all of `d`. */
  ghost predicate Fits(d: string, sizes: seq<nat>, g: seq<string>)
  {
    && |g| == |sizes|
    && Concat(g) == d
    && forall i :: 0 <= i < |g| ==> |g[i]| <= sizes[i]
  }

  /** No capture falls short of its bound while a later capture holds something: the one a backtracking matcher tries first. */
  ghost predicate Greedy(sizes: seq<nat>, g: seq<string>)
  {
    && |g| == |sizes|
    && forall i, j :: 0 <= i < j < |g| && g[j] != [] ==> |g[i]| == sizes[i]
  }

  /**
   * The captures of `d.match(/^(\d{0,k1})...(\d{0,km})$/)` on a digit string
   * `d`: each group takes as many leading characters as it may; `None` (the
   * `null` of JavaScript) when the groups cannot hold all of `d`.
   */
  function GreedySplit(d: string, sizes: seq<nat>): (r: Option<seq<string>>)
    ensures r.Some? <==> |d| <= Sum(sizes)
    ensures r.Some? ==> |r.value| == |sizes|
    decreases sizes
  {
    if sizes == [] then
      if d == [] then Some([]) else None
    else
      var k := Min(|d|, sizes[0]);
      match GreedySplit(d[k..], sizes[1..])
      case None => None
      case Some(rest) => Some([d[..k]] + rest)
  }

  /** The captures `GreedySplit` returns are a match, and the greedy one. */
  lemma {:induction false} GreedySplitMatches(d: string, sizes: seq<nat>)
    requires GreedySplit(d, sizes).Some?
    ensures Fits(d, sizes, GreedySplit(d, sizes).value)
    ensures Greedy(sizes, GreedySplit(d, sizes).value)
    decreases sizes
  {
    if sizes != [] {
      var k := Min(|d|, sizes[0]);
      GreedySplitMatches(d[k..], sizes[1..]);
      var rest := GreedySplit(d[k..], sizes[1..]).value;
      assert GreedySplit(d, sizes).value == [d[..k]] + rest;
      assert ([d[..k]] + rest)[1..] == rest;
      assert d[..k] + d[k..] == d;
      GreedyCons(d[..k], sizes, rest);
    }
  }

  lemma {:induction false} ConcatAllEmpty(g: seq<string>)
    requires forall j :: 0 <= j < |g| ==> g[j] == []
    ensures Concat(g) == []
  {
    if g != [] {
      ConcatAllEmpty(g[1..]);
    }
  }

  lemma {:induction false} ConcatHolds(g: seq<string>, j: nat)
    requires j < |g|
    ensures |g[j]| <= |Concat(g)|
  {
    if j > 0 {
      ConcatHolds(g[1..], j - 1);
    }
  }

  /** Extending a greedy split of the rest by a first capture that is full, or followed by nothing, keeps it greedy. */
  lemma GreedyCons(first: string, sizes: seq<nat>, rest: seq<string>)
    requires |sizes| > 0 && Greedy(sizes[1..], rest)
    requires |first| == sizes[0] || Concat(rest) == []
    ensures Greedy(sizes, [first] + rest)
  {
    var g := [first] + rest;
    forall i, j | 0 <= i < j < |g| && g[j] != []
      ensures |g[i]| == sizes[i]
    {
      if i == 0 {
        ConcatHolds(rest, j - 1);
      } else {
        assert g[j] == rest[j - 1];
      }
    }
  }

  /** Every way the pattern can match fits within the sum of the bounds, so `None` means no match at all. */
  lemma {:induction false} FitsWithinSum(d: string, sizes: seq<nat>, g: seq<string>)
    requires Fits(d, sizes, g)
    ensures |d| <= Sum(sizes)
    decreases sizes
  {
    if sizes != [] {
      assert Fits(Concat(g[1..]), sizes[1..], g[1..]);
      FitsWithinSum(Concat(g[1..]), sizes[1..], g[1..]);
    }
  }

  /** When `GreedySplit` finds no captures, no assignment of captures matches. */
  lemma NoSplitMeansNoMatch(d: string, sizes: seq<nat>, g: seq<string>)
    requires GreedySplit(d, sizes).None?
    ensures !Fits(d, sizes, g)
  {
    if Fits(d, sizes, g) {
      FitsWithinSum(d, sizes, g);
    }
  }

  /** The greedy split is the only greedy match: any captures that fit and are greedy are the ones `GreedySplit` returns. */
  lemma {:induction false} GreedySplitUnique(d: string, sizes: seq<nat>, g: seq<string>)
    requires Fits(d, sizes, g) && Greedy(sizes, g)
    ensures GreedySplit(d, sizes) == Some(g)
    decreases sizes
  {
    if sizes != [] {
      var k := Min(|d|, sizes[0]);
      assert d == g[0] + Concat(g[1..]);
      if |g[0]| < sizes[0] {
        forall j | 0 <= j < |g[1..]|
          ensures g[1..][j] == []
        {
          assert g[1..][j] == g[j + 1];
        }
        ConcatAllEmpty(g[1..]);
      }
      assert |g[0]| == k;
      assert d[..k] == g[0] && d[k..] == Concat(g[1..]);
      assert Greedy(sizes[1..], g[1..]) by {
        forall i, j | 0 <= i < j < |g[1..]| && g[1..][j] != []
          ensures |g[1..][i]| == sizes[1..][i]
        {
          assert g[j + 1] != [];
        }
      }
      GreedySplitUnique(d[k..], sizes[1..], g[1..]);
      assert g == [g[0]] + g[1..];
    }
  }
}
