/**
 * The parts of java.lang.String the linker relies on: trim(), split(regex) with a
 * regex that is a single character class, and equalsIgnoreCase against a lower-case
 * ASCII literal. Strings are sequences of characters.
 */
module JavaStrings {

  /** trim() strips every character whose code is at most U+0020, not only spaces. */
  predicate IsTrimmable(c: char)
  {
    c <= ' '
  }

  /** Every character of s is one that trim() strips. */
  predicate IsBlank(s: string)
  {
    forall k :: 0 <= k < |s| ==> IsTrimmable(s[k])
  }

  /** How many strippable characters s starts with. */
  function LeadCount(s: string): (n: nat)
    ensures n <= |s|
    ensures forall k :: 0 <= k < n ==> IsTrimmable(s[k])
    ensures n < |s| ==> !IsTrimmable(s[n])
  {
    if s != [] && IsTrimmable(s[0]) then
      var n := LeadCount(s[1..]);
      assert forall k :: 1 <= k < n + 1 ==> s[k] == s[1..][k - 1];
      n + 1
    else 0
  }

  /** How many strippable characters s ends with. */
  function TrailCount(s: string): (n: nat)
    ensures n <= |s|
    ensures forall k :: |s| - n <= k < |s| ==> IsTrimmable(s[k])
    ensures n < |s| ==> !IsTrimmable(s[|s| - n - 1])
  {
    if s != [] && IsTrimmable(s[|s| - 1]) then
      var n := TrailCount(s[..|s| - 1]);
      assert forall k :: |s| - 1 - n <= k < |s| - 1 ==> s[k] == s[..|s| - 1][k];
      n + 1
    else 0
  }

  /** String.trim(): the leading strippable characters are skipped, then the trailing ones
      are cut from what is left. The result is empty exactly when s is blank, and
      otherwise starts and ends with a character trim() keeps. */
  function Trim(s: string): (t: string)
    ensures |t| <= |s|
    ensures t == [] <==> IsBlank(s)
    ensures t != [] ==> !IsTrimmable(t[0]) && !IsTrimmable(t[|t| - 1])
  {
    var start := LeadCount(s);
    if start == |s| then []
    else
      var stop := |s| - TrailCount(s);
      assert start < stop;
      assert s[start..stop][0] == s[start] && s[start..stop][stop - start - 1] == s[stop - 1];
      s[start..stop]
  }

  /** trim() keeps one contiguous slice of s, starting after its leading strippable
      characters. */
  lemma TrimSlice(s: string)
    ensures LeadCount(s) + |Trim(s)| <= |s|
    ensures Trim(s) == s[LeadCount(s)..LeadCount(s) + |Trim(s)|]
  {
    var i := LeadCount(s);
    if i < |s| {
      assert i < |s| - TrailCount(s);
    }
  }

  /** What trim() drops on either side of the slice it keeps is all strippable. */
  lemma TrimDropsOnlyBlank(s: string)
    ensures LeadCount(s) + |Trim(s)| <= |s|
    ensures IsBlank(s[..LeadCount(s)]) && IsBlank(s[LeadCount(s) + |Trim(s)|..])
  {
    TrimSlice(s);
    var i := LeadCount(s);
    assert IsBlank(s[..i]) by {
      forall k | 0 <= k < i ensures IsTrimmable(s[..i][k]) {
        assert s[..i][k] == s[k];
      }
    }
    var j := i + |Trim(s)|;
    assert j == |s| || j == |s| - TrailCount(s);
    assert IsBlank(s[j..]) by {
      forall k | 0 <= k < |s| - j ensures IsTrimmable(s[j..][k]) {
        assert s[j..][k] == s[j + k];
      }
    }
  }

  /** trim() is the identity on a string that neither starts nor ends with a strippable character. */
  lemma TrimOfTrimmed(s: string)
    requires s != [] && !IsTrimmable(s[0]) && !IsTrimmable(s[|s| - 1])
    ensures Trim(s) == s
  {
    assert LeadCount(s) == 0 && TrailCount(s) == 0;
  }

  /** Trimming twice is trimming once. */
  lemma TrimIdempotent(s: string)
    ensures Trim(Trim(s)) == Trim(s)
  {
    if Trim(s) != [] {
      TrimOfTrimmed(Trim(s));
    }
  }

  /** LeadCount is the position of the first character trim() keeps. */
  lemma LeadCountIs(s: string, n: nat)
    requires n <= |s| && forall k :: 0 <= k < n ==> IsTrimmable(s[k])
    requires n < |s| ==> !IsTrimmable(s[n])
    ensures LeadCount(s) == n
  {
  }

  /** TrailCount is the number of characters after the last one trim() keeps. */
  lemma TrailCountIs(s: string, n: nat)
    requires n <= |s| && forall k :: |s| - n <= k < |s| ==> IsTrimmable(s[k])
    requires n < |s| ==> !IsTrimmable(s[|s| - n - 1])
    ensures TrailCount(s) == n
  {
  }

  /** trim() keeps s from position i on: every character before i is strippable and the
      one at i is not. */
  predicate StartsKeptAt(s: string, i: nat)
  {
    i < |s| && (forall k :: 0 <= k < i ==> IsTrimmable(s[k])) && !IsTrimmable(s[i])
  }

  /** trim() keeps s up to position j: every character from j on is strippable and the
      one before j is not. */
  predicate EndsKeptAt(s: string, j: nat)
  {
    0 < j <= |s| && (forall k :: j <= k < |s| ==> IsTrimmable(s[k])) && !IsTrimmable(s[j - 1])
  }

  /** trim() of s is the slice between its first and its last kept character. */
  lemma TrimOfBounds(s: string, i: nat, j: nat)
    requires StartsKeptAt(s, i) && EndsKeptAt(s, j)
    ensures i < j && Trim(s) == s[i..j]
  {
    LeadCountIs(s, i);
    TrailCountIs(s, |s| - j);
  }

  /** A string that is not blank has a first and a last kept character. */
  lemma KeptBounds(s: string) returns (i: nat, j: nat)
    requires !IsBlank(s)
    ensures StartsKeptAt(s, i) && EndsKeptAt(s, j) && i < j && Trim(s) == s[i..j]
  {
    i := LeadCount(s);
    j := |s| - TrailCount(s);
    TrimOfBounds(s, i, j);
  }

  /** Trimming any slice of s that contains the part trim() keeps gives what trimming s
      gives. */
  lemma TrimOfSlice(s: string, i: nat, j: nat, p: nat, q: nat)
    requires StartsKeptAt(s, i) && EndsKeptAt(s, j) && p <= i && j <= q <= |s|
    ensures Trim(s[p..q]) == Trim(s)
  {
    TrimOfBounds(s, i, j);
    SliceKeeps(s, i, j, p, q);
    TrimOfBounds(s[p..q], i - p, j - p);
    SliceOfSlice(s, i, j, p, q);
  }

  /** A slice of a slice is a slice of the whole. */
  lemma SliceOfSlice(s: string, i: nat, j: nat, p: nat, q: nat)
    requires p <= i <= j <= q <= |s|
    ensures s[p..q][i - p..j - p] == s[i..j]
  {
    var v := s[p..q][i - p..j - p];
    assert forall k :: 0 <= k < |v| ==> v[k] == s[i + k];
  }

  /** A slice of s that contains the part trim() keeps starts and ends it at the same
      characters. */
  lemma SliceKeeps(s: string, i: nat, j: nat, p: nat, q: nat)
    requires StartsKeptAt(s, i) && EndsKeptAt(s, j) && p <= i && j <= q <= |s|
    ensures StartsKeptAt(s[p..q], i - p) && EndsKeptAt(s[p..q], j - p)
  {
    var u := s[p..q];
    assert forall k :: 0 <= k < |u| ==> u[k] == s[p + k];
  }

  /** Cutting i characters from the front and n from the back of x + m + z cuts them from
      x and from z. */
  lemma SliceOfConcat(x: string, m: string, z: string, i: nat, n: nat)
    requires i <= |x| && n <= |z|
    ensures (x + m + z)[i..|x| + |m| + |z| - n] == x[i..] + m + z[..|z| - n]
  {
    var s := x + m + z;
    var lhs := s[i..|s| - n];
    var rhs := x[i..] + m + z[..|z| - n];
    forall k | 0 <= k < |lhs| ensures lhs[k] == rhs[k] {
      if i + k < |x| {
        assert s[i + k] == x[i + k];
      } else if i + k < |x| + |m| {
        assert s[i + k] == m[i + k - |x|];
      } else {
        assert s[i + k] == z[i + k - |x| - |m|];
      }
    }
  }

  /** When trim() of x keeps it from i on and trim() of z keeps it up to j, trim() of
      x + m + z keeps x from i on, all of m, and z up to j. */
  lemma TrimAround(x: string, m: string, z: string, i: nat, j: nat)
    requires StartsKeptAt(x, i) && EndsKeptAt(z, j)
    ensures Trim(x + m + z) == x[i..] + m + z[..j]
  {
    KeptAround(x, m, z, i, j);
    TrimOfBounds(x + m + z, i, |x| + |m| + j);
    SliceOfConcat(x, m, z, i, |z| - j);
  }

  /** Where trim() of x starts and trim() of z ends, trim() of x + m + z starts and ends. */
  lemma KeptAround(x: string, m: string, z: string, i: nat, j: nat)
    requires StartsKeptAt(x, i) && EndsKeptAt(z, j)
    ensures StartsKeptAt(x + m + z, i) && EndsKeptAt(x + m + z, |x| + |m| + j)
  {
    var s := x + m + z;
    assert forall k :: 0 <= k < |x| ==> s[k] == x[k];
    assert forall k :: 0 <= k < |z| ==> s[|x| + |m| + k] == z[k];
  }

  /** When trim() of x keeps it from i on, m ends with a kept character and z is blank,
      trim() of x + m + z keeps x from i on and all of m. */
  lemma TrimBlankTail(x: string, m: string, z: string, i: nat)
    requires StartsKeptAt(x, i) && m != [] && !IsTrimmable(m[|m| - 1]) && IsBlank(z)
    ensures Trim(x + m + z) == x[i..] + m
  {
    var s := x + m + z;
    assert forall k :: 0 <= k < |x| ==> s[k] == x[k];
    assert StartsKeptAt(s, i);
    assert forall k :: 0 <= k < |z| ==> s[|x| + |m| + k] == z[k];
    assert s[|x| + |m| - 1] == m[|m| - 1];
    assert EndsKeptAt(s, |x| + |m|);
    TrimOfBounds(s, i, |x| + |m|);
    SliceOfConcat(x, m, z, i, |z|);
    assert z[..0] == [];
    assert x[i..] + m + [] == x[i..] + m;
  }

  // ---------------------------------------------------------------------------
  // split

  /** No character of p is a delimiter. */
  predicate DelimiterFree(p: string, delims: set<char>)
  {
    forall k :: 0 <= k < |p| ==> p[k] !in delims
  }

  /** The number of delimiter characters in s. */
  function CountDelims(s: string, delims: set<char>): nat
  {
    if s == [] then 0 else (if s[0] in delims then 1 else 0) + CountDelims(s[1..], delims)
  }

  /** A string holds no delimiter exactly when it counts none. */
  lemma {:induction false} NoDelimsIffFree(s: string, delims: set<char>)
    ensures CountDelims(s, delims) == 0 <==> DelimiterFree(s, delims)
    decreases |s|
  {
    if s != [] {
      NoDelimsIffFree(s[1..], delims);
      assert forall k :: 1 <= k < |s| ==> s[k] == s[1..][k - 1];
    }
  }

  /** The maximal delimiter-free pieces of s, in order, empty pieces included:
      one more piece than there are delimiters. */
  function Pieces(s: string, delims: set<char>): (ps: seq<string>)
    ensures |ps| == CountDelims(s, delims) + 1
    ensures forall k :: 0 <= k < |ps| ==> DelimiterFree(ps[k], delims)
  {
    if s == [] then [[]]
    else
      var ps := Pieces(s[1..], delims);
      if s[0] in delims then [[]] + ps
      else
        assert forall k :: 1 <= k < |ps| ==> ([[s[0]] + ps[0]] + ps[1..])[k] == ps[k];
        [[s[0]] + ps[0]] + ps[1..]
  }

  /** The list without its trailing empty strings. */
  function DropTrailingEmpty(ps: seq<string>): (r: seq<string>)
    ensures |r| <= |ps| && r == ps[..|r|]
    ensures forall k :: |r| <= k < |ps| ==> ps[k] == []
    ensures r != [] ==> r[|r| - 1] != []
  {
    if ps != [] && ps[|ps| - 1] == [] then DropTrailingEmpty(ps[..|ps| - 1]) else ps
  }

  /** String.split with a regex that matches exactly one character of delims and the
      default limit 0: a string without any delimiter is returned whole (even the empty
      string); otherwise its pieces, with trailing empty pieces removed. */
  function Split(s: string, delims: set<char>): (r: seq<string>)
    ensures |r| <= CountDelims(s, delims) + 1
    ensures forall k :: 0 <= k < |r| ==> DelimiterFree(r[k], delims)
    ensures CountDelims(s, delims) == 0 ==> r == [s]
    ensures CountDelims(s, delims) > 0 ==>
              && r == Pieces(s, delims)[..|r|]
              && (forall k :: |r| <= k < |Pieces(s, delims)| ==> Pieces(s, delims)[k] == [])
              && (r != [] ==> r[|r| - 1] != [])
  {
    if CountDelims(s, delims) == 0 then
      NoDelimsIffFree(s, delims);
      [s]
    else
      var ps := Pieces(s, delims);
      var r := DropTrailingEmpty(ps);
      assert forall k :: 0 <= k < |r| ==> r[k] == ps[k];
      r
  }

  /** Joins pieces with a single separator character. */
  function Join(ps: seq<string>, sep: char): string
  {
    if ps == [] then [] else if |ps| == 1 then ps[0] else ps[0] + [sep] + Join(ps[1..], sep)
  }

  /** With a single delimiter the pieces are an exact decomposition of s: joining them
      back with that delimiter gives s. */
  lemma {:induction false} PiecesJoin(s: string, d: char)
    ensures Join(Pieces(s, {d}), d) == s
    decreases |s|
  {
    if s != [] {
      var ps := Pieces(s[1..], {d});
      PiecesJoin(s[1..], d);
      if s[0] == d {
        assert ([[]] + ps)[1..] == ps;
        assert s == [] + [d] + s[1..];
      } else {
        var qs := [[s[0]] + ps[0]] + ps[1..];
        assert qs[1..] == ps[1..];
        if |ps| == 1 {
          assert s == [s[0]] + ps[0];
        } else {
          assert Join(ps, d) == ps[0] + [d] + Join(ps[1..], d);
          assert s == [s[0]] + (ps[0] + [d] + Join(ps[1..], d));
        }
      }
    }
  }

  /** Joining one more piece appends the separator and that piece. */
  lemma {:induction false} JoinSnoc(ps: seq<string>, p: string, sep: char)
    requires ps != []
    ensures Join(ps + [p], sep) == Join(ps, sep) + [sep] + p
    decreases |ps|
  {
    if |ps| > 1 {
      assert (ps + [p])[1..] == ps[1..] + [p];
      JoinSnoc(ps[1..], p, sep);
    }
  }

  /** Joining pieces that are all empty gives nothing but separators. */
  lemma {:induction false} JoinOfEmpties(ps: seq<string>, sep: char)
    requires forall k :: 0 <= k < |ps| ==> ps[k] == []
    ensures forall k :: 0 <= k < |Join(ps, sep)| ==> Join(ps, sep)[k] == sep
    decreases |ps|
  {
    if |ps| > 1 {
      JoinOfEmpties(ps[1..], sep);
      assert Join(ps, sep) == [sep] + Join(ps[1..], sep);
    }
  }

  /** Leaving trailing empty pieces out of a join leaves out separators only: the shorter
      join is a prefix of the longer one, and what follows it is all separators. */
  lemma {:induction false} JoinDropEmpty(ps: seq<string>, m: nat, sep: char)
    requires 1 <= m <= |ps|
    requires forall k :: m <= k < |ps| ==> ps[k] == []
    ensures |Join(ps[..m], sep)| <= |Join(ps, sep)|
    ensures Join(ps[..m], sep) == Join(ps, sep)[..|Join(ps[..m], sep)|]
    ensures forall k :: |Join(ps[..m], sep)| <= k < |Join(ps, sep)| ==> Join(ps, sep)[k] == sep
    decreases |ps|
  {
    if m < |ps| {
      var init := ps[..|ps| - 1];
      assert init[..m] == ps[..m];
      JoinDropEmpty(init, m, sep);
      assert ps == init + [[]];
      JoinSnoc(init, [], sep);
    } else {
      assert ps[..m] == ps;
    }
  }

  /** With a single delimiter, split returns a prefix of s joined back together, and the
      rest of s is delimiters only: the trailing empty fields that split drops. */
  lemma SplitJoin(s: string, d: char)
    ensures |Join(Split(s, {d}), d)| <= |s|
    ensures Join(Split(s, {d}), d) == s[..|Join(Split(s, {d}), d)|]
    ensures forall k :: |Join(Split(s, {d}), d)| <= k < |s| ==> s[k] == d
  {
    var r := Split(s, {d});
    if CountDelims(s, {d}) > 0 {
      var ps := Pieces(s, {d});
      PiecesJoin(s, d);
      if r == [] {
        JoinOfEmpties(ps, d);
      } else {
        JoinDropEmpty(ps, |r|, d);
      }
    }
  }

  /** Trimming cannot introduce a delimiter. */
  lemma TrimKeepsDelimiterFree(s: string, delims: set<char>)
    requires DelimiterFree(s, delims)
    ensures DelimiterFree(Trim(s), delims)
  {
    TrimSlice(s);
    var i := LeadCount(s);
    assert forall k :: 0 <= k < |Trim(s)| ==> Trim(s)[k] == s[i + k];
  }

  /** Splitting a delimiter-free prefix off: the pieces of p + [d] + rest are p followed by
      the pieces of rest. */
  lemma {:induction false} PiecesCons(p: string, d: char, delims: set<char>, rest: string)
    requires DelimiterFree(p, delims) && d in delims
    ensures Pieces(p + [d] + rest, delims) == [p] + Pieces(rest, delims)
    decreases |p|
  {
    var s := p + [d] + rest;
    if p == [] {
      assert s == [d] + rest && s[1..] == rest;
    } else {
      assert s[0] == p[0] && s[1..] == p[1..] + [d] + rest;
      assert DelimiterFree(p[1..], delims) by {
        assert forall k :: 0 <= k < |p[1..]| ==> p[1..][k] == p[k + 1];
      }
      PiecesCons(p[1..], d, delims, rest);
      assert [p[0]] + p[1..] == p;
    }
  }

  /** A string with no delimiter in it is a single piece. */
  lemma {:induction false} PiecesOfDelimiterFree(p: string, delims: set<char>)
    requires DelimiterFree(p, delims)
    ensures Pieces(p, delims) == [p]
    decreases |p|
  {
    if p != [] {
      assert DelimiterFree(p[1..], delims) by {
        assert forall k :: 0 <= k < |p[1..]| ==> p[1..][k] == p[k + 1];
      }
      PiecesOfDelimiterFree(p[1..], delims);
      assert [p[0]] + p[1..] == p;
    }
  }

  /** The split of a string whose pieces end with a non-empty one is all of its pieces. */
  lemma SplitOfPieces(s: string, delims: set<char>, ps: seq<string>)
    requires Pieces(s, delims) == ps && |ps| >= 2 && ps[|ps| - 1] != []
    ensures Split(s, delims) == ps
  {
  }

  /** Splitting two delimiter-free fields joined by a delimiter, the second non-empty,
      gives back the two fields. */
  lemma SplitTwo(a: string, b: string, d: char, delims: set<char>)
    requires DelimiterFree(a, delims) && DelimiterFree(b, delims) && d in delims && b != []
    ensures Split(a + [d] + b, delims) == [a, b]
  {
    PiecesCons(a, d, delims, b);
    PiecesOfDelimiterFree(b, delims);
    SplitOfPieces(a + [d] + b, delims, [a, b]);
  }

  /** trim() of x + m + z, for x and z not blank, keeps a tail x' of x, all of m and a
      non-empty head z' of z, where x' and z' trim like x and z and contain no
      delimiter that x and z do not. */
  lemma TrimAroundParts(x: string, m: string, z: string, delims: set<char>) returns (x1: string, z1: string)
    requires !IsBlank(x) && !IsBlank(z)
    ensures Trim(x + m + z) == x1 + m + z1
    ensures Trim(x1) == Trim(x) && Trim(z1) == Trim(z)
    ensures z1 != [] && z1[0] == z[0]
    ensures DelimiterFree(x, delims) ==> DelimiterFree(x1, delims)
    ensures DelimiterFree(z, delims) ==> DelimiterFree(z1, delims)
  {
    var ix, jx := KeptBounds(x);
    var iz, jz := KeptBounds(z);
    x1 := x[ix..];
    z1 := z[..jz];
    TrimAround(x, m, z, ix, jz);
    assert x[ix..|x|] == x1 && z[0..jz] == z1;
    TrimOfSlice(x, ix, jx, ix, |x|);
    TrimOfSlice(z, iz, jz, 0, jz);
    if DelimiterFree(x, delims) {
      DelimiterFreeSlice(x, ix, |x|, delims);
    }
    if DelimiterFree(z, delims) {
      DelimiterFreeSlice(z, 0, jz, delims);
    }
  }

  /** trim() of x + m + z, for x not blank, m ending with a kept character and z blank,
      keeps a tail x' of x, which trims like x, and all of m. */
  lemma TrimBlankTailParts(x: string, m: string, z: string, delims: set<char>) returns (x1: string)
    requires !IsBlank(x) && m != [] && !IsTrimmable(m[|m| - 1]) && IsBlank(z)
    ensures Trim(x + m + z) == x1 + m
    ensures Trim(x1) == Trim(x)
    ensures DelimiterFree(x, delims) ==> DelimiterFree(x1, delims)
  {
    var ix, jx := KeptBounds(x);
    x1 := x[ix..];
    TrimBlankTail(x, m, z, ix);
    assert x[ix..|x|] == x1;
    TrimOfSlice(x, ix, jx, ix, |x|);
    if DelimiterFree(x, delims) {
      DelimiterFreeSlice(x, ix, |x|, delims);
    }
  }

  /** Regrouping the tail of a concatenation around a split last part. */
  lemma RegroupTail(x: string, c: string, rest: string, y: string, r: string)
    requires rest == y + r
    ensures x + c + rest == x + (c + y + r)
  {
  }

  /** Regrouping a concatenation whose middle part is itself three parts. */
  lemma Regroup3(x: string, y: string, z: string, w: string, v: string)
    ensures x + (y + z + w) + v == x + y + z + w + v
  {
  }

  /** Regrouping a concatenation whose middle part is itself four parts. */
  lemma Regroup4(x: string, y: string, z: string, w: string, u: string, v: string)
    ensures x + (y + z + w + u) + v == x + y + z + w + u + v
  {
  }

  /** A slice of a delimiter-free string is delimiter-free. */
  lemma DelimiterFreeSlice(s: string, p: nat, q: nat, delims: set<char>)
    requires DelimiterFree(s, delims) && p <= q <= |s|
    ensures DelimiterFree(s[p..q], delims)
  {
    assert forall k :: 0 <= k < q - p ==> s[p..q][k] == s[p + k];
  }

  /** Splitting three delimiter-free fields joined by delimiters, the last non-empty,
      gives back the three fields. */
  lemma SplitThree(a: string, b: string, c: string, d: char, delims: set<char>)
    requires DelimiterFree(a, delims) && DelimiterFree(b, delims) && DelimiterFree(c, delims)
    requires d in delims && c != []
    ensures Split(a + [d] + b + [d] + c, delims) == [a, b, c]
  {
    var rest := b + [d] + c;
    assert a + [d] + b + [d] + c == a + [d] + rest;
    PiecesCons(a, d, delims, rest);
    PiecesCons(b, d, delims, c);
    PiecesOfDelimiterFree(c, delims);
    SplitOfPieces(a + [d] + rest, delims, [a, b, c]);
  }

  // ---------------------------------------------------------------------------
  // equalsIgnoreCase

  /** Whether equalsIgnoreCase accepts character c where the literal has `letter`.
      Java compares the upper-case forms, then the lower-case forms of those; against a
      lower-case ASCII letter that accepts the letter, its upper-case form, and the four
      non-ASCII characters whose case mappings land on an ASCII letter: dotted capital I
      (U+0130) and dotless i (U+0131) for 'i', long s (U+017F) for 's', Kelvin sign
      (U+212A) for 'k'. */
  predicate FoldsTo(c: char, letter: char)
  {
    c == letter
    || ('a' <= letter <= 'z' &&
        (c as int == letter as int - 32
         || (letter == 'i' && (c == '\U{0130}' || c == '\U{0131}'))
         || (letter == 's' && c == '\U{017F}')
         || (letter == 'k' && c == '\U{212A}')))
  }

  /** Every character of s is ASCII. */
  predicate IsAscii(s: string)
  {
    forall k :: 0 <= k < |s| ==> s[k] as int < 128
  }

  /** s has no upper-case ASCII letter. */
  predicate NoUpperAscii(s: string)
  {
    forall k :: 0 <= k < |s| ==> !('A' <= s[k] <= 'Z')
  }

  /** The upper-case ASCII form of one character. */
  function UpperChar(c: char): (u: char)
    ensures 'a' <= c <= 'z' ==> u as int == c as int - 32
    ensures !('a' <= c <= 'z') ==> u == c
  {
    if 'a' <= c <= 'z' then (c as int - 32) as char else c
  }

  /** The upper-case ASCII form of a string. */
  function UpperAscii(s: string): (r: string)
    ensures |r| == |s|
    ensures forall k :: 0 <= k < |s| ==> r[k] == UpperChar(s[k])
  {
    if s == [] then [] else [UpperChar(s[0])] + UpperAscii(s[1..])
  }

  /** For ASCII input, folding onto a letter that is not an upper-case ASCII letter is
      equality of the upper-case forms. */
  lemma FoldsToAscii(c: char, letter: char)
    requires c as int < 128 && !('A' <= letter <= 'Z')
    ensures FoldsTo(c, letter) <==> UpperChar(c) == UpperChar(letter)
  {
  }

  /** For ASCII input, character-by-character folding is equality of the upper-case forms. */
  lemma FoldsAllAscii(literal: string, s: string)
    ensures NoUpperAscii(literal) && IsAscii(s) ==>
              ((|s| == |literal| && forall k :: 0 <= k < |s| ==> FoldsTo(s[k], literal[k]))
               <==> UpperAscii(s) == UpperAscii(literal))
  {
    if NoUpperAscii(literal) && IsAscii(s) && |s| == |literal| {
      forall k | 0 <= k < |s| ensures FoldsTo(s[k], literal[k]) <==> UpperAscii(s)[k] == UpperAscii(literal)[k] {
        FoldsToAscii(s[k], literal[k]);
      }
    }
  }

  /** literal.equalsIgnoreCase(s) for a literal of lower-case ASCII letters. On ASCII input
      it is equality of the upper-case forms. */
  predicate EqualsIgnoreCase(literal: string, s: string): (b: bool)
    ensures NoUpperAscii(literal) && IsAscii(s) ==> (b <==> UpperAscii(s) == UpperAscii(literal))
  {
    FoldsAllAscii(literal, s);
    |s| == |literal| && forall k :: 0 <= k < |s| ==> FoldsTo(s[k], literal[k])
  }

  /** equalsIgnoreCase accepts the upper-case spelling of the literal, and also the
      non-ASCII characters whose case mappings land on its letters, as Java does: dotted
      capital I for 'i' in "email". */
  lemma EqualsIgnoreCaseAccepts(literal: string)
    ensures EqualsIgnoreCase(literal, UpperAscii(literal))
    ensures EqualsIgnoreCase("email", "EMA\U{0130}L")
  {
  }
}
