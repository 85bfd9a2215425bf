/** Text helpers with the meaning of the Python string operations the parser uses:
    `str.split(sep)`, `sep.join(parts)`, `str.split()` with no argument, and `str(n)`
    for an integer. */
module Strings {
  import opened Wrappers

  // ----- sequence helpers -----

  lemma TakeOneMore<T>(s: seq<T>, k: nat)
    requires k < |s|
    ensures s[..k + 1] == s[..k] + [s[k]]
  {
  }

  lemma AppendAssoc<T>(a: seq<T>, b: seq<T>, c: seq<T>)
    ensures a + (b + c) == (a + b) + c
  {
  }

  lemma SliceThree<T>(s: seq<T>, k: int, i: int, j: int)
    requires 0 <= k <= i <= j <= |s|
    ensures s[k..] == s[k..i] + s[i..j] + s[j..]
  {
  }

  lemma ConsOfRest<T>(x: seq<T>, y: seq<T>, parts: seq<T>)
    requires |parts| >= 1 && x == [parts[0]] + y && y == parts[1..]
    ensures x == parts
  {
  }

  lemma AppendEmpty<T>(a: seq<T>)
    ensures a + [] == a
  {
  }

  // ----- occurrences of a separator -----

  /** `sep` occurs in `s` starting at index `i`. */
  predicate OccursAt(s: string, sep: string, i: int)
  {
    0 <= i && i + |sep| <= |s| && s[i..i + |sep|] == sep
  }

  predicate Contains(s: string, sep: string)
  {
    exists i :: 0 <= i <= |s| - |sep| && OccursAt(s, sep, i)
  }

  predicate EndsWith(s: string, suffix: string)
  {
    |suffix| <= |s| && s[|s| - |suffix|..] == suffix
  }

  lemma SliceOfSlice<T>(s: seq<T>, lo: int, hi: int, a: int, b: int)
    requires 0 <= lo <= hi <= |s| && 0 <= a <= b <= hi - lo
    ensures s[lo..hi][a..b] == s[lo + a..lo + b]
  {
    forall m | 0 <= m < b - a ensures s[lo..hi][a..b][m] == s[lo + a..lo + b][m] {
      assert s[lo..hi][a..b][m] == s[lo..hi][a + m];
    }
  }

  /** An occurrence in the slice `s[lo..hi]` is one in `s`, shifted by `lo`, that ends
      by `hi`. */
  lemma OccursInSlice(s: string, sep: string, lo: int, hi: int, j: int)
    requires 0 <= lo <= hi <= |s| && 0 <= j
    ensures OccursAt(s[lo..hi], sep, j) <==> OccursAt(s, sep, lo + j) && lo + j + |sep| <= hi
  {
    if lo + j + |sep| <= hi {
      SliceOfSlice(s, lo, hi, j, j + |sep|);
    }
  }

  /** A slice free of `sep` holds no occurrence of it in `s`. */
  lemma NoneInFreeSlice(s: string, sep: string, lo: int, hi: int)
    requires 0 <= lo <= hi <= |s| && !Contains(s[lo..hi], sep)
    ensures forall j :: lo <= j && j + |sep| <= hi ==> !OccursAt(s, sep, j)
  {
    forall j | lo <= j && j + |sep| <= hi ensures !OccursAt(s, sep, j) {
      OccursInSlice(s, sep, lo, hi, j - lo);
    }
  }

  /** The text up to the end of an occurrence ends with it. */
  lemma EndsWithOccurrence(s: string, sep: string, i: int)
    requires OccursAt(s, sep, i)
    ensures EndsWith(s[..i + |sep|], sep)
  {
    assert s[..i + |sep|][i..] == s[i..i + |sep|];
  }

  /** No proper prefix of `sep` is also a suffix of it. */
  predicate Unbordered(sep: string)
  {
    forall k :: 0 < k < |sep| ==> sep[..k] != sep[|sep| - k..]
  }

  /** Two overlapping occurrences make a proper prefix of `sep` equal to a suffix. */
  lemma OverlapGivesBorder(s: string, sep: string, j: int, lo: int)
    requires OccursAt(s, sep, j) && OccursAt(s, sep, lo) && j < lo < j + |sep|
    ensures var k := j + |sep| - lo; 0 < k < |sep| && sep[..k] == sep[|sep| - k..]
  {
    var k := j + |sep| - lo;
    assert s[lo..lo + k] == s[lo..lo + |sep|][..k];
    assert s[lo..lo + k] == s[j..j + |sep|][|sep| - k..];
  }

  /** Occurrences of an unbordered separator never overlap. */
  lemma OccurrencesApart(s: string, sep: string, j: int, lo: int)
    requires Unbordered(sep) && OccursAt(s, sep, j) && OccursAt(s, sep, lo) && j < lo
    ensures j + |sep| <= lo
  {
    if lo < j + |sep| {
      OverlapGivesBorder(s, sep, j, lo);
      assert false;
    }
  }

  /** The first index at or after `k` where `sep` occurs in `s`, as `s.find(sep, k)`
      (FindFromFirst says that it is the first). */
  function FindFrom(s: string, sep: string, k: nat): (r: Option<nat>)
    requires sep != []
    ensures r.Some? ==> k <= r.value && OccursAt(s, sep, r.value)
    decreases |s| - k
  {
    if |s| < k + |sep| then None
    else if OccursAt(s, sep, k) then Some(k)
    else FindFrom(s, sep, k + 1)
  }

  /** Every occurrence at or after `k` is found, at or after the index returned. */
  lemma {:induction false} FindFromFirst(s: string, sep: string, k: nat)
    requires sep != []
    ensures forall j :: k <= j && OccursAt(s, sep, j) ==>
      FindFrom(s, sep, k).Some? && FindFrom(s, sep, k).value <= j
    decreases |s| - k
  {
    if |s| < k + |sep| {
    } else if OccursAt(s, sep, k) {
    } else {
      FindFromFirst(s, sep, k + 1);
    }
  }

  /** The pieces of `s[k..]` between the occurrences of `sep` found scanning left to
      right. */
  function SplitFrom(s: string, sep: string, k: nat): (pieces: seq<string>)
    requires sep != [] && k <= |s|
    ensures |pieces| >= 1
    decreases |s| - k
  {
    match FindFrom(s, sep, k)
    case None => [s[k..]]
    case Some(i) => [s[k..i]] + SplitFrom(s, sep, i + |sep|)
  }

  /** Python's `s.split(sep)` for a non-empty separator. */
  function Split(s: string, sep: string): (pieces: seq<string>)
    requires sep != []
    ensures |pieces| >= 1
  {
    SplitFrom(s, sep, 0)
  }

  /** Python's `sep.join(parts)`. */
  function Join(parts: seq<string>, sep: string): string
  {
    if |parts| == 0 then ""
    else if |parts| == 1 then parts[0]
    else parts[0] + sep + Join(parts[1..], sep)
  }

  lemma JoinCons(head: string, tail: seq<string>, sep: string)
    requires |tail| >= 1
    ensures Join([head] + tail, sep) == head + sep + Join(tail, sep)
  {
    assert ([head] + tail)[1..] == tail;
  }

  lemma {:induction false} JoinSplitFrom(s: string, sep: string, k: nat)
    requires sep != [] && k <= |s|
    ensures Join(SplitFrom(s, sep, k), sep) == s[k..]
    decreases |s| - k
  {
    match FindFrom(s, sep, k)
    case None =>
    case Some(i) =>
      var tail := SplitFrom(s, sep, i + |sep|);
      JoinSplitFrom(s, sep, i + |sep|);
      assert SplitFrom(s, sep, k) == [s[k..i]] + tail;
      JoinCons(s[k..i], tail, sep);
      SliceThree(s, k, i, i + |sep|);
  }

  /** Joining the pieces of a split gives back the original text. */
  lemma JoinSplit(s: string, sep: string)
    requires sep != []
    ensures Join(Split(s, sep), sep) == s
  {
    JoinSplitFrom(s, sep, 0);
  }

  lemma {:induction false} SplitFromPiecesFree(s: string, sep: string, k: nat)
    requires sep != [] && k <= |s|
    ensures forall m :: 0 <= m < |SplitFrom(s, sep, k)| ==> !Contains(SplitFrom(s, sep, k)[m], sep)
    decreases |s| - k
  {
    FindFromFirst(s, sep, k);
    match FindFrom(s, sep, k)
    case None =>
      forall j | 0 <= j && OccursAt(s[k..], sep, j) ensures false {
        OccursInSlice(s, sep, k, |s|, j);
      }
    case Some(i) =>
      SplitFromPiecesFree(s, sep, i + |sep|);
      forall j | 0 <= j && OccursAt(s[k..i], sep, j) ensures false {
        OccursInSlice(s, sep, k, i, j);
      }
  }

  /** No piece of a split contains the separator. */
  lemma SplitPiecesFree(s: string, sep: string)
    requires sep != []
    ensures forall m :: 0 <= m < |Split(s, sep)| ==> !Contains(Split(s, sep)[m], sep)
  {
    SplitFromPiecesFree(s, sep, 0);
  }

  /** When the tail of `s` from `k` starts with a part `a` free of an unbordered `sep`
      and then `sep`, the next piece is `a`. */
  lemma SplitAtOccurrence(s: string, sep: string, k: nat, a: string)
    requires sep != [] && Unbordered(sep) && !Contains(a, sep)
    requires k + |a| <= |s| && s[k..k + |a|] == a && OccursAt(s, sep, k + |a|)
    ensures SplitFrom(s, sep, k) == [a] + SplitFrom(s, sep, k + |a| + |sep|)
  {
    var lo := k + |a|;
    NoneInFreeSlice(s, sep, k, lo);
    FindFromFirst(s, sep, k);
    var v := FindFrom(s, sep, k).value;
    if v < lo {
      OccurrencesApart(s, sep, v, lo);
      assert false;
    }
  }

  /** The slices of a text whose tail from `k` is `a + sep + rest`. */
  lemma SlicesOfTail(s: string, k: nat, a: string, sep: string, rest: string)
    requires k <= |s| && s[k..] == a + sep + rest
    ensures s[k..k + |a|] == a && OccursAt(s, sep, k + |a|) && s[k + |a| + |sep|..] == rest
  {
    assert s[k..k + |a|] == s[k..][..|a|];
    assert s[k + |a|..k + |a| + |sep|] == s[k..][|a|..|a| + |sep|];
    assert s[k + |a| + |sep|..] == s[k..][|a| + |sep|..];
  }

  /** When the tail of `s` from `k` is free of `sep`, it is the only piece. */
  lemma SplitFreeTail(s: string, sep: string, k: nat)
    requires sep != [] && k <= |s| && !Contains(s[k..], sep)
    ensures SplitFrom(s, sep, k) == [s[k..]]
  {
    assert s[k..|s|] == s[k..];
    NoneInFreeSlice(s, sep, k, |s|);
  }

  /** Splitting a text whose tail from `k` is the join of `parts` gives back the
      parts, when the separator cannot overlap itself and no part contains it. */
  lemma {:induction false} SplitFromJoin(s: string, k: nat, parts: seq<string>, sep: string)
    requires sep != [] && Unbordered(sep)
    requires k <= |s| && s[k..] == Join(parts, sep)
    requires |parts| >= 1
    requires forall m :: 0 <= m < |parts| ==> !Contains(parts[m], sep)
    ensures SplitFrom(s, sep, k) == parts
    decreases |parts|
  {
    var a := parts[0];
    assert !Contains(a, sep);
    if |parts| == 1 {
      assert Join(parts, sep) == a;
      SplitFreeTail(s, sep, k);
      assert parts == [a];
    } else {
      var tail := parts[1..];
      var rest := Join(tail, sep);
      assert Join(parts, sep) == a + sep + rest;
      SlicesOfTail(s, k, a, sep, rest);
      SplitAtOccurrence(s, sep, k, a);
      TailPartsFree(parts, sep);
      SplitFromJoin(s, k + |a| + |sep|, tail, sep);
      ConsOfRest(SplitFrom(s, sep, k), SplitFrom(s, sep, k + |a| + |sep|), parts);
    }
  }

  lemma TailPartsFree(parts: seq<string>, sep: string)
    requires |parts| >= 1 && forall m :: 0 <= m < |parts| ==> !Contains(parts[m], sep)
    ensures forall m :: 0 <= m < |parts[1..]| ==> !Contains(parts[1..][m], sep)
  {
    forall m | 0 <= m < |parts[1..]| ensures !Contains(parts[1..][m], sep) {
      assert parts[1..][m] == parts[m + 1];
    }
  }

  /** Splitting a join gives back the parts, when the separator cannot overlap itself
      and no part contains it. */
  lemma SplitJoin(parts: seq<string>, sep: string)
    requires sep != [] && Unbordered(sep)
    requires |parts| >= 1
    requires forall m :: 0 <= m < |parts| ==> !Contains(parts[m], sep)
    ensures Split(Join(parts, sep), sep) == parts
  {
    var s := Join(parts, sep);
    assert s[0..] == s;
    SplitFromJoin(s, 0, parts, sep);
  }

  /** Where the last piece of the split of `s[k..]` begins: just past the last
      occurrence of `sep` found, or `k` when there is none. */
  function LastStart(s: string, sep: string, k: nat): (j: nat)
    requires sep != [] && k <= |s|
    ensures k <= j <= |s|
    decreases |s| - k
  {
    match FindFrom(s, sep, k)
    case None => k
    case Some(i) => LastStart(s, sep, i + |sep|)
  }

  /** The last piece of a split, `s.split(sep)[-1]`. */
  function LastPiece(s: string, sep: string): (r: string)
    requires sep != []
    ensures EndsWith(s, r)
  {
    s[LastStart(s, sep, 0)..]
  }

  lemma {:induction false} LastStartOfSplit(s: string, sep: string, k: nat)
    requires sep != [] && k <= |s|
    ensures SplitFrom(s, sep, k)[|SplitFrom(s, sep, k)| - 1] == s[LastStart(s, sep, k)..]
    decreases |s| - k
  {
    match FindFrom(s, sep, k)
    case None =>
    case Some(i) =>
      LastStartOfSplit(s, sep, i + |sep|);
  }

  /** `LastPiece` is the last element of `Split`. */
  lemma LastPieceOfSplit(s: string, sep: string)
    requires sep != []
    ensures LastPiece(s, sep) == Split(s, sep)[|Split(s, sep)| - 1]
  {
    LastStartOfSplit(s, sep, 0);
  }

  /** No occurrence of `sep` begins at or after the last start. */
  lemma {:induction false} LastStartFree(s: string, sep: string, k: nat)
    requires sep != [] && k <= |s|
    ensures forall j :: LastStart(s, sep, k) <= j ==> !OccursAt(s, sep, j)
    decreases |s| - k
  {
    var f := FindFrom(s, sep, k);
    if f.None? {
      FindFromFirst(s, sep, k);
      assert LastStart(s, sep, k) == k;
    } else {
      var next := f.value + |sep|;
      assert next <= |s|;
      LastStartFree(s, sep, next);
      assert LastStart(s, sep, k) == LastStart(s, sep, next);
    }
  }

  /** The last start is `k` when nothing is found from `k`; otherwise an occurrence
      of `sep` ends exactly there. */
  lemma {:induction false} LastStartAfterOccurrence(s: string, sep: string, k: nat)
    requires sep != [] && k <= |s|
    ensures FindFrom(s, sep, k).None? ==> LastStart(s, sep, k) == k
    ensures FindFrom(s, sep, k).Some? ==>
      k + |sep| <= LastStart(s, sep, k) && OccursAt(s, sep, LastStart(s, sep, k) - |sep|)
    decreases |s| - k
  {
    var f := FindFrom(s, sep, k);
    if f.Some? {
      var k2 := f.value + |sep|;
      var j := LastStart(s, sep, k2);
      assert LastStart(s, sep, k) == j;
      LastStartAfterOccurrence(s, sep, k2);
      if FindFrom(s, sep, k2).None? {
        assert j == k2;
      } else {
        assert OccursAt(s, sep, j - |sep|);
      }
    }
  }

  /** `s.split(sep)[-1]` holds no `sep`; it is the text after the last occurrence of
      `sep`, or all of `s` when there is none. */
  lemma LastPieceAfterLast(s: string, sep: string)
    requires sep != []
    ensures !Contains(LastPiece(s, sep), sep)
    ensures !Contains(s, sep) ==> LastPiece(s, sep) == s
    ensures Contains(s, sep) ==> EndsWith(s[..|s| - |LastPiece(s, sep)|], sep)
  {
    LastPieceFree(s, sep);
    LastPieceWhole(s, sep);
    LastPieceAfterSep(s, sep);
  }

  lemma LastPieceFree(s: string, sep: string)
    requires sep != []
    ensures !Contains(LastPiece(s, sep), sep)
  {
    var j := LastStart(s, sep, 0);
    assert LastPiece(s, sep) == s[j..];
    LastStartFree(s, sep, 0);
    forall i | 0 <= i && OccursAt(s[j..], sep, i) ensures false {
      OccursInSlice(s, sep, j, |s|, i);
    }
  }

  lemma LastPieceWhole(s: string, sep: string)
    requires sep != []
    ensures !Contains(s, sep) ==> LastPiece(s, sep) == s
  {
    if !Contains(s, sep) {
      var f := FindFrom(s, sep, 0);
      assert f.None?;
      LastStartAfterOccurrence(s, sep, 0);
      assert s[0..] == s;
    }
  }

  lemma LastPieceAfterSep(s: string, sep: string)
    requires sep != []
    ensures Contains(s, sep) ==> EndsWith(s[..|s| - |LastPiece(s, sep)|], sep)
  {
    if Contains(s, sep) {
      var i :| 0 <= i && OccursAt(s, sep, i);
      FindFromFirst(s, sep, 0);
      assert FindFrom(s, sep, 0).Some?;
      var j := LastStart(s, sep, 0);
      LastStartAfterOccurrence(s, sep, 0);
      EndsWithOccurrence(s, sep, j - |sep|);
      assert |s| - |LastPiece(s, sep)| == j;
    }
  }

  /** The text after a leading `sep` is the last piece when `sep` does not occur in
      it. */
  lemma LastPieceAfterPrefix(sep: string, rest: string)
    requires sep != [] && !Contains(rest, sep)
    ensures LastPiece(sep + rest, sep) == rest
  {
    var s := sep + rest;
    assert s[..|sep|] == sep;
    assert FindFrom(s, sep, 0) == Some(0);
    assert s[|sep|..|s|] == rest;
    NoneInFreeSlice(s, sep, |sep|, |s|);
    assert FindFrom(s, sep, |sep|).None?;
    assert LastStart(s, sep, 0) == |sep|;
    assert s[|sep|..] == rest;
  }

  lemma Regroup(h: string, x: string, a: string, b: string, c: string)
    ensures h + x + a + b + c == h + x + (a + b + c)
  {
  }

  /** The text between a fixed prefix and a fixed suffix is determined by the whole. */
  lemma Between(p: string, x: string, y: string, q: string)
    requires p + x + q == p + y + q
    ensures x == y
  {
    var s := p + x + q;
    assert |x| == |y|;
    assert x == s[|p|..|p| + |x|];
    assert y == (p + y + q)[|p|..|p| + |y|];
  }

  // ----- whitespace splitting, as Python's `str.split()` with no argument -----

  /** The characters Python's `str.isspace` accepts. */
  predicate IsSpace(c: char)
  {
    c == ' ' || ('\t' <= c <= '\r') || ('\U{1c}' <= c <= '\U{1f}') || c == '\U{85}' ||
    c == '\U{a0}' || c == '\U{1680}' || ('\U{2000}' <= c <= '\U{200a}') ||
    c == '\U{2028}' || c == '\U{2029}' || c == '\U{202f}' || c == '\U{205f}' || c == '\U{3000}'
  }

  predicate NoSpace(s: string)
  {
    forall i :: 0 <= i < |s| ==> !IsSpace(s[i])
  }

  /** Length of the run of non-space characters that starts `s`. */
  function WordLength(s: string): (n: nat)
    ensures n <= |s| && NoSpace(s[..n])
    ensures n < |s| ==> IsSpace(s[n])
  {
    if s == [] || IsSpace(s[0]) then 0
    else
      var m := WordLength(s[1..]);
      assert s[..m + 1] == [s[0]] + s[1..][..m];
      m + 1
  }

  /** The words of `s`: its maximal runs of non-space characters, in order. */
  function Words(s: string): (words: seq<string>)
    decreases |s|
  {
    if s == [] then []
    else if IsSpace(s[0]) then Words(s[1..])
    else
      var n := WordLength(s);
      [s[..n]] + Words(s[n..])
  }

  /** The non-space characters of `s`, in order. */
  function NonSpace(s: string): string
  {
    if s == [] then [] else (if IsSpace(s[0]) then [] else [s[0]]) + NonSpace(s[1..])
  }

  function Concat(parts: seq<string>): string
  {
    if parts == [] then [] else parts[0] + Concat(parts[1..])
  }

  lemma {:induction false} NonSpaceAppend(a: string, b: string)
    ensures NonSpace(a + b) == NonSpace(a) + NonSpace(b)
  {
    if a == [] {
      assert a + b == b;
    } else {
      assert (a + b)[1..] == a[1..] + b;
      NonSpaceAppend(a[1..], b);
      var head := if IsSpace(a[0]) then [] else [a[0]];
      assert NonSpace(a + b) == head + NonSpace(a[1..] + b);
      assert NonSpace(a) == head + NonSpace(a[1..]);
    }
  }

  lemma NonSpaceOfWord(w: string)
    requires NoSpace(w)
    ensures NonSpace(w) == w
  {
    if w != [] { assert NoSpace(w[1..]); }
  }

  /** The words are non-empty, hold no whitespace, and together hold exactly the
      non-space characters of the input, in order. */
  lemma {:induction false} WordsSound(s: string)
    ensures forall k :: 0 <= k < |Words(s)| ==> Words(s)[k] != [] && NoSpace(Words(s)[k])
    ensures Concat(Words(s)) == NonSpace(s)
    decreases |s|
  {
    if s == [] {
    } else if IsSpace(s[0]) {
      WordsSound(s[1..]);
    } else {
      var n := WordLength(s);
      WordsSound(s[n..]);
      assert s == s[..n] + s[n..];
      NonSpaceAppend(s[..n], s[n..]);
      NonSpaceOfWord(s[..n]);
    }
  }

  /** Text after a whitespace character does not lengthen the word before it. */
  lemma {:induction false} WordLengthBeforeSpace(a: string, t: string)
    requires t != [] && IsSpace(t[0])
    ensures WordLength(a + t) == WordLength(a)
    decreases |a|
  {
    if a == [] {
      assert a + t == t;
    } else {
      assert (a + t)[0] == a[0];
      if !IsSpace(a[0]) {
        assert (a + t)[1..] == a[1..] + t;
        WordLengthBeforeSpace(a[1..], t);
      }
    }
  }

  lemma {:induction false} WordLengthOfWord(w: string)
    requires NoSpace(w)
    ensures WordLength(w) == |w|
    decreases |w|
  {
    if w != [] {
      forall i | 0 <= i < |w[1..]| ensures !IsSpace(w[1..][i]) {
        assert w[1..][i] == w[i + 1];
      }
      WordLengthOfWord(w[1..]);
    }
  }

  /** A non-empty run of non-space characters is one single word. */
  lemma WordsOfWord(w: string)
    requires w != [] && NoSpace(w)
    ensures Words(w) == [w]
  {
    WordLengthOfWord(w);
    assert w[..|w|] == w;
    assert w[|w|..] == [];
  }

  /** The slices of `a + t` at a cut `n` inside `a`. */
  lemma SlicesInFirst(a: string, t: string, n: nat)
    requires n <= |a|
    ensures (a + t)[..n] == a[..n] && (a + t)[n..] == a[n..] + t
  {
  }

  /** Whitespace separates words: the words of a text with a whitespace character
      in it are the words before that character followed by the words after it. */
  lemma {:induction false} WordsAtSpace(a: string, c: char, b: string)
    requires IsSpace(c)
    ensures Words(a + [c] + b) == Words(a) + Words(b)
    decreases |a|
  {
    var t := [c] + b;
    assert a + [c] + b == a + t;
    assert t[1..] == b;
    if a == [] {
      assert a + t == t;
    } else if IsSpace(a[0]) {
      SlicesInFirst(a, t, 1);
      assert a[1..] + t == a[1..] + [c] + b;
      WordsAtSpace(a[1..], c, b);
    } else {
      var n := WordLength(a);
      assert n == WordLength(a[1..]) + 1;
      WordLengthBeforeSpace(a, t);
      SlicesInFirst(a, t, n);
      assert a[n..] + t == a[n..] + [c] + b;
      WordsAtSpace(a[n..], c, b);
      AppendAssoc([a[..n]], Words(a[n..]), Words(b));
    }
  }

  // ----- decimal text of integers, as Python's `str(n)` -----

  function DigitChar(d: nat): char
    requires d < 10
  {
    "0123456789"[d]
  }

  predicate IsDigit(c: char)
  {
    '0' <= c <= '9'
  }

  function DigitValue(c: char): nat
    requires IsDigit(c)
  {
    (c as int - '0' as int) as nat
  }

  function NatToDecimal(n: nat): (s: string)
    ensures s != [] && forall i :: 0 <= i < |s| ==> IsDigit(s[i])
  {
    if n < 10 then [DigitChar(n)] else NatToDecimal(n / 10) + [DigitChar(n % 10)]
  }

  /** `str(n)` for an integer: an optional minus sign, then the decimal digits. */
  function IntToDecimal(n: int): string
  {
    if n < 0 then "-" + NatToDecimal(-n) else NatToDecimal(n)
  }

  function ParseDigits(s: string): nat
    requires forall i :: 0 <= i < |s| ==> IsDigit(s[i])
  {
    if s == [] then 0 else ParseDigits(s[..|s| - 1]) * 10 + DigitValue(s[|s| - 1])
  }

  /** Python's `int(s)` on the text `str` produces. */
  function ParseInt(s: string): int
  {
    if s != [] && s[0] == '-' && (forall i :: 1 <= i < |s| ==> IsDigit(s[i])) then 0 - ParseDigits(s[1..])
    else if forall i :: 0 <= i < |s| ==> IsDigit(s[i]) then ParseDigits(s)
    else 0
  }

  lemma {:induction false} NatDecimalRoundTrip(n: nat)
    ensures ParseDigits(NatToDecimal(n)) == n
  {
    if n >= 10 {
      NatDecimalRoundTrip(n / 10);
      var s := NatToDecimal(n);
      assert s[..|s| - 1] == NatToDecimal(n / 10);
      assert DigitValue(DigitChar(n % 10)) == n % 10;
    } else {
      assert DigitValue(DigitChar(n)) == n;
    }
  }

  /** The decimal text of an integer reads back as that integer. */
  lemma IntDecimalRoundTrip(n: int)
    ensures ParseInt(IntToDecimal(n)) == n
  {
    NatDecimalRoundTrip(if n < 0 then -n else n);
    if n < 0 {
      assert IntToDecimal(n)[1..] == NatToDecimal(-n);
    } else {
      assert IntToDecimal(n)[0] != '-';
    }
  }
}
