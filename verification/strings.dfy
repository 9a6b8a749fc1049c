/**
  The string primitives the ranking engine and the intake pipeline rely on:
  lower-casing, JavaScript's `trim`, `split` on a one-character separator,
  `join` with a one-character separator, and substring search (`includes`).
 */
module Strings {

  /** The characters `String.prototype.trim` removes: the WhiteSpace and
      LineTerminator code points of ECMA-262 (tab, vertical tab, form feed,
      space, no-break space, byte-order mark, the Zs space separators, line
      feed, carriage return, line separator and paragraph separator). */
  const SpaceChars: set<char> := {
    '\t', '\n', '\U{B}', '\U{C}', '\r', ' ', '\U{A0}', '\U{1680}',
    '\U{2000}', '\U{2001}', '\U{2002}', '\U{2003}', '\U{2004}', '\U{2005}',
    '\U{2006}', '\U{2007}', '\U{2008}', '\U{2009}', '\U{200A}',
    '\U{2028}', '\U{2029}', '\U{202F}', '\U{205F}', '\U{3000}', '\U{FEFF}'
  }

  /** Whitespace in the sense of `trim`. */
  predicate IsSpace(c: char) {
    c in SpaceChars
  }

  predicate IsUpper(c: char) {
    'A' <= c <= 'Z'
  }

  /** Lower-casing of one character, restricted to the ASCII letters. */
  function LowerChar(c: char): char {
    if IsUpper(c) then (c as int - 'A' as int + 'a' as int) as char else c
  }

  /** `s.toLowerCase()`, character by character. */
  function Lower(s: string): string {
    seq(|s|, i requires 0 <= i < |s| => LowerChar(s[i]))
  }

  /** Lower-casing touches nothing but letters: a separator or a space stays
      what it is, and no other character becomes one. */
  lemma LowerCharKeepsNonLetters(c: char)
    ensures IsSpace(LowerChar(c)) <==> IsSpace(c)
    ensures LowerChar(c) == ',' <==> c == ','
    ensures !IsUpper(LowerChar(c))
  {
  }

  /** Lower-casing is idempotent and leaves no upper-case letter behind. */
  lemma LowerIdempotent(s: string)
    ensures Lower(Lower(s)) == Lower(s)
    ensures forall i :: 0 <= i < |s| ==> !IsUpper(Lower(s)[i])
  {
    forall i | 0 <= i < |s|
      ensures Lower(Lower(s))[i] == Lower(s)[i] && !IsUpper(Lower(s)[i])
    {
      LowerCharKeepsNonLetters(s[i]);
    }
  }

  /** The first position at or after `i` that does not hold a space
      (`|s|` if there is none). */
  function SkipSpaces(s: string, i: nat): (lo: nat)
    requires i <= |s|
    ensures i <= lo <= |s|
    ensures forall k :: i <= k < lo ==> IsSpace(s[k])
    ensures lo < |s| ==> !IsSpace(s[lo])
    decreases |s| - i
  {
    if i < |s| && IsSpace(s[i]) then SkipSpaces(s, i + 1) else i
  }

  /** The end of `s[lo..hi]` once its trailing spaces are dropped. */
  function SkipSpacesBack(s: string, lo: nat, hi: nat): (end: nat)
    requires lo <= hi <= |s|
    ensures lo <= end <= hi
    ensures forall k :: end <= k < hi ==> IsSpace(s[k])
    ensures end > lo ==> !IsSpace(s[end - 1])
    decreases hi - lo
  {
    if hi > lo && IsSpace(s[hi - 1]) then SkipSpacesBack(s, lo, hi - 1) else hi
  }

  /** `r` is the slice of `s` starting at `lo`, and everything of `s` outside
      that slice is a space. */
  predicate TrimmedAt(s: string, r: string, lo: int) {
    && 0 <= lo <= |s| - |r|
    && r == s[lo..lo + |r|]
    && (forall i :: 0 <= i < lo ==> IsSpace(s[i]))
    && (forall i :: lo + |r| <= i < |s| ==> IsSpace(s[i]))
  }

  /** `trim`: the slice of `s` left once its leading and trailing spaces
      are dropped. Everything outside it is a space, and it neither starts
      nor ends with one. */
  function Trim(s: string): (r: string)
    ensures TrimmedAt(s, r, SkipSpaces(s, 0))
    ensures r != [] ==> !IsSpace(r[0]) && !IsSpace(r[|r| - 1])
  {
    var lo := SkipSpaces(s, 0);
    s[lo..SkipSpacesBack(s, lo, |s|)]
  }

  /** The slice `trim` returns is the only one with those properties: a
      slice of `s` with only spaces outside it and no space at either end
      is `Trim(s)`. */
  lemma TrimUnique(s: string, r: string, lo: int)
    requires TrimmedAt(s, r, lo)
    requires r != [] ==> !IsSpace(r[0]) && !IsSpace(r[|r| - 1])
    requires r == [] ==> lo == |s|
    ensures r == Trim(s)
  {
    var lo' := SkipSpaces(s, 0);
    if r != [] {
      assert s[lo] == r[0];
      assert lo == lo';
    }
  }

  /** Trimming yields the empty string exactly when `s` is all spaces. */
  lemma TrimEmptyIff(s: string)
    ensures Trim(s) == [] <==> forall i :: 0 <= i < |s| ==> IsSpace(s[i])
  {
    var r := Trim(s);
    var lo := SkipSpaces(s, 0);
    if r != [] {
      assert s[lo] == r[0];
    } else {
      forall i | 0 <= i < |s| ensures IsSpace(s[i]) {
        assert lo + |r| <= i || i < lo;
      }
    }
  }

  /** Every character of `Trim(s)` is a character of `s`. */
  lemma TrimChars(s: string)
    ensures forall c :: c in Trim(s) ==> c in s
  {
    var r := Trim(s);
    var lo := SkipSpaces(s, 0);
    forall c | c in r ensures c in s {
      var k :| 0 <= k < |r| && r[k] == c;
      assert s[lo + k] == c;
    }
  }

  /** The first position at or after `from` holding `c`, or `|s|` when
      there is none (where `indexOf` answers -1). */
  function IndexFrom(s: string, c: char, from: nat): (i: nat)
    requires from <= |s|
    ensures from <= i <= |s|
    ensures i < |s| ==> s[i] == c
    decreases |s| - from
  {
    if from == |s| || s[from] == c then from else IndexFrom(s, c, from + 1)
  }

  /** Nothing between `from` and that position is `c`. */
  lemma {:induction false} IndexFromFirst(s: string, c: char, from: nat)
    requires from <= |s|
    ensures forall j :: from <= j < IndexFrom(s, c, from) ==> s[j] != c
    decreases |s| - from
  {
    if from < |s| && s[from] != c {
      IndexFromFirst(s, c, from + 1);
    }
  }

  /** The pieces of `s[from..]` split at `sep`, each a slice of `s`. */
  function SplitFrom(s: string, sep: char, from: nat): (r: seq<string>)
    requires from <= |s|
    ensures |r| >= 1
    decreases |s| - from
  {
    var i := IndexFrom(s, sep, from);
    if i == |s| then [s[from..]] else [s[from..i]] + SplitFrom(s, sep, i + 1)
  }

  /** `s.split(sep)` for a one-character separator: the maximal
      separator-free pieces between separators, always at least one (the
      empty string splits into one empty piece). */
  function Split(s: string, sep: char): (r: seq<string>)
    ensures |r| >= 1
  {
    SplitFrom(s, sep, 0)
  }

  /** Piece `k` of `s[from..]` is the slice `s[lo..hi]`, and the separator
      does not occur in it. */
  lemma {:induction false} SplitFromPiece(s: string, sep: char, from: nat, k: int) returns (lo: nat, hi: nat)
    requires from <= |s|
    requires 0 <= k < |SplitFrom(s, sep, from)|
    ensures from <= lo <= hi <= |s|
    ensures SplitFrom(s, sep, from)[k] == s[lo..hi]
    ensures forall j :: lo <= j < hi ==> s[j] != sep
    decreases |s| - from
  {
    var i := IndexFrom(s, sep, from);
    IndexFromFirst(s, sep, from);
    if k == 0 {
      lo, hi := from, i;
    } else {
      lo, hi := SplitFromPiece(s, sep, i + 1, k - 1);
    }
  }

  /** Every piece is a slice of the split string. */
  lemma SplitPieceSlice(s: string, sep: char, k: int) returns (lo: nat, hi: nat)
    requires 0 <= k < |Split(s, sep)|
    ensures lo <= hi <= |s|
    ensures Split(s, sep)[k] == s[lo..hi]
  {
    lo, hi := SplitFromPiece(s, sep, 0, k);
  }

  /** No piece holds the separator. */
  lemma SplitNoSeparator(s: string, sep: char, k: int)
    requires 0 <= k < |Split(s, sep)|
    ensures sep !in Split(s, sep)[k]
  {
    var lo, hi := SplitFromPiece(s, sep, 0, k);
  }

  /** `pieces.join(sep)` for a one-character separator. */
  function Join(pieces: seq<string>, sep: char): string
    decreases |pieces|
  {
    if |pieces| == 0 then ""
    else if |pieces| == 1 then pieces[0]
    else pieces[0] + [sep] + Join(pieces[1..], sep)
  }

  /** Joining the pieces of `s[from..]` gives back `s[from..]`. */
  lemma {:induction false} JoinSplitFrom(s: string, sep: char, from: nat)
    requires from <= |s|
    ensures Join(SplitFrom(s, sep, from), sep) == s[from..]
    decreases |s| - from
  {
    var i := IndexFrom(s, sep, from);
    if i < |s| {
      JoinSplitFrom(s, sep, i + 1);
      JoinSplitStep(s, sep, from);
    }
  }

  /** One step of `JoinSplitFrom`: the first piece, the separator, and the
      join of the rest. */
  lemma JoinSplitStep(s: string, sep: char, from: nat)
    requires from <= |s| && IndexFrom(s, sep, from) < |s|
    requires Join(SplitFrom(s, sep, IndexFrom(s, sep, from) + 1), sep) == s[IndexFrom(s, sep, from) + 1..]
    ensures Join(SplitFrom(s, sep, from), sep) == s[from..]
  {
    var i := IndexFrom(s, sep, from);
    var rest := SplitFrom(s, sep, i + 1);
    assert SplitFrom(s, sep, from) == [s[from..i]] + rest;
    JoinCons(s[from..i], rest, sep);
    SliceAround(s, from, i);
  }

  /** Joining a piece in front of at least one more piece. */
  lemma JoinCons(p: string, rest: seq<string>, sep: char)
    requires |rest| >= 1
    ensures Join([p] + rest, sep) == p + [sep] + Join(rest, sep)
  {
    var r := [p] + rest;
    assert r[0] == p && r[1..] == rest;
  }

  /** A suffix is the part before position `i`, the element there, and the
      part after it. */
  lemma SliceAround(s: string, from: nat, i: nat)
    requires from <= i < |s|
    ensures s[from..] == s[from..i] + [s[i]] + s[i + 1..]
  {
  }

  /** Joining the pieces of a split gives back the split string. */
  lemma JoinSplit(s: string, sep: char)
    ensures Join(Split(s, sep), sep) == s
  {
    JoinSplitFrom(s, sep, 0);
    assert s[0..] == s;
  }

  /** A separator-free piece at `from` that is followed by the separator
      or the end of `s` reaches exactly to the next separator. */
  lemma IndexAfterPiece(s: string, sep: char, from: nat, p: string)
    requires from + |p| <= |s|
    requires s[from..from + |p|] == p && sep !in p
    requires from + |p| == |s| || s[from + |p|] == sep
    ensures IndexFrom(s, sep, from) == from + |p|
  {
    IndexFromFirst(s, sep, from);
  }

  /** Splitting the text after `pre` in `pre` followed by a join of
      separator-free pieces gives back the pieces. */
  lemma {:induction false} SplitFromJoin(pre: string, pieces: seq<string>, sep: char)
    requires |pieces| >= 1
    requires forall k :: 0 <= k < |pieces| ==> sep !in pieces[k]
    ensures SplitFrom(pre + Join(pieces, sep), sep, |pre|) == pieces
    decreases |pieces|
  {
    var s := pre + Join(pieces, sep);
    var p := pieces[0];
    if |pieces| == 1 {
      assert s == pre + p;
      assert s[|pre|..] == p;
      IndexAfterPiece(s, sep, |pre|, p);
    } else {
      var more := pieces[1..];
      var pre' := pre + p + [sep];
      assert pieces == [p] + more;
      JoinCons(p, more, sep);
      assert s == pre' + Join(more, sep);
      assert s[|pre|..|pre| + |p|] == p;
      IndexAfterPiece(s, sep, |pre|, p);
      SplitFromJoin(pre', more, sep);
    }
  }

  /** Splitting a join of separator-free pieces gives back the pieces. */
  lemma SplitJoin(pieces: seq<string>, sep: char)
    requires |pieces| >= 1
    requires forall k :: 0 <= k < |pieces| ==> sep !in pieces[k]
    ensures Split(Join(pieces, sep), sep) == pieces
  {
    SplitFromJoin("", pieces, sep);
    assert "" + Join(pieces, sep) == Join(pieces, sep);
  }

  /** Joining is appending: one more piece adds a separator and the piece. */
  lemma {:induction false} JoinSnoc(pieces: seq<string>, p: string, sep: char)
    requires |pieces| >= 1
    ensures Join(pieces + [p], sep) == Join(pieces, sep) + [sep] + p
    decreases |pieces|
  {
    if |pieces| > 1 {
      assert (pieces + [p])[1..] == pieces[1..] + [p];
      JoinSnoc(pieces[1..], p, sep);
    }
  }

  /** A character that is neither the separator nor in any piece is not in
      the join. */
  lemma {:induction false} JoinAvoids(pieces: seq<string>, sep: char, c: char)
    requires c != sep
    requires forall k :: 0 <= k < |pieces| ==> c !in pieces[k]
    ensures c !in Join(pieces, sep)
    decreases |pieces|
  {
    if |pieces| > 1 {
      JoinAvoids(pieces[1..], sep, c);
    }
  }

  /** Every non-separator character of `s[from..]` lies in some piece of
      its split: it is character `m` of piece `k`. */
  lemma {:induction false} SplitFromCovers(s: string, sep: char, from: nat, j: int) returns (k: nat, m: nat)
    requires from <= j < |s| && s[j] != sep
    ensures k < |SplitFrom(s, sep, from)|
    ensures m < |SplitFrom(s, sep, from)[k]| && SplitFrom(s, sep, from)[k][m] == s[j]
    decreases |s| - from
  {
    var i := IndexFrom(s, sep, from);
    IndexFromFirst(s, sep, from);
    if j < i {
      k, m := 0, j - from;
    } else {
      var k', m' := SplitFromCovers(s, sep, i + 1, j);
      k, m := k' + 1, m';
    }
  }

  /** Every non-separator character of `s` lies in some piece of its
      split. */
  lemma SplitCovers(s: string, sep: char, j: int) returns (k: nat, m: nat)
    requires 0 <= j < |s| && s[j] != sep
    ensures k < |Split(s, sep)| && m < |Split(s, sep)[k]| && Split(s, sep)[k][m] == s[j]
  {
    k, m := SplitFromCovers(s, sep, 0, j);
  }

  /** `term` occurs in `text` starting at position `i`. */
  predicate OccursAt(text: string, term: string, i: int) {
    0 <= i <= |text| - |term| && text[i..i + |term|] == term
  }

  /** `text.includes(term)`: `term` occurs somewhere in `text`. */
  predicate Includes(text: string, term: string) {
    exists i | 0 <= i <= |text| - |term| :: OccursAt(text, term, i)
  }
}
