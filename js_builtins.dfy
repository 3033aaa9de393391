/**
 * The JavaScript string built-ins that the presentation code relies on,
 * stated over `seq<char>`: `split` and `join` with a string separator,
 * `toLowerCase`, the regular-expression class `\s`, `Number.prototype.toString`
 * on non-negative integers and `padStart`.
 */
module JsString {

  // ---------------------------------------------------------------------------
  // Occurrences of a separator
  // ---------------------------------------------------------------------------

  /** `sep` occurs in `t` starting at position `k`. */
  predicate OccursAt(t: string, sep: string, k: int) {
    0 <= k && k + |sep| <= |t| && t[k..k + |sep|] == sep
  }

  /** `t.includes(sep)`. */
  predicate Contains(t: string, sep: string) {
    exists k | 0 <= k <= |t| - |sep| :: OccursAt(t, sep, k)
  }

  lemma OccursAtSingle(t: string, c: char, k: int)
    requires 0 <= k < |t|
    ensures OccursAt(t, [c], k) <==> t[k] == c
  {
    assert t[k..k + 1] == [t[k]];
  }

  /** For a one-character separator, containment is plain membership. */
  lemma {:induction false} ContainsSingle(t: string, c: char)
    ensures Contains(t, [c]) <==> c in t
  {
    if c in t {
      var k :| 0 <= k < |t| && t[k] == c;
      OccursAtSingle(t, c, k);
    }
    if Contains(t, [c]) {
      var k :| 0 <= k <= |t| - 1 && OccursAt(t, [c], k);
      OccursAtSingle(t, c, k);
    }
  }

  // ---------------------------------------------------------------------------
  // split / join
  // ---------------------------------------------------------------------------

  /**
   * `s.split(sep)` for a non-empty separator: the text is cut at every
   * occurrence of `sep`, found left to right without overlap. The empty
   * string gives `[""]`, as in JavaScript.
   */
  function Split(s: string, sep: string): (parts: seq<string>)
    requires |sep| > 0
    ensures |parts| >= 1
    decreases |s|
  {
    if |s| < |sep| then [s]
    else if s[..|sep|] == sep then [""] + Split(s[|sep|..], sep)
    else
      var rest := Split(s[1..], sep);
      [[s[0]] + rest[0]] + rest[1..]
  }

  /** `parts.join(sep)`; the empty array joins to "". */
  function Join(parts: seq<string>, sep: string): string
    decreases |parts|
  {
    if |parts| == 0 then ""
    else if |parts| == 1 then parts[0]
    else parts[0] + sep + Join(parts[1..], sep)
  }

  lemma JoinConsHead(c: char, p: seq<string>, sep: string)
    requires |p| >= 1
    ensures Join([[c] + p[0]] + p[1..], sep) == [c] + Join(p, sep)
  {
    var q := [[c] + p[0]] + p[1..];
    assert q[1..] == p[1..];
  }

  /** Joining the pieces of a split with the same separator gives the text back. */
  lemma {:induction false} JoinSplit(s: string, sep: string)
    requires |sep| > 0
    ensures Join(Split(s, sep), sep) == s
    decreases |s|
  {
    if |s| < |sep| {
    } else if s[..|sep|] == sep {
      var t := s[|sep|..];
      var rest := Split(t, sep);
      assert Split(s, sep) == [""] + rest;
      JoinSplit(t, sep);
      JoinEmptyHead(rest, sep);
      assert s == s[..|sep|] + t;
    } else {
      var rest := Split(s[1..], sep);
      assert Split(s, sep) == [[s[0]] + rest[0]] + rest[1..];
      JoinSplit(s[1..], sep);
      JoinConsHead(s[0], rest, sep);
      assert s == [s[0]] + s[1..];
    }
  }

  lemma JoinEmptyHead(p: seq<string>, sep: string)
    requires |p| >= 1
    ensures Join([""] + p, sep) == sep + Join(p, sep)
  {
    assert ([""] + p)[1..] == p;
  }

  /**
   * The first piece of a split is a prefix of the text, and no piece
   * contains the separator.
   */
  lemma {:induction false} SplitPieces(s: string, sep: string)
    requires |sep| > 0
    ensures var parts := Split(s, sep);
      && |parts[0]| <= |s|
      && parts[0] == s[..|parts[0]|]
      && forall i :: 0 <= i < |parts| ==> !Contains(parts[i], sep)
    decreases |s|
  {
    var parts := Split(s, sep);
    if |s| < |sep| {
      assert parts == [s];
      forall k | OccursAt(s, sep, k) ensures false { }
    } else if s[..|sep|] == sep {
      var rest := Split(s[|sep|..], sep);
      SplitPieces(s[|sep|..], sep);
      assert parts == [""] + rest;
      forall i | 0 <= i < |parts| ensures !Contains(parts[i], sep) {
        if i == 0 {
          forall k | OccursAt(parts[0], sep, k) ensures false { }
        } else {
          assert parts[i] == rest[i - 1];
        }
      }
    } else {
      var rest := Split(s[1..], sep);
      SplitPieces(s[1..], sep);
      var first := [s[0]] + rest[0];
      assert parts == [first] + rest[1..];
      assert first == s[..|first|];
      forall k | OccursAt(first, sep, k) ensures false {
        if k > 0 {
          assert first[k..k + |sep|] == rest[0][k - 1..k - 1 + |sep|];
          assert OccursAt(rest[0], sep, k - 1);
        }
      }
      forall i | 0 <= i < |parts| ensures !Contains(parts[i], sep) {
        if i > 0 {
          assert parts[i] == rest[i];
        }
      }
    }
  }

  /**
   * Where `split` cuts: the first piece runs up to the leftmost occurrence of
   * the separator (no occurrence starts inside it), and when there is one the
   * remaining pieces are the split of the text after it. With the two cases
   * this fixes every piece.
   */
  lemma {:induction false} SplitFirstCut(s: string, sep: string)
    requires |sep| > 0
    ensures var parts := Split(s, sep);
      && (forall k :: 0 <= k < |parts[0]| ==> !OccursAt(s, sep, k))
      && (|parts| == 1 ==> parts[0] == s)
      && (|parts| > 1 ==>
            && |parts[0]| + |sep| <= |s|
            && OccursAt(s, sep, |parts[0]|)
            && parts[1..] == Split(s[|parts[0]| + |sep|..], sep))
    decreases |s|
  {
    var parts := Split(s, sep);
    if |s| < |sep| {
      assert parts == [s];
    } else if s[..|sep|] == sep {
      var rest := Split(s[|sep|..], sep);
      assert parts == [""] + rest;
      assert parts[0] == "" && parts[1..] == rest;
      assert OccursAt(s, sep, 0);
    } else {
      var rest := Split(s[1..], sep);
      SplitFirstCut(s[1..], sep);
      var first := [s[0]] + rest[0];
      assert parts == [first] + rest[1..];
      assert parts[0] == first && parts[1..] == rest[1..];
      FirstCutCons(s, sep, rest[0], |rest| == 1);
      if |rest| > 1 {
        var m := |rest[0]| + |sep|;
        assert rest[1..] == Split(s[1..][m..], sep);
        assert s[1..][m..] == s[|first| + |sep|..];
        assert parts[1..] == Split(s[|first| + |sep|..], sep);
      }
    }
  }

  /** The step of SplitFirstCut for a text that does not start with the separator. */
  lemma FirstCutCons(s: string, sep: string, piece: string, last: bool)
    requires |sep| > 0 && |s| >= |sep| && s[..|sep|] != sep
    requires forall k :: 0 <= k < |piece| ==> !OccursAt(s[1..], sep, k)
    requires last ==> piece == s[1..]
    requires !last ==> |piece| + |sep| <= |s| - 1 && OccursAt(s[1..], sep, |piece|)
    ensures forall k :: 0 <= k < 1 + |piece| ==> !OccursAt(s, sep, k)
    ensures last ==> [s[0]] + piece == s
    ensures !last ==> OccursAt(s, sep, 1 + |piece|) && s[1..][|piece| + |sep|..] == s[1 + |piece| + |sep|..]
  {
    forall k | 0 <= k < 1 + |piece| ensures !OccursAt(s, sep, k) {
      if k > 0 {
        OccursShift(s, sep, 1, k);
      }
    }
    if !last {
      OccursShift(s, sep, 1, 1 + |piece|);
    }
  }

  /** An occurrence at `k` is an occurrence at `k - m` in the text from `m` on. */
  lemma OccursShift(s: string, sep: string, m: nat, k: int)
    requires m <= k && m <= |s|
    ensures OccursAt(s, sep, k) <==> OccursAt(s[m..], sep, k - m)
  {
    if k + |sep| <= |s| {
      assert s[m..][k - m..k - m + |sep|] == s[k..k + |sep|];
    }
  }

  /** Where piece `i` of a split starts in the text: the earlier pieces and their separators. */
  function PieceStart(parts: seq<string>, sep: string, i: nat): (start: nat)
    requires i <= |parts|
    ensures start >= i * |sep|
    decreases i
  {
    if i == 0 then 0 else PieceStart(parts, sep, i - 1) + |parts[i - 1]| + |sep|
  }

  lemma {:induction false} PieceStartCons(p: string, q: seq<string>, sep: string, i: nat)
    requires 1 <= i <= |q| + 1
    ensures PieceStart([p] + q, sep, i) == |p| + |sep| + PieceStart(q, sep, i - 1)
    decreases i
  {
    if i > 1 {
      PieceStartCons(p, q, sep, i - 1);
      assert ([p] + q)[i - 1] == q[i - 2];
    }
  }

  /** No occurrence of `sep` in `s` starts inside piece `i`. */
  predicate NoneInside(s: string, sep: string, parts: seq<string>, i: nat)
    requires i < |parts|
  {
    forall k :: PieceStart(parts, sep, i) <= k < PieceStart(parts, sep, i) + |parts[i]| ==> !OccursAt(s, sep, k)
  }

  /** Piece `i` is followed by an occurrence of `sep` in `s`. */
  predicate CutAfter(s: string, sep: string, parts: seq<string>, i: nat)
    requires i < |parts|
  {
    OccursAt(s, sep, PieceStart(parts, sep, i) + |parts[i]|)
  }

  /** Piece `i` of `q` in the text after `p` and a separator is piece `i + 1` of `[p] + q` in the whole text. */
  lemma PieceShift(s: string, sep: string, p: string, q: seq<string>, i: nat)
    requires |p| + |sep| <= |s| && i < |q|
    ensures NoneInside(s[|p| + |sep|..], sep, q, i) ==> NoneInside(s, sep, [p] + q, i + 1)
    ensures CutAfter(s[|p| + |sep|..], sep, q, i) ==> CutAfter(s, sep, [p] + q, i + 1)
  {
    var m := |p| + |sep|;
    PieceStartCons(p, q, sep, i + 1);
    assert ([p] + q)[i + 1] == q[i];
    if NoneInside(s[m..], sep, q, i) {
      forall k | PieceStart([p] + q, sep, i + 1) <= k < PieceStart([p] + q, sep, i + 1) + |q[i]|
        ensures !OccursAt(s, sep, k)
      {
        OccursShift(s, sep, m, k);
      }
    }
    OccursShift(s, sep, m, PieceStart([p] + q, sep, i + 1) + |q[i]|);
  }

  /**
   * Every cut of a split is at the leftmost remaining occurrence: no
   * occurrence of the separator starts inside any piece, and each piece but
   * the last is followed by one.
   */
  lemma {:induction false} SplitLeftmost(s: string, sep: string)
    requires |sep| > 0
    ensures var parts := Split(s, sep);
      && (forall i :: 0 <= i < |parts| ==> NoneInside(s, sep, parts, i))
      && (forall i :: 0 <= i < |parts| - 1 ==> CutAfter(s, sep, parts, i))
    decreases |s|
  {
    var parts := Split(s, sep);
    SplitFirstCut(s, sep);
    assert NoneInside(s, sep, parts, 0);
    if |parts| > 1 {
      SplitLeftmost(s[|parts[0]| + |sep|..], sep);
      LeftmostCons(s, sep, parts, s[|parts[0]| + |sep|..], parts[1..]);
    }
  }

  /** The step of SplitLeftmost: the first piece and its cut, then the pieces of the rest. */
  lemma LeftmostCons(s: string, sep: string, parts: seq<string>, t: string, q: seq<string>)
    requires |parts| >= 2 && |parts[0]| + |sep| <= |s|
    requires t == s[|parts[0]| + |sep|..] && q == parts[1..]
    requires NoneInside(s, sep, parts, 0) && OccursAt(s, sep, |parts[0]|)
    requires forall i :: 0 <= i < |q| ==> NoneInside(t, sep, q, i)
    requires forall i :: 0 <= i < |q| - 1 ==> CutAfter(t, sep, q, i)
    ensures forall i :: 0 <= i < |parts| ==> NoneInside(s, sep, parts, i)
    ensures forall i :: 0 <= i < |parts| - 1 ==> CutAfter(s, sep, parts, i)
  {
    assert parts == [parts[0]] + q;
    assert CutAfter(s, sep, parts, 0);
    forall i | 1 <= i < |parts|
      ensures NoneInside(s, sep, parts, i)
      ensures i < |parts| - 1 ==> CutAfter(s, sep, parts, i)
    {
      PieceShift(s, sep, parts[0], q, i - 1);
    }
  }



  /** A text with no occurrence of the separator splits into itself alone. */
  lemma {:induction false} SplitWithoutSeparator(s: string, sep: string)
    requires |sep| > 0 && !Contains(s, sep)
    ensures Split(s, sep) == [s]
    decreases |s|
  {
    if |s| < |sep| {
    } else if s[..|sep|] == sep {
      assert OccursAt(s, sep, 0);
    } else {
      assert !Contains(s[1..], sep) by {
        forall k | OccursAt(s[1..], sep, k) ensures false {
          assert s[1..][k..k + |sep|] == s[k + 1..k + 1 + |sep|];
          assert OccursAt(s, sep, k + 1);
        }
      }
      SplitWithoutSeparator(s[1..], sep);
      assert s == [s[0]] + s[1..];
    }
  }

  /** Every occurrence of the character `c` in `s` replaced by `d`. */
  function ReplaceChar(s: string, c: char, d: char): (r: string)
    ensures |r| == |s|
    ensures forall i :: 0 <= i < |s| ==> r[i] == (if s[i] == c then d else s[i])
  {
    seq(|s|, i requires 0 <= i < |s| => if s[i] == c then d else s[i])
  }

  lemma ReplaceCharAppend(a: string, b: string, c: char, d: char)
    ensures ReplaceChar(a + b, c, d) == ReplaceChar(a, c, d) + ReplaceChar(b, c, d)
  {
  }

  /**
   * Joining pieces that do not contain `c` with `c` and then replacing every
   * `c` by `d` is the same as joining them with `d`.
   */
  lemma {:induction false} ReplaceJoin(ps: seq<string>, c: char, d: char)
    requires forall i :: 0 <= i < |ps| ==> c !in ps[i]
    ensures ReplaceChar(Join(ps, [c]), c, d) == Join(ps, [d])
    decreases |ps|
  {
    if |ps| == 0 {
    } else if |ps| == 1 {
      assert ReplaceChar(ps[0], c, d) == ps[0];
    } else {
      ReplaceJoin(ps[1..], c, d);
      assert ReplaceChar(ps[0], c, d) == ps[0];
      ReplaceCharAppend(ps[0], [c], c, d);
      ReplaceCharAppend(ps[0] + [c], Join(ps[1..], [c]), c, d);
    }
  }

  /** The pieces of a split on one character do not contain that character. */
  lemma SplitCharPieces(s: string, c: char)
    ensures var parts := Split(s, [c]);
      forall i :: 0 <= i < |parts| ==> c !in parts[i]
  {
    var parts := Split(s, [c]);
    SplitPieces(s, [c]);
    forall i | 0 <= i < |parts| ensures c !in parts[i] {
      ContainsSingle(parts[i], c);
    }
  }

  // ---------------------------------------------------------------------------
  // toLowerCase
  // ---------------------------------------------------------------------------

  predicate IsAsciiUpper(c: char) {
    'A' <= c <= 'Z'
  }

  /** `toLowerCase` on one character, for the ASCII letters. */
  function LowerChar(c: char): (r: char)
    ensures IsAsciiUpper(c) ==> r as int == c as int + 32
    ensures !IsAsciiUpper(c) ==> r == c
    ensures !IsAsciiUpper(r)
  {
    if IsAsciiUpper(c) then (c as int + 32) as char else c
  }

  /** `s.toLowerCase()`, character by character. */
  function ToLowerCase(s: string): (r: string)
    ensures |r| == |s|
    ensures forall i :: 0 <= i < |s| ==> r[i] == LowerChar(s[i])
  {
    seq(|s|, i requires 0 <= i < |s| => LowerChar(s[i]))
  }

  /** Lower-casing twice is lower-casing once. */
  lemma LowerCaseIdempotent(s: string)
    ensures ToLowerCase(ToLowerCase(s)) == ToLowerCase(s)
  {
  }

  // ---------------------------------------------------------------------------
  // The regular-expression class \s
  // ---------------------------------------------------------------------------

  /**
   * What `\s` matches in a JavaScript regular expression: the WhiteSpace
   * and LineTerminator code points of ECMAScript.
   */
  predicate IsWhitespace(c: char) {
    c in WhitespaceChars
  }

  const WhitespaceChars: set<char> := {
    '\t', '\n', '\U{000B}', '\U{000C}', '\r', ' ', '\U{00A0}', '\U{1680}',
    '\U{2000}', '\U{2001}', '\U{2002}', '\U{2003}', '\U{2004}', '\U{2005}',
    '\U{2006}', '\U{2007}', '\U{2008}', '\U{2009}', '\U{200A}',
    '\U{2028}', '\U{2029}', '\U{202F}', '\U{205F}', '\U{3000}', '\U{FEFF}'}

  lemma LowerCharKeepsWhitespace(c: char)
    ensures IsWhitespace(LowerChar(c)) <==> IsWhitespace(c)
  {
  }

  // ---------------------------------------------------------------------------
  // Number.prototype.toString and padStart
  // ---------------------------------------------------------------------------

  predicate IsDigit(c: char) {
    '0' as int <= c as int <= '9' as int
  }

  function DigitChar(d: nat): (c: char)
    requires d < 10
    ensures IsDigit(c) && c as int - '0' as int == d
  {
    ('0' as int + d) as char
  }

  /** `n.toString()` for a non-negative integer: its decimal digits. */
  function NatToString(n: nat): (s: string)
    decreases n
  {
    if n < 10 then [DigitChar(n)] else NatToString(n / 10) + [DigitChar(n % 10)]
  }

  /** The value of a string of decimal digits (leading zeros allowed). */
  function DecimalValue(s: string): nat
    requires forall i :: 0 <= i < |s| ==> IsDigit(s[i])
    decreases |s|
  {
    if |s| == 0 then 0
    else
      assert IsDigit(s[|s| - 1]);
      10 * DecimalValue(s[..|s| - 1]) + (s[|s| - 1] as int - '0' as int)
  }

  /** The number of decimal digits of `n`. */
  function NumDigits(n: nat): (k: nat)
    ensures k >= 1
  {
    if n < 10 then 1 else 1 + NumDigits(n / 10)
  }

  /**
   * `n.toString()` is made of digits only, has NumDigits(n) of them, starts
   * with a non-zero digit unless n is 0, and reads back as n.
   */
  lemma {:induction false} NatToStringDigits(n: nat)
    ensures var s := NatToString(n);
      && |s| == NumDigits(n)
      && (forall i :: 0 <= i < |s| ==> IsDigit(s[i]))
      && (n > 0 ==> s[0] != '0')
      && DecimalValue(s) == n
    decreases n
  {
    var s := NatToString(n);
    if n >= 10 {
      NatToStringDigits(n / 10);
      var p := NatToString(n / 10);
      assert s == p + [DigitChar(n % 10)];
      assert s[..|s| - 1] == p;
    }
  }

  /** A single digit prints as itself; a larger number as at least two digits. */
  lemma {:induction false} NatToStringLength(n: nat)
    ensures n < 10 ==> NatToString(n) == [DigitChar(n)]
    ensures n >= 10 ==> |NatToString(n)| >= 2
  {
    if n >= 10 {
      NatToStringDigits(n / 10);
    }
  }

  /** Leading zeros do not change the value of a digit string. */
  lemma {:induction false} DecimalValueLeadingZero(s: string)
    requires forall i :: 0 <= i < |s| ==> IsDigit(s[i])
    ensures DecimalValue("0" + s) == DecimalValue(s)
    decreases |s|
  {
    var t := "0" + s;
    if |s| == 0 {
      assert t[..0] == "";
    } else {
      assert t[..|t| - 1] == "0" + s[..|s| - 1];
      DecimalValueLeadingZero(s[..|s| - 1]);
    }
  }

  /** `k` copies of `c`. */
  function Repeat(c: char, k: nat): (r: string)
    ensures |r| == k && forall i :: 0 <= i < k ==> r[i] == c
  {
    seq(k, _ => c)
  }

  /** `s.padStart(len, [fill])`. */
  function PadStart(s: string, len: nat, fill: char): (r: string)
    ensures |r| == if |s| >= len then |s| else len
    ensures r[|r| - |s|..] == s
    ensures forall i :: 0 <= i < |r| - |s| ==> r[i] == fill
  {
    if |s| >= len then s else Repeat(fill, len - |s|) + s
  }
}

/**
 * `Array.prototype.sort` with a comparator that orders records by an integer
 * key. The sort is stable (ECMAScript 2019 requires it), so it is modelled by
 * a stable insertion sort.
 */
module JsArray {

  /** The keys of `s` never decrease. */
  predicate SortedBy<T>(s: seq<T>, key: T -> int) {
    forall i, j :: 0 <= i < j < |s| ==> key(s[i]) <= key(s[j])
  }

  /** The keys of `s` strictly increase. */
  predicate StrictlyIncreasing<T>(s: seq<T>, key: T -> int) {
    forall i, j :: 0 <= i < j < |s| ==> key(s[i]) < key(s[j])
  }

  /**
   * Inserts `x` into `sorted` after every element whose key is at most
   * `key(x)`.
   */
  function InsertStable<T>(sorted: seq<T>, x: T, key: T -> int): seq<T>
    decreases |sorted|
  {
    if |sorted| == 0 then [x]
    else if key(sorted[|sorted| - 1]) <= key(x) then sorted + [x]
    else InsertStable(sorted[..|sorted| - 1], x, key) + [sorted[|sorted| - 1]]
  }

  /** `s.sort((a, b) => key(a) - key(b))`. */
  function SortBy<T>(s: seq<T>, key: T -> int): seq<T>
    decreases |s|
  {
    if |s| == 0 then []
    else InsertStable(SortBy(s[..|s| - 1], key), s[|s| - 1], key)
  }

  lemma {:induction false} InsertStableSorted<T>(sorted: seq<T>, x: T, key: T -> int)
    requires SortedBy(sorted, key)
    ensures SortedBy(InsertStable(sorted, x, key), key)
    ensures |InsertStable(sorted, x, key)| == |sorted| + 1
    ensures forall i :: 0 <= i < |InsertStable(sorted, x, key)| ==>
      key(InsertStable(sorted, x, key)[i]) <= Max(key(x), if |sorted| == 0 then key(x) else key(sorted[|sorted| - 1]))
    decreases |sorted|
  {
    if |sorted| == 0 {
    } else if key(sorted[|sorted| - 1]) <= key(x) {
    } else {
      var init := sorted[..|sorted| - 1];
      InsertStableSorted(init, x, key);
    }
  }

  /** Inserting adds exactly `x` to the elements. */
  lemma {:induction false} InsertStablePerm<T>(sorted: seq<T>, x: T, key: T -> int)
    ensures multiset(InsertStable(sorted, x, key)) == multiset(sorted) + multiset{x}
    decreases |sorted|
  {
    if |sorted| > 0 && key(sorted[|sorted| - 1]) > key(x) {
      var init := sorted[..|sorted| - 1];
      InsertStablePerm(init, x, key);
      assert sorted == init + [sorted[|sorted| - 1]];
    }
  }

  function Max(a: int, b: int): int {
    if a < b then b else a
  }

  /** The sort orders by key and is a permutation of its input. */
  lemma {:induction false} SortBySorted<T>(s: seq<T>, key: T -> int)
    ensures SortedBy(SortBy(s, key), key)
    ensures multiset(SortBy(s, key)) == multiset(s)
    ensures |SortBy(s, key)| == |s|
    decreases |s|
  {
    if |s| > 0 {
      SortBySorted(s[..|s| - 1], key);
      InsertStableSorted(SortBy(s[..|s| - 1], key), s[|s| - 1], key);
      InsertStablePerm(SortBy(s[..|s| - 1], key), s[|s| - 1], key);
      assert s == s[..|s| - 1] + [s[|s| - 1]];
    }
  }

  /** Sorting a list that is already in key order leaves it unchanged. */
  lemma {:induction false} SortByAlreadySorted<T>(s: seq<T>, key: T -> int)
    requires SortedBy(s, key)
    ensures SortBy(s, key) == s
    decreases |s|
  {
    if |s| > 0 {
      var init, last := s[..|s| - 1], s[|s| - 1];
      SortedFront(s, key);
      SortByAlreadySorted(init, key);
      SortByLast(s, key);
      InsertAtEnd(init, last, key);
      assert init + [last] == s;
    }
  }

  /** The front of a sorted list is sorted, and its last key is at most the list's last key. */
  lemma SortedFront<T>(s: seq<T>, key: T -> int)
    requires |s| > 0 && SortedBy(s, key)
    ensures SortedBy(s[..|s| - 1], key)
    ensures |s| == 1 || key(s[..|s| - 1][|s| - 2]) <= key(s[|s| - 1])
  {
    var init := s[..|s| - 1];
    forall i, j | 0 <= i < j < |init| ensures key(init[i]) <= key(init[j]) {
      assert init[i] == s[i] && init[j] == s[j];
    }
    if |s| > 1 {
      assert init[|s| - 2] == s[|s| - 2];
    }
  }

  lemma SortByLast<T>(s: seq<T>, key: T -> int)
    requires |s| > 0
    ensures SortBy(s, key) == InsertStable(SortBy(s[..|s| - 1], key), s[|s| - 1], key)
  {
  }

  /** An element whose key is at least every key of a sorted list goes at its end. */
  lemma InsertAtEnd<T>(sorted: seq<T>, x: T, key: T -> int)
    requires |sorted| == 0 || key(sorted[|sorted| - 1]) <= key(x)
    ensures InsertStable(sorted, x, key) == sorted + [x]
  {
  }

}
