/** The JavaScript string operations the three screens use, stated over `seq<char>`:
    `indexOf`/`includes`, `startsWith`, `split`, `join`, `replace` with a string
    pattern, a global character-class `replace`, case mapping, and the decimal
    reading and printing of non-negative integers. */
module Strings {
  import opened Wrappers

  // ---------------------------------------------------------------------------
  // Occurrences of a pattern
  // ---------------------------------------------------------------------------

  /** `pat` occurs in `s` starting at index `i`. */
  predicate OccursAt(s: string, pat: string, i: nat) {
    i + |pat| <= |s| && s[i..i + |pat|] == pat
  }

  /** `s.startsWith(prefix)`: the prefix occurs at index 0. */
  function StartsWith(s: string, prefix: string): (b: bool)
    ensures b <==> OccursAt(s, prefix, 0)
  {
    assert |prefix| <= |s| ==> s[0..|prefix|] == s[..|prefix|];
    |prefix| <= |s| && s[..|prefix|] == prefix
  }

  lemma OccursInTail(s: string, pat: string, j: nat)
    requires s != [] && j >= 1
    ensures OccursAt(s, pat, j) == OccursAt(s[1..], pat, j - 1)
  {
    if j + |pat| <= |s| {
      assert s[1..][j - 1..j - 1 + |pat|] == s[j..j + |pat|];
    }
  }

  /** `s.indexOf(pat)`: the first index at which `pat` occurs, or None for -1. */
  function IndexOf(s: string, pat: string): (r: Option<nat>)
    ensures r.Some? ==> OccursAt(s, pat, r.value)
    ensures r.Some? ==> forall j :: 0 <= j < r.value ==> !OccursAt(s, pat, j)
    ensures r.None? ==> forall j :: 0 <= j <= |s| ==> !OccursAt(s, pat, j)
    decreases |s|
  {
    if StartsWith(s, pat) then
      assert s[0..|pat|] == s[..|pat|];
      Some(0)
    else if s == [] then None
    else
      assert !OccursAt(s, pat, 0) by {
        if |pat| <= |s| { assert s[0..|pat|] == s[..|pat|]; }
      }
      assert forall j: nat :: j >= 1 ==> OccursAt(s, pat, j) == OccursAt(s[1..], pat, j - 1) by {
        forall j: nat | j >= 1 ensures OccursAt(s, pat, j) == OccursAt(s[1..], pat, j - 1) {
          OccursInTail(s, pat, j);
        }
      }
      match IndexOf(s[1..], pat)
      case None => None
      case Some(k) => Some(k + 1)
  }

  /** `s.includes(pat)`. */
  function Contains(s: string, pat: string): (b: bool)
    ensures b <==> exists j :: 0 <= j <= |s| && OccursAt(s, pat, j)
  {
    IndexOf(s, pat).Some?
  }

  /** `s.includes(c)` for a one-character pattern is membership of `c`. */
  lemma ContainsChar(s: string, c: char)
    ensures Contains(s, [c]) <==> c in s
  {
    if c in s {
      var j :| 0 <= j < |s| && s[j] == c;
      assert s[j..j + 1] == [c];
      assert OccursAt(s, [c], j);
    }
    if Contains(s, [c]) {
      var j :| 0 <= j <= |s| && OccursAt(s, [c], j);
      assert s[j..j + 1][0] == s[j];
    }
  }

  // ---------------------------------------------------------------------------
  // split and join
  // ---------------------------------------------------------------------------

  /** `s.split(sep)` for a non-empty string separator: the pieces between the
      leftmost non-overlapping occurrences of `sep`; the empty string gives `[""]`.
      No piece holds the separator, and the first piece is a prefix of `s`. */
  function Split(s: string, sep: string): (parts: seq<string>)
    requires sep != []
    ensures |parts| >= 1
    ensures StartsWith(s, parts[0])
    ensures forall i, j :: 0 <= i < |parts| ==> !OccursAt(parts[i], sep, j)
    decreases |s|
  {
    if StartsWith(s, sep) then [""] + Split(s[|sep|..], sep)
    else if s == [] then [""]
    else
      var rest := Split(s[1..], sep);
      PieceGrows(s, sep, rest[0]);
      [[s[0]] + rest[0]] + rest[1..]
  }

  /** A piece without the separator, read from the text after the first character, stays
      without it when that character is put back in front, as long as the separator does
      not start there. */
  lemma PieceGrows(s: string, sep: string, p: string)
    requires sep != [] && s != [] && !StartsWith(s, sep)
    requires StartsWith(s[1..], p)
    requires forall j :: !OccursAt(p, sep, j)
    ensures StartsWith(s, [s[0]] + p)
    ensures forall j :: !OccursAt([s[0]] + p, sep, j)
  {
    var q := [s[0]] + p;
    assert s[..|q|] == q by {
      assert s[1..][..|p|] == p;
    }
    forall j ensures !OccursAt(q, sep, j) {
      if j == 0 {
        if |sep| <= |q| {
          assert s[..|sep|] == q[..|sep|];
        }
      } else {
        OccursInTail(q, sep, j);
        assert q[1..] == p;
      }
    }
  }

  /** A string in which the separator does not occur splits into itself alone. */
  lemma {:induction false} SplitNoOccurrence(s: string, sep: string)
    requires sep != [] && !Contains(s, sep)
    ensures Split(s, sep) == [s]
    decreases |s|
  {
    if s != [] {
      assert StartsWith(s, sep) == OccursAt(s, sep, 0) by {
        if |sep| <= |s| { assert s[0..|sep|] == s[..|sep|]; }
      }
      forall k | 0 <= k <= |s| - 1 ensures !OccursAt(s[1..], sep, k) {
        OccursInTail(s, sep, k + 1);
      }
      SplitNoOccurrence(s[1..], sep);
      assert [s[0]] + s[1..] == s;
    }
  }

  /** The total length of some strings. */
  function TotalLength(parts: seq<string>): nat
    decreases |parts|
  {
    if parts == [] then 0 else |parts[0]| + TotalLength(parts[1..])
  }

  /** `parts.join(sep)`: every part once, in order, with one separator between two. */
  function Join(parts: seq<string>, sep: string): (r: string)
    ensures |parts| >= 1 ==> |r| == TotalLength(parts) + (|parts| - 1) * |sep|
    ensures |parts| >= 1 ==> StartsWith(r, parts[0])
    ensures parts == [] ==> r == ""
    decreases |parts|
  {
    if parts == [] then ""
    else if |parts| == 1 then parts[0]
    else parts[0] + sep + Join(parts[1..], sep)
  }

  /** Joining the pieces with the separator they were split on gives back the string. */
  lemma {:induction false} JoinSplit(s: string, sep: string)
    requires sep != []
    ensures Join(Split(s, sep), sep) == s
    decreases |s|
  {
    if StartsWith(s, sep) {
      JoinSplit(s[|sep|..], sep);
      JoinSplitAtSep(s, sep);
    } else if s != [] {
      JoinSplit(s[1..], sep);
      JoinSplitAtChar(s, sep);
    }
  }

  /** The step of `JoinSplit` where the string starts with the separator. */
  lemma JoinSplitAtSep(s: string, sep: string)
    requires sep != [] && StartsWith(s, sep)
    requires Join(Split(s[|sep|..], sep), sep) == s[|sep|..]
    ensures Join(Split(s, sep), sep) == s
  {
    var tail := s[|sep|..];
    var rest := Split(tail, sep);
    assert Split(s, sep) == [""] + rest;
    JoinCons("", rest, sep);
    assert Join([""] + rest, sep) == sep + tail by {
      assert "" + sep + Join(rest, sep) == sep + tail;
    }
    assert s == sep + tail by {
      assert s == s[..|sep|] + tail;
    }
  }

  /** The step of `JoinSplit` where the string starts with another character. */
  lemma JoinSplitAtChar(s: string, sep: string)
    requires sep != [] && s != [] && !StartsWith(s, sep)
    requires Join(Split(s[1..], sep), sep) == s[1..]
    ensures Join(Split(s, sep), sep) == s
  {
    var rest := Split(s[1..], sep);
    assert Split(s, sep) == [[s[0]] + rest[0]] + rest[1..];
    JoinGlue(s[0], rest, sep);
    assert s == [s[0]] + s[1..];
  }

  lemma JoinCons(x: string, ps: seq<string>, sep: string)
    requires |ps| >= 1
    ensures Join([x] + ps, sep) == x + sep + Join(ps, sep)
  {
    assert ([x] + ps)[1..] == ps;
  }

  lemma JoinGlue(c: char, ps: seq<string>, sep: string)
    requires |ps| >= 1
    ensures Join([[c] + ps[0]] + ps[1..], sep) == [c] + Join(ps, sep)
  {
    var qs := [[c] + ps[0]] + ps[1..];
    if |ps| > 1 {
      assert qs[1..] == ps[1..];
    }
  }

  /** A leading piece that does not hold the separator's first character is cut off whole. */
  lemma {:induction false} SplitAfter(a: string, sep: string, b: string)
    requires sep != [] && sep[0] !in a
    ensures Split(a + sep + b, sep) == [a] + Split(b, sep)
    decreases |a|
  {
    var s := a + sep + b;
    if a == [] {
      assert s == sep + b;
      assert s[..|sep|] == sep;
      assert s[|sep|..] == b;
    } else {
      assert s[0] == a[0];
      assert !StartsWith(s, sep);
      assert s[1..] == a[1..] + sep + b;
      SplitAfter(a[1..], sep, b);
      assert [a[0]] + a[1..] == a;
    }
  }

  /** A string without the separator's first character is one piece. */
  lemma {:induction false} SplitWhole(b: string, sep: string)
    requires sep != [] && sep[0] !in b
    ensures Split(b, sep) == [b]
    decreases |b|
  {
    if b != [] {
      assert !StartsWith(b, sep) by { assert b[0] != sep[0]; }
      SplitWhole(b[1..], sep);
      assert [b[0]] + b[1..] == b;
    }
  }

  /** No piece of a split on one character holds that character. */
  lemma {:induction false} SplitCharPieces(s: string, c: char)
    ensures forall i :: 0 <= i < |Split(s, [c])| ==> c !in Split(s, [c])[i]
    decreases |s|
  {
    if s != [] {
      SplitCharPieces(s[1..], c);
      if StartsWith(s, [c]) {
        assert s[|[c]|..] == s[1..];
      } else {
        assert s[0] != c by { assert s[..1] == [s[0]]; }
      }
    }
  }

  /** Splitting undoes joining, when no piece holds the separator's first character. */
  lemma {:induction false} SplitJoin(parts: seq<string>, sep: string)
    requires |parts| >= 1 && sep != []
    requires forall i :: 0 <= i < |parts| ==> sep[0] !in parts[i]
    ensures Split(Join(parts, sep), sep) == parts
    decreases |parts|
  {
    if |parts| == 1 {
      SplitWhole(parts[0], sep);
    } else {
      SplitJoin(parts[1..], sep);
      SplitAfter(parts[0], sep, Join(parts[1..], sep));
      assert [parts[0]] + parts[1..] == parts;
    }
  }

  /** Every character of every piece comes from the string split. */
  lemma {:induction false} SplitPiecesWithin(s: string, sep: string, c: char)
    requires sep != [] && c !in s
    ensures forall i :: 0 <= i < |Split(s, sep)| ==> c !in Split(s, sep)[i]
    decreases |s|
  {
    if StartsWith(s, sep) {
      SplitPiecesWithin(s[|sep|..], sep, c);
    } else if s != [] {
      SplitPiecesWithin(s[1..], sep, c);
    }
  }

  lemma {:induction false} JoinSnoc(ps: seq<string>, x: string, sep: string)
    requires |ps| >= 1
    ensures Join(ps + [x], sep) == Join(ps, sep) + sep + x
    decreases |ps|
  {
    if |ps| == 1 {
      assert (ps + [x])[1..] == [x];
    } else {
      assert (ps + [x])[1..] == ps[1..] + [x];
      JoinSnoc(ps[1..], x, sep);
    }
  }

  /** `s.split(c).pop()`: the text after the last `c`, or all of `s` when it holds none. */
  function LastPiece(s: string, c: char): (r: string)
    ensures c !in r
    ensures |r| <= |s| && s[|s| - |r|..] == r
    ensures |r| < |s| ==> s[|s| - |r| - 1] == c
  {
    var parts := Split(s, [c]);
    var n := |parts|;
    SplitCharPieces(s, c);
    JoinSplit(s, [c]);
    if n > 1 then
      assert parts[..n - 1] + [parts[n - 1]] == parts;
      JoinSnoc(parts[..n - 1], parts[n - 1], [c]);
      parts[n - 1]
    else
      parts[n - 1]
  }

  /** `s.split(c)[0]`: the text before the first `c`, or all of `s` when it holds none. */
  function FirstPiece(s: string, c: char): (r: string)
    ensures c !in r
    ensures |r| <= |s| && s[..|r|] == r
    ensures |r| < |s| ==> s[|r|] == c
  {
    var parts := Split(s, [c]);
    SplitCharPieces(s, c);
    JoinSplit(s, [c]);
    parts[0]
  }

  /** The last piece of a string ending in `c` and then `x` without `c` is `x`. */
  lemma LastPieceAfter(stem: string, c: char, x: string)
    requires c !in x
    ensures LastPiece(stem + [c] + x, c) == x
  {
    var s := stem + [c] + x;
    assert s[|s| - |x|..] == x;
    assert s[|s| - |x| - 1] == c;
  }

  /** A string without `c` is its own last piece. */
  lemma LastPieceWhole(s: string, c: char)
    requires c !in s
    ensures LastPiece(s, c) == s
  {
    assert s[|s| - |s|..] == s;
  }

  /** The first piece of `x`, then `c`, then anything, is `x` when `x` holds no `c`. */
  lemma FirstPieceBefore(x: string, c: char, rest: string)
    requires c !in x
    ensures FirstPiece(x + [c] + rest, c) == x
  {
    var s := x + [c] + rest;
    assert s[..|x|] == x;
    assert s[|x|] == c;
  }

  /** A string without `c` is its own first piece. */
  lemma FirstPieceWhole(s: string, c: char)
    requires c !in s
    ensures FirstPiece(s, c) == s
  {
  }

  // ---------------------------------------------------------------------------
  // replace
  // ---------------------------------------------------------------------------

  /** `s.replace(pat, rep)` with a string pattern: only the first occurrence is replaced. */
  function ReplaceFirst(s: string, pat: string, rep: string): (r: string)
    ensures !Contains(s, pat) ==> r == s
    ensures Contains(s, pat) ==> |r| == |s| - |pat| + |rep|
  {
    match IndexOf(s, pat)
    case None => s
    case Some(i) => s[..i] + rep + s[i + |pat|..]
  }

  /** When the first occurrence of `pat` is the one right after `pre`, that one is replaced
      and everything around it is kept, later occurrences included. */
  lemma ReplaceFirstAt(pre: string, pat: string, post: string, rep: string)
    requires forall j :: 0 <= j < |pre| ==> !OccursAt(pre + pat + post, pat, j)
    ensures ReplaceFirst(pre + pat + post, pat, rep) == pre + rep + post
  {
    var s := pre + pat + post;
    assert OccursAt(s, pat, |pre|) by { assert s[|pre|..|pre| + |pat|] == pat; }
    var i := IndexOf(s, pat);
    assert i == Some(|pre|);
    assert s[..|pre|] == pre;
    assert s[|pre| + |pat|..] == post;
  }

  /** `s.replace(/[...]/g, "")`: every character in `drop` removed, the others kept in order. */
  function RemoveChars(s: string, drop: set<char>): (r: string)
    ensures forall i :: 0 <= i < |r| ==> r[i] !in drop
    ensures |r| <= |s|
    decreases |s|
  {
    if s == [] then ""
    else if s[0] in drop then RemoveChars(s[1..], drop)
    else [s[0]] + RemoveChars(s[1..], drop)
  }

  /** A character survives the removal exactly when it occurs and is not removed. */
  lemma {:induction false} RemoveCharsMembers(s: string, drop: set<char>, c: char)
    ensures c in RemoveChars(s, drop) <==> c in s && c !in drop
    decreases |s|
  {
    if s != [] {
      RemoveCharsMembers(s[1..], drop, c);
      assert c in s <==> c == s[0] || c in s[1..];
    }
  }

  /** Removal works piece by piece: it commutes with concatenation. */
  lemma {:induction false} RemoveCharsAppend(a: string, b: string, drop: set<char>)
    ensures RemoveChars(a + b, drop) == RemoveChars(a, drop) + RemoveChars(b, drop)
    decreases |a|
  {
    if a != [] {
      assert (a + b)[1..] == a[1..] + b;
      RemoveCharsAppend(a[1..], b, drop);
    } else {
      assert a + b == b;
    }
  }

  /** A string that holds none of the dropped characters is left unchanged. */
  lemma {:induction false} RemoveCharsNone(s: string, drop: set<char>)
    requires forall i :: 0 <= i < |s| ==> s[i] !in drop
    ensures RemoveChars(s, drop) == s
    decreases |s|
  {
    if s != [] {
      RemoveCharsNone(s[1..], drop);
      assert [s[0]] + s[1..] == s;
    }
  }

  /** Removing two dropped characters that enclose a middle part, with nothing else
      dropped, leaves the three parts joined. */
  lemma RemoveCharsAround(before: string, c: char, mid: string, d: char, after: string, drop: set<char>)
    requires c in drop && d in drop
    requires forall i :: 0 <= i < |before| ==> before[i] !in drop
    requires forall i :: 0 <= i < |mid| ==> mid[i] !in drop
    requires forall i :: 0 <= i < |after| ==> after[i] !in drop
    ensures RemoveChars(before + [c] + mid + [d] + after, drop) == before + mid + after
  {
    RemoveCharsDropped(c, drop);
    RemoveCharsDropped(d, drop);
    RemoveCharsNone(before, drop);
    RemoveCharsNone(mid, drop);
    RemoveCharsNone(after, drop);
    var p1 := before + [c];
    RemoveCharsAppend(before, [c], drop);
    assert RemoveChars(p1, drop) == before;
    var p2 := p1 + mid;
    RemoveCharsAppend(p1, mid, drop);
    assert RemoveChars(p2, drop) == before + mid;
    var p3 := p2 + [d];
    RemoveCharsAppend(p2, [d], drop);
    assert RemoveChars(p3, drop) == before + mid;
    RemoveCharsAppend(p3, after, drop);
  }

  /** A dropped character alone is removed entirely. */
  lemma RemoveCharsDropped(c: char, drop: set<char>)
    requires c in drop
    ensures RemoveChars([c], drop) == []
  {
    assert [c][1..] == [];
  }

  // ---------------------------------------------------------------------------
  // Case mapping (Basic Latin and Latin-1 letters)
  // ---------------------------------------------------------------------------

  function LowerChar(c: char): char {
    if 'A' <= c <= 'Z' || ('À' <= c <= 'Þ' && c != '×') then (c as int + 32) as char
    else c
  }

  /** A lower-case Basic Latin or Latin-1 letter with a single upper-case partner in
      the same range. */
  predicate HasLatinUpper(c: char) {
    'a' <= c <= 'z' || ('à' <= c <= 'þ' && c != '÷')
  }

  /** `String(c).toUpperCase()` for Basic Latin and Latin-1 characters: a letter with a
      partner in the range moves to it, 'ß' becomes "SS", 'µ' the Greek capital mu and
      'ÿ' the capital Y with diaeresis; every other character is kept. */
  function UpperCase(c: char): (r: string)
    ensures |r| == (if c == 'ß' then 2 else 1)
    ensures HasLatinUpper(c) ==> r[0] != c && LowerChar(r[0]) == c
    ensures !HasLatinUpper(c) && c != 'ß' && c != 'µ' && c != 'ÿ' ==> r == [c]
    ensures c == 'ß' ==> r == "SS"
    ensures c == 'µ' ==> r == ['\U{039C}']
    ensures c == 'ÿ' ==> r == ['\U{0178}']
  {
    if HasLatinUpper(c) then [(c as int - 32) as char]
    else if c == 'ß' then "SS"
    else if c == 'µ' then ['\U{039C}']
    else if c == 'ÿ' then ['\U{0178}']
    else [c]
  }

  /** An upper-cased character's first character is already upper case. */
  lemma UpperCaseIdempotent(c: char)
    ensures UpperCase(UpperCase(c)[0]) == [UpperCase(c)[0]]
  {
  }

  /** `s.toLowerCase()`. */
  function ToLower(s: string): (r: string)
    ensures |r| == |s|
    ensures forall i :: 0 <= i < |s| ==> r[i] == LowerChar(s[i])
  {
    seq(|s|, i requires 0 <= i < |s| => LowerChar(s[i]))
  }

  // ---------------------------------------------------------------------------
  // Decimal digits
  // ---------------------------------------------------------------------------

  predicate IsDigit(c: char) {
    '0' <= c <= '9'
  }

  predicate AllDigits(s: string) {
    forall i :: 0 <= i < |s| ==> IsDigit(s[i])
  }

  function DigitChar(d: nat): (c: char)
    requires d < 10
    ensures IsDigit(c)
  {
    ('0' as int + d) as char
  }

  /** The decimal text of `n`, as a template literal prints a non-negative integer: no
      leading zero except for 0 itself. */
  function ShowNat(n: nat): (s: string)
    ensures |s| >= 1 && AllDigits(s)
    ensures n < 10 <==> |s| == 1
    ensures n >= 1 ==> s[0] != '0'
    decreases n
  {
    if n < 10 then [DigitChar(n)] else ShowNat(n / 10) + [DigitChar(n % 10)]
  }

  /** The decimal text of an integer, with a leading `-` when it is negative. */
  function ShowInt(i: int): (s: string)
    ensures i >= 0 ==> s == ShowNat(i)
    ensures i >= 0 ==> ParseNumber(s) == Some(i)
    ensures i < 0 ==> |s| >= 2 && s[0] == '-' && ParseNumber(s[1..]) == Some(-i)
  {
    if i < 0 then
      ParseShow(-i);
      assert ("-" + ShowNat(-i))[1..] == ShowNat(-i);
      "-" + ShowNat(-i)
    else
      ParseShow(i);
      ShowNat(i)
  }

  function DigitsValue(s: string): nat
    requires AllDigits(s)
    decreases |s|
  {
    if s == [] then 0 else DigitsValue(s[..|s| - 1]) * 10 + (s[|s| - 1] as int - '0' as int)
  }

  /** `Number(s)` on a string of decimal digits (the empty string reads as 0); None for
      every other string, where `Number` gives NaN or a value outside this model. */
  function ParseNumber(s: string): (r: Option<nat>)
    ensures r.Some? <==> AllDigits(s)
  {
    if AllDigits(s) then Some(DigitsValue(s)) else None
  }

  /** A written number holds no letter "h". */
  lemma ShownHasNoH(n: nat)
    ensures 'h' !in ShowNat(n)
  {
    var a := ShowNat(n);
    assert forall i :: 0 <= i < |a| ==> IsDigit(a[i]);
  }

  /** Reading back the printed decimal text of `n` gives `n`. */
  lemma {:induction false} ParseShow(n: nat)
    ensures ParseNumber(ShowNat(n)) == Some(n)
    decreases n
  {
    var s := ShowNat(n);
    if n >= 10 {
      ParseShow(n / 10);
      assert s[..|s| - 1] == ShowNat(n / 10);
      assert s[|s| - 1] == DigitChar(n % 10);
      assert DigitsValue(s) == DigitsValue(ShowNat(n / 10)) * 10 + n % 10;
    } else {
      assert s[..|s| - 1] == [];
      assert DigitsValue(s) == DigitsValue([]) * 10 + n;
    }
  }

  /** A leading zero does not change the value read. */
  lemma {:induction false} ParseLeadingZero(s: string)
    requires AllDigits(s)
    ensures ParseNumber("0" + s) == ParseNumber(s)
    decreases |s|
  {
    if s != [] {
      var t := "0" + s;
      assert t[..|t| - 1] == "0" + s[..|s| - 1];
      ParseLeadingZero(s[..|s| - 1]);
    } else {
      assert DigitsValue("0") == DigitsValue("") * 10 + 0;
    }
  }
}
