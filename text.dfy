/** Character classes and small string operations shared by both scripts.
    Strings are `seq<char>`; the character classes stand for the ones Python's
    `re` module and `str` methods use on text. */
module Text {

  datatype Option<T> = None | Some(value: T)

  /** Python's `str.isspace()`, which is also what `\s` matches in a str pattern. */
  predicate IsSpace(c: char)
  {
    c == ' ' || ('\t' <= c <= '\r') || ('\U{1C}' <= c <= '\U{1F}')
    || c == '\U{85}' || c == '\U{A0}' || c == '\U{1680}'
    || ('\U{2000}' <= c <= '\U{200A}') || c == '\U{2028}' || c == '\U{2029}'
    || c == '\U{202F}' || c == '\U{205F}' || c == '\U{3000}'
  }

  /** `\d`, restricted to the ASCII digits. */
  predicate IsDigit(c: char)
  {
    '0' <= c <= '9'
  }

  /** `[A-Za-z]`. */
  predicate IsAsciiLetter(c: char)
  {
    ('A' <= c <= 'Z') || ('a' <= c <= 'z')
  }

  /** `\w`, restricted to ASCII letters, digits and the underscore. */
  predicate IsWordChar(c: char)
  {
    IsAsciiLetter(c) || IsDigit(c) || c == '_'
  }

  predicate AllSpace(s: string)
  {
    forall i :: 0 <= i < |s| ==> IsSpace(s[i])
  }

  predicate AllDigits(s: string)
  {
    forall i :: 0 <= i < |s| ==> IsDigit(s[i])
  }

  /** The end of the whitespace run that starts at position `k` of `t`. */
  function SkipSpace(t: string, k: nat): (e: nat)
    requires k <= |t|
    ensures k <= e <= |t|
    ensures e < |t| ==> !IsSpace(t[e])
    decreases |t| - k
  {
    if k < |t| && IsSpace(t[k]) then SkipSpace(t, k + 1) else k
  }

  /** The end of the digit run that starts at position `k` of `t`. */
  function SkipDigits(t: string, k: nat): (e: nat)
    requires k <= |t|
    ensures k <= e <= |t|
    ensures e < |t| ==> !IsDigit(t[e])
    decreases |t| - k
  {
    if k < |t| && IsDigit(t[k]) then SkipDigits(t, k + 1) else k
  }

  /** The end of the ASCII-letter run that starts at position `k` of `t`. */
  function SkipLetters(t: string, k: nat): (e: nat)
    requires k <= |t|
    ensures k <= e <= |t|
    ensures e < |t| ==> !IsAsciiLetter(t[e])
    decreases |t| - k
  {
    if k < |t| && IsAsciiLetter(t[k]) then SkipLetters(t, k + 1) else k
  }

  /** The start of the whitespace run that ends at position `hi` of `t`, not going below `lo`. */
  function SkipSpaceBack(t: string, lo: nat, hi: nat): (x: nat)
    requires lo <= hi <= |t|
    ensures lo <= x <= hi
    ensures lo < x ==> !IsSpace(t[x - 1])
    decreases hi - lo
  {
    if lo < hi && IsSpace(t[hi - 1]) then SkipSpaceBack(t, lo, hi - 1) else hi
  }

  /** Every character of `t` from position `lo` up to `hi` is whitespace. Stretches of
      the text are described by position rather than by slice, and by recursion rather
      than by a quantifier, so that the verifier looks inside only where a proof asks. */
  predicate SpaceIn(t: string, lo: nat, hi: nat)
    decreases hi - lo
  {
    lo <= hi <= |t| && (lo == hi || (IsSpace(t[lo]) && SpaceIn(t, lo + 1, hi)))
  }

  predicate DigitsIn(t: string, lo: nat, hi: nat)
    decreases hi - lo
  {
    lo <= hi <= |t| && (lo == hi || (IsDigit(t[lo]) && DigitsIn(t, lo + 1, hi)))
  }

  predicate LettersIn(t: string, lo: nat, hi: nat)
    decreases hi - lo
  {
    lo <= hi <= |t| && (lo == hi || (IsAsciiLetter(t[lo]) && LettersIn(t, lo + 1, hi)))
  }

  lemma {:induction false} SpaceInAt(t: string, lo: nat, hi: nat, i: nat)
    requires SpaceIn(t, lo, hi) && lo <= i < hi
    ensures IsSpace(t[i])
    decreases hi - lo
  {
    if lo < i { SpaceInAt(t, lo + 1, hi, i); }
  }

  lemma {:induction false} SpaceInPrefix(t: string, lo: nat, mid: nat, hi: nat)
    requires SpaceIn(t, lo, hi) && lo <= mid <= hi
    ensures SpaceIn(t, lo, mid)
    decreases mid - lo
  {
    if lo < mid { SpaceInPrefix(t, lo + 1, mid, hi); }
  }

  lemma {:induction false} DigitsInAt(t: string, lo: nat, hi: nat, i: nat)
    requires DigitsIn(t, lo, hi) && lo <= i < hi
    ensures IsDigit(t[i])
    decreases hi - lo
  {
    if lo < i { DigitsInAt(t, lo + 1, hi, i); }
  }

  /** Everything `SkipSpace` skips is whitespace. The run facts are lemmas rather than
      postconditions so that they are only in scope where a proof asks for them. */
  lemma {:induction false} SpaceRun(t: string, k: nat)
    requires k <= |t|
    ensures SpaceIn(t, k, SkipSpace(t, k))
    decreases |t| - k
  {
    if k < |t| && IsSpace(t[k]) { SpaceRun(t, k + 1); }
  }

  /** Text appended after the end of a whitespace run does not change where it ends; a
      run that reaches the end of `x` goes on into what is appended. */
  lemma {:induction false} SkipSpaceAppend(x: string, y: string, k: nat)
    requires k <= |x|
    ensures SkipSpace(x, k) < |x| ==> SkipSpace(x + y, k) == SkipSpace(x, k)
    ensures SkipSpace(x, k) == |x| ==> SkipSpace(x + y, k) == SkipSpace(x + y, |x|)
    decreases |x| - k
  {
    if k < |x| {
      assert (x + y)[k] == x[k];
      if IsSpace(x[k]) { SkipSpaceAppend(x, y, k + 1); }
    }
  }

  /** Over text that is all whitespace, the run goes to the end. */
  lemma {:induction false} SkipSpaceAllSpace(w: string, k: nat)
    requires k <= |w| && AllSpace(w)
    ensures SkipSpace(w, k) == |w|
    decreases |w| - k
  {
    if k < |w| { SkipSpaceAllSpace(w, k + 1); }
  }

  lemma {:induction false} DigitRun(t: string, k: nat)
    requires k <= |t|
    ensures DigitsIn(t, k, SkipDigits(t, k))
    decreases |t| - k
  {
    if k < |t| && IsDigit(t[k]) { DigitRun(t, k + 1); }
  }

  lemma {:induction false} LetterRun(t: string, k: nat)
    requires k <= |t|
    ensures LettersIn(t, k, SkipLetters(t, k))
    decreases |t| - k
  {
    if k < |t| && IsAsciiLetter(t[k]) { LetterRun(t, k + 1); }
  }

  lemma {:induction false} SpaceBackRun(t: string, lo: nat, hi: nat)
    requires lo <= hi <= |t|
    ensures SpaceIn(t, SkipSpaceBack(t, lo, hi), hi)
    decreases hi - lo
  {
    if lo < hi && IsSpace(t[hi - 1]) {
      SpaceBackRun(t, lo, hi - 1);
      SpaceInExtend(t, SkipSpaceBack(t, lo, hi), hi - 1);
    }
  }

  /** A whitespace stretch followed by a whitespace character is one character longer. */
  lemma {:induction false} SpaceInExtend(t: string, lo: nat, hi: nat)
    requires SpaceIn(t, lo, hi) && hi < |t| && IsSpace(t[hi])
    ensures SpaceIn(t, lo, hi + 1)
    decreases hi - lo
  {
    if lo < hi { SpaceInExtend(t, lo + 1, hi); }
  }

  /** A whitespace stretch starting at `lo` cannot reach past the end of the run. */
  lemma {:induction false} SpaceStretchWithinRun(t: string, lo: nat, k: nat)
    requires SpaceIn(t, lo, k)
    ensures k <= SkipSpace(t, lo)
    decreases k - lo
  {
    if lo < k { SpaceStretchWithinRun(t, lo + 1, k); }
  }

  /** A digit stretch starting at `lo` and ended by a non-digit is exactly the digit run. */
  lemma {:induction false} DigitStretch(t: string, lo: nat, k: nat)
    requires DigitsIn(t, lo, k) && k < |t| && !IsDigit(t[k])
    ensures SkipDigits(t, lo) == k
    decreases k - lo
  {
    if lo < k { DigitStretch(t, lo + 1, k); }
  }

  /** A stretch of digits read off by position is a digit string as a slice. */
  lemma DigitsInSlice(t: string, lo: nat, hi: nat)
    requires DigitsIn(t, lo, hi)
    ensures AllDigits(t[lo..hi])
  {
    forall i | 0 <= i < hi - lo ensures IsDigit(t[lo..hi][i]) {
      DigitsInAt(t, lo, hi, lo + i);
    }
  }

  /** `pat` occurs in `s` at position `k`. */
  predicate StartsWithAt(s: string, k: nat, pat: string)
  {
    k + |pat| <= |s| && s[k..k + |pat|] == pat
  }

  /** A marker occurs at `k` exactly when its first character does and the rest follows. */
  lemma StartsWithAtCons(s: string, k: nat, c: char, pat: string)
    requires k < |s|
    ensures StartsWithAt(s, k, [c] + pat) <==> s[k] == c && StartsWithAt(s, k + 1, pat)
  {
    if k + 1 + |pat| <= |s| {
      assert s[k..k + 1 + |pat|] == [s[k]] + s[k + 1..k + 1 + |pat|];
    }
  }

  /** A text that starts with `pat` is `pat` followed by the rest. */
  lemma StartsWithRest(s: string, pat: string)
    requires StartsWithAt(s, 0, pat)
    ensures s == pat + s[|pat|..]
  {
    assert s == s[..|pat|] + s[|pat|..];
  }

  predicate StartsWith(s: string, pat: string)
  {
    StartsWithAt(s, 0, pat)
  }

  /** The first position at or after `from` where `pat` occurs (`str.find`). */
  function Find(s: string, pat: string, from: nat): (r: Option<nat>)
    requires from <= |s|
    ensures r.Some? ==> from <= r.value && StartsWithAt(s, r.value, pat)
    decreases |s| - from
  {
    if StartsWithAt(s, from, pat) then Some(from)
    else if from == |s| then None
    else Find(s, pat, from + 1)
  }

  /** `Find` returns the first occurrence, and nothing only when there is none. */
  lemma {:induction false} FindFirst(s: string, pat: string, from: nat)
    requires from <= |s|
    ensures var r := Find(s, pat, from);
      forall k :: from <= k <= |s| && (r.Some? ==> k < r.value) ==> !StartsWithAt(s, k, pat)
    decreases |s| - from
  {
    if !StartsWithAt(s, from, pat) && from < |s| { FindFirst(s, pat, from + 1); }
  }

  /** The text has no surrounding whitespace. */
  predicate IsStripped(s: string)
  {
    s == [] || (!IsSpace(s[0]) && !IsSpace(s[|s| - 1]))
  }

  /** Python's `str.lstrip()` with no argument. */
  function LStrip(s: string): (r: string)
    ensures |r| <= |s| && (r == [] || !IsSpace(r[0]))
  {
    if s != [] && IsSpace(s[0]) then LStrip(s[1..]) else s
  }

  /** Python's `str.rstrip()` with no argument. */
  function RStrip(s: string): (r: string)
    ensures |r| <= |s| && (r == [] || (r[0] == s[0] && !IsSpace(r[|r| - 1])))
    ensures s != [] && !IsSpace(s[0]) ==> r != []
  {
    if s != [] && IsSpace(s[|s| - 1]) then RStrip(s[..|s| - 1]) else s
  }

  /** `lstrip()` leaves a suffix and removes only whitespace. */
  lemma {:induction false} LStripSuffix(s: string)
    ensures var r := LStrip(s); r == s[|s| - |r|..] && AllSpace(s[..|s| - |r|])
    decreases |s|
  {
    if s != [] && IsSpace(s[0]) {
      LStripSuffix(s[1..]);
      var r := LStrip(s);
      assert s[1..][|s| - 1 - |r|..] == s[|s| - |r|..];
      assert s[..|s| - |r|] == [s[0]] + s[1..][..|s| - 1 - |r|];
    }
  }

  /** `rstrip()` leaves a prefix and removes only whitespace. */
  lemma {:induction false} RStripPrefix(s: string)
    ensures var r := RStrip(s); r == s[..|r|] && AllSpace(s[|r|..])
    decreases |s|
  {
    if s != [] && IsSpace(s[|s| - 1]) {
      var u := s[..|s| - 1];
      RStripPrefix(u);
      var r := RStrip(s);
      assert u[..|r|] == s[..|r|];
      assert s[|r|..] == u[|r|..] + [s[|s| - 1]];
    }
  }

  /** Python's `str.strip()` with no argument. */
  function Strip(s: string): (r: string)
    ensures IsStripped(r)
  {
    RStrip(LStrip(s))
  }

  /** `strip()` removes whitespace from the two ends and nothing else. */
  lemma StripRemovesOnlySpace(s: string) returns (i: nat, j: nat)
    ensures i <= j <= |s| && Strip(s) == s[i..j] && AllSpace(s[..i]) && AllSpace(s[j..])
  {
    var l := LStrip(s);
    var r := RStrip(l);
    LStripSuffix(s);
    RStripPrefix(l);
    i := |s| - |l|;
    j := i + |r|;
    assert l == s[i..];
    assert l[..|r|] == s[i..j];
    assert l[|r|..] == s[j..];
  }

  /** A stripped string is its own `strip()`. */
  lemma StripIdempotent(s: string)
    requires IsStripped(s)
    ensures Strip(s) == s
  {
  }

  /** Proved once here, where nothing else is in scope, and called where the sequences
      are large terms. */
  lemma ConcatAssoc<T>(a: seq<T>, b: seq<T>, c: seq<T>)
    ensures (a + b) + c == a + (b + c)
  {
  }

  /** Putting one element in front shifts the others by one. */
  lemma ConsIndex<T>(x: T, a: seq<T>)
    ensures |[x] + a| == |a| + 1 && ([x] + a)[0] == x
    ensures forall i :: 0 < i <= |a| ==> ([x] + a)[i] == a[i - 1]
  {
  }

  /** A sequence that is `x` followed, index by index, by `b`, is `[x] + b`. */
  lemma ConsByIndex<T>(a: seq<T>, x: T, b: seq<T>)
    requires |a| == |b| + 1 && a[0] == x && forall i :: 0 < i < |a| ==> a[i] == b[i - 1]
    ensures a == [x] + b
  {
    ConsIndex(x, b);
  }

  /** Appending one element keeps the elements before it. */
  lemma SnocIndex<T>(a: seq<T>, x: T)
    ensures |a + [x]| == |a| + 1 && (a + [x])[|a|] == x
    ensures forall i :: 0 <= i < |a| ==> (a + [x])[i] == a[i]
  {
  }

  /** Dropping `i` and then `j` elements drops `i + j`. */
  lemma DropDrop<T>(s: seq<T>, i: nat, j: nat)
    requires i + j <= |s|
    ensures s[i..][j..] == s[i + j..]
  {
  }

  /** A prefix of the rest, after the first element, is a prefix of the whole. */
  lemma PrefixCons<T>(s: seq<T>, p: seq<T>)
    requires s != [] && |p| < |s| && p == s[1..][..|p|]
    ensures [s[0]] + p == s[..1 + |p|]
  {
  }

  /** A sequence whose first element is `x` and whose rest is empty is `[x]`. */
  lemma Singleton<T>(r: seq<T>, x: T)
    requires |r| >= 1 && r[0] == x && r[1..] == []
    ensures r == [x]
  {
    assert r == [r[0]] + r[1..];
  }

  /** `c * n` in Python. */
  function Repeat(c: char, n: nat): (r: string)
    ensures |r| == n && forall i :: 0 <= i < n ==> r[i] == c
  {
    if n == 0 then [] else [c] + Repeat(c, n - 1)
  }

  /** `sep.join(parts)`. */
  function JoinWith(sep: string, parts: seq<string>): string
    decreases |parts|
  {
    if |parts| == 0 then ""
    else if |parts| == 1 then parts[0]
    else parts[0] + sep + JoinWith(sep, parts[1..])
  }

  /** An empty first part puts the separator at the front of the join of the rest. */
  lemma JoinAfterEmpty(sep: string, parts: seq<string>)
    requires |parts| >= 1
    ensures JoinWith(sep, [""] + parts) == sep + JoinWith(sep, parts)
  {
    assert ([""] + parts)[1..] == parts;
  }

  /** `s.split(c)` for a one-character separator: the pieces between the occurrences of `c`. */
  function SplitOn(s: string, c: char): (r: seq<string>)
    ensures |r| >= 1
  {
    if s == [] then [""]
    else
      var rest := SplitOn(s[1..], c);
      if s[0] == c then [""] + rest else [[s[0]] + rest[0]] + rest[1..]
  }

  /** Splitting on `c` undoes joining with `c`, when no part contains `c`. */
  lemma {:induction false} SplitOnJoin(parts: seq<string>, c: char)
    requires parts != [] && forall i :: 0 <= i < |parts| ==> c !in parts[i]
    ensures SplitOn(JoinWith([c], parts), c) == parts
    decreases |parts|
  {
    if |parts| == 1 {
      SplitOnPlain(parts[0], c);
    } else {
      SplitOnJoin(parts[1..], c);
      SplitOnPiece(parts[0], c, JoinWith([c], parts[1..]));
      assert parts == [parts[0]] + parts[1..];
    }
  }

  lemma {:induction false} SplitOnPlain(p: string, c: char)
    requires c !in p
    ensures SplitOn(p, c) == [p]
    decreases |p|
  {
    if p != [] {
      assert p[0] in p && forall x :: x in p[1..] ==> x in p;
      SplitOnPlain(p[1..], c);
      assert [p[0]] + p[1..] == p;
    }
  }

  lemma {:induction false} SplitOnPiece(p: string, c: char, rest: string)
    requires c !in p
    ensures SplitOn(p + [c] + rest, c) == [p] + SplitOn(rest, c)
    decreases |p|
  {
    if p == [] {
      assert p + [c] + rest == [c] + rest;
      assert ([c] + rest)[1..] == rest;
    } else {
      assert p[0] in p && forall x :: x in p[1..] ==> x in p;
      SplitOnPiece(p[1..], c, rest);
      assert (p + [c] + rest)[0] == p[0];
      assert (p + [c] + rest)[1..] == p[1..] + [c] + rest;
      assert [p[0]] + p[1..] == p;
    }
  }

  /** A first character joined to the first part joins in front of the whole. */
  lemma JoinCons(sep: string, c: char, parts: seq<string>)
    requires |parts| >= 1
    ensures JoinWith(sep, [[c] + parts[0]] + parts[1..]) == [c] + JoinWith(sep, parts)
  {
    var ps := [[c] + parts[0]] + parts[1..];
    if |parts| > 1 {
      assert ps[1..] == parts[1..];
      ConcatAssoc([c], parts[0], sep);
      ConcatAssoc([c], parts[0] + sep, JoinWith(sep, parts[1..]));
    }
  }

  /** Joining the pieces of `s.split(c)` with `c` gives back `s`. */
  lemma {:induction false} JoinSplit(s: string, c: char)
    ensures JoinWith([c], SplitOn(s, c)) == s
    decreases |s|
  {
    if s != [] {
      JoinSplit(s[1..], c);
      var rest := SplitOn(s[1..], c);
      if s[0] == c {
        assert JoinWith([c], [""] + rest) == [c] + JoinWith([c], rest);
      } else {
        JoinCons([c], s[0], rest);
      }
      assert [s[0]] + s[1..] == s;
    }
  }

  /** The characters of `s` that satisfy `keep`, in order: what `re.sub` with a character
      class and an empty replacement leaves. */
  function Keep(s: string, keep: char -> bool): (r: string)
    ensures |r| <= |s|
  {
    if s == [] then [] else (if keep(s[0]) then [s[0]] else []) + Keep(s[1..], keep)
  }

  /** Only kept characters remain. */
  lemma {:induction false} KeepOnly(s: string, keep: char -> bool)
    ensures forall i :: 0 <= i < |Keep(s, keep)| ==> keep(Keep(s, keep)[i])
    decreases |s|
  {
    if s != [] { KeepOnly(s[1..], keep); }
  }

  /** A string whose characters are all kept is left as it is. */
  lemma {:induction false} KeepAll(s: string, keep: char -> bool)
    requires forall i :: 0 <= i < |s| ==> keep(s[i])
    ensures Keep(s, keep) == s
    decreases |s|
  {
    if s != [] {
      KeepAll(s[1..], keep);
      assert [s[0]] + s[1..] == s;
    }
  }

  /** Removing characters works piece by piece. */
  lemma {:induction false} KeepConcat(a: string, b: string, keep: char -> bool)
    ensures Keep(a + b, keep) == Keep(a, keep) + Keep(b, keep)
    decreases |a|
  {
    if a == [] {
      assert a + b == b;
    } else {
      KeepConcat(a[1..], b, keep);
      assert (a + b)[0] == a[0] && (a + b)[1..] == a[1..] + b;
      ConcatAssoc(if keep(a[0]) then [a[0]] else [], Keep(a[1..], keep), Keep(b, keep));
    }
  }

  /** A string none of whose characters is kept leaves nothing. */
  lemma {:induction false} KeepNone(s: string, keep: char -> bool)
    ensures (forall i :: 0 <= i < |s| ==> !keep(s[i])) ==> Keep(s, keep) == []
    decreases |s|
  {
    if s != [] && forall i :: 0 <= i < |s| ==> !keep(s[i]) {
      assert forall i :: 0 <= i < |s[1..]| ==> !keep(s[1..][i]) by {
        forall i | 0 <= i < |s[1..]| ensures !keep(s[1..][i]) { assert s[1..][i] == s[i + 1]; }
      }
      KeepNone(s[1..], keep);
    }
  }
}
