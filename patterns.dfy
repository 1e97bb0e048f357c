/** The handful of regular expressions the two scripts use, each written out as
    an anchored matcher over the text from the current scan position on, and the
    three `re` entry points they are used with: `re.search` (first match),
    `re.split` (pieces with the captured groups in between) and `re.findall`
    (every non-overlapping match, left to right). */
module Patterns {
  import opened Text

  /** A successful match at the start of the scanned text: the captured groups
      and the length of the whole match. */
  datatype Match = Match(groups: seq<string>, len: nat)

  /** The patterns used in `extra/txt_to_json.py` and `extra/helper.py`. */
  datatype Pattern =
    | DigitField(key: string)  // KEY\s*(\d+)
    | LineField(key: string)   // KEY\s*(.+?)(?:\n|$)
    | SectionNumber              // Section\s+(\d+[A-Za-z]*)
    | QAPair                     // Q(\d+):\s*(.*?)\nA:\s*(.*?)\s*Type:\s*(.+?)(?=\nQ\d+:|$), DOTALL
    | Literal(text: string)      // a pattern without metacharacters, such as ={80}\nACT INDEX:

  function GroupCount(p: Pattern): nat
  {
    match p
    case DigitField(_) => 1
    case LineField(_) => 1
    case SectionNumber => 1
    case QAPair => 4
    case Literal(_) => 0
  }

  const SectionWord := "Section"

  /** The labels of the document format. */
  const ActIndexKey := "ACT INDEX:"
  const TitleKey := "ACT TITLE:"
  const NumberKey := "ACT NO:"
  const YearKey := "ACT YEAR:"

  // ---------------------------------------------------------------------------
  // KEY\s*(\d+)

  /** `KEY\s*(\d+)` at the start of `t`. Whitespace and digits are disjoint, so the
      greedy choices are the only ones that can succeed. */
  function DigitFieldAt(t: string, key: string): (m: Option<Match>)
    ensures m.Some? ==> |m.value.groups| == 1
    ensures m.Some? ==>
      var g := m.value.groups[0];
      var q := m.value.len - |g|;
      && StartsWith(t, key) && g != [] && |key| <= q && m.value.len <= |t|
      && SpaceIn(t, |key|, q) && g == t[q..m.value.len] && DigitsIn(t, q, m.value.len)
      && (m.value.len < |t| ==> !IsDigit(t[m.value.len]))
    ensures m.None? ==>
      forall k :: |key| <= k < |t| && StartsWith(t, key) && SpaceIn(t, |key|, k) ==> !IsDigit(t[k])
  {
    if !StartsWith(t, key) then None
    else
      var q := SkipSpace(t, |key|);
      var e := SkipDigits(t, q);
      SpaceRun(t, |key|);
      if e == q then
        assert forall k :: |key| <= k < |t| && SpaceIn(t, |key|, k) ==> !IsDigit(t[k]) by {
          forall k | |key| <= k < |t| && SpaceIn(t, |key|, k) ensures !IsDigit(t[k]) {
            SpaceStretchWithinRun(t, |key|, k);
            if k < q { SpaceInAt(t, |key|, q, k); }
          }
        }
        None
      else
        DigitRun(t, q);
        Some(Match([t[q..e]], e))
  }

  // ---------------------------------------------------------------------------
  // Section\s+(\d+[A-Za-z]*)

  /** `Section\s+(\d+[A-Za-z]*)` at the start of `t`. As above, the greedy choices are
      the only ones that can succeed. */
  function SectionAt(t: string): (m: Option<Match>)
    ensures m.Some? ==> |m.value.groups| == 1
    ensures m.Some? ==>
      var g := m.value.groups[0];
      var q := m.value.len - |g|;
      && StartsWith(t, SectionWord) && g != [] && |SectionWord| < q && m.value.len <= |t|
      && SpaceIn(t, |SectionWord|, q) && g == t[q..m.value.len]
      && (exists d :: q < d <= m.value.len && DigitsIn(t, q, d) && LettersIn(t, d, m.value.len))
      && (m.value.len < |t| ==>
            !IsAsciiLetter(t[m.value.len]) && (DigitsIn(t, q, m.value.len) ==> !IsDigit(t[m.value.len])))
    ensures m.None? ==>
      forall k :: |SectionWord| < k < |t| && StartsWith(t, SectionWord) && SpaceIn(t, |SectionWord|, k) ==> !IsDigit(t[k])
  {
    if !StartsWith(t, SectionWord) then None
    else
      var q := SkipSpace(t, |SectionWord|);
      var d := SkipDigits(t, q);
      SpaceRun(t, |SectionWord|);
      if q == |SectionWord| || d == q then
        assert forall k :: |SectionWord| < k < |t| && SpaceIn(t, |SectionWord|, k) ==> !IsDigit(t[k]) by {
          forall k | |SectionWord| < k < |t| && SpaceIn(t, |SectionWord|, k) ensures !IsDigit(t[k]) {
            SpaceStretchWithinRun(t, |SectionWord|, k);
            if k < q { SpaceInAt(t, |SectionWord|, q, k); }
          }
        }
        None
      else
        var e := SkipLetters(t, d);
        DigitRun(t, q);
        LetterRun(t, d);
        assert DigitsIn(t, q, e) ==> d == e by {
          if d < e && DigitsIn(t, q, e) { DigitsInAt(t, q, e, d); }
        }
        Some(Match([t[q..e]], e))
  }

  // ---------------------------------------------------------------------------
  // KEY\s*(.+?)(?:\n|$)   (without DOTALL: `.` is any character but '\n')

  /** The first position at or after `k` that is the end of the text or holds '\n'. */
  function LineEnd(t: string, k: nat): (e: nat)
    requires k <= |t|
    ensures k <= e <= |t| && (e < |t| ==> t[e] == '\n')
    decreases |t| - k
  {
    if k == |t| || t[k] == '\n' then k else LineEnd(t, k + 1)
  }

  /** No newline comes before the end of the line. */
  lemma {:induction false} NoNewlineBeforeLineEnd(t: string, k: nat)
    requires k <= |t|
    ensures forall i :: k <= i < LineEnd(t, k) ==> t[i] != '\n'
    decreases |t| - k
  {
    if k < |t| && t[k] != '\n' { NoNewlineBeforeLineEnd(t, k + 1); }
  }

  /** The last position in [lo, hi) whose character is not '\n'. */
  function LastNonNewline(t: string, lo: nat, hi: nat): (r: Option<nat>)
    requires lo <= hi <= |t|
    ensures r.Some? ==> lo <= r.value < hi && t[r.value] != '\n'
    decreases hi - lo
  {
    if lo == hi then None
    else if t[hi - 1] != '\n' then Some(hi - 1)
    else LastNonNewline(t, lo, hi - 1)
  }

  /** Only newlines come after the last non-newline, or everywhere when there is none. */
  lemma {:induction false} NewlinesAfterLast(t: string, lo: nat, hi: nat)
    requires lo <= hi <= |t|
    ensures var r := LastNonNewline(t, lo, hi);
      forall i :: (if r.Some? then r.value + 1 else lo) <= i < hi ==> t[i] == '\n'
    decreases hi - lo
  {
    if lo < hi && t[hi - 1] == '\n' { NewlinesAfterLast(t, lo, hi - 1); }
  }

  /** `KEY\s*(.+?)(?:\n|$)` at the start of `t`. The group starts where the greedy `\s*`
      stops and runs to the end of the line. The `\s*` may swallow newlines; when it runs
      to the end of the text the engine backs off to the last character that `.` accepts
      (one that is not a newline), so that group is that one whitespace character. */
  function LineFieldAt(t: string, key: string): (m: Option<Match>)
    ensures m.Some? ==> |m.value.groups| == 1
    ensures m.Some? ==>
      var g := m.value.groups[0];
      && 0 < m.value.len <= |t| && StartsWith(t, key) && g != []
      && (forall i :: 0 <= i < |g| ==> g[i] != '\n')
      && var q := SkipSpace(t, |key|);
      exists s :: |key| <= s <= s + |g| <= |t| && SpaceIn(t, |key|, s) && t[s..s + |g|] == g
                     && (s + |g| == |t| || t[s + |g|] == '\n')
                     && m.value.len == (if s + |g| < |t| then s + |g| + 1 else s + |g|)
                     && (if q < |t| then s == q else |g| == 1 && forall i :: s < i < |t| ==> t[i] == '\n')
    ensures m.None? ==>
      forall k :: |key| <= k < |t| && StartsWith(t, key) && SpaceIn(t, |key|, k) ==> t[k] == '\n'
  {
    if !StartsWith(t, key) then None
    else
      var q := SkipSpace(t, |key|);
      SpaceRun(t, |key|);
      if q < |t| then
        Some(LineFrom(t, q))
      else
        match LastNonNewline(t, |key|, q)
        case None =>
          NewlinesAfterLast(t, |key|, q);
          None
        case Some(k) =>
          SpaceInPrefix(t, |key|, k, q);
          NewlinesAfterLast(t, |key|, q);
          assert LineEnd(t, k) == k + 1;
          Some(LineFrom(t, k))
  }

  /** `(.+?)(?:\n|$)` from position `k`, where the character is not a newline: the rest of
      the line, and the newline that ends it if there is one. */
  function LineFrom(t: string, k: nat): (m: Match)
    requires k < |t| && t[k] != '\n'
    ensures |m.groups| == 1 && k < m.len <= |t|
    ensures var g := m.groups[0];
      && k + |g| <= |t| && t[k..k + |g|] == g && g != [] && |g| == LineEnd(t, k) - k
      && m.len == (if k + |g| < |t| then k + |g| + 1 else k + |g|)
      && (forall i :: 0 <= i < |g| ==> g[i] != '\n')
      && (k + |g| == |t| || t[k + |g|] == '\n')
  {
    var e := LineEnd(t, k);
    NoNewlineBeforeLineEnd(t, k);
    assert t[k..k + |t[k..e]|] == t[k..e];
    Match([t[k..e]], if e < |t| then e + 1 else e)
  }

  // ---------------------------------------------------------------------------
  // Q(\d+):\s*(.*?)\nA:\s*(.*?)\s*Type:\s*(.+?)(?=\nQ\d+:|$)   with DOTALL

  /** Python's `$` without MULTILINE: the end of the text, or just before a newline
      that ends it. */
  predicate AtEnd(t: string, e: nat)
  {
    e == |t| || (e + 1 == |t| && t[e] == '\n')
  }

  /** The lookahead `(?=\nQ\d+:|$)` holds at position `e`. */
  predicate QALookahead(t: string, e: nat)
  {
    e <= |t| &&
    (AtEnd(t, e) ||
     (StartsWithAt(t, e, "\nQ") && var d := SkipDigits(t, e + 2); e + 2 < d < |t| && t[d] == ':'))
  }

  /** The first position at or after `e` where the lookahead holds; the end of the
      text always qualifies. */
  function NextLookahead(t: string, e: nat): (r: nat)
    requires e <= |t|
    ensures e <= r <= |t| && QALookahead(t, r)
    decreases |t| - e
  {
    if QALookahead(t, e) then e else NextLookahead(t, e + 1)
  }

  /** `NextLookahead` is the first such position. */
  lemma {:induction false} NextLookaheadFirst(t: string, e: nat)
    requires e <= |t|
    ensures forall k :: e <= k < NextLookahead(t, e) ==> !QALookahead(t, k)
    decreases |t| - e
  {
    if !QALookahead(t, e) { NextLookaheadFirst(t, e + 1); }
  }

  /** `\s*(.+?)(?=\nQ\d+:|$)` from position `tt`: where the captured type text starts and
      where the match ends. If the whitespace runs to the end, `.+?` takes its last character. */
  function TypeTail(t: string, tt: nat): (r: Option<(nat, nat)>)
    requires tt <= |t|
    ensures r.Some? ==>
      && tt <= r.value.0 < r.value.1 <= |t| && QALookahead(t, r.value.1) && SpaceIn(t, tt, r.value.0)
    ensures r.None? <==> tt == |t|
  {
    var u := SkipSpace(t, tt);
    SpaceRun(t, tt);
    if u < |t| then
      var e: nat := NextLookahead(t, u + 1);
      Some((u, e))
    else if tt < u then
      SpaceInPrefix(t, tt, u - 1, u);
      Some((u - 1, u))
    else
      None
  }

  /** The lazy `.+?` stops at the first position after its first character where the
      lookahead holds. */
  lemma TypeTailStopsFirst(t: string, tt: nat)
    requires tt <= |t| && TypeTail(t, tt).Some?
    ensures forall k :: TypeTail(t, tt).value.0 < k < TypeTail(t, tt).value.1 ==> !QALookahead(t, k)
  {
    var u := SkipSpace(t, tt);
    if u < |t| { NextLookaheadFirst(t, u + 1); }
  }

  /** `\s*(.*?)\s*Type:` followed by the type tail, from position `m` (just after `A:`):
      the answer group's start and end, the type group's start and the end of the match.
      `Type:` cannot start inside whitespace, so the lazy answer stops at the first
      `Type:`; the answer leaves out the whitespace just before it, which the second
      `\s*` takes. */
  function AnswerAndType(t: string, m: nat): (r: Option<(nat, nat, nat, nat)>)
    requires m <= |t|
    ensures r.Some? ==> m <= r.value.0 <= r.value.1 < r.value.2 < r.value.3 <= |t|
  {
    var s3 := SkipSpace(t, m);
    var f := Find(t, "Type:", s3);
    if f.None? then None
    else
      var y := f.value;
      var tail := TypeTail(t, y + 5);
      if tail.None? then None
      else Some((s3, SkipSpaceBack(t, s3, y), tail.value.0, tail.value.1))
  }

  /** What `AnswerAndType` finds: the answer is the text between `A:` and the first
      `Type:` (at `y`), less the whitespace around it, and the type tail follows it. */
  lemma AnswerAndTypeFound(t: string, m: nat) returns (y: nat)
    requires m <= |t| && AnswerAndType(t, m).Some?
    ensures FirstTypeLabel(t, m, y) && AnswerLayout(t, m, y, AnswerAndType(t, m).value)
  {
    var s3 := SkipSpace(t, m);
    SpaceRun(t, m);
    NoLabelInSpace(t, m, s3, "Type:");
    FindFirst(t, "Type:", s3);
    y := Find(t, "Type:", s3).value;
    SpaceBackRun(t, s3, y);
    TypeTailStopsFirst(t, y + 5);
  }

  /** The positions `AnswerAndType` returns, against the `Type:` label at `y`: only
      whitespace between `m` and the answer, between the answer and `Type:` and between
      `Type:` and the type text, and the lookahead holds where the match ends. */
  ghost predicate AnswerLayout(t: string, m: nat, y: nat, x: (nat, nat, nat, nat))
  {
    && m <= x.0 <= x.1 <= y && y + 5 <= x.2 <= x.3 <= |t|
    && SpaceIn(t, m, x.0) && SpaceIn(t, x.1, y) && SpaceIn(t, y + 5, x.2) && TypeEnd(t, y, x.3)
  }

  /** `AnswerAndType` fails exactly when no `Type:` with something after it follows. */
  lemma AnswerAndTypeMissing(t: string, m: nat)
    requires m <= |t|
    ensures AnswerAndType(t, m).None? <==> forall k :: m <= k && k + 5 < |t| ==> !StartsWithAt(t, k, "Type:")
  {
    var s3 := SkipSpace(t, m);
    SpaceRun(t, m);
    NoLabelInSpace(t, m, s3, "Type:");
    FindFirst(t, "Type:", s3);
    match Find(t, "Type:", s3)
    case None =>
    case Some(y) =>
      if y + 5 == |t| {
        assert forall k :: y < k ==> !StartsWithAt(t, k, "Type:");
      }
  }

  /** Some `Type:` at or after `m` has at least one character after it: what the answer
      marker needs of the text after it. */
  predicate TypeLabelFrom(t: string, m: nat)
    decreases |t| - m
  {
    m + 5 < |t| && (StartsWithAt(t, m, "Type:") || TypeLabelFrom(t, m + 1))
  }

  /** A `Type:` at `y` with something after it is enough, from any `m` at or before `y`. */
  lemma {:induction false} TypeLabelAfter(t: string, m: nat, y: nat)
    requires m <= y && y + 5 < |t| && StartsWithAt(t, y, "Type:")
    ensures TypeLabelFrom(t, m)
    decreases y - m
  {
    if m < y { TypeLabelAfter(t, m + 1, y); }
  }

  /** The `Type:` that `TypeLabelFrom` promises. */
  lemma {:induction false} TypeLabelWitness(t: string, m: nat) returns (y: nat)
    requires TypeLabelFrom(t, m)
    ensures m <= y && y + 5 < |t| && StartsWithAt(t, y, "Type:")
    decreases |t| - m
  {
    if StartsWithAt(t, m, "Type:") { y := m; } else { y := TypeLabelWitness(t, m + 1); }
  }

  /** `AnswerAndType` succeeds exactly when such a `Type:` follows. */
  lemma TypeLabelAnswer(t: string, m: nat)
    requires m <= |t|
    ensures TypeLabelFrom(t, m) <==> AnswerAndType(t, m).Some?
  {
    AnswerAndTypeMissing(t, m);
    if TypeLabelFrom(t, m) {
      var y := TypeLabelWitness(t, m);
    }
    if AnswerAndType(t, m).Some? {
      var y := AnswerAndTypeFound(t, m);
      TypeLabelAfter(t, m, y);
    }
  }

  /** A `Type:` with something after it that follows position `b` also follows any `a`
      before `b`. */
  lemma TypeLabelFromMono(t: string, a: nat, b: nat)
    requires a <= b
    ensures TypeLabelFrom(t, b) ==> TypeLabelFrom(t, a)
  {
    if TypeLabelFrom(t, b) {
      var y := TypeLabelWitness(t, b);
      TypeLabelAfter(t, a, y);
    }
  }

  /** Where the lazy type group ends: `\s*` takes all the whitespace after `Type:` (at
      `y`), up to `u`; `.+?` then takes at least one character and stops at the first
      position where the lookahead `(?=\nQ\d+:|$)` holds. When that whitespace runs to
      the end of the text, `.+?` takes its last character and the match ends there. */
  predicate TypeEnd(t: string, y: nat, e: nat)
    requires y + 5 <= |t|
  {
    var u := SkipSpace(t, y + 5);
    && QALookahead(t, e)
    && if u < |t| then u < e && forall k :: u < k < e ==> !QALookahead(t, k) else e == |t|
  }

  /** Blank lines after `Type:` belong to its whitespace, so a `\nQ<digits>:` that starts
      inside them does not end the type: here the type is `Q2: x`, up to the end, although
      the lookahead already holds at position 7. */
  lemma TypeSkipsBlankLines()
    ensures var t := "Type: \n\nQ2: x"; TypeEnd(t, 0, |t|) && QALookahead(t, 7)
  {
  }

  /** `y` is the first position at or after `m` where `Type:` starts, and something follows it. */
  predicate FirstTypeLabel(t: string, m: nat, y: nat)
  {
    m <= y && y + 5 < |t| && StartsWithAt(t, y, "Type:")
    && forall k :: m <= k < y ==> !StartsWithAt(t, k, "Type:")
  }

  /** A marker that starts with a non-space character cannot start inside whitespace. */
  lemma NoLabelInSpace(t: string, lo: nat, hi: nat, key: string)
    requires SpaceIn(t, lo, hi)
    requires key != [] && !IsSpace(key[0])
    ensures forall k :: lo <= k < hi ==> !StartsWithAt(t, k, key)
  {
    forall k | lo <= k < hi ensures !StartsWithAt(t, k, key) {
      SpaceInAt(t, lo, hi, k);
      assert key == [key[0]] + key[1..];
      StartsWithAtCons(t, k, key[0], key[1..]);
    }
  }

  /** `Q(\d+):` at the start of `t`: the position of the colon. */
  function QAHead(t: string): (c: Option<nat>)
    ensures c.Some? ==> 1 < c.value < |t| && t[0] == 'Q' && DigitsIn(t, 1, c.value) && t[c.value] == ':'
  {
    if |t| == 0 || t[0] != 'Q' then None
    else
      var c := SkipDigits(t, 1);
      DigitRun(t, 1);
      if c == 1 || c == |t| || t[c] != ':' then None else Some(c)
  }

  /** The digit run after `Q` is determined: any `Q<digits>:` prefix is the one `QAHead` finds. */
  lemma QAHeadExact(t: string, c: nat)
    requires 1 < c < |t| && t[0] == 'Q' && DigitsIn(t, 1, c) && t[c] == ':'
    ensures QAHead(t) == Some(c)
  {
    DigitStretch(t, 1, c);
  }

  /** `\s*(.*?)\nA:` after the colon at `c`, keeping only the `\nA:` markers that an answer
      and type follow: the position of the marker the engine settles on. The greedy `\s*`
      first takes all whitespace (up to `b`) and the lazy question runs to the first
      `\nA:` after it. If no answer and type follow that `\nA:`, none follow a later one
      either, and the only other choice the engine has is to give back a final newline
      of the whitespace so that `\nA:` starts right there, with an empty question. */
  function AnswerMark(t: string, c: nat): (n: Option<nat>)
    requires c < |t|
    ensures n.Some? ==>
      && c < n.value && StartsWithAt(t, n.value, "\nA:")
      && TypeLabelFrom(t, n.value + 3)
  {
    var b := SkipSpace(t, c + 1);
    var f := MarkFrom(t, c, b);
    if f.Some? then f else MarkInSpaceEnd(t, c, b)
  }

  /** The engine's first choice: the first `\nA:` at or after `b`, provided an answer and
      type follow it. */
  function MarkFrom(t: string, c: nat, b: nat): (n: Option<nat>)
    requires c < b <= |t|
    ensures n.Some? ==> c < b <= n.value && StartsWithAt(t, n.value, "\nA:") && TypeLabelFrom(t, n.value + 3)
  {
    var f := Find(t, "\nA:", b);
    if f.Some? && TypeLabelFrom(t, f.value + 3) then f else None
  }

  /** The engine's second choice: the whitespace after the colon at `c`, up to `b`, ends
      with a newline, `A:` follows, and an answer and type follow that. */
  function MarkInSpaceEnd(t: string, c: nat, b: nat): (n: Option<nat>)
    requires c < b <= |t|
    ensures n.Some? ==> c < n.value && StartsWithAt(t, n.value, "\nA:") && TypeLabelFrom(t, n.value + 3)
  {
    if c + 1 < b && StartsWithAt(t, b, "A:") && t[b - 1] == '\n' && TypeLabelFrom(t, b + 2) then
      var n := b - 1;
      EmptyQuestionMarker(t, n);
      assert n + 3 == b + 2;
      Some(n)
    else None
  }

  lemma EmptyQuestionMarker(t: string, n: nat)
    requires StartsWithAt(t, n + 1, "A:") && t[n] == '\n'
    ensures StartsWithAt(t, n, "\nA:")
  {
    assert "\nA:" == ['\n'] + "A:";
    StartsWithAtCons(t, n, '\n', "A:");
  }

  /** Where the lazy question group ends, for the colon at `c`. The greedy `\s*` takes the
      whitespace up to `b`; the question then stops at the first `\nA:` from `b` on. The
      only other way is that no `\nA:` from `b` on is followed by a `Type:` with
      something after it, and that the marker is the one whose newline ends the
      whitespace (the question is then empty). */
  predicate QuestionEnd(t: string, c: nat, n: nat)
    requires c < |t|
  {
    var b := SkipSpace(t, c + 1);
    || (b <= n && forall k :: b <= k < n ==> !StartsWithAt(t, k, "\nA:"))
    || (n + 1 == b && forall k :: b <= k < |t| && StartsWithAt(t, k, "\nA:") ==> !TypeLabelFrom(t, k + 3))
  }

  /** The marker `AnswerMark` settles on ends the question as the lazy group does. */
  lemma AnswerMarkEnd(t: string, c: nat)
    requires c < |t| && AnswerMark(t, c).Some?
    ensures QuestionEnd(t, c, AnswerMark(t, c).value)
  {
    var b := SkipSpace(t, c + 1);
    FindFirst(t, "\nA:", b);
    var f := Find(t, "\nA:", b);
    if MarkFrom(t, c, b).None? && f.Some? {
      MarkersWithoutType(t, b, f.value);
    }
  }

  /** When the first `\nA:` from `b` on (at `f`) is not followed by a `Type:` with something
      after it, no later `\nA:` is either. */
  lemma MarkersWithoutType(t: string, b: nat, f: nat)
    requires b <= f && !TypeLabelFrom(t, f + 3)
    requires forall k :: b <= k < f ==> !StartsWithAt(t, k, "\nA:")
    ensures forall k :: b <= k < |t| && StartsWithAt(t, k, "\nA:") ==> !TypeLabelFrom(t, k + 3)
  {
    forall k | f <= k < |t| && StartsWithAt(t, k, "\nA:") ensures !TypeLabelFrom(t, k + 3) {
      TypeLabelFromMono(t, f + 3, k + 3);
    }
  }

  /** Where the question group starts: after the whitespace that follows the colon, or at
      the marker when the marker took a newline of that whitespace. */
  function QuestionStart(t: string, c: nat, n: nat): (qs: nat)
    requires c < n <= |t|
    ensures c < qs <= n && SpaceIn(t, c + 1, qs)
  {
    var b := SkipSpace(t, c + 1);
    var qs := if b <= n then b else n;
    SpaceRun(t, c + 1);
    SpaceInPrefix(t, c + 1, qs, b);
    qs
  }

  /** `AnswerMark` succeeds whenever a `\nA:` marker after the colon is followed by a
      `Type:` with something after it. */
  lemma AnswerMarkPresent(t: string, c: nat, n: nat, y: nat)
    requires c < n && n + 3 <= y && y + 5 < |t|
    requires StartsWithAt(t, n, "\nA:") && StartsWithAt(t, y, "Type:")
    ensures AnswerMark(t, c).Some?
  {
    if n >= SkipSpace(t, c + 1) {
      MarkAfterSpace(t, c, n, y);
    } else {
      MarkInSpace(t, c, n, y);
    }
  }

  /** A marker after the whitespace: the first `\nA:` after the whitespace is at or
      before it, and a `Type:` follows that one too. */
  lemma MarkAfterSpace(t: string, c: nat, n: nat, y: nat)
    requires c < n && n + 3 <= y && y + 5 < |t| && n >= SkipSpace(t, c + 1)
    requires StartsWithAt(t, n, "\nA:") && StartsWithAt(t, y, "Type:")
    ensures AnswerMark(t, c).Some?
  {
    var b := SkipSpace(t, c + 1);
    FindFirst(t, "\nA:", b);
    var f := Find(t, "\nA:", b);
    TypeLabelAfter(t, f.value + 3, y);
    assert MarkFrom(t, c, b).Some?;
  }

  /** A marker inside the whitespace: its `A` is not whitespace, so the whitespace ends
      right after its newline, and the engine's second choice applies. */
  lemma MarkInSpace(t: string, c: nat, n: nat, y: nat)
    requires c < n && n + 3 <= y && y + 5 < |t| && n < SkipSpace(t, c + 1)
    requires StartsWithAt(t, n, "\nA:") && StartsWithAt(t, y, "Type:")
    ensures AnswerMark(t, c).Some?
  {
    MarkEndsSpace(t, c, n);
    var b := SkipSpace(t, c + 1);
    TypeLabelAfter(t, b + 2, y);
    assert MarkInSpaceEnd(t, c, b).Some?;
  }

  /** The `A` of a marker inside the whitespace after the colon ends that whitespace. */
  lemma MarkEndsSpace(t: string, c: nat, n: nat)
    requires StartsWithAt(t, n, "\nA:") && c < n < SkipSpace(t, c + 1)
    ensures var b := SkipSpace(t, c + 1); b == n + 1 && t[b - 1] == '\n' && StartsWithAt(t, b, "A:")
  {
    assert "\nA:" == ['\n'] + "A:" && "A:" == ['A'] + ":";
    StartsWithAtCons(t, n, '\n', "A:");
    StartsWithAtCons(t, n + 1, 'A', ":");
    SpaceRun(t, c + 1);
    var b := SkipSpace(t, c + 1);
    if n + 1 < b { SpaceInAt(t, c + 1, b, n + 1); }
  }

  /** The question/answer pattern at the start of `t`. */
  function QAAt(t: string): (m: Option<Match>)
    ensures m.Some? ==> |m.value.groups| == 4 && 0 < m.value.len <= |t|
  {
    var h := QAHead(t);
    if h.None? then None else QAAfterHead(t, h.value)
  }

  /** The rest of the pattern once `Q<digits>:` has been read up to the colon at `c`. */
  function QAAfterHead(t: string, c: nat): (m: Option<Match>)
    requires 1 < c < |t|
    ensures m.Some? ==> |m.value.groups| == 4 && c < m.value.len <= |t|
  {
    var mark := AnswerMark(t, c);
    if mark.None? then None else Some(QAAtMark(t, c, mark.value))
  }

  /** The match once the colon (`c`) and the answer marker (`n`) are known. */
  function QAAtMark(t: string, c: nat, n: nat): (m: Match)
    requires 1 < c < n && TypeLabelFrom(t, n + 3)
    ensures |m.groups| == 4 && n < m.len <= |t|
  {
    TypeLabelAnswer(t, n + 3);
    QAMatch(t, c, n, AnswerAndType(t, n + 3).value)
  }

  /** The match once the colon (`c`), the answer marker (`n`) and the positions of the
      answer and the type (`x`, as `AnswerAndType` gives them) are known. */
  function QAMatch(t: string, c: nat, n: nat, x: (nat, nat, nat, nat)): (m: Match)
    requires 1 < c < n && n + 3 <= x.0 <= x.1 <= x.2 <= x.3 <= |t|
    ensures |m.groups| == 4 && n < m.len <= |t|
  {
    var qs := QuestionStart(t, c, n);
    Match([t[1..c], t[qs..n], t[x.0..x.1], t[x.2..x.3]], x.3)
  }

  /** The markers the question/answer pattern needs, at the positions given: `Q`, digits
      up to `c`, `:` at `c`, `\nA:` at `n`, `Type:` at `y` with something after it. */
  predicate QAMarkers(t: string, c: nat, n: nat, y: nat)
  {
    && 1 < c < n && n + 3 <= y && y + 5 < |t|
    && t[0] == 'Q' && DigitsIn(t, 1, c) && t[c] == ':'
    && StartsWithAt(t, n, "\nA:") && StartsWithAt(t, y, "Type:")
  }

  ghost predicate QAShape(t: string)
  {
    exists c: nat, n: nat, y: nat :: QAMarkers(t, c, n, y)
  }

  /** `g` is the text `t[lo..hi]` less some whitespace on either side. */
  ghost predicate TrimmedSpan(t: string, lo: nat, hi: nat, g: string)
  {
    lo <= hi <= |t| &&
    exists i :: lo <= i <= i + |g| <= hi && t[i..i + |g|] == g && SpaceIn(t, lo, i) && SpaceIn(t, i + |g|, hi)
  }

  /** The question/answer pattern matches at the start of `t` exactly when the markers are
      there: no text without all of `Q<n>:`, `\nA:` and `Type:` (with something after it)
      gives a record, and no text that has them is missed. */
  lemma QAAtIffShape(t: string)
    ensures QAAt(t).Some? <==> QAShape(t)
  {
    if QAAt(t).Some? {
      var c, n, y := QAAtGroups(t);
    }
    if QAShape(t) {
      var c: nat, n: nat, y: nat :| QAMarkers(t, c, n, y);
      QAHeadExact(t, c);
      AnswerMarkPresent(t, c, n, y);
    }
  }

  /** The four groups of a question/answer match, against the marker positions: the
      number is the digit run, and question, answer and type are the text between
      `:` and `\nA:`, between `A:` and `Type:`, and between `Type:` and the end of the
      match, each less surrounding whitespace. The three lazy groups stop where the
      engine stops them: the question at the `\nA:` that `QuestionEnd` describes, the
      answer at the first `Type:` after that marker, and the type at the first position
      after its first character where the lookahead holds. */
  lemma QAAtGroups(t: string) returns (c: nat, n: nat, y: nat)
    requires QAAt(t).Some?
    ensures var m := QAAt(t).value;
      && QAMarkers(t, c, n, y) && m.groups[0] == t[1..c] && QuestionEnd(t, c, n)
      && TrimmedSpan(t, c + 1, n, m.groups[1])
      && TrimmedSpan(t, n + 3, y, m.groups[2])
      && TrimmedSpan(t, y + 5, m.len, m.groups[3])
      && FirstTypeLabel(t, n + 3, y) && TypeEnd(t, y, m.len)
  {
    c := QAHead(t).value;
    n, y := QAAfterHeadGroups(t, c);
  }

  /** `QAAtGroups` once the colon is known. */
  lemma QAAfterHeadGroups(t: string, c: nat) returns (n: nat, y: nat)
    requires 1 < c < |t| && t[0] == 'Q' && DigitsIn(t, 1, c) && t[c] == ':' && QAAfterHead(t, c).Some?
    ensures var m := QAAfterHead(t, c).value;
      && QAMarkers(t, c, n, y) && m.groups[0] == t[1..c] && QuestionEnd(t, c, n)
      && TrimmedSpan(t, c + 1, n, m.groups[1])
      && TrimmedSpan(t, n + 3, y, m.groups[2])
      && TrimmedSpan(t, y + 5, m.len, m.groups[3])
      && FirstTypeLabel(t, n + 3, y) && TypeEnd(t, y, m.len)
  {
    n := AnswerMark(t, c).value;
    AnswerMarkEnd(t, c);
    y := QAAtMarkGroups(t, c, n);
  }

  /** `QAAtGroups` once the colon and the answer marker are known. */
  lemma QAAtMarkGroups(t: string, c: nat, n: nat) returns (y: nat)
    requires 1 < c < n && TypeLabelFrom(t, n + 3)
    requires t[0] == 'Q' && DigitsIn(t, 1, c) && t[c] == ':' && StartsWithAt(t, n, "\nA:")
    ensures var m := QAAtMark(t, c, n);
      && QAMarkers(t, c, n, y) && m.groups[0] == t[1..c]
      && TrimmedSpan(t, c + 1, n, m.groups[1])
      && TrimmedSpan(t, n + 3, y, m.groups[2])
      && TrimmedSpan(t, y + 5, m.len, m.groups[3])
      && FirstTypeLabel(t, n + 3, y) && TypeEnd(t, y, m.len)
  {
    TypeLabelAnswer(t, n + 3);
    y := AnswerAndTypeFound(t, n + 3);
    QAMatchGroups(t, c, n, y, AnswerAndType(t, n + 3).value);
  }

  /** `QAAtGroups` once the colon, the answer marker, the `Type:` label and the positions
      of the answer and the type are known. */
  lemma QAMatchGroups(t: string, c: nat, n: nat, y: nat, x: (nat, nat, nat, nat))
    requires 1 < c < n && FirstTypeLabel(t, n + 3, y) && AnswerLayout(t, n + 3, y, x)
    requires t[0] == 'Q' && DigitsIn(t, 1, c) && t[c] == ':' && StartsWithAt(t, n, "\nA:")
    ensures var m := QAMatch(t, c, n, x);
      && QAMarkers(t, c, n, y) && m.groups[0] == t[1..c]
      && TrimmedSpan(t, c + 1, n, m.groups[1])
      && TrimmedSpan(t, n + 3, y, m.groups[2])
      && TrimmedSpan(t, y + 5, m.len, m.groups[3])
      && FirstTypeLabel(t, n + 3, y) && TypeEnd(t, y, m.len)
  {
    QuestionSpan(t, c + 1, QuestionStart(t, c, n), n);
    AnswerTypeSpans(t, n + 3, y, x);
  }

  /** The answer and type groups, at the positions `AnswerAndType` returns, are the text
      between `A:` and `Type:` and after `Type:`, less surrounding whitespace. */
  lemma AnswerTypeSpans(t: string, m: nat, y: nat, x: (nat, nat, nat, nat))
    requires AnswerLayout(t, m, y, x)
    ensures TrimmedSpan(t, m, y, t[x.0..x.1]) && TrimmedSpan(t, y + 5, x.3, t[x.2..x.3])
  {
    AnswerSpan(t, m, x.0, x.1, y);
    TypeSpan(t, y + 5, x.2, x.3);
  }

  lemma QuestionSpan(t: string, lo: nat, qs: nat, n: nat)
    requires qs <= n <= |t| && SpaceIn(t, lo, qs)
    ensures TrimmedSpan(t, lo, n, t[qs..n])
  {
    assert t[qs..qs + |t[qs..n]|] == t[qs..n];
    assert t[n..n] == [];
  }

  lemma AnswerSpan(t: string, lo: nat, i: nat, j: nat, hi: nat)
    requires i <= j && SpaceIn(t, lo, i) && SpaceIn(t, j, hi)
    ensures TrimmedSpan(t, lo, hi, t[i..j])
  {
    assert t[i..i + |t[i..j]|] == t[i..j];
  }

  lemma TypeSpan(t: string, lo: nat, g: nat, e: nat)
    requires g <= e <= |t| && SpaceIn(t, lo, g)
    ensures TrimmedSpan(t, lo, e, t[g..e])
  {
    AnswerSpan(t, lo, g, e, e);
  }

  /** The groups of a question/answer match `m` at the start of `t` against the markers,
      as `QAAtGroups` states them: the markers are the ones the lazy groups stop at, so
      they, and with them the match, are determined by the text. */
  ghost predicate QAGroups(t: string, m: Match)
  {
    && |m.groups| == 4
    && exists c: nat, n: nat, y: nat ::
      && QAMarkers(t, c, n, y) && m.groups[0] == t[1..c] && QuestionEnd(t, c, n)
      && TrimmedSpan(t, c + 1, n, m.groups[1])
      && TrimmedSpan(t, n + 3, y, m.groups[2])
      && TrimmedSpan(t, y + 5, m.len, m.groups[3])
      && FirstTypeLabel(t, n + 3, y) && TypeEnd(t, y, m.len)
  }

  /** A matcher that behaves as the question/answer pattern is known to: it matches
      exactly where the full shape starts, with the groups described by `QAGroups`. */
  ghost predicate QAFaithful(f: Matcher)
  {
    forall s :: (f(s).Some? <==> QAShape(s)) && (f(s).Some? ==> QAGroups(s, f(s).value))
  }

  lemma QAFaithfulAt(f: Matcher, s: string)
    requires QAFaithful(f) && f(s).Some?
    ensures QAShape(s) && QAGroups(s, f(s).value)
  {
  }

  lemma QAFaithfulIff(f: Matcher, s: string)
    requires QAFaithful(f)
    ensures f(s).None? <==> !QAShape(s)
  {
  }

  /** The question/answer pattern is such a matcher. */
  lemma QAPairFaithful()
    ensures QAFaithful(Scan(QAPair))
  {
    forall s ensures (Scan(QAPair)(s).Some? <==> QAShape(s))
                  && (Scan(QAPair)(s).Some? ==> QAGroups(s, Scan(QAPair)(s).value)) {
      QAAtIffShape(s);
      if QAAt(s).Some? {
        var c, n, y := QAAtGroups(s);
      }
    }
  }

  // ---------------------------------------------------------------------------
  // The `re` entry points

  /** The pattern again, for pattern texts without metacharacters. The empty pattern
      is never used and is treated as matching nothing. */
  function LiteralAt(t: string, s: string): (m: Option<Match>)
    ensures m.Some? ==> m.value.groups == [] && m.value.len == |s| > 0 && StartsWith(t, s)
    ensures m.None? ==> s == [] || !StartsWith(t, s)
  {
    if s != [] && StartsWith(t, s) then Some(Match([], |s|)) else None
  }

  /** `p` matched at the start of `t` (what `re.match` would return). */
  function MatchAt(p: Pattern, t: string): (m: Option<Match>)
    ensures m.Some? ==> |m.value.groups| == GroupCount(p) && 0 < m.value.len <= |t|
  {
    match p
    case DigitField(key) => DigitFieldAt(t, key)
    case LineField(key) => LineFieldAt(t, key)
    case SectionNumber => SectionAt(t)
    case QAPair => QAAt(t)
    case Literal(s) => LiteralAt(t, s)
  }

  /** A matcher applied at the start of a text. */
  type Matcher = string -> Option<Match>

  /** A matcher that, when it succeeds, consumes at least one character and captures
      `n` groups. */
  ghost predicate Shaped(f: Matcher, n: nat)
  {
    forall s :: f(s).Some? ==> 0 < f(s).value.len <= |s| && |f(s).value.groups| == n
  }

  function Scan(p: Pattern): (f: Matcher)
    ensures Shaped(f, GroupCount(p))
  {
    s => MatchAt(p, s)
  }

  /** No match of `f` starts in `t` before position `n`. */
  ghost predicate NoMatchBefore(f: Matcher, t: string, n: nat)
    requires n <= |t|
  {
    forall k :: 0 <= k < n ==> f(t[k..]).None?
  }

  /** `re.search`: the match at the first position where `f` matches. */
  function SearchBy(f: Matcher, n: nat, t: string): (m: Option<Match>)
    requires Shaped(f, n)
    ensures m.Some? ==> |m.value.groups| == n
    decreases |t|
  {
    match f(t)
    case Some(m) => Some(m)
    case None => if t == [] then None else SearchBy(f, n, t[1..])
  }

  /** `re.split`: the text between matches, with each match's groups in between. */
  function SplitBy(f: Matcher, n: nat, t: string): (r: seq<string>)
    requires Shaped(f, n)
    ensures |r| >= 1
    decreases |t|
  {
    if t == [] then [""]
    else
      match f(t)
      case Some(m) => [""] + m.groups + SplitBy(f, n, t[m.len..])
      case None =>
        var rest := SplitBy(f, n, t[1..]);
        [[t[0]] + rest[0]] + rest[1..]
  }

  /** `re.findall`: the groups of every non-overlapping match, left to right. */
  function FindAllBy(f: Matcher, n: nat, t: string): (r: seq<seq<string>>)
    requires Shaped(f, n)
    ensures forall i :: 0 <= i < |r| ==> |r[i]| == n
    decreases |t|
  {
    if t == [] then []
    else
      match f(t)
      case Some(m) => [m.groups] + FindAllBy(f, n, t[m.len..])
      case None => FindAllBy(f, n, t[1..])
  }

  /** `re.search(p, t)`. */
  function Search(p: Pattern, t: string): (m: Option<Match>)
    ensures m.Some? ==> |m.value.groups| == GroupCount(p)
  {
    SearchBy(Scan(p), GroupCount(p), t)
  }

  /** `re.split(p, t)`. */
  function Split(p: Pattern, t: string): (r: seq<string>)
    ensures |r| >= 1
  {
    SplitBy(Scan(p), GroupCount(p), t)
  }

  /** `re.findall(p, t)`. */
  function FindAll(p: Pattern, t: string): (r: seq<seq<string>>)
    ensures forall i :: 0 <= i < |r| ==> |r[i]| == GroupCount(p)
  {
    FindAllBy(Scan(p), GroupCount(p), t)
  }

  // ---------------------------------------------------------------------------
  // What the entry points compute

  /** A matcher for the fixed text `s`: where it matches, the text starts with `s` and
      the match is `s` itself, with no group. */
  ghost predicate MatchesText(f: Matcher, s: string)
  {
    forall u :: f(u).Some? ==> f(u).value == Match([], |s|) && StartsWith(u, s)
  }

  /** A pattern without metacharacters is such a matcher. */
  lemma LiteralMatchesText(s: string)
    ensures MatchesText(Scan(Literal(s)), s) && Shaped(Scan(Literal(s)), 0)
  {
  }

  /** Joining the pieces of `re.split` on a fixed text with that text gives back the text. */
  lemma {:induction false} SplitJoin(f: Matcher, s: string, t: string)
    requires Shaped(f, 0) && MatchesText(f, s)
    ensures JoinWith(s, SplitBy(f, 0, t)) == t
    decreases |t|
  {
    if t != [] {
      if f(t).Some? {
        assert f(t).value == Match([], |s|) && StartsWith(t, s);
        SplitJoin(f, s, t[|s|..]);
        SplitJoinMatch(f, s, t);
      } else {
        SplitJoin(f, s, t[1..]);
        JoinCons(s, t[0], SplitBy(f, 0, t[1..]));
        assert [t[0]] + t[1..] == t;
      }
    }
  }

  /** The step of `SplitJoin` where the text starts with a match. */
  lemma SplitJoinMatch(f: Matcher, s: string, t: string)
    requires Shaped(f, 0) && t != [] && f(t) == Some(Match([], |s|)) && StartsWith(t, s)
    requires JoinWith(s, SplitBy(f, 0, t[|s|..])) == t[|s|..]
    ensures JoinWith(s, SplitBy(f, 0, t)) == t
  {
    var rest := t[|s|..];
    var r := SplitBy(f, 0, rest);
    assert SplitBy(f, 0, t) == [""] + r;
    JoinAfterEmpty(s, r);
    StartsWithRest(t, s);
  }

  /** `KEY\s*(\d+)` matches at the start of `t` exactly when `t` starts with the key and a
      digit follows the whitespace after it. */
  predicate DigitsAfterLabel(t: string, key: string)
  {
    StartsWith(t, key) && SkipSpace(t, |key|) < |t| && IsDigit(t[SkipSpace(t, |key|)])
  }

  lemma DigitFieldAtIff(t: string, key: string)
    ensures DigitFieldAt(t, key).Some? <==> DigitsAfterLabel(t, key)
  {
  }

  /** `re.search` returns the match at the leftmost position where `f` matches. */
  lemma {:induction false} SearchFound(f: Matcher, n: nat, t: string) returns (k: nat)
    requires Shaped(f, n) && SearchBy(f, n, t).Some?
    ensures k < |t| && NoMatchBefore(f, t, k) && f(t[k..]) == SearchBy(f, n, t)
    decreases |t|
  {
    if f(t).Some? {
      k := 0;
      assert t[0..] == t;
    } else {
      var k' := SearchFound(f, n, t[1..]);
      k := k' + 1;
      assert t[1..][k'..] == t[k..];
      forall j | 0 <= j < k ensures f(t[j..]).None? {
        if j > 0 { assert t[1..][j - 1..] == t[j..]; } else { assert t[0..] == t; }
      }
    }
  }

  /** `re.search` returns nothing exactly when `f` matches nowhere. */
  lemma {:induction false} SearchMissing(f: Matcher, n: nat, t: string)
    requires Shaped(f, n)
    ensures SearchBy(f, n, t).None? <==> NoMatchBefore(f, t, |t|)
    decreases |t|
  {
    if SearchBy(f, n, t).Some? {
      var k := SearchFound(f, n, t);
    } else if t != [] {
      SearchMissing(f, n, t[1..]);
      forall j | 0 <= j < |t| ensures f(t[j..]).None? {
        if j > 0 { assert t[1..][j - 1..] == t[j..]; } else { assert t[0..] == t; }
      }
    }
  }

  /** The first piece of `re.split` is a prefix of the text in which no match starts. */
  lemma {:induction false} SplitHeadPrefix(f: Matcher, n: nat, t: string)
    requires Shaped(f, n)
    ensures var h := SplitBy(f, n, t)[0];
      |h| <= |t| && h == t[..|h|] && NoMatchBefore(f, t, |h|)
    decreases |t|
  {
    if t != [] && f(t).None? {
      SplitHeadPrefix(f, n, t[1..]);
      SplitHeadPrefixStep(f, n, t);
    }
  }

  /** The step of `SplitHeadPrefix` where the first character does not start a match. */
  lemma SplitHeadPrefixStep(f: Matcher, n: nat, t: string)
    requires Shaped(f, n) && t != [] && f(t).None?
    requires var h := SplitBy(f, n, t[1..])[0];
      |h| <= |t| - 1 && h == t[1..][..|h|] && NoMatchBefore(f, t[1..], |h|)
    ensures var h := SplitBy(f, n, t)[0];
      |h| <= |t| && h == t[..|h|] && NoMatchBefore(f, t, |h|)
  {
    SplitNoMatchHere(f, n, t);
    var h1 := SplitBy(f, n, t[1..])[0];
    PrefixCons(t, h1);
    NoMatchCons(f, t, |h1|);
  }

  /** No match at the first position, and none in the rest before `k`: none before `k + 1`. */
  lemma NoMatchCons(f: Matcher, t: string, k: nat)
    requires t != [] && f(t).None? && k < |t| && NoMatchBefore(f, t[1..], k)
    ensures NoMatchBefore(f, t, k + 1)
  {
    forall j | 0 <= j < k + 1 ensures f(t[j..]).None? {
      if j > 0 { assert t[1..][j - 1..] == t[j..]; } else { assert t[0..] == t; }
    }
  }

  /** After the first piece of `re.split` comes, when it is not the whole text, a match,
      and the pieces after the first are those of the split from that match on. */
  lemma {:induction false} SplitTail(f: Matcher, n: nat, u: string)
    requires Shaped(f, n)
    ensures |SplitBy(f, n, u)[0]| <= |u|
    ensures var h := SplitBy(f, n, u)[0];
      && (|h| < |u| ==> f(u[|h|..]).Some?)
      && SplitBy(f, n, u)[1..] == SplitBy(f, n, u[|h|..])[1..]
    decreases |u|
  {
    SplitHeadPrefix(f, n, u);
    if u != [] {
      if f(u).Some? {
        assert u[0..] == u;
      } else {
        SplitTail(f, n, u[1..]);
        SplitTailStep(f, n, u);
      }
    }
  }

  /** The step of `SplitTail` where the first character does not start a match. */
  lemma SplitTailStep(f: Matcher, n: nat, u: string)
    requires Shaped(f, n) && u != [] && f(u).None?
    requires |SplitBy(f, n, u[1..])[0]| <= |u| - 1
    requires var h := SplitBy(f, n, u[1..])[0];
      && (|h| < |u| - 1 ==> f(u[1..][|h|..]).Some?)
      && SplitBy(f, n, u[1..])[1..] == SplitBy(f, n, u[1..][|h|..])[1..]
    ensures |SplitBy(f, n, u)[0]| <= |u|
    ensures var h := SplitBy(f, n, u)[0];
      && (|h| < |u| ==> f(u[|h|..]).Some?)
      && SplitBy(f, n, u)[1..] == SplitBy(f, n, u[|h|..])[1..]
  {
    SplitNoMatchHere(f, n, u);
    DropDrop(u, 1, |SplitBy(f, n, u[1..])[0]|);
  }

  /** There is only one leftmost match position. */
  lemma LeftmostUnique(f: Matcher, t: string, a: nat, b: nat)
    requires a <= |t| && b < |t| && NoMatchBefore(f, t, a) && NoMatchBefore(f, t, b) && f(t[b..]).Some?
    requires a < |t| ==> f(t[a..]).Some?
    ensures a == b
  {
  }

  /** After the leftmost match, from `q` to `e`, the split goes on with its groups and
      the split of what follows it. */
  lemma SplitAfterFirstMatch(f: Matcher, n: nat, t: string, q: nat, e: nat)
    requires Shaped(f, n) && q < |t| && NoMatchBefore(f, t, q) && f(t[q..]).Some?
    requires e == q + f(t[q..]).value.len
    ensures e <= |t| && SplitBy(f, n, t)[1..] == f(t[q..]).value.groups + SplitBy(f, n, t[e..])
  {
    SplitHeadAt(f, n, t, q);
    var s := t[q..];
    var m := f(s).value;
    assert s[0..] == s;
    assert s[m.len..] == t[e..];
    SplitMatchHere(f, n, s);
  }

  /** The first piece of a split, and after it exactly what the split of the text from
      the end of that piece on has after its own (empty) first piece. */
  lemma SplitAfterHead(f: Matcher, n: nat, u: string) returns (h: string)
    requires Shaped(f, n)
    ensures h == SplitBy(f, n, u)[0] && |h| <= |u| && h == u[..|h|]
    ensures NoMatchBefore(f, u, |h|) && (|h| < |u| ==> f(u[|h|..]).Some?)
    ensures SplitBy(f, n, u)[1..] == SplitBy(f, n, u[|h|..])[1..]
  {
    SplitHeadPrefix(f, n, u);
    SplitTail(f, n, u);
    h := SplitBy(f, n, u)[0];
  }

  /** Where `f` matches, the split is an empty piece, the groups, and the split of what
      follows the match. */
  lemma SplitMatchHere(f: Matcher, n: nat, t: string)
    requires Shaped(f, n) && t != [] && f(t).Some?
    ensures SplitBy(f, n, t)[1..] == f(t).value.groups + SplitBy(f, n, t[f(t).value.len..])
  {
    var m := f(t).value;
    assert SplitBy(f, n, t) == [""] + (m.groups + SplitBy(f, n, t[m.len..]));
  }

  /** The first piece of a split ends where the first match starts (or at the end). */
  lemma SplitHeadAt(f: Matcher, n: nat, u: string, k: nat)
    requires Shaped(f, n) && k <= |u| && NoMatchBefore(f, u, k) && (k < |u| ==> f(u[k..]).Some?)
    ensures SplitBy(f, n, u)[0] == u[..k]
    ensures SplitBy(f, n, u)[1..] == SplitBy(f, n, u[k..])[1..]
  {
    var h := SplitAfterHead(f, n, u);
    if |h| < |u| {
      LeftmostUnique(f, u, k, |h|);
    }
  }

  /** Where `f` does not match, the first character joins the first piece of the rest. */
  lemma SplitNoMatchHere(f: Matcher, n: nat, t: string)
    requires Shaped(f, n) && t != [] && f(t).None?
    ensures SplitBy(f, n, t)[0] == [t[0]] + SplitBy(f, n, t[1..])[0]
    ensures SplitBy(f, n, t)[1..] == SplitBy(f, n, t[1..])[1..]
  {
  }

  /** Text in which no match starts, put in front of `r`, only lengthens the first piece
      of the split of `r`. */
  lemma {:induction false} SplitIgnoresClearPrefix(f: Matcher, n: nat, p: string, r: string)
    requires Shaped(f, n) && NoMatchBefore(f, p + r, |p|)
    ensures SplitBy(f, n, p + r)[0] == p + SplitBy(f, n, r)[0]
    ensures SplitBy(f, n, p + r)[1..] == SplitBy(f, n, r)[1..]
    decreases |p|
  {
    if p == [] {
      assert p + r == r;
    } else {
      var t := p + r;
      var p1 := p[1..];
      var h := SplitBy(f, n, r)[0];
      assert [p[0]] + (p1 + h) == p + h;
      var u := p1 + r;
      assert t[0..] == t;
      assert t[1..] == u;
      forall k | 0 <= k < |p1| ensures f(u[k..]).None? {
        assert u[k..] == t[k + 1..];
      }
      SplitIgnoresClearPrefix(f, n, p1, r);
      SplitNoMatchHere(f, n, t);
    }
  }

  /** `re.findall` finds nothing exactly when `f` matches nowhere. */
  lemma {:induction false} FindAllEmpty(f: Matcher, n: nat, t: string)
    requires Shaped(f, n)
    ensures FindAllBy(f, n, t) == [] <==> NoMatchBefore(f, t, |t|)
    decreases |t|
  {
    if t != [] {
      assert t[0..] == t;
      if f(t).None? {
        FindAllEmpty(f, n, t[1..]);
        if NoMatchBefore(f, t[1..], |t| - 1) {
          forall j | 0 <= j < |t| ensures f(t[j..]).None? {
            if j > 0 { assert t[1..][j - 1..] == t[j..]; }
          }
        }
        if NoMatchBefore(f, t, |t|) {
          forall j | 0 <= j < |t| - 1 ensures f(t[1..][j..]).None? {
            assert t[1..][j..] == t[j + 1..];
          }
        }
      }
    }
  }

  /** Text in which no match starts, in front of position `q`, does not change what
      `re.findall` finds. */
  lemma {:induction false} FindAllSkipClear(f: Matcher, n: nat, t: string, q: nat)
    requires Shaped(f, n) && q <= |t| && NoMatchBefore(f, t, q)
    ensures FindAllBy(f, n, t) == FindAllBy(f, n, t[q..])
    decreases q
  {
    if q > 0 {
      NoMatchShift(f, t, q);
      FindAllSkipClear(f, n, t[1..], q - 1);
      DropDrop(t, 1, q - 1);
    }
  }

  /** No match before `q` means no match at the start, and none before `q - 1` after it. */
  lemma NoMatchShift(f: Matcher, t: string, q: nat)
    requires 0 < q <= |t| && NoMatchBefore(f, t, q)
    ensures f(t).None? && NoMatchBefore(f, t[1..], q - 1)
  {
    assert t[0..] == t;
    forall k | 0 <= k < q - 1 ensures f(t[1..][k..]).None? {
      DropDrop(t, 1, k);
    }
  }

  /** After the leftmost match, from `q` to `e`, `re.findall` goes on with the text after
      it; with `FindAllEmpty` this is every non-overlapping match, left to right. */
  lemma FindAllAfterFirstMatch(f: Matcher, n: nat, t: string, q: nat, e: nat)
    requires Shaped(f, n) && q < |t| && NoMatchBefore(f, t, q) && f(t[q..]).Some?
    requires e == q + f(t[q..]).value.len
    ensures e <= |t| && FindAllBy(f, n, t) == [f(t[q..]).value.groups] + FindAllBy(f, n, t[e..])
  {
    var u := t[q..];
    var m := f(u).value;
    FindAllSkipClear(f, n, t, q);
    assert FindAllBy(f, n, u) == [m.groups] + FindAllBy(f, n, u[m.len..]);
    DropDrop(t, q, m.len);
  }

  /** Every element `re.findall` returns is the groups of a match of `f` somewhere in `t`. */
  lemma {:induction false} FindAllMember(f: Matcher, n: nat, t: string, i: nat) returns (k: nat)
    requires Shaped(f, n) && i < |FindAllBy(f, n, t)|
    ensures k < |t| && f(t[k..]).Some? && f(t[k..]).value.groups == FindAllBy(f, n, t)[i]
    decreases |t|
  {
    assert t[0..] == t;
    match f(t)
    case Some(m) =>
      if i == 0 {
        k := 0;
      } else {
        var k' := FindAllMember(f, n, t[m.len..], i - 1);
        k := m.len + k';
        assert t[m.len..][k'..] == t[k..];
      }
    case None =>
      var k' := FindAllMember(f, n, t[1..], i);
      k := k' + 1;
      assert t[1..][k'..] == t[k..];
  }
}
