/** The act splitter of `extra/helper.py`: a document of many acts is cut at every rule
    of 80 `=` followed by a newline and `ACT INDEX:`; each act that names its index, its
    title and a numeric year becomes one file, named after those three and holding the
    act framed by two rules. Files are returned as (name, contents) pairs. */
module ActSplitter {
  import opened Text
  import opened Patterns

  /** `'=' * 80`. */
  function Rule(): (r: string)
    ensures |r| == 80 && forall i :: 0 <= i < 80 ==> r[i] == '='
  {
    Repeat('=', 80)
  }

  /** `={80}\nACT INDEX:`, the separator between acts. */
  function Separator(): (s: string)
    ensures s == Rule() + "\n" + ActIndexKey && |s| == 91
  {
    Rule() + "\n" + ActIndexKey
  }

  /** One file to write. */
  datatype FileWrite = FileWrite(name: string, contents: string)

  // ---------------------------------------------------------------------------
  // The four patterns

  /** `re.search` with one pattern: the first match in the whole text. */
  type Searcher = string -> Option<Match>

  /** The separator pattern, as a matcher at a position, and the three field searches. */
  datatype Finders = Finders(separator: Matcher, index: Searcher, title: Searcher, year: Searcher)

  /** A search for a pattern with one group. */
  ghost predicate OneGroup(f: Searcher)
  {
    forall s :: f(s).Some? ==> |f(s).value.groups| == 1
  }

  /** The separator consumes text when it matches; each search captures one group. */
  ghost predicate WellFormed(fs: Finders)
  {
    Shaped(fs.separator, 0) && OneGroup(fs.index) && OneGroup(fs.title) && OneGroup(fs.year)
  }

  /** `re.search(r'KEY\s*(\d+)', s)` in terms of what it finds: a match exactly when the
      key, optional whitespace and a digit occur somewhere, and then a non-empty digit
      string as its group. */
  ghost predicate DigitSearcher(f: Searcher, key: string)
  {
    forall s :: DigitSearchIn(f, key, s)
  }

  ghost predicate DigitSearchIn(f: Searcher, key: string, s: string)
  {
    && (f(s).Some? <==> exists k :: 0 <= k < |s| && DigitsAfterLabel(s[k..], key))
    && (f(s).Some? ==> |f(s).value.groups| == 1 && f(s).value.groups[0] != [] && AllDigits(f(s).value.groups[0]))
  }

  /** The index and year searches are digit fields of their labels. */
  ghost predicate DigitFinders(fs: Finders)
  {
    DigitSearcher(fs.index, ActIndexKey) && DigitSearcher(fs.year, YearKey)
  }

  /** `={80}\nACT INDEX:`, and searches for `ACT INDEX:\s*(\d+)`,
      `ACT TITLE:\s*(.+?)(?:\n|$)` and `ACT YEAR:\s*(\d+)`. */
  function Splitter(): (fs: Finders)
  {
    Finders(Scan(Literal(Separator())), s => Search(DigitField(ActIndexKey), s),
            s => Search(LineField(TitleKey), s), s => Search(DigitField(YearKey), s))
  }

  /** `KEY\s*(\d+)` matches exactly where a digit follows the key and its whitespace,
      and captures the digit run. */
  lemma DigitFieldAtEach(key: string, s: string)
    ensures var m := Scan(DigitField(key))(s);
      (m.Some? <==> DigitsAfterLabel(s, key)) && (m.Some? ==> m.value.groups[0] != [] && AllDigits(m.value.groups[0]))
  {
    DigitFieldAtIff(s, key);
    var m := DigitFieldAt(s, key);
    if m.Some? {
      DigitsInSlice(s, m.value.len - |m.value.groups[0]|, m.value.len);
    }
  }

  /** The first match of `KEY\s*(\d+)` holds a non-empty digit string, and there is one
      exactly when the key, whitespace and a digit occur somewhere. */
  lemma DigitSearch(key: string, t: string)
    ensures DigitSearchIn(s => Search(DigitField(key), s), key, t)
  {
    var f := Scan(DigitField(key));
    SearchMissing(f, 1, t);
    if SearchBy(f, 1, t).Some? {
      var k := SearchFound(f, 1, t);
      DigitFieldAtEach(key, t[k..]);
    }
    forall k | 0 <= k < |t| ensures f(t[k..]).Some? <==> DigitsAfterLabel(t[k..], key) {
      DigitFieldAtEach(key, t[k..]);
    }
  }

  /** The patterns of the script are well formed, the separator matches only its own
      text, and the index and year searches find digit fields. */
  lemma SplitterWellFormed()
    ensures WellFormed(Splitter()) && DigitFinders(Splitter())
    ensures MatchesText(Splitter().separator, Separator())
  {
    LiteralMatchesText(Separator());
    forall s ensures DigitSearchIn(Splitter().index, ActIndexKey, s) && DigitSearchIn(Splitter().year, YearKey, s) {
      DigitSearch(ActIndexKey, s);
      DigitSearch(YearKey, s);
    }
  }

  // ---------------------------------------------------------------------------
  // Splitting

  /** `re.split(r'={80}\nACT INDEX:', content)`: the header, then one fragment per act. */
  function Pieces(fs: Finders, content: string): (r: seq<string>)
    requires WellFormed(fs)
    ensures |r| >= 1
  {
    SplitBy(fs.separator, 0, content)
  }

  /** The header followed by every fragment, each after a separator, is the document. */
  lemma PiecesRejoin(fs: Finders, content: string)
    requires WellFormed(fs) && MatchesText(fs.separator, Separator())
    ensures JoinWith(Separator(), Pieces(fs, content)) == content
  {
    SplitJoin(fs.separator, Separator(), content);
  }

  // ---------------------------------------------------------------------------
  // The file name

  /** `s.zfill(width)`: zeros in front up to `width` characters, after a leading sign. */
  function ZFill(s: string, width: nat): (r: string)
    ensures |r| == (if |s| >= width then |s| else width)
  {
    if |s| >= width then s
    else if s != [] && (s[0] == '+' || s[0] == '-') then [s[0]] + Repeat('0', width - |s|) + s[1..]
    else Repeat('0', width - |s|) + s
  }

  /** An unsigned string is padded with zeros on the left to at least `width` characters
      and is never cut: it is what the result ends with. */
  lemma ZFillPads(s: string, width: nat)
    requires s == [] || (s[0] != '+' && s[0] != '-')
    ensures var r := ZFill(s, width);
      && |r| == (if |s| >= width then |s| else width)
      && r == Repeat('0', |r| - |s|) + s
  {
    if |s| >= width { assert Repeat('0', 0) == []; }
  }

  /** A digit string stays a digit string. */
  lemma ZFillDigits(s: string, width: nat)
    requires AllDigits(s)
    ensures AllDigits(ZFill(s, width))
  {
    if s != [] { assert IsDigit(s[0]); }
    ZFillPads(s, width);
    var r := ZFill(s, width);
    forall i | 0 <= i < |r| ensures IsDigit(r[i]) {
      if i >= |r| - |s| { assert r[i] == s[i - (|r| - |s|)]; }
    }
  }

  /** `[\w\s-]`: what survives the first clean-up of the title. */
  predicate TitleChar(c: char)
  {
    IsWordChar(c) || IsSpace(c) || c == '-'
  }

  /** `re.sub(r'\s+', '_', s)`: every maximal run of whitespace becomes one `_`, so no
      whitespace is left and the text does not grow. */
  function UnderscoreSpaces(s: string): (r: string)
    ensures |r| <= |s| && (r == [] <==> s == [])
    ensures forall i :: 0 <= i < |r| ==> !IsSpace(r[i])
    decreases |s|
  {
    if s == [] then []
    else if IsSpace(s[0]) then
      var e := SkipSpace(s, 1);
      "_" + UnderscoreSpaces(s[e..])
    else [s[0]] + UnderscoreSpaces(s[1..])
  }

  /** After the title's clean-up only word characters and `-` are left. */
  lemma {:induction false} UnderscoreSpacesChars(s: string)
    requires forall i :: 0 <= i < |s| ==> TitleChar(s[i])
    ensures forall i :: 0 <= i < |UnderscoreSpaces(s)| ==> IsWordChar(UnderscoreSpaces(s)[i]) || UnderscoreSpaces(s)[i] == '-'
    decreases |s|
  {
    if s != [] {
      if IsSpace(s[0]) {
        var e := SkipSpace(s, 1);
        UnderscoreSpacesChars(s[e..]);
      } else {
        UnderscoreSpacesChars(s[1..]);
      }
    }
  }

  /** Text without whitespace is left as it is. */
  lemma {:induction false} UnderscoreSpacesNoSpace(s: string)
    requires forall i :: 0 <= i < |s| ==> !IsSpace(s[i])
    ensures UnderscoreSpaces(s) == s
    decreases |s|
  {
    if s != [] {
      UnderscoreSpacesNoSpace(s[1..]);
      assert [s[0]] + s[1..] == s;
    }
  }

  /** A maximal whitespace run inside the text becomes exactly one `_`, and the text on
      each side of it is treated on its own. With `UnderscoreSpacesNoSpace` this fixes the
      result for every text. */
  lemma {:induction false} UnderscoreSpacesRun(a: string, w: string, b: string)
    requires w != [] && AllSpace(w)
    requires a == [] || !IsSpace(a[|a| - 1])
    requires b == [] || !IsSpace(b[0])
    ensures UnderscoreSpaces(a + w + b) == UnderscoreSpaces(a) + "_" + UnderscoreSpaces(b)
    decreases |a|
  {
    if a == [] {
      LeadingRun(w, b);
    } else {
      var e := HeadStep(a, w, b);
      UnderscoreSpacesRun(a[e..], w, b);
      PrefixThenRest(UnderscoreSpaces(a + w + b), UnderscoreSpaces(a), UnderscoreSpaces(a[e..]), UnderscoreSpaces(b),
                     UnderscoreSpaces(a[e..] + w + b), if IsSpace(a[0]) then "_" else [a[0]]);
    }
  }

  /** Sequence algebra for the step above: `p == h + r`, `r == x + "_" + m` and
      `a == h + x` give `p == a + "_" + m`. */
  lemma PrefixThenRest(p: string, a: string, x: string, m: string, r: string, h: string)
    requires p == h + r && r == x + "_" + m && a == h + x
    ensures p == a + "_" + m
  {
  }

  /** A leading whitespace run becomes one `_`. */
  lemma LeadingRun(w: string, b: string)
    requires w != [] && AllSpace(w) && (b == [] || !IsSpace(b[0]))
    ensures UnderscoreSpaces([] + w + b) == [] + "_" + UnderscoreSpaces(b)
  {
    var t := w + b;
    assert [] + w + b == t;
    SkipSpaceAllSpace(w, 1);
    SkipSpaceAppend(w, b, 1);
    assert SkipSpace(t, |w|) == |w|;
    assert t[0] == w[0] && t[|w|..] == b;
  }

  /** The first step on a text `a` that does not end in whitespace, followed by `w + b`:
      a character that is not whitespace is kept, and a leading whitespace run becomes
      one `_`; either way the step ends at `e` inside `a`, whatever follows. */
  lemma HeadStep(a: string, w: string, b: string) returns (e: nat)
    requires a != [] && !IsSpace(a[|a| - 1])
    ensures 0 < e <= |a| && (e == |a| ==> !IsSpace(a[0])) && (IsSpace(a[0]) ==> e < |a|)
    ensures var h := if IsSpace(a[0]) then "_" else [a[0]];
      && UnderscoreSpaces(a) == h + UnderscoreSpaces(a[e..])
      && UnderscoreSpaces(a + w + b) == h + UnderscoreSpaces(a[e..] + w + b)
  {
    var y := w + b;
    if IsSpace(a[0]) {
      e := SkipSpace(a, 1);
      assert e < |a| by {
        if e == |a| {
          SpaceRun(a, 1);
          SpaceInAt(a, 1, e, |a| - 1);
        }
      }
      SkipSpaceAppend(a, y, 1);
    } else {
      e := 1;
    }
    assert (a + y)[0] == a[0] && (a + y)[e..] == a[e..] + y;
    assert a + w + b == a + y && a[e..] + w + b == a[e..] + y;
  }

  /** `s[:n]`. */
  function Prefix(s: string, n: nat): (r: string)
  {
    if |s| <= n then s else s[..n]
  }

  const TitleLimit := 50

  /** The title as it appears in the file name: characters other than word characters,
      whitespace and `-` removed, whitespace runs turned into `_`, cut to 50 characters.
      It holds only word characters and `-`, and at most 50 of them. */
  function SafeTitle(title: string): (r: string)
    ensures |r| <= TitleLimit && forall i :: 0 <= i < |r| ==> IsWordChar(r[i]) || r[i] == '-'
  {
    KeepOnly(title, TitleChar);
    UnderscoreSpacesChars(Keep(title, TitleChar));
    Prefix(UnderscoreSpaces(Keep(title, TitleChar)), TitleLimit)
  }

  /** A title of word characters and `-` only, at most 50 long, is used as it is. */
  lemma SafeTitleKeepsCleanTitle(title: string)
    requires |title| <= TitleLimit && forall i :: 0 <= i < |title| ==> IsWordChar(title[i]) || title[i] == '-'
    ensures SafeTitle(title) == title
  {
    KeepAll(title, TitleChar);
    UnderscoreSpacesNoSpace(title);
  }

  /** `f"Act_{act_idx}_{act_year}_{safe_title}.txt"`. */
  function FileName(idx: string, year: string, safeTitle: string): (name: string)
    ensures |name| == |idx| + |year| + |safeTitle| + 10
    ensures name[..4] == "Act_" && name[|name| - 4..] == ".txt"
  {
    "Act_" + idx + "_" + year + "_" + safeTitle + ".txt"
  }

  /** Reads index, year and title back from a file name of that form. */
  function NameFields(name: string): (r: Option<(string, string, string)>)
  {
    if |name| < 8 || name[..4] != "Act_" || name[|name| - 4..] != ".txt" then None
    else
      var parts := SplitOn(name[4..|name| - 4], '_');
      if |parts| < 3 then None else Some((parts[0], parts[1], JoinWith("_", parts[2..])))
  }

  /** Between the `Act_` prefix and the `.txt` suffix lie the `_`-separated fields. */
  lemma NameMiddle(mid: string)
    ensures NameFields("Act_" + mid + ".txt") ==
      var parts := SplitOn(mid, '_'); if |parts| < 3 then None else Some((parts[0], parts[1], JoinWith("_", parts[2..])))
  {
    var name := "Act_" + mid + ".txt";
    assert name[..4] == "Act_" && name[|name| - 4..] == ".txt";
    assert name[4..|name| - 4] == mid;
  }

  /** Splitting `idx_year_title` at `_` gives the index, the year and the pieces that
      join back into the title. */
  lemma MiddleFields(idx: string, year: string, safeTitle: string)
    requires '_' !in idx && '_' !in year
    ensures var parts := SplitOn(idx + "_" + year + "_" + safeTitle, '_');
      |parts| >= 3 && parts[0] == idx && parts[1] == year && JoinWith("_", parts[2..]) == safeTitle
  {
    var mid := idx + "_" + year + "_" + safeTitle;
    assert mid == idx + ['_'] + (year + ['_'] + safeTitle);
    SplitOnPiece(idx, '_', year + ['_'] + safeTitle);
    SplitOnPiece(year, '_', safeTitle);
    var parts := SplitOn(mid, '_');
    assert parts == [idx] + ([year] + SplitOn(safeTitle, '_'));
    assert parts[2..] == SplitOn(safeTitle, '_');
    JoinSplit(safeTitle, '_');
  }

  /** The name determines the index, the year and the title, since index and year (digit
      strings in practice) hold no `_`. */
  lemma FileNameReadBack(idx: string, year: string, safeTitle: string)
    requires '_' !in idx && '_' !in year
    ensures NameFields(FileName(idx, year, safeTitle)) == Some((idx, year, safeTitle))
  {
    var mid := idx + "_" + year + "_" + safeTitle;
    assert FileName(idx, year, safeTitle) == "Act_" + mid + ".txt";
    NameMiddle(mid);
    MiddleFields(idx, year, safeTitle);
  }

  // ---------------------------------------------------------------------------
  // The file contents

  /** The act framed by two rules, each followed by a newline. */
  function FileContents(actContent: string): (c: string)
    ensures |c| == |actContent| + 2 * 81
    ensures c[..81] == Rule() + "\n" && c[|c| - 81..] == Rule() + "\n"
  {
    Rule() + "\n" + actContent + Rule() + "\n"
  }

  /** The fragment inside a file's contents: what lies between the separator at the start
      and the closing rule at the end. */
  function Unframe(contents: string): (r: Option<string>)
  {
    var open := Separator();
    var close := Rule() + "\n";
    if |contents| >= |open| + |close| && contents[..|open|] == open && contents[|contents| - |close|..] == close
    then Some(contents[|open|..|contents| - |close|])
    else None
  }

  /** Taking off the opening rule and marker and the closing rule gives back the fragment. */
  lemma UnframeContents(fragment: string)
    ensures Unframe(FileContents(ActIndexKey + fragment)) == Some(fragment)
  {
    var c := FileContents(ActIndexKey + fragment);
    var open := Separator();
    var close := Rule() + "\n";
    assert c == open + fragment + close;
    assert c[..|open|] == open;
    assert c[|c| - |close|..] == close;
    assert c[|open|..|c| - |close|] == fragment;
  }

  // ---------------------------------------------------------------------------
  // One act

  /** The three values a file needs: the index digits, the title line and the year digits. */
  datatype ActFields = ActFields(index: string, title: string, year: string)

  /** `re.search` for the index, the title and the year in the act: all three groups, or
      nothing. */
  function FieldsOf(fs: Finders, actContent: string): (r: Option<ActFields>)
    requires WellFormed(fs)
  {
    match (fs.index(actContent), fs.title(actContent), fs.year(actContent))
    case (Some(i), Some(t), Some(y)) => Some(ActFields(i.groups[0], t.groups[0], y.groups[0]))
    case _ => None
  }

  /** The file for one fragment, or nothing when a field is missing: a file exactly when
      all three fields are found. */
  function ActFile(fs: Finders, fragment: string): (w: Option<FileWrite>)
    requires WellFormed(fs)
    ensures w.Some? <==> FieldsOf(fs, ActIndexKey + fragment).Some?
  {
    var actContent := ActIndexKey + fragment;
    match FieldsOf(fs, actContent)
    case None => None
    case Some(f) =>
      Some(FileWrite(FileName(ZFill(f.index, 3), f.year, SafeTitle(Strip(f.title))), FileContents(actContent)))
  }

  /** A fragment gives a file exactly when the index digits, a title line and the year
      digits are all found; the index and the year are then digit strings, so a year
      without digits means the act is skipped. */
  lemma ActFileIff(fs: Finders, fragment: string)
    requires WellFormed(fs) && DigitFinders(fs)
    ensures var c := ActIndexKey + fragment;
      ActFile(fs, fragment).Some? <==>
        && (exists k :: 0 <= k < |c| && DigitsAfterLabel(c[k..], ActIndexKey))
        && fs.title(c).Some?
        && (exists k :: 0 <= k < |c| && DigitsAfterLabel(c[k..], YearKey))
    ensures var c := ActIndexKey + fragment;
      ActFile(fs, fragment).Some? ==>
        var f := FieldsOf(fs, c).value;
        f.index != [] && AllDigits(f.index) && f.year != [] && AllDigits(f.year)
  {
    FieldsOfIff(fs, ActIndexKey + fragment);
  }

  /** The three fields are found exactly when the index digits, a title line and the
      year digits are; the index and the year are then digit strings. */
  lemma FieldsOfIff(fs: Finders, c: string)
    requires WellFormed(fs) && DigitFinders(fs)
    ensures FieldsOf(fs, c).Some? <==>
        && (exists k :: 0 <= k < |c| && DigitsAfterLabel(c[k..], ActIndexKey))
        && fs.title(c).Some?
        && (exists k :: 0 <= k < |c| && DigitsAfterLabel(c[k..], YearKey))
    ensures FieldsOf(fs, c).Some? ==>
        var f := FieldsOf(fs, c).value;
        f.index != [] && AllDigits(f.index) && f.year != [] && AllDigits(f.year)
  {
    assert DigitSearchIn(fs.index, ActIndexKey, c) && DigitSearchIn(fs.year, YearKey, c);
  }

  /** The file of an act: its name is built from the zero-padded index, the year and the
      safe title, and its contents give back the fragment. */
  lemma ActFileShape(fs: Finders, fragment: string)
    requires WellFormed(fs) && DigitFinders(fs) && ActFile(fs, fragment).Some?
    ensures var f := FieldsOf(fs, ActIndexKey + fragment).value; var w := ActFile(fs, fragment).value;
      && NameFields(w.name) == Some((ZFill(f.index, 3), f.year, SafeTitle(Strip(f.title))))
      && Unframe(w.contents) == Some(fragment)
  {
    var f := FieldsOf(fs, ActIndexKey + fragment).value;
    ActFileIff(fs, fragment);
    ZFillDigits(f.index, 3);
    DigitsHaveNoUnderscore(ZFill(f.index, 3));
    DigitsHaveNoUnderscore(f.year);
    FileNameReadBack(ZFill(f.index, 3), f.year, SafeTitle(Strip(f.title)));
    UnframeContents(fragment);
  }

  lemma DigitsHaveNoUnderscore(s: string)
    requires AllDigits(s)
    ensures '_' !in s
  {
  }

  // ---------------------------------------------------------------------------
  // parse_and_split_acts

  /** What each piece gives: its file, or nothing. */
  function ActOutcomes(fs: Finders, acts: seq<string>): (ws: seq<Option<FileWrite>>)
    requires WellFormed(fs)
    ensures |ws| == |acts|
    decreases |acts|
  {
    if acts == [] then [] else [ActFile(fs, acts[0])] + ActOutcomes(fs, acts[1..])
  }

  /** Position `j` holds the outcome of piece `j`. */
  lemma {:induction false} ActOutcomesAt(fs: Finders, acts: seq<string>, j: nat)
    requires WellFormed(fs) && j < |acts|
    ensures ActOutcomes(fs, acts)[j] == ActFile(fs, acts[j])
    decreases j
  {
    if j > 0 {
      ActOutcomesAt(fs, acts[1..], j - 1);
    }
  }

  /** The present values of `ws` from position `i` on, in order. */
  function Present<T>(ws: seq<Option<T>>, i: nat): (r: seq<T>)
    decreases |ws| - i
  {
    if i < |ws| then (if ws[i].Some? then [ws[i].value] else []) + Present(ws, i + 1) else []
  }

  /** Every present value is one of the values of `ws`, and there are at most as many. */
  lemma {:induction false} PresentFrom<T>(ws: seq<Option<T>>, i: nat)
    requires i <= |ws|
    ensures |Present(ws, i)| <= |ws| - i
    ensures forall w :: w in Present(ws, i) ==> exists k :: i <= k < |ws| && ws[k] == Some(w)
    decreases |ws| - i
  {
    if i < |ws| {
      PresentFrom(ws, i + 1);
    }
  }

  /** Taking the value at `k`, when there is one, moves the boundary one step on. */
  lemma PresentStep<T>(ws: seq<Option<T>>, k: nat, taken: seq<T>)
    requires k < |ws| && taken + Present(ws, k) == Present(ws, 1)
    ensures (if ws[k].Some? then taken + [ws[k].value] else taken) + Present(ws, k + 1) == Present(ws, 1)
  {
    if ws[k].Some? {
      ConcatAssoc(taken, [ws[k].value], Present(ws, k + 1));
    }
  }

  /** The files of the pieces from position `i` on, in order, skipping the acts without
      all three fields. */
  function ActFiles(fs: Finders, acts: seq<string>, i: nat): (ws: seq<FileWrite>)
    requires WellFormed(fs)
  {
    Present(ActOutcomes(fs, acts), i)
  }

  /** At most one file per piece, and every file is the file of one of them. */
  lemma ActFilesFrom(fs: Finders, acts: seq<string>, i: nat)
    requires WellFormed(fs) && i <= |acts|
    ensures |ActFiles(fs, acts, i)| <= |acts| - i
    ensures forall w :: w in ActFiles(fs, acts, i) ==> exists k :: i <= k < |acts| && ActFile(fs, acts[k]) == Some(w)
  {
    PresentFrom(ActOutcomes(fs, acts), i);
    forall k | i <= k < |acts| ensures ActOutcomes(fs, acts)[k] == ActFile(fs, acts[k]) {
      ActOutcomesAt(fs, acts, k);
    }
  }

  /** A document in which the separator occurs nowhere is all header: no file is written. */
  lemma NoSeparatorNoFiles(fs: Finders, content: string)
    requires WellFormed(fs) && NoMatchBefore(fs.separator, content, |content|)
    ensures Pieces(fs, content) == [content] && ActFiles(fs, Pieces(fs, content), 1) == []
  {
    SplitHeadAt(fs.separator, 0, content, |content|);
    assert content[..|content|] == content && content[|content|..] == [];
    var r := Pieces(fs, content);
    assert r == [r[0]] + r[1..];
  }

  /** The body of the act loop for piece `k`: the three searches and, when all succeed,
      the file. */
  method WriteAct(fs: Finders, acts: seq<string>, k: nat) returns (written: Option<FileWrite>)
    requires WellFormed(fs) && k < |acts|
    ensures written == ActOutcomes(fs, acts)[k]
  {
    ActOutcomesAt(fs, acts, k);
    var act := acts[k];
    var actContent := ActIndexKey + act;
    var actIndexMatch := fs.index(actContent);
    var actTitleMatch := fs.title(actContent);
    var actYearMatch := fs.year(actContent);
    written := None;
    if actIndexMatch.Some? && actTitleMatch.Some? && actYearMatch.Some? {
      var actIdx := ZFill(actIndexMatch.value.groups[0], 3);
      var actTitle := Strip(actTitleMatch.value.groups[0]);
      var actYear := actYearMatch.value.groups[0];
      var safeTitle := SafeTitle(actTitle);
      var filename := FileName(actIdx, actYear, safeTitle);
      written := Some(FileWrite(filename, FileContents(actContent)));
    }
  }

  /** Splits the document and builds the file of every act after the header, counting
      the files. */
  method ParseAndSplitActs(fs: Finders, content: string) returns (actCount: nat, files: seq<FileWrite>)
    requires WellFormed(fs)
    ensures files == ActFiles(fs, Pieces(fs, content), 1)
    ensures actCount == |files|
  {
    var acts := SplitBy(fs.separator, 0, content);
    actCount, files := WriteActs(fs, acts);
  }

  /** The act loop: every piece after the header, in order. */
  method WriteActs(fs: Finders, acts: seq<string>) returns (actCount: nat, files: seq<FileWrite>)
    requires WellFormed(fs) && |acts| >= 1
    ensures files == ActFiles(fs, acts, 1)
    ensures actCount == |files|
  {
    ghost var outcomes := ActOutcomes(fs, acts);
    actCount := 0;
    files := [];
    var k := 1;
    while k < |acts|
      invariant 1 <= k <= |acts|
      invariant files + Present(outcomes, k) == Present(outcomes, 1) && actCount == |files|
    {
      var written := WriteAct(fs, acts, k);
      PresentStep(outcomes, k, files);
      if written.Some? {
        files := files + [written.value];
        actCount := actCount + 1;
      }
      k := k + 1;
    }
  }

  // ---------------------------------------------------------------------------
  // The output folder name

  /** `[<>:"/\\|?*]`: characters a folder name may not contain. */
  predicate FolderForbidden(c: char)
  {
    c in "<>:\"/\\|?*"
  }

  /** What `re.sub(r'[<>:"/\\|?*]', '', …)` keeps. */
  predicate FolderAllowed(c: char)
  {
    !FolderForbidden(c)
  }

  const DefaultFolder := "split_acts"

  /** The forbidden characters removed; `split_acts` when nothing is left, in particular
      for a name made of forbidden characters only. */
  function SanitizeFolderName(name: string): (r: string)
    ensures r != []
    ensures (forall i :: 0 <= i < |name| ==> FolderForbidden(name[i])) ==> r == DefaultFolder
  {
    var cleaned := Keep(name, FolderAllowed);
    KeepNone(name, FolderAllowed);
    if cleaned == [] then DefaultFolder else cleaned
  }

  /** Deleting a forbidden character anywhere in the name does not change the result: only
      the forbidden characters are removed. With `SanitizeFolderNameClean` and the default
      above, this fixes the result for every name. */
  lemma SanitizeDropsForbidden(a: string, c: char, b: string)
    requires FolderForbidden(c)
    ensures SanitizeFolderName(a + [c] + b) == SanitizeFolderName(a + b)
  {
    KeepConcat(a + [c], b, FolderAllowed);
    KeepConcat(a, [c], FolderAllowed);
    KeepConcat(a, b, FolderAllowed);
    assert Keep([c], FolderAllowed) == [] by { assert [c][1..] == []; }
    assert Keep(a + [c] + b, FolderAllowed) == Keep(a + b, FolderAllowed);
  }

  /** The folder name is never empty and holds none of the forbidden characters; a name
      that is already clean is kept. */
  lemma SanitizeFolderNameClean(name: string)
    ensures var r := SanitizeFolderName(name); forall i :: 0 <= i < |r| ==> !FolderForbidden(r[i])
    ensures name != [] && (forall i :: 0 <= i < |name| ==> !FolderForbidden(name[i])) ==> SanitizeFolderName(name) == name
  {
    KeepOnly(name, FolderAllowed);
    if name != [] && forall i :: 0 <= i < |name| ==> !FolderForbidden(name[i]) {
      KeepAll(name, FolderAllowed);
    }
  }

  /** Sanitising a sanitised name changes nothing. */
  lemma SanitizeFolderNameIdempotent(name: string)
    ensures SanitizeFolderName(SanitizeFolderName(name)) == SanitizeFolderName(name)
  {
    SanitizeFolderNameClean(name);
    SanitizeFolderNameClean(SanitizeFolderName(name));
  }
}
