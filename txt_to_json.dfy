/** The question/answer extractor of `extra/txt_to_json.py`: a structured legal text is
    split into acts at `ACT INDEX: <digits>`, each act into sections at
    `Section <number>`, and each section into `Q<n>: … A: … Type: …` entries; every
    entry becomes one flat record carrying its act's metadata and its section number. */
module TxtToJson {
  import opened Text
  import opened Patterns

  /** `ACT INDEX:\s*(\d+)`, the pattern the document is split on. */
  const ActMarker := DigitField(ActIndexKey)

  /** One extracted question with everything the output row carries, all stripped. */
  datatype Record = Record(
    actIndex: string, actTitle: string, actNo: string, actYear: string,
    section: string, questionNumber: string, question: string, answer: string, qaType: string)

  /** The four values every record of one act shares. */
  datatype ActMeta = ActMeta(index: string, title: string, no: string, year: string)

  function MetaOf(r: Record): ActMeta
  {
    ActMeta(r.actIndex, r.actTitle, r.actNo, r.actYear)
  }

  predicate RecordStripped(r: Record)
  {
    && IsStripped(r.actIndex) && IsStripped(r.actTitle) && IsStripped(r.actNo) && IsStripped(r.actYear)
    && IsStripped(r.section) && IsStripped(r.questionNumber) && IsStripped(r.question)
    && IsStripped(r.answer) && IsStripped(r.qaType)
  }

  /** The six patterns the extractor scans with, as matchers. The record functions and
      the loops below take them as a parameter, so that what they say about splitting,
      pairing and ordering does not depend on how each pattern matches. */
  datatype Scanners = Scanners(
    act: Matcher, title: Matcher, no: Matcher, year: Matcher, section: Matcher, qa: Matcher)

  ghost predicate WellShaped(sc: Scanners)
  {
    && Shaped(sc.act, 1) && Shaped(sc.title, 1) && Shaped(sc.no, 1) && Shaped(sc.year, 1)
    && Shaped(sc.section, 1) && Shaped(sc.qa, 4)
  }

  /** `ACT INDEX:\s*(\d+)`, the three metadata line patterns, `Section\s+(\d+[A-Za-z]*)`
      and the question/answer pattern. */
  function Extractor(): (sc: Scanners)
    ensures WellShaped(sc)
  {
    Scanners(Scan(ActMarker), Scan(LineField(TitleKey)), Scan(LineField(NumberKey)),
             Scan(LineField(YearKey)), Scan(SectionNumber), Scan(QAPair))
  }

  // ---------------------------------------------------------------------------
  // What parse_document_to_json computes

  /** A metadata line: the stripped group of the first match of `f` (where `f` is
      `KEY\s*(.+?)(?:\n|$)`), or the empty string when it matches nowhere. */
  function MetaField(f: Matcher, body: string): (v: string)
    requires Shaped(f, 1)
    ensures IsStripped(v)
  {
    match SearchBy(f, 1, body)
    case None => ""
    case Some(m) => Strip(m.groups[0])
  }

  function ActMetaOf(sc: Scanners, index: string, body: string): ActMeta
    requires WellShaped(sc)
  {
    ActMeta(Strip(index), MetaField(sc.title, body), MetaField(sc.no, body), MetaField(sc.year, body))
  }

  /** The record built from the four groups of one question/answer match. */
  function QARecord(meta: ActMeta, section: string, g: seq<string>): Record
    requires |g| == 4
  {
    Record(meta.index, meta.title, meta.no, meta.year, section, Strip(g[0]), Strip(g[1]), Strip(g[2]), Strip(g[3]))
  }

  /** One record for each of the first `k` matches, in match order. */
  function QARecords(meta: ActMeta, section: string, ms: seq<seq<string>>, k: nat): seq<Record>
    requires k <= |ms| && forall i :: 0 <= i < |ms| ==> |ms[i]| == 4
  {
    if k == 0 then [] else QARecords(meta, section, ms, k - 1) + [QARecord(meta, section, ms[k - 1])]
  }

  /** The records of one section: one per question/answer match, in match order. */
  function SectionRecords(sc: Scanners, meta: ActMeta, section: string, content: string): seq<Record>
    requires WellShaped(sc)
  {
    var ms := FindAllBy(sc.qa, 4, content);
    QARecords(meta, section, ms, |ms|)
  }

  /** The records of the (number, body) pairs of a section split, from position `j` on. */
  function SectionsFrom(sc: Scanners, meta: ActMeta, sections: seq<string>, j: nat): seq<Record>
    requires WellShaped(sc)
    decreases |sections| - j
  {
    if j + 1 < |sections| then
      SectionRecords(sc, meta, Strip(sections[j]), sections[j + 1]) + SectionsFrom(sc, meta, sections, j + 2)
    else []
  }

  /** The records of one act, given the captured index and the body that follows it. */
  function ActRecords(sc: Scanners, index: string, body: string): seq<Record>
    requires WellShaped(sc)
  {
    SectionsFrom(sc, ActMetaOf(sc, index, body), SplitBy(sc.section, 1, body), 1)
  }

  /** The records of the (index, body) pairs of an act split, from position `i` on. */
  function ActsFrom(sc: Scanners, acts: seq<string>, i: nat): seq<Record>
    requires WellShaped(sc)
    decreases |acts| - i
  {
    if i + 1 < |acts| then ActRecords(sc, acts[i], acts[i + 1]) + ActsFrom(sc, acts, i + 2) else []
  }

  /** Every record of the document, in document order; all nine fields of each are
      whitespace-stripped. */
  function DocumentRecords(sc: Scanners, content: string): (records: seq<Record>)
    requires WellShaped(sc)
    ensures forall r :: r in records ==> RecordStripped(r)
  {
    ActsFromStripped(sc, SplitBy(sc.act, 1, content), 1);
    ActsFrom(sc, SplitBy(sc.act, 1, content), 1)
  }

  // ---------------------------------------------------------------------------
  // parse_document_to_json

  /** Walks the act split two pieces at a time; for each act reads the three metadata
      lines (a missing one stays empty) and appends the act's records. */
  method ParseDocument(sc: Scanners, content: string) returns (allData: seq<Record>)
    requires WellShaped(sc)
    ensures allData == DocumentRecords(sc, content)
  {
    var acts := SplitBy(sc.act, 1, content);
    allData := [];
    var i := 1;
    while i + 1 < |acts|
      invariant 1 <= i
      invariant allData + ActsFrom(sc, acts, i) == ActsFrom(sc, acts, 1)
      decreases |acts| - i
    {
      var actIndex := Strip(acts[i]);
      var actContent := acts[i + 1];
      var actTitle := "";
      var actNo := "";
      var actYear := "";
      var titleMatch := SearchBy(sc.title, 1, actContent);
      var noMatch := SearchBy(sc.no, 1, actContent);
      var yearMatch := SearchBy(sc.year, 1, actContent);
      if titleMatch.Some? {
        actTitle := Strip(titleMatch.value.groups[0]);
      }
      if noMatch.Some? {
        actNo := Strip(noMatch.value.groups[0]);
      }
      if yearMatch.Some? {
        actYear := Strip(yearMatch.value.groups[0]);
      }
      var meta := ActMeta(actIndex, actTitle, actNo, actYear);
      assert meta == ActMetaOf(sc, acts[i], actContent);
      ConcatAssoc(allData, ActRecords(sc, acts[i], actContent), ActsFrom(sc, acts, i + 2));
      allData := AppendSections(sc, meta, actContent, allData);
      i := i + 2;
    }
  }

  /** The section loop of one act: walks the section split two pieces at a time and
      appends the records of each section. */
  method AppendSections(sc: Scanners, meta: ActMeta, actContent: string, allData0: seq<Record>)
    returns (allData: seq<Record>)
    requires WellShaped(sc)
    ensures allData == allData0 + SectionsFrom(sc, meta, SplitBy(sc.section, 1, actContent), 1)
  {
    allData := allData0;
    var sections := SplitBy(sc.section, 1, actContent);
    var j := 1;
    while j + 1 < |sections|
      invariant 1 <= j
      invariant allData + SectionsFrom(sc, meta, sections, j) == allData0 + SectionsFrom(sc, meta, sections, 1)
      decreases |sections| - j
    {
      var sectionNum := Strip(sections[j]);
      var sectionContent := sections[j + 1];
      var qaMatches := FindAllBy(sc.qa, 4, sectionContent);
      ConcatAssoc(allData, SectionRecords(sc, meta, sectionNum, sectionContent), SectionsFrom(sc, meta, sections, j + 2));
      allData := AppendMatches(meta, sectionNum, qaMatches, allData);
      j := j + 2;
    }
  }

  /** The match loop of one section: one record per question/answer match, appended
      in match order. */
  method AppendMatches(meta: ActMeta, sectionNum: string, qaMatches: seq<seq<string>>, allData0: seq<Record>)
    returns (allData: seq<Record>)
    requires forall i :: 0 <= i < |qaMatches| ==> |qaMatches[i]| == 4
    ensures allData == allData0 + QARecords(meta, sectionNum, qaMatches, |qaMatches|)
  {
    allData := allData0;
    var k := 0;
    while k < |qaMatches|
      invariant k <= |qaMatches|
      invariant allData == allData0 + QARecords(meta, sectionNum, qaMatches, k)
    {
      var entry := QARecord(meta, sectionNum, qaMatches[k]);
      ConcatAssoc(allData0, QARecords(meta, sectionNum, qaMatches, k), [entry]);
      allData := allData + [entry];
      k := k + 1;
    }
  }

  // ---------------------------------------------------------------------------
  // Acts: what text a record can come from

  /** The act pairs only depend on the pieces from the first index on. */
  lemma {:induction false} ActsFromSuffix(sc: Scanners, a: seq<string>, b: seq<string>, i: nat, j: nat)
    requires WellShaped(sc) && i <= |a| && j <= |b| && a[i..] == b[j..]
    ensures ActsFrom(sc, a, i) == ActsFrom(sc, b, j)
    decreases |a| - i
  {
    if i + 1 < |a| {
      assert a[i] == a[i..][0] == b[j];
      assert a[i + 1] == a[i..][1] == b[j + 1];
      assert a[i + 2..] == a[i..][2..] == b[j..][2..] == b[j + 2..];
      ActsFromSuffix(sc, a, b, i + 2, j + 2);
    }
  }

  /** Text in front of the first `ACT INDEX: <digits>` never produces a record. */
  lemma TextBeforeFirstActIgnored(sc: Scanners, p: string, r: string)
    requires WellShaped(sc) && NoMatchBefore(sc.act, p + r, |p|)
    ensures DocumentRecords(sc, p + r) == DocumentRecords(sc, r)
  {
    SplitIgnoresClearPrefix(sc.act, 1, p, r);
    var a := SplitBy(sc.act, 1, p + r);
    var b := SplitBy(sc.act, 1, r);
    ActsFromSuffix(sc, a, b, 1, 1);
  }

  /** A document without any `ACT INDEX: <digits>` produces no record. */
  lemma NoActNoRecords(sc: Scanners, t: string)
    requires WellShaped(sc) && SearchBy(sc.act, 1, t).None?
    ensures DocumentRecords(sc, t) == []
  {
    SearchMissing(sc.act, 1, t);
    assert t + [] == t;
    TextBeforeFirstActIgnored(sc, t, []);
    assert SplitBy(sc.act, 1, []) == [""];
  }

  /** Reading the index piece and the body piece off a split. */
  lemma PiecesAfterIndex(a: seq<string>, g: seq<string>, s: seq<string>)
    requires 1 <= |a| && |g| == 1 && 1 <= |s| && a[1..] == g + s
    ensures 3 <= |a| && a[1] == g[0] && a[2] == s[0] && a[3..] == s[1..]
  {
    assert a[1..][0] == a[1] && a[1..][1] == a[2];
    assert a[3..] == a[1..][2..];
  }

  lemma Slices(t: string, e: nat, b: nat)
    requires e <= b <= |t|
    ensures t[e..][..b - e] == t[e..b] && t[e..][b - e..] == t[b..]
  {
  }

  /** After the first marker (at `q`, ending at `e`) come the records of the act it
      opens, whose body is the first piece of the split of `t[e..]`, and then the acts
      of the rest of that split. */
  lemma ActsAfterFirstMarker(sc: Scanners, t: string, q: nat, e: nat)
    requires WellShaped(sc) && q < |t| && NoMatchBefore(sc.act, t, q) && sc.act(t[q..]).Some?
    requires e == q + sc.act(t[q..]).value.len
    ensures e <= |t|
    ensures DocumentRecords(sc, t)
         == ActRecords(sc, sc.act(t[q..]).value.groups[0], SplitBy(sc.act, 1, t[e..])[0])
            + ActsFrom(sc, SplitBy(sc.act, 1, t[e..]), 1)
  {
    SplitAfterFirstMatch(sc.act, 1, t, q, e);
    var acts := SplitBy(sc.act, 1, t);
    PiecesAfterIndex(acts, sc.act(t[q..]).value.groups, SplitBy(sc.act, 1, t[e..]));
    ActsFromSuffix(sc, acts, SplitBy(sc.act, 1, t[e..]), 3, 1);
  }

  /** When no marker starts in `t[e..b]` and `b` is the end of the text or the start of
      a marker, the first piece of the split of `t[e..]` is `t[e..b]` and the acts after
      it are those of `t[b..]`. */
  lemma ActsAfterBody(sc: Scanners, t: string, e: nat, b: nat)
    requires WellShaped(sc) && e <= b <= |t| && NoMatchBefore(sc.act, t[e..], b - e)
    requires b < |t| ==> sc.act(t[b..]).Some?
    ensures SplitBy(sc.act, 1, t[e..])[0] == t[e..b]
    ensures ActsFrom(sc, SplitBy(sc.act, 1, t[e..]), 1) == DocumentRecords(sc, t[b..])
  {
    Slices(t, e, b);
    SplitHeadAt(sc.act, 1, t[e..], b - e);
    ActsFromSuffix(sc, SplitBy(sc.act, 1, t[e..]), SplitBy(sc.act, 1, t[b..]), 1, 1);
  }

  /** Where the first act lies: the first marker starts at `q` and ends at `e`, and the
      act's body runs from `e` to `b`, the next marker or the end of the text. */
  lemma FirstAct(sc: Scanners, t: string) returns (q: nat, e: nat, b: nat)
    requires WellShaped(sc) && SearchBy(sc.act, 1, t).Some?
    ensures FirstActAt(sc, t, q, e, b)
  {
    q := SearchFound(sc.act, 1, t);
    e := q + sc.act(t[q..]).value.len;
    var h := SplitAfterHead(sc.act, 1, t[e..]);
    b := e + |h|;
    Slices(t, e, b);
  }

  /** The first marker of `t` starts at `q` and ends at `e`; no marker starts between `e`
      and `b`, and `b` is the end of the text or the start of the next marker. */
  ghost predicate FirstActAt(sc: Scanners, t: string, q: nat, e: nat, b: nat)
    requires WellShaped(sc)
  {
    && q < e <= b <= |t| && NoMatchBefore(sc.act, t, q) && sc.act(t[q..]).Some?
    && e == q + sc.act(t[q..]).value.len
    && NoMatchBefore(sc.act, t[e..], b - e) && (b < |t| ==> sc.act(t[b..]).Some?)
  }

  /** The digits captured by the first marker are paired with exactly the body up to the
      next marker (or the end), and the records of the rest of the document follow the
      records of that act. */
  lemma FirstActRecords(sc: Scanners, t: string, q: nat, e: nat, b: nat)
    requires WellShaped(sc) && FirstActAt(sc, t, q, e, b)
    ensures DocumentRecords(sc, t)
         == ActRecords(sc, sc.act(t[q..]).value.groups[0], t[e..b]) + DocumentRecords(sc, t[b..])
  {
    ActsAfterFirstMarker(sc, t, q, e);
    ActsAfterBody(sc, t, e, b);
  }

  // ---------------------------------------------------------------------------
  // Metadata: a missing line leaves the field empty, and the first line wins

  /** A metadata label that matches nowhere in the act gives the empty string. */
  lemma MetaFieldMissing(f: Matcher, body: string)
    requires Shaped(f, 1) && NoMatchBefore(f, body, |body|)
    ensures MetaField(f, body) == ""
  {
    SearchMissing(f, 1, body);
  }

  /** Otherwise the field is the stripped group of the leftmost match. */
  lemma MetaFieldFirst(f: Matcher, body: string) returns (k: nat)
    requires Shaped(f, 1) && !NoMatchBefore(f, body, |body|)
    ensures k < |body| && NoMatchBefore(f, body, k) && f(body[k..]).Some?
    ensures MetaField(f, body) == Strip(f(body[k..]).value.groups[0])
  {
    SearchMissing(f, 1, body);
    k := SearchFound(f, 1, body);
  }

  /** What the metadata is does not change how many records an act gives: a missing
      field never causes a skip. */
  lemma {:induction false} MetaNeverFilters(sc: Scanners, m1: ActMeta, m2: ActMeta, sections: seq<string>, j: nat)
    requires WellShaped(sc)
    ensures |SectionsFrom(sc, m1, sections, j)| == |SectionsFrom(sc, m2, sections, j)|
    decreases |sections| - j
  {
    if j + 1 < |sections| {
      var ms := FindAllBy(sc.qa, 4, sections[j + 1]);
      QARecordsLength(m1, Strip(sections[j]), ms, |ms|);
      QARecordsLength(m2, Strip(sections[j]), ms, |ms|);
      MetaNeverFilters(sc, m1, m2, sections, j + 2);
    }
  }

  // ---------------------------------------------------------------------------
  // Records: order, what they carry, stripping

  /** The records of the first `k` matches are one per match, in match order. */
  lemma {:induction false} QARecordsAt(meta: ActMeta, section: string, ms: seq<seq<string>>, k: nat)
    requires k <= |ms| && forall i :: 0 <= i < |ms| ==> |ms[i]| == 4
    ensures |QARecords(meta, section, ms, k)| == k
    ensures forall i :: 0 <= i < k ==> QARecords(meta, section, ms, k)[i] == QARecord(meta, section, ms[i])
    decreases k
  {
    if k > 0 {
      QARecordsAt(meta, section, ms, k - 1);
      SnocIndex(QARecords(meta, section, ms, k - 1), QARecord(meta, section, ms[k - 1]));
    }
  }

  /** There are as many records as matches. */
  lemma {:induction false} QARecordsLength(meta: ActMeta, section: string, ms: seq<seq<string>>, k: nat)
    requires k <= |ms| && forall i :: 0 <= i < |ms| ==> |ms[i]| == 4
    ensures |QARecords(meta, section, ms, k)| == k
    decreases k
  {
    if k > 0 { QARecordsLength(meta, section, ms, k - 1); }
  }

  /** Every record of a section carries the act's metadata and the section's number, and
      is stripped when those are. */
  lemma SectionRecordsCarry(sc: Scanners, meta: ActMeta, section: string, content: string)
    requires WellShaped(sc)
    ensures forall r :: r in SectionRecords(sc, meta, section, content) ==>
      && MetaOf(r) == meta && r.section == section
      && (MetaStripped(meta) && IsStripped(section) ==> RecordStripped(r))
  {
    var ms := FindAllBy(sc.qa, 4, content);
    QARecordsAt(meta, section, ms, |ms|);
  }

  predicate MetaStripped(m: ActMeta)
  {
    IsStripped(m.index) && IsStripped(m.title) && IsStripped(m.no) && IsStripped(m.year)
  }

  /** Every record of the sections from `j` on carries the act's metadata and the stripped
      number of one of those sections. */
  lemma {:induction false} SectionsFromCarry(sc: Scanners, meta: ActMeta, sections: seq<string>, j: nat)
    requires WellShaped(sc)
    ensures forall r :: r in SectionsFrom(sc, meta, sections, j) ==>
      && MetaOf(r) == meta
      && (exists s :: j <= s && s + 1 < |sections| && r.section == Strip(sections[s]))
      && (MetaStripped(meta) ==> RecordStripped(r))
    decreases |sections| - j
  {
    if j + 1 < |sections| {
      SectionRecordsCarry(sc, meta, Strip(sections[j]), sections[j + 1]);
      SectionsFromCarry(sc, meta, sections, j + 2);
    }
  }

  /** Every record of an act carries that act's four metadata values, and is stripped. */
  lemma ActRecordsCarry(sc: Scanners, index: string, body: string)
    requires WellShaped(sc)
    ensures forall r :: r in ActRecords(sc, index, body) ==> MetaOf(r) == ActMetaOf(sc, index, body) && RecordStripped(r)
  {
    SectionsFromCarry(sc, ActMetaOf(sc, index, body), SplitBy(sc.section, 1, body), 1);
  }

  /** All nine fields of every record of the document are whitespace-stripped. */
  lemma {:induction false} ActsFromStripped(sc: Scanners, acts: seq<string>, i: nat)
    requires WellShaped(sc)
    ensures forall r :: r in ActsFrom(sc, acts, i) ==> RecordStripped(r)
    decreases |acts| - i
  {
    if i + 1 < |acts| {
      ActRecordsCarry(sc, acts[i], acts[i + 1]);
      ActsFromStripped(sc, acts, i + 2);
    }
  }

  // ---------------------------------------------------------------------------
  // Sections with the concrete question/answer pattern

  /** The extractor's question/answer scanner is the question/answer pattern. */
  lemma ExtractorQAFaithful()
    ensures QAFaithful(Extractor().qa)
  {
    QAPairFaithful();
  }

  /** A section gives no record exactly when no position of it starts the full
      `Q<n>: … \nA: … Type: …` shape, so no partial record is ever produced. */
  lemma SectionRecordsEmpty(sc: Scanners, meta: ActMeta, section: string, content: string)
    requires WellShaped(sc) && QAFaithful(sc.qa)
    ensures SectionRecords(sc, meta, section, content) == []
        <==> forall k :: 0 <= k < |content| ==> !QAShape(content[k..])
  {
    var ms := FindAllBy(sc.qa, 4, content);
    QARecordsLength(meta, section, ms, |ms|);
    FindAllEmpty(sc.qa, 4, content);
    forall k | 0 <= k < |content| ensures sc.qa(content[k..]).None? <==> !QAShape(content[k..]) {
      QAFaithfulIff(sc.qa, content[k..]);
    }
  }

  /** Every non-overlapping match gives a record, left to right: the leftmost match (from
      `q` to `e`) gives the first record of the section, and the text after it the rest.
      With `SectionRecordsEmpty`, this is all the records there are. */
  lemma SectionRecordsAfterFirstMatch(sc: Scanners, meta: ActMeta, section: string, content: string, q: nat, e: nat)
    requires WellShaped(sc) && q < |content| && NoMatchBefore(sc.qa, content, q) && sc.qa(content[q..]).Some?
    requires e == q + sc.qa(content[q..]).value.len
    ensures e <= |content| && |sc.qa(content[q..]).value.groups| == 4
    ensures SectionRecords(sc, meta, section, content)
         == [QARecord(meta, section, sc.qa(content[q..]).value.groups)] + SectionRecords(sc, meta, section, content[e..])
  {
    var g := sc.qa(content[q..]).value.groups;
    var rest := FindAllBy(sc.qa, 4, content[e..]);
    FindAllAfterFirstMatch(sc.qa, 4, content, q, e);
    assert FindAllBy(sc.qa, 4, content) == [g] + rest;
    QARecordsCons(meta, section, g, rest);
  }

  /** The records of one more match in front are that match's record in front. */
  lemma QARecordsCons(meta: ActMeta, section: string, g: seq<string>, ms: seq<seq<string>>)
    requires |g| == 4 && forall i :: 0 <= i < |ms| ==> |ms[i]| == 4
    ensures QARecords(meta, section, [g] + ms, |ms| + 1) == [QARecord(meta, section, g)] + QARecords(meta, section, ms, |ms|)
  {
    var gs := [g] + ms;
    ConsIndex(g, ms);
    var a := QARecords(meta, section, gs, |gs|);
    var b := QARecords(meta, section, ms, |ms|);
    QARecordsAt(meta, section, gs, |gs|);
    QARecordsAt(meta, section, ms, |ms|);
    ConsByIndex(a, QARecord(meta, section, g), b);
  }

  /** Record `i` of a section comes from a full question/answer match at some position `k`:
      its number is the digits after `Q`, and its question, answer and type are the
      stripped text between `:` and `\nA:`, between `A:` and `Type:`, and after `Type:`. */
  lemma SectionRecordFromMatch(sc: Scanners, meta: ActMeta, section: string, content: string, i: nat)
    returns (k: nat)
    requires WellShaped(sc) && QAFaithful(sc.qa) && i < |SectionRecords(sc, meta, section, content)|
    ensures k < |content| && sc.qa(content[k..]).Some? && |sc.qa(content[k..]).value.groups| == 4
    ensures var m := sc.qa(content[k..]).value;
      SectionRecords(sc, meta, section, content)[i] == QARecord(meta, section, m.groups)
      && QAGroups(content[k..], m)
  {
    var ms := FindAllBy(sc.qa, 4, content);
    QARecordsAt(meta, section, ms, |ms|);
    k := FindAllMember(sc.qa, 4, content, i);
    QAFaithfulAt(sc.qa, content[k..]);
  }
}
