/** The output side of `extra/txt_to_json.py`: `create_jsonl_format`, which turns every
    record into a two-message exchange with a metadata object, one JSON text per line,
    and the conversion step that refuses a document without any question/answer pair
    and otherwise produces JSONL text or the plain list of records. JSON values are
    modelled as values; how `json.dumps` writes one as text is the `Encoder` parameter. */
module Jsonl {
  import opened Text
  import opened TxtToJson

  /** The JSON values the script builds: strings, lists and dicts (as key/value pairs in
      insertion order). */
  datatype Json = JString(s: string) | JArray(items: seq<Json>) | JObject(fields: seq<(string, Json)>)

  /** `json.dumps(v, ensure_ascii=False)`. */
  type Encoder = Json -> string

  /** The encoder writes every value on one line, as `json.dumps` does without `indent`:
      a newline inside a string is written as the two characters `\n`. */
  ghost predicate OneLine(enc: Encoder)
  {
    forall v :: '\n' !in enc(v)
  }

  datatype Result<T> = Ok(value: T) | Err(msg: string)

  // ---------------------------------------------------------------------------
  // Reading values back

  /** The value stored under `key` in an object (the first such field). */
  function Field(v: Json, key: string): (r: Option<Json>)
  {
    if !v.JObject? then None else Lookup(v.fields, key)
  }

  function Lookup(fields: seq<(string, Json)>, key: string): (r: Option<Json>)
  {
    if fields == [] then None
    else if fields[0].0 == key then Some(fields[0].1)
    else Lookup(fields[1..], key)
  }

  /** The first field with key `key` is the one at `i`. */
  lemma {:induction false} LookupAt(fields: seq<(string, Json)>, key: string, i: nat)
    requires i < |fields| && fields[i].0 == key && forall j :: 0 <= j < i ==> fields[j].0 != key
    ensures Lookup(fields, key) == Some(fields[i].1)
    decreases i
  {
    if i > 0 {
      assert fields[0].0 != key;
      LookupAt(fields[1..], key, i - 1);
    }
  }

  /** The string stored under `key`, if there is one. */
  function StringField(v: Json, key: string): (r: Option<string>)
  {
    match Field(v, key)
    case Some(JString(s)) => Some(s)
    case _ => None
  }

  // ---------------------------------------------------------------------------
  // create_jsonl_format

  function Message(role: string, content: string): Json
  {
    JObject([("role", JString(role)), ("content", JString(content))])
  }

  /** The object written for one record: the question as the user's message, the answer
      as the assistant's, and the act title, section and type as metadata; a reader finds
      exactly these five values in it. */
  function JsonlEntry(r: Record): (v: Json)
    ensures ReadExchange(v) == Some(Exchange(r.question, r.answer, r.actTitle, r.section, r.qaType))
  {
    var meta := JObject([("act_title", JString(r.actTitle)), ("section", JString(r.section)), ("type", JString(r.qaType))]);
    var ms := [Message("user", r.question), Message("assistant", r.answer)];
    var fields := [("messages", JArray(ms)), ("metadata", meta)];
    LookupAt(fields, "metadata", 1);
    LookupAt(ms[0].fields, "content", 1);
    LookupAt(ms[1].fields, "content", 1);
    LookupAt(meta.fields, "section", 1);
    LookupAt(meta.fields, "type", 2);
    JObject(fields)
  }

  /** What a reader of one JSONL line finds: the user's and the assistant's message and
      the three metadata values. */
  datatype Exchange = Exchange(user: string, assistant: string, actTitle: string, section: string, qaType: string)

  /** Reads an exchange back from a line's object: the messages must be a user message
      followed by an assistant message. */
  function ReadExchange(v: Json): (e: Option<Exchange>)
  {
    match (Field(v, "messages"), Field(v, "metadata"))
    case (Some(JArray(ms)), Some(meta)) =>
      if |ms| == 2 && StringField(ms[0], "role") == Some("user") && StringField(ms[1], "role") == Some("assistant")
         && StringField(ms[0], "content").Some? && StringField(ms[1], "content").Some?
         && StringField(meta, "act_title").Some? && StringField(meta, "section").Some?
         && StringField(meta, "type").Some?
      then Some(Exchange(StringField(ms[0], "content").value, StringField(ms[1], "content").value,
                         StringField(meta, "act_title").value, StringField(meta, "section").value,
                         StringField(meta, "type").value))
      else None
    case _ => None
  }

  /** The encoded line of every record, in record order. */
  function JsonlLines(enc: Encoder, data: seq<Record>): (lines: seq<string>)
    decreases |data|
  {
    if data == [] then [] else JsonlLines(enc, data[..|data| - 1]) + [enc(JsonlEntry(data[|data| - 1]))]
  }

  /** The lines joined with newlines. */
  function JsonlText(enc: Encoder, data: seq<Record>): string
  {
    JoinWith("\n", JsonlLines(enc, data))
  }

  /** There is one line per record, and line `k` is the encoding of record `k`'s entry. */
  lemma {:induction false} JsonlLinesAt(enc: Encoder, data: seq<Record>)
    ensures |JsonlLines(enc, data)| == |data|
    ensures forall k :: 0 <= k < |data| ==> JsonlLines(enc, data)[k] == enc(JsonlEntry(data[k]))
    decreases |data|
  {
    if data != [] {
      var init := data[..|data| - 1];
      var last := enc(JsonlEntry(data[|data| - 1]));
      JsonlLinesAt(enc, init);
      assert JsonlLines(enc, data) == JsonlLines(enc, init) + [last];
      SnocIndex(JsonlLines(enc, init), last);
    }
  }

  /** Builds one line per record and joins them with newlines. */
  method CreateJsonlFormat(enc: Encoder, data: seq<Record>) returns (out: string)
    ensures out == JsonlText(enc, data)
  {
    var jsonlLines: seq<string> := [];
    for k := 0 to |data|
      invariant jsonlLines == JsonlLines(enc, data[..k])
    {
      var jsonlEntry := JsonlEntry(data[k]);
      assert data[..k + 1][..k] == data[..k];
      jsonlLines := jsonlLines + [enc(jsonlEntry)];
    }
    assert data[..|data|] == data;
    out := JoinWith("\n", jsonlLines);
  }

  /** With a one-line encoder, splitting the JSONL text at its newlines gives back exactly
      one line per record, in order; no record gives no text at all. */
  lemma JsonlOneLinePerRecord(enc: Encoder, data: seq<Record>)
    requires OneLine(enc)
    ensures data == [] ==> JsonlText(enc, data) == ""
    ensures data != [] ==> SplitOn(JsonlText(enc, data), '\n') == JsonlLines(enc, data)
  {
    JsonlLinesAt(enc, data);
    if data != [] {
      SplitOnJoin(JsonlLines(enc, data), '\n');
    }
  }

  // ---------------------------------------------------------------------------
  // The plain JSON format: the list of records

  /** The nine keys of a record's dict, in the order the script writes them. */
  const RecordKeys := ["act_index", "act_title", "act_no", "act_year", "section", "question_number", "question", "answer", "type"]

  function RecordValues(r: Record): (vals: seq<string>)
    ensures |vals| == |RecordKeys|
  {
    [r.actIndex, r.actTitle, r.actNo, r.actYear, r.section, r.questionNumber, r.question, r.answer, r.qaType]
  }

  /** An object whose keys are `keys` and whose values are the strings `vals`, in order. */
  function StringObject(keys: seq<string>, vals: seq<string>): (v: Json)
    requires |keys| == |vals|
    ensures v.JObject? && |v.fields| == |keys|
    ensures forall i :: 0 <= i < |keys| ==> v.fields[i] == (keys[i], JString(vals[i]))
  {
    JObject(seq(|keys|, i requires 0 <= i < |keys| => (keys[i], JString(vals[i]))))
  }

  /** The strings stored under `keys`, in order, if each key holds one. */
  function StringFields(v: Json, keys: seq<string>): (r: Option<seq<string>>)
    ensures r.Some? ==> |r.value| == |keys|
  {
    if keys == [] then Some([])
    else
      match (StringField(v, keys[0]), StringFields(v, keys[1..]))
      case (Some(s), Some(rest)) => Some([s] + rest)
      case _ => None
  }

  /** Reading the keys of a string object back gives its values, when no key repeats. */
  lemma StringObjectReadBack(keys: seq<string>, vals: seq<string>)
    requires |keys| == |vals| && forall i, j :: 0 <= i < j < |keys| ==> keys[i] != keys[j]
    ensures StringFields(StringObject(keys, vals), keys) == Some(vals)
  {
    var v := StringObject(keys, vals);
    forall i | 0 <= i < |keys| ensures StringField(v, keys[i]) == Some(vals[i]) {
      LookupAt(v.fields, keys[i], i);
    }
    StringFieldsFrom(v, keys, vals, 0);
  }

  lemma {:induction false} StringFieldsFrom(v: Json, keys: seq<string>, vals: seq<string>, k: nat)
    requires |keys| == |vals| && k <= |keys|
    requires forall i :: k <= i < |keys| ==> StringField(v, keys[i]) == Some(vals[i])
    ensures StringFields(v, keys[k..]) == Some(vals[k..])
    decreases |keys| - k
  {
    if k < |keys| {
      StringFieldsFrom(v, keys, vals, k + 1);
      assert keys[k..][1..] == keys[k + 1..];
      assert vals[k..] == [vals[k]] + vals[k + 1..];
    }
  }

  /** A record as the dict the script builds, with its nine keys; it holds all nine
      fields unchanged. */
  function RecordJson(r: Record): (v: Json)
    ensures ReadRecord(v) == Some(r)
  {
    StringObjectReadBack(RecordKeys, RecordValues(r));
    StringObject(RecordKeys, RecordValues(r))
  }

  /** Reads a record back from its dict. */
  function ReadRecord(v: Json): (r: Option<Record>)
  {
    match StringFields(v, RecordKeys)
    case Some(s) => Some(Record(s[0], s[1], s[2], s[3], s[4], s[5], s[6], s[7], s[8]))
    case None => None
  }

  /** `json.dump(data, ...)`: the list of the records' dicts, item `i` holding record `i`. */
  function RecordsJson(data: seq<Record>): (v: Json)
    ensures v.JArray? && |v.items| == |data|
    ensures forall i :: 0 <= i < |data| ==> ReadRecord(v.items[i]) == Some(data[i])
  {
    JArray(seq(|data|, i requires 0 <= i < |data| => RecordJson(data[i])))
  }

  // ---------------------------------------------------------------------------
  // The conversion step

  const NoPairsMessage := "No Q&A pairs found in the document."

  /** The two output formats the user can choose. */
  datatype Format = JsonlFormat | JsonFormat

  /** JSONL text, or the list of records as one JSON value (written with `indent=2`). */
  datatype Output = JsonlOutput(text: string) | JsonOutput(value: Json)

  /** Parses the document; refuses it when it has no question/answer pair, before any
      output is built; otherwise builds the chosen format. */
  method Convert(sc: Scanners, enc: Encoder, content: string, format: Format) returns (res: Result<Output>)
    requires WellShaped(sc)
    ensures res.Err? <==> DocumentRecords(sc, content) == []
    ensures res.Err? ==> res.msg == NoPairsMessage
    ensures res.Ok? && format == JsonlFormat ==> res.value == JsonlOutput(JsonlText(enc, DocumentRecords(sc, content)))
    ensures res.Ok? && format == JsonFormat ==> res.value == JsonOutput(RecordsJson(DocumentRecords(sc, content)))
  {
    var data := ParseDocument(sc, content);
    if data == [] {
      return Err(NoPairsMessage);
    }
    if format == JsonlFormat {
      var text := CreateJsonlFormat(enc, data);
      res := Ok(JsonlOutput(text));
    } else {
      res := Ok(JsonOutput(RecordsJson(data)));
    }
  }
}
