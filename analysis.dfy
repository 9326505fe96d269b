/**
 * Response recovery and record merging (code/analysis.py): the records the
 * language model's replies turn into, how one person's replies override a
 * starting record (generate_response), and how the records gathered over
 * all of a person's links are merged into one row of text (combine_dicts,
 * analyze). The model client, the page fetcher, the e-mail finder and the
 * JSON parser are parameters.
 */
module Analysis {
  import opened Strs
  import opened Dicts
  import OutputFormat

  datatype Option<T> = None | Some(value: T)

  /**
   * A value held in a record: a Python `str`, or any other object (a list,
   * a number, an exception) together with the text `str()` gives for it.
   */
  datatype Value = Str(s: string) | Other(shown: string)

  /** Python's `str(value)`. */
  function Show(v: Value): string
  {
    match v
    case Str(s) => s
    case Other(t) => t
  }

  /** One partial record: a dictionary with string keys. */
  type Record = Dict<Value>

  ghost predicate AllWellFormed(ds: seq<Record>)
  {
    forall i :: 0 <= i < |ds| ==> WellFormed(ds[i])
  }

  const ERROR_KEY := "error"

  /** bad_output: the record holding nothing but the error. */
  function BadOutput(err: Value): (r: Record)
    ensures r.keys == [ERROR_KEY] && r.vals == map[ERROR_KEY := err]
  {
    Single(ERROR_KEY, err)
  }

  // ---------------------------------------------------------------------------
  // conv_to_dict
  // ---------------------------------------------------------------------------

  /**
   * What `json.loads` gives back: an object, as the key-value pairs in the
   * order the text lists them, or some other JSON value (named by its
   * Python type).
   */
  datatype Json = Object(pairs: seq<(string, Value)>) | NonObject(typeName: string)

  /** The dictionary `json.loads` builds from an object's pairs: a repeated key keeps its first place and its last value. */
  function FromPairs(pairs: seq<(string, Value)>): Record
  {
    if |pairs| == 0 then Empty()
    else Put(FromPairs(pairs[..|pairs| - 1]), Last(pairs).0, Last(pairs).1)
  }

  lemma {:induction false} FromPairsWellFormed(pairs: seq<(string, Value)>)
    ensures WellFormed(FromPairs(pairs))
    decreases |pairs|
  {
    if |pairs| == 0 {
      EmptyWellFormed<Value>();
    } else {
      FromPairsWellFormed(pairs[..|pairs| - 1]);
      PutWellFormed(FromPairs(pairs[..|pairs| - 1]), Last(pairs).0, Last(pairs).1);
    }
  }

  /** A key of the object is in the dictionary, with the value of its last pair. */
  lemma {:induction false} FromPairsLastValue(pairs: seq<(string, Value)>, i: nat)
    requires i < |pairs|
    requires forall j :: i < j < |pairs| ==> pairs[j].0 != pairs[i].0
    ensures pairs[i].0 in FromPairs(pairs).vals
    ensures FromPairs(pairs).vals[pairs[i].0] == pairs[i].1
    decreases |pairs|
  {
    if i < |pairs| - 1 {
      FromPairsLastValue(pairs[..|pairs| - 1], i);
    }
  }

  /** bad_output's record where conv_to_dict hands it back in place of a parsed object. */
  function BadObject(err: Value): Json
  {
    Object([(ERROR_KEY, err)])
  }

  lemma BadObjectIsBadOutput(err: Value)
    ensures FromPairs(BadObject(err).pairs) == BadOutput(err)
  {
    assert BadObject(err).pairs[..0] == [];
  }

  /** `json.loads` succeeds, or raises an error with the given text. */
  datatype Parse = Parsed(json: Json) | Failed(message: string)

  /** The text of the IndexError `del fixed_chat[-1]` raises on an emptied list. */
  const INDEX_ERROR := "list assignment index out of range"

  /**
   * conv_to_dict: the direct parse; failing that, the parse of the text
   * without its first and last lines; failing that, an error record.
   */
  function ConvToDict(text: string, parse: string -> Parse): (r: Json)
    ensures parse(text).Parsed? ==> r == parse(text).json
    ensures parse(text).Failed? && !Contains(text, "\n") ==> r == BadObject(Other(INDEX_ERROR))
  {
    match parse(text)
    case Parsed(j) => j
    case Failed(_) =>
      var lines := Split(text, "\n");
      if |lines| < 2 then BadObject(Other(INDEX_ERROR))
      else
        match parse(Join(lines[1..|lines| - 1], "\n"))
        case Parsed(j) => j
        case Failed(msg) => BadObject(Other(msg))
  }

  /** Where `l` and `b` hold no newline and `s` ends with both behind a newline, they are equal. */
  lemma SameLastLine(s: string, l: string, b: string)
    requires '\n' !in l && '\n' !in b
    requires EndsWith(s, "\n" + l) && EndsWith(s, "\n" + b)
    ensures l == b
  {
    assert s[|s| - |l| - 1] == '\n' && s[|s| - |b| - 1] == '\n';
    assert forall i :: 0 <= i < |l| ==> l[i] == s[|s| - |l| + i];
    assert forall i :: 0 <= i < |b| ==> b[i] == s[|s| - |b| + i];
    assert |l| == |b|;
    assert l == s[|s| - |l|..] == b;
  }

  /** Behind a first line free of newlines, the lines of a text are the lines of the rest. */
  lemma SplitAfterFirstLine(a: string, rest: string)
    requires '\n' !in a
    ensures Split(a + "\n" + rest, "\n") == [a] + Split(rest, "\n")
  {
    assert a + "\n" + rest == a + ['\n'] + rest;
    ContainsChar(a, '\n');
    SplitAfterFirst(a, '\n', rest);
  }

  /** `x + sep + t == y + sep + t` cancels to `x == y`. */
  lemma CancelSuffix(x: string, y: string, sep: string, t: string)
    requires x + sep + t == y + sep + t
    ensures x == y
  {
    assert |x| == |y|;
    assert x == (x + sep + t)[..|x|];
    assert y == (y + sep + t)[..|y|];
  }

  /** The last line of `body + "\n" + b`, with `b` free of newlines, is `b`. */
  lemma LastLineIs(body: string, b: string)
    requires '\n' !in b
    ensures |Split(body + "\n" + b, "\n")| >= 2
    ensures Last(Split(body + "\n" + b, "\n")) == b
  {
    var rest := body + "\n" + b;
    var l := Last(Split(rest, "\n"));
    assert rest[|body|] == '\n';
    ContainsChar(rest, '\n');
    SplitLast(rest, "\n");
    ContainsChar(l, '\n');
    assert EndsWith(rest, "\n" + b) by {
      assert rest[|rest| - |b| - 1..] == "\n" + b;
    }
    SameLastLine(rest, l, b);
  }

  /** The lines of `body + "\n" + b`, with `b` free of newlines: at least two, `b` last, the rest joined back to `body`. */
  lemma SplitLastLine(body: string, b: string)
    requires '\n' !in b
    ensures var parts := Split(body + "\n" + b, "\n");
      && |parts| >= 2
      && Last(parts) == b
      && Join(parts[..|parts| - 1], "\n") == body
  {
    var rest := body + "\n" + b;
    var parts := Split(rest, "\n");
    LastLineIs(body, b);
    JoinSplit(rest, "\n");
    JoinFront(parts, "\n", body, b);
  }

  /** Parts joined to `body + sep + b`, ending with `b`, join to `body` without their last part. */
  lemma JoinFront(parts: seq<string>, sep: string, body: string, b: string)
    requires |parts| >= 2 && Last(parts) == b
    requires Join(parts, sep) == body + sep + b
    ensures Join(parts[..|parts| - 1], sep) == body
  {
    JoinSnoc(parts, sep);
    CancelSuffix(Join(parts[..|parts| - 1], sep), body, sep, b);
  }

  /** The lines strictly between the first and the last line of `a\nbody\nb`, joined, are `body`. */
  lemma InnerLines(a: string, body: string, b: string)
    requires '\n' !in a && '\n' !in b
    ensures var lines := Split(a + "\n" + body + "\n" + b, "\n");
      |lines| >= 2 && Join(lines[1..|lines| - 1], "\n") == body
  {
    var rest := body + "\n" + b;
    assert a + "\n" + body + "\n" + b == a + "\n" + rest;
    SplitAfterFirstLine(a, rest);
    SplitLastLine(body, b);
    DropFirst(a, Split(rest, "\n"));
  }

  /** Dropping a part put in front, then the last part, leaves all but the last part. */
  lemma DropFirst(a: string, parts: seq<string>)
    requires |parts| >= 1
    ensures var lines := [a] + parts; lines[1..|lines| - 1] == parts[..|parts| - 1]
  {
  }

  /**
   * A reply fenced as a code block (an opening line, the JSON, a closing
   * line) that fails to parse whole is parsed without its fence lines.
   */
  lemma FencedRecovery(a: string, body: string, b: string, parse: string -> Parse)
    requires '\n' !in a && '\n' !in b
    requires parse(a + "\n" + body + "\n" + b).Failed?
    ensures ConvToDict(a + "\n" + body + "\n" + b, parse)
      == match parse(body)
         case Parsed(j) => j
         case Failed(msg) => BadObject(Other(msg))
  {
    InnerLines(a, body, b);
  }

  /**
   * A two-line reply that fails to parse loses both lines to the fence
   * removal, so what is parsed is the empty text.
   */
  lemma TwoLineRecovery(a: string, b: string, parse: string -> Parse)
    requires '\n' !in a && '\n' !in b
    requires parse(a + "\n" + b).Failed?
    ensures ConvToDict(a + "\n" + b, parse)
      == match parse("")
         case Parsed(j) => j
         case Failed(msg) => BadObject(Other(msg))
  {
    SplitAfterFirstLine(a, b);
    ContainsChar(b, '\n');
    SplitNone(b, "\n");
    assert Split(a + "\n" + b, "\n") == [a, b];
  }

  // ---------------------------------------------------------------------------
  // generate_response
  // ---------------------------------------------------------------------------

  /** What a call to the model client comes back with. */
  datatype Reply =
    | ServiceFailure(shown: string)   // a dictionary describing a failure, as `str()` shows it
    | Completion(content: string)     // the text the model generated
    | Raised(message: string)         // an exception, as `str()` shows it

  /** The person generate_response is asked about. */
  datatype Person = Person(fields: Record, header: seq<string>, name: string,
                           institution: string, links: seq<string>)

  /** The outside world analyze talks to. */
  datatype World = World(
    fetch: string -> string,                 // get_webtext: page text, "" on failure
    findEmails: string -> seq<string>,       // get_email: the address-like matches on the page
    client: (string, string) -> Reply,       // one chat completion for (system prompt, page text)
    parse: string -> Parse)                  // json.loads

  predicate HeaderPresent(p: Person)
  {
    forall h :: h in p.header ==> h in p.fields.vals
  }

  /** `{h: person[h] for h in header}` */
  function Project(fields: Record, header: seq<string>): (r: Record)
    requires forall h :: h in header ==> h in fields.vals
    ensures forall k :: k in r.vals <==> k in header
    ensures forall k :: k in r.vals ==> r.vals[k] == fields.vals[k]
  {
    if |header| == 0 then Empty()
    else
      var h := Last(header);
      Put(Project(fields, header[..|header| - 1]), h, fields.vals[h])
  }

  /** The two `replace` calls that fill the placeholders in. */
  function Substitute(prompt: string, p: Person): string
  {
    var named := Replace(prompt, OutputFormat.PERSON_PLACEHOLDER, p.name);
    Replace(named, OutputFormat.INSTITUTION_PLACEHOLDER, p.institution)
  }

  /** The text of the TypeError `dict | value` raises for a value that is no dictionary. */
  function UnionTypeError(typeName: string): string
  {
    "unsupported operand type(s) for |: 'dict' and '" + typeName + "'"
  }

  /** The record one reply is merged in as. */
  function ReplyRecord(reply: Reply, parse: string -> Parse): Record
  {
    match reply
    case ServiceFailure(shown) => BadOutput(Str(shown))
    case Raised(message) => BadOutput(Other(message))
    case Completion(content) =>
      match ConvToDict(content, parse)
      case Object(pairs) => FromPairs(pairs)
      case NonObject(t) => BadOutput(Other(UnionTypeError(t)))
  }

  /** The reply records for `prompts`, in order. */
  function ResponseRecords(w: World, prompts: seq<string>, webtext: string, p: Person): (rs: seq<Record>)
    ensures |rs| == |prompts|
  {
    if |prompts| == 0 then []
    else
      ResponseRecords(w, prompts[..|prompts| - 1], webtext, p)
        + [ReplyRecord(w.client(Substitute(Last(prompts), p), webtext), w.parse)]
  }

  /** The record at position `i` is the one the reply to the `i`-th filled-in prompt turns into. */
  lemma {:induction false} ResponseRecordsAt(w: World, prompts: seq<string>, webtext: string, p: Person, i: nat)
    requires i < |prompts|
    ensures ResponseRecords(w, prompts, webtext, p)[i]
      == ReplyRecord(w.client(Substitute(prompts[i], p), webtext), w.parse)
    decreases |prompts|
  {
    if i < |prompts| - 1 {
      ResponseRecordsAt(w, prompts[..|prompts| - 1], webtext, p, i);
    }
  }

  /** `output = output | r` for each record `r` of `rs`, in order. */
  function UnionAll(init: Record, rs: seq<Record>): Record
  {
    if |rs| == 0 then init else Union(UnionAll(init, rs[..|rs| - 1]), Last(rs))
  }

  lemma ReplyRecordWellFormed(reply: Reply, parse: string -> Parse)
    ensures WellFormed(ReplyRecord(reply, parse))
  {
    SingleWellFormed(ERROR_KEY, Str(""));
    match reply
    case ServiceFailure(shown) => SingleWellFormed(ERROR_KEY, Str(shown));
    case Raised(message) => SingleWellFormed(ERROR_KEY, Other(message));
    case Completion(content) =>
      match ConvToDict(content, parse)
      case Object(pairs) => FromPairsWellFormed(pairs);
      case NonObject(t) => SingleWellFormed(ERROR_KEY, Other(UnionTypeError(t)));
  }

  lemma {:induction false} ProjectWellFormed(fields: Record, header: seq<string>)
    requires forall h :: h in header ==> h in fields.vals
    ensures WellFormed(Project(fields, header))
    decreases |header|
  {
    if |header| == 0 {
      EmptyWellFormed<Value>();
    } else {
      var front := header[..|header| - 1];
      ProjectWellFormed(fields, front);
      PutWellFormed(Project(fields, front), Last(header), fields.vals[Last(header)]);
    }
  }

  lemma {:induction false} UnionAllWellFormed(init: Record, rs: seq<Record>)
    requires WellFormed(init) && AllWellFormed(rs)
    ensures WellFormed(UnionAll(init, rs))
    decreases |rs|
  {
    if |rs| > 0 {
      UnionAllWellFormed(init, rs[..|rs| - 1]);
      UnionWellFormed(UnionAll(init, rs[..|rs| - 1]), Last(rs));
    }
  }

  /** generate_response's result. */
  function Responded(w: World, prompts: seq<string>, webtext: string, p: Person): Record
    requires HeaderPresent(p)
  {
    UnionAll(Project(p.fields, p.header), ResponseRecords(w, prompts, webtext, p))
  }

  lemma RespondedWellFormed(w: World, prompts: seq<string>, webtext: string, p: Person)
    requires HeaderPresent(p)
    ensures WellFormed(Responded(w, prompts, webtext, p))
  {
    var rs := ResponseRecords(w, prompts, webtext, p);
    forall i | 0 <= i < |rs| ensures WellFormed(rs[i]) {
      ResponseRecordsAt(w, prompts, webtext, p, i);
      ReplyRecordWellFormed(w.client(Substitute(prompts[i], p), webtext), w.parse);
    }
    ProjectWellFormed(p.fields, p.header);
    UnionAllWellFormed(Project(p.fields, p.header), rs);
  }

  /**
   * generate_response: starts from the person's header fields and merges
   * in, prompt by prompt, the record each reply turns into.
   */
  method GenerateResponse(w: World, prompts: seq<string>, webtext: string, p: Person)
    returns (output: Record)
    requires HeaderPresent(p)
    ensures output == Responded(w, prompts, webtext, p)
  {
    output := Project(p.fields, p.header);
    for i := 0 to |prompts|
      invariant output == UnionAll(Project(p.fields, p.header), ResponseRecords(w, prompts[..i], webtext, p))
    {
      var record := AskPrompt(w, prompts[i], webtext, p);
      ResponsesTake(w, prompts, webtext, p, i);
      UnionAllSnoc(Project(p.fields, p.header), ResponseRecords(w, prompts[..i], webtext, p), record);
      output := Union(output, record);
    }
    assert prompts[..|prompts|] == prompts;
  }

  /** One turn of generate_response's loop: fill in the prompt, ask, and turn the reply into a record. */
  method AskPrompt(w: World, prompt: string, webtext: string, p: Person) returns (record: Record)
    ensures record == ReplyRecord(w.client(Substitute(prompt, p), webtext), w.parse)
  {
    var filled := Replace(prompt, OutputFormat.PERSON_PLACEHOLDER, p.name);
    filled := Replace(filled, OutputFormat.INSTITUTION_PLACEHOLDER, p.institution);
    var response := w.client(filled, webtext);
    match response {
      case ServiceFailure(shown) =>
        record := BadOutput(Str(shown));
      case Raised(message) =>
        record := BadOutput(Other(message));
      case Completion(content) =>
        var asDict := ConvToDict(content, w.parse);
        match asDict {
          case Object(pairs) => record := FromPairs(pairs);
          case NonObject(t) => record := BadOutput(Other(UnionTypeError(t)));
        }
    }
  }

  /** One prompt more gives one record more, at the end. */
  lemma ResponsesTake(w: World, prompts: seq<string>, webtext: string, p: Person, i: nat)
    requires i < |prompts|
    ensures ResponseRecords(w, prompts[..i + 1], webtext, p)
      == ResponseRecords(w, prompts[..i], webtext, p) + [ReplyRecord(w.client(Substitute(prompts[i], p), webtext), w.parse)]
  {
    assert prompts[..i + 1][..i] == prompts[..i];
  }

  /** One record more is merged in last. */
  lemma UnionAllSnoc(init: Record, rs: seq<Record>, r: Record)
    ensures UnionAll(init, rs + [r]) == Union(UnionAll(init, rs), r)
  {
    assert (rs + [r])[..|rs|] == rs;
  }

  /** A key ends up in the result exactly when the start record or some record has it. */
  lemma {:induction false} UnionAllHas(init: Record, rs: seq<Record>, k: string)
    ensures k in UnionAll(init, rs).vals <==> k in init.vals || exists i :: 0 <= i < |rs| && k in rs[i].vals
    decreases |rs|
  {
    if |rs| > 0 {
      var front := rs[..|rs| - 1];
      UnionAllHas(init, front, k);
      assert (exists i :: 0 <= i < |rs| && k in rs[i].vals)
        <==> (exists i :: 0 <= i < |front| && k in front[i].vals) || k in Last(rs).vals
      by {
        assert forall i :: 0 <= i < |front| ==> front[i] == rs[i];
      }
    }
  }

  /** The value of a key comes from the last record that has it. */
  lemma {:induction false} UnionAllLastWins(init: Record, rs: seq<Record>, k: string, i: nat)
    requires i < |rs| && k in rs[i].vals
    requires forall j :: i < j < |rs| ==> k !in rs[j].vals
    ensures k in UnionAll(init, rs).vals && UnionAll(init, rs).vals[k] == rs[i].vals[k]
    decreases |rs|
  {
    if i < |rs| - 1 {
      var front := rs[..|rs| - 1];
      UnionAllLastWins(init, front, k, i);
      assert k !in Last(rs).vals;
    }
  }

  /** A key no record has keeps its value from the start record. */
  lemma {:induction false} UnionAllUntouched(init: Record, rs: seq<Record>, k: string)
    requires forall i :: 0 <= i < |rs| ==> k !in rs[i].vals
    ensures k in UnionAll(init, rs).vals <==> k in init.vals
    ensures k in init.vals ==> UnionAll(init, rs).vals[k] == init.vals[k]
    decreases |rs|
  {
    if |rs| > 0 {
      var front := rs[..|rs| - 1];
      assert forall i :: 0 <= i < |front| ==> front[i] == rs[i];
      UnionAllUntouched(init, front, k);
      assert k !in Last(rs).vals;
    }
  }

  /** The start record's keys stay first, in their order. */
  lemma {:induction false} UnionAllKeepsStart(init: Record, rs: seq<Record>)
    ensures |init.keys| <= |UnionAll(init, rs).keys|
    ensures UnionAll(init, rs).keys[..|init.keys|] == init.keys
    decreases |rs|
  {
    if |rs| > 0 {
      UnionAllKeepsStart(init, rs[..|rs| - 1]);
    }
  }

  /** Records that hold only an "error" entry override that entry and nothing else. */
  lemma {:induction false} UnionAllErrors(init: Record, rs: seq<Record>)
    requires |rs| > 0
    requires forall i :: 0 <= i < |rs| ==> rs[i].vals.Keys == {ERROR_KEY}
    ensures UnionAll(init, rs).vals == init.vals[ERROR_KEY := Last(rs).vals[ERROR_KEY]]
    decreases |rs|
  {
    var r := Last(rs);
    var front := rs[..|rs| - 1];
    var e := r.vals[ERROR_KEY];
    assert r.vals == map[ERROR_KEY := e] by {
      assert r.vals.Keys == {ERROR_KEY};
    }
    var before := UnionAll(init, front).vals;
    if |rs| == 1 {
      assert before == init.vals;
      OverrideOne(init.vals, ERROR_KEY, e);
    } else {
      UnionAllErrors(init, front) by {
        assert forall i :: 0 <= i < |front| ==> front[i] == rs[i];
      }
      OverrideOne(before, ERROR_KEY, e);
      assert before[ERROR_KEY := e] == init.vals[ERROR_KEY := e];
    }
  }

  lemma OverrideOne<V>(m: map<string, V>, k: string, v: V)
    ensures m + map[k := v] == m[k := v]
  {
  }

  /**
   * When every reply is a service failure, the result is the person's
   * header fields plus an "error" entry with the last failure's text.
   */
  lemma AllFailures(w: World, prompts: seq<string>, webtext: string, p: Person)
    requires HeaderPresent(p) && |prompts| > 0
    requires forall i :: 0 <= i < |prompts| ==> w.client(Substitute(prompts[i], p), webtext).ServiceFailure?
    ensures Responded(w, prompts, webtext, p).vals
      == Project(p.fields, p.header).vals[ERROR_KEY := Str(w.client(Substitute(Last(prompts), p), webtext).shown)]
  {
    var rs := ResponseRecords(w, prompts, webtext, p);
    forall i | 0 <= i < |rs| ensures rs[i].vals.Keys == {ERROR_KEY} {
      ResponseRecordsAt(w, prompts, webtext, p, i);
    }
    UnionAllErrors(Project(p.fields, p.header), rs);
  }

  /** No placeholder fits in "NONE", so filling the placeholders in leaves it alone. */
  lemma SubstituteSentinel(p: Person)
    ensures Substitute("NONE", p) == "NONE"
  {
    assert |OutputFormat.PERSON_PLACEHOLDER| == 11 && |OutputFormat.INSTITUTION_PLACEHOLDER| == 16;
    ReplaceAbsent("NONE", OutputFormat.PERSON_PLACEHOLDER, p.name);
    ReplaceAbsent("NONE", OutputFormat.INSTITUTION_PLACEHOLDER, p.institution);
  }

  /**
   * The skip sentinel is not special here: a prompt list `["NONE"]` sends
   * the client the system prompt "NONE" once, and its reply is merged in.
   */
  lemma SentinelStillSent(w: World, webtext: string, p: Person)
    requires HeaderPresent(p)
    ensures Responded(w, OutputFormat.SKIP_PROMPTS, webtext, p)
      == Union(Project(p.fields, p.header), ReplyRecord(w.client("NONE", webtext), w.parse))
  {
    SubstituteSentinel(p);
    var prompts := OutputFormat.SKIP_PROMPTS;
    var r := ReplyRecord(w.client("NONE", webtext), w.parse);
    assert prompts[..0] == [] && Last(prompts) == "NONE";
    var rs := ResponseRecords(w, prompts, webtext, p);
    assert rs == [r];
    assert rs[..0] == [];
    var init := Project(p.fields, p.header);
    assert UnionAll(init, rs) == Union(UnionAll(init, rs[..0]), r);
  }

  // ---------------------------------------------------------------------------
  // combine_dicts
  // ---------------------------------------------------------------------------

  /** `"" if value == "NONE" else value` */
  function CleanValue(v: Value): (r: Value)
    ensures v == Str("NONE") ==> r == Str("")
    ensures v != Str("NONE") ==> r == v
  {
    if v == Str("NONE") then Str("") else v
  }

  /** The cleaned copy of a record: same keys in the same order, "NONE" made "". */
  function Clean(d: Record): (r: Record)
    ensures r.keys == d.keys
    ensures forall k :: k in r.vals <==> k in d.vals
    ensures forall k :: k in r.vals ==> r.vals[k] == CleanValue(d.vals[k])
  {
    Dict(d.keys, map k | k in d.vals :: CleanValue(d.vals[k]))
  }

  lemma CleanWellFormed(d: Record)
    requires WellFormed(d)
    ensures WellFormed(Clean(d))
  {
  }

  /** One turn of the inner loop: the merged text for key `k` takes in `v`. */
  function Absorb(total: Dict<string>, k: string, v: Value): (r: Dict<string>)
    ensures Lookup(r, k) == Accumulate(Lookup(total, k), v)
    ensures r.keys == if k in total.vals then total.keys else total.keys + [k]
  {
    if k in total.vals then
      if v == Str(total.vals[k]) || v == Str("") then total
      else Put(total, k, total.vals[k] + "\n" + Show(v))
    else Put(total, k, Show(v))
  }

  lemma CleanListed(d: Record)
    requires WellFormed(d)
    ensures KeysListed(Clean(d))
  {
  }

  /** Absorbing a value for `k` leaves every other key's text alone. */
  lemma AbsorbOther(total: Dict<string>, k: string, v: Value, j: string)
    requires j != k
    ensures Lookup(Absorb(total, k, v), j) == Lookup(total, j)
  {
  }

  /** The inner loop after the first `n` keys of the record `d`. */
  function AbsorbPrefix(total: Dict<string>, d: Record, n: nat): Dict<string>
    requires n <= |d.keys|
  {
    if n == 0 then total
    else
      var k := d.keys[n - 1];
      var before := AbsorbPrefix(total, d, n - 1);
      // every listed key has a value in a well-formed record
      if k in d.vals then Absorb(before, k, d.vals[k]) else before
  }

  /** The merged record after the records `ds`. */
  function Combine(ds: seq<Record>): Dict<string>
  {
    if |ds| == 0 then Empty()
    else
      var d := Clean(Last(ds));
      AbsorbPrefix(Combine(ds[..|ds| - 1]), d, |d.keys|)
  }

  /** combine_dicts: merges the cleaned records, key by key, into one record of text. */
  method CombineDicts(toCombine: seq<Record>) returns (total: Dict<string>)
    requires AllWellFormed(toCombine)
    ensures total == Combine(toCombine)
  {
    var cleaned := seq(|toCombine|, i requires 0 <= i < |toCombine| => Clean(toCombine[i]));
    total := Empty();
    for i := 0 to |cleaned|
      invariant total == Combine(toCombine[..i])
    {
      CleanListed(toCombine[i]);
      assert toCombine[..i + 1][..i] == toCombine[..i];
      total := AbsorbRecord(total, cleaned[i]);
    }
    assert toCombine[..|cleaned|] == toCombine;
  }

  /** The inner loop of combine_dicts: one cleaned record's items taken in, in key order. */
  method AbsorbRecord(start: Dict<string>, clean: Record) returns (total: Dict<string>)
    requires KeysListed(clean)
    ensures total == AbsorbPrefix(start, clean, |clean.keys|)
  {
    total := start;
    for j := 0 to |clean.keys|
      invariant total == AbsorbPrefix(start, clean, j)
    {
      var key := clean.keys[j];
      AbsorbPrefixNext(start, clean, j);
      total := AbsorbItem(total, key, clean.vals[key]);
    }
  }

  /** One item of the inner loop: a repeated or empty text is skipped, anything else appended. */
  method AbsorbItem(total: Dict<string>, key: string, value: Value) returns (r: Dict<string>)
    ensures r == Absorb(total, key, value)
  {
    r := total;
    if key in total.vals {
      if value == Str(total.vals[key]) || value == Str("") {
        return;
      }
      r := Put(total, key, total.vals[key] + "\n" + Show(value));
    } else {
      r := Put(total, key, Show(value));
    }
  }

  /** Every listed key of a record takes its turn. */
  lemma AbsorbPrefixNext(total: Dict<string>, d: Record, n: nat)
    requires KeysListed(d) && n < |d.keys|
    ensures AbsorbPrefix(total, d, n + 1) == Absorb(AbsorbPrefix(total, d, n), d.keys[n], d.vals[d.keys[n]])
  {
    assert d.keys[n] in d.vals;
  }

  // The per-key reference: what the merged text for one key should be.

  /** The merged text so far for one key, taking in the next value. */
  function Accumulate(prev: Option<string>, v: Value): Option<string>
  {
    match prev
    case None => Some(Show(v))
    case Some(acc) => if v == Str(acc) || v == Str("") then prev else Some(acc + "\n" + Show(v))
  }

  /** The merged text of a key's values, in order; None for no value. */
  function Merge(vs: seq<Value>): (r: Option<string>)
    ensures r.None? <==> |vs| == 0
  {
    if |vs| == 0 then None else Accumulate(Merge(vs[..|vs| - 1]), Last(vs))
  }

  /** The cleaned values the records give the key `k`, in record order. */
  function ValuesFor(ds: seq<Record>, k: string): seq<Value>
  {
    if |ds| == 0 then []
    else
      var d := Last(ds);
      ValuesFor(ds[..|ds| - 1], k) + (if k in d.vals then [CleanValue(d.vals[k])] else [])
  }

  function Lookup(d: Dict<string>, k: string): Option<string>
  {
    if k in d.vals then Some(d.vals[k]) else None
  }

  /** Every listed key has a value. */
  predicate KeysListed(d: Record)
  {
    forall j :: 0 <= j < |d.keys| ==> d.keys[j] in d.vals
  }

  /** Within one record, only the key's own turn changes what is merged for it. */
  lemma {:induction false} AbsorbPrefixAt(total: Dict<string>, d: Record, n: nat, i: nat)
    requires NoRepeats(d.keys) && KeysListed(d) && n <= |d.keys| && i < |d.keys|
    ensures Lookup(AbsorbPrefix(total, d, n), d.keys[i])
      == if i < n then Accumulate(Lookup(total, d.keys[i]), d.vals[d.keys[i]]) else Lookup(total, d.keys[i])
    decreases n
  {
    if n > 0 {
      AbsorbPrefixAt(total, d, n - 1, i);
      if i != n - 1 {
        NoRepeatsAt(d.keys, i, n - 1);
      }
      AbsorbTurn(total, d, n - 1, i);
    }
  }

  /** The turn of the `n`-th key changes only that key's text. */
  lemma AbsorbTurn(total: Dict<string>, d: Record, n: nat, i: nat)
    requires KeysListed(d) && n < |d.keys| && i < |d.keys| && (i != n ==> d.keys[i] != d.keys[n])
    ensures var before := AbsorbPrefix(total, d, n);
      Lookup(AbsorbPrefix(total, d, n + 1), d.keys[i])
        == if i == n then Accumulate(Lookup(before, d.keys[i]), d.vals[d.keys[i]]) else Lookup(before, d.keys[i])
  {
    var before := AbsorbPrefix(total, d, n);
    AbsorbPrefixNext(total, d, n);
    if i != n {
      AbsorbOther(before, d.keys[n], d.vals[d.keys[n]], d.keys[i]);
    }
  }

  /** A key the record lacks is left alone. */
  lemma {:induction false} AbsorbPrefixOther(total: Dict<string>, d: Record, n: nat, k: string)
    requires n <= |d.keys| && k !in d.vals
    ensures Lookup(AbsorbPrefix(total, d, n), k) == Lookup(total, k)
    decreases n
  {
    if n > 0 {
      AbsorbPrefixOther(total, d, n - 1, k);
    }
  }

  /**
   * combine_dicts merges key by key: the text it keeps for a key is the
   * merge of that key's cleaned values in record order, and a key is kept
   * exactly when some record has it.
   */
  lemma {:induction false} CombinePerKey(ds: seq<Record>, k: string)
    requires AllWellFormed(ds)
    ensures Lookup(Combine(ds), k) == Merge(ValuesFor(ds, k))
    decreases |ds|
  {
    if |ds| > 0 {
      var front := ds[..|ds| - 1];
      var d := Clean(Last(ds));
      CleanWellFormed(Last(ds));
      CombinePerKey(front, k);
      var vs := ValuesFor(front, k);
      if k in d.vals {
        var i :| 0 <= i < |d.keys| && d.keys[i] == k;
        AbsorbPrefixAt(Combine(front), d, |d.keys|, i);
        assert (vs + [CleanValue(Last(ds).vals[k])])[..|vs|] == vs;
      } else {
        AbsorbPrefixOther(Combine(front), d, |d.keys|, k);
        assert vs + [] == vs;
      }
    }
  }

  lemma {:induction false} ValuesForPresent(ds: seq<Record>, k: string)
    ensures |ValuesFor(ds, k)| > 0 <==> exists i :: 0 <= i < |ds| && k in ds[i].vals
    decreases |ds|
  {
    if |ds| > 0 {
      var front := ds[..|ds| - 1];
      ValuesForPresent(front, k);
      assert forall i :: 0 <= i < |front| ==> front[i] == ds[i];
      if k !in Last(ds).vals && exists i :: 0 <= i < |ds| && k in ds[i].vals {
        var i :| 0 <= i < |ds| && k in ds[i].vals;
        assert i < |front| && k in front[i].vals;
      }
    }
  }

  /** The merged record's keys are the union of the records' keys. */
  lemma CombineKeys(ds: seq<Record>, k: string)
    requires AllWellFormed(ds)
    ensures k in Combine(ds).vals <==> exists i :: 0 <= i < |ds| && k in ds[i].vals
  {
    CombinePerKey(ds, k);
    ValuesForPresent(ds, k);
  }

  /** The new keys of the next record go last, in that record's order. */
  lemma {:induction false} AbsorbPrefixKeys(total: Dict<string>, d: Record, n: nat)
    requires NoRepeats(d.keys) && KeysListed(d) && n <= |d.keys|
    ensures AbsorbPrefix(total, d, n).keys == total.keys + FreshKeys(d.keys[..n], total.vals)
    decreases n
  {
    if n > 0 {
      AbsorbPrefixKeys(total, d, n - 1);
      AbsorbPrefixUnseen(total, d, n - 1);
      AbsorbKeysStep(total, d, n - 1);
    } else {
      assert d.keys[..0] == [];
    }
  }

  /** Before its turn, nothing of the record has touched a key. */
  lemma AbsorbPrefixUnseen(total: Dict<string>, d: Record, n: nat)
    requires NoRepeats(d.keys) && KeysListed(d) && n < |d.keys|
    ensures Lookup(AbsorbPrefix(total, d, n), d.keys[n]) == Lookup(total, d.keys[n])
  {
    AbsorbPrefixAt(total, d, n, n);
  }

  /** One turn of the record keeps the keys-so-far in first-seen order. */
  lemma AbsorbKeysStep(total: Dict<string>, d: Record, n: nat)
    requires KeysListed(d) && n < |d.keys|
    requires AbsorbPrefix(total, d, n).keys == total.keys + FreshKeys(d.keys[..n], total.vals)
    requires Lookup(AbsorbPrefix(total, d, n), d.keys[n]) == Lookup(total, d.keys[n])
    ensures AbsorbPrefix(total, d, n + 1).keys == total.keys + FreshKeys(d.keys[..n + 1], total.vals)
  {
    AbsorbTurnKeys(total, d, n);
    FreshKeysTake(d.keys, n, total.vals);
    AppendBoth(AbsorbPrefix(total, d, n).keys, total.keys, FreshKeys(d.keys[..n], total.vals),
      if d.keys[n] in total.vals then [] else [d.keys[n]]);
  }

  /** Appending to a concatenation appends to its second half. */
  lemma AppendBoth(whole: seq<string>, front: seq<string>, back: seq<string>, more: seq<string>)
    requires whole == front + back
    ensures whole + more == front + (back + more)
  {
  }

  /** A turn adds its key at the end exactly when nothing was merged for it before the record. */
  lemma AbsorbTurnKeys(total: Dict<string>, d: Record, n: nat)
    requires KeysListed(d) && n < |d.keys|
    requires Lookup(AbsorbPrefix(total, d, n), d.keys[n]) == Lookup(total, d.keys[n])
    ensures AbsorbPrefix(total, d, n + 1).keys
      == AbsorbPrefix(total, d, n).keys + (if d.keys[n] in total.vals then [] else [d.keys[n]])
  {
    assert d.keys[n] in d.vals;
  }

  /** Keys keep the order they were first seen in: each record adds its new keys at the end. */
  lemma CombineKeyOrder(ds: seq<Record>)
    requires |ds| > 0 && WellFormed(Last(ds))
    ensures var front := Combine(ds[..|ds| - 1]);
      Combine(ds).keys == front.keys + FreshKeys(Last(ds).keys, front.vals)
  {
    var d := Clean(Last(ds));
    CleanWellFormed(Last(ds));
    CleanListed(Last(ds));
    AbsorbPrefixKeys(Combine(ds[..|ds| - 1]), d, |d.keys|);
    assert d.keys[..|d.keys|] == d.keys;
  }

  /** The merged text only grows: each step keeps what was merged before as a prefix. */
  lemma MergeGrows(vs: seq<Value>, v: Value)
    requires |vs| > 0
    ensures StartsWith(Merge(vs + [v]).value, Merge(vs).value)
  {
    assert (vs + [v])[..|vs|] == vs;
  }

  /** A key whose every value is "" or "NONE" merges to "". */
  lemma {:induction false} BlankValues(vs: seq<Value>)
    requires |vs| > 0
    requires forall i :: 0 <= i < |vs| ==> vs[i] == Str("")
    ensures Merge(vs) == Some("")
    decreases |vs|
  {
    if |vs| > 1 {
      BlankValues(vs[..|vs| - 1]);
    }
  }

  /** Cleaned values: a record's "NONE" counts as a blank. */
  lemma {:induction false} ValuesForBlank(ds: seq<Record>, k: string)
    requires forall i :: 0 <= i < |ds| && k in ds[i].vals ==> ds[i].vals[k] in {Str(""), Str("NONE")}
    ensures forall i :: 0 <= i < |ValuesFor(ds, k)| ==> ValuesFor(ds, k)[i] == Str("")
    decreases |ds|
  {
    if |ds| > 0 {
      ValuesForBlank(ds[..|ds| - 1], k);
    }
  }

  /** A key that every record leaves at "NONE" or "" comes out as "", never "NONE". */
  lemma NoneMergesToBlank(ds: seq<Record>, k: string)
    requires AllWellFormed(ds)
    requires exists i :: 0 <= i < |ds| && k in ds[i].vals
    requires forall i :: 0 <= i < |ds| && k in ds[i].vals ==> ds[i].vals[k] in {Str(""), Str("NONE")}
    ensures k in Combine(ds).vals && Combine(ds).vals[k] == ""
  {
    CombinePerKey(ds, k);
    ValuesForPresent(ds, k);
    ValuesForBlank(ds, k);
    BlankValues(ValuesFor(ds, k));
  }

  /** The same text twice is kept once. */
  lemma SameTextTwice(s: string)
    ensures Merge([Str(s), Str(s)]) == Some(s)
  {
    assert [Str(s), Str(s)][..1] == [Str(s)];
    assert [Str(s)][..0] == [];
  }

  /** A blank first value stays, so a later "x" is appended behind a newline. */
  lemma BlankThenText(x: string)
    requires x != ""
    ensures Merge([Str(""), Str(x)]) == Some("\n" + x)
  {
    var vs := [Str(""), Str(x)];
    assert vs[..1] == [Str("")] && [Str("")][..0] == [];
    assert Merge(vs[..1]) == Some("");
    assert Merge(vs) == Accumulate(Some(""), Str(x));
    assert "" + "\n" + x == "\n" + x;
  }

  /**
   * Duplicates are recognised only as the whole merged text, not as a part
   * of it: "Bob" after "Bob Smith" is still appended.
   */
  lemma ContainedIsAppended()
    ensures Merge([Str("Bob Smith"), Str("Bob")]) == Some("Bob Smith\nBob")
  {
    var vs := [Str("Bob Smith"), Str("Bob")];
    assert vs[..1] == [Str("Bob Smith")] && [Str("Bob Smith")][..0] == [];
    assert Merge(vs[..1]) == Some("Bob Smith");
    assert |"Bob"| != |"Bob Smith"|;
    assert Merge(vs) == Some("Bob Smith" + "\n" + "Bob");
    assert "Bob Smith" + "\n" + "Bob" == "Bob Smith\nBob";
  }

  /** A value that is no `str` never equals the merged text, so it is always appended. */
  lemma OtherAppended(vs: seq<Value>, t: string)
    requires |vs| > 0
    ensures Merge(vs + [Other(t)]) == Some(Merge(vs).value + "\n" + t)
  {
    assert (vs + [Other(t)])[..|vs|] == vs;
  }

  // ---------------------------------------------------------------------------
  // analyze
  // ---------------------------------------------------------------------------

  /** `str()` of a list of strings, as the e-mail record holds it. */
  function ListText(items: seq<string>): string
  {
    "[" + Join(seq(|items|, i requires 0 <= i < |items| => "'" + items[i] + "'"), ", ") + "]"
  }

  function EmailRecord(w: World, link: string): Record
  {
    Single("email", Other(ListText(w.findEmails(link))))
  }

  /** The records one link contributes: its e-mail record when asked for, then its responses. */
  function LinkRecords(w: World, prompts: seq<string>, needEmail: bool, p: Person, link: string): seq<Record>
    requires HeaderPresent(p)
  {
    (if needEmail then [EmailRecord(w, link)] else [])
      + [Responded(w, prompts, w.fetch(link), p)]
  }

  /** all_output after the links `links`. */
  function AllOutput(w: World, prompts: seq<string>, needEmail: bool, p: Person, links: seq<string>): seq<Record>
    requires |links| > 0 ==> HeaderPresent(p)
  {
    if |links| == 0 then []
    else AllOutput(w, prompts, needEmail, p, links[..|links| - 1]) + LinkRecords(w, prompts, needEmail, p, Last(links))
  }

  /** analyze: gathers each link's records in link order, then merges them all. */
  method Analyze(w: World, p: Person, prompts: seq<string>, needEmail: bool) returns (output: Dict<string>)
    requires p.links != [] ==> HeaderPresent(p)
    ensures output == Combine(AllOutput(w, prompts, needEmail, p, p.links))
  {
    var allOutput: seq<Record> := [];
    for i := 0 to |p.links|
      invariant allOutput == AllOutput(w, prompts, needEmail, p, p.links[..i])
    {
      var more := AnalyzeLink(w, p, prompts, needEmail, p.links[i]);
      allOutput := allOutput + more;
      assert p.links[..i + 1][..i] == p.links[..i];
      assert Last(p.links[..i + 1]) == p.links[i];
    }
    assert p.links[..|p.links|] == p.links;
    AllOutputWellFormed(w, prompts, needEmail, p, p.links);
    output := CombineDicts(allOutput);
  }

  /** The body of analyze's loop, for one link: the e-mail record when asked for, then the response. */
  method AnalyzeLink(w: World, p: Person, prompts: seq<string>, needEmail: bool, link: string)
    returns (more: seq<Record>)
    requires HeaderPresent(p)
    ensures more == LinkRecords(w, prompts, needEmail, p, link)
  {
    var webtext := w.fetch(link);
    more := [];
    if needEmail {
      more := more + [Single("email", Other(ListText(w.findEmails(link))))];
    }
    var response := GenerateResponse(w, prompts, webtext, p);
    more := more + [response];
  }

  /** Every record handed to combine_dicts is a well-formed dictionary. */
  lemma {:induction false} AllOutputWellFormed(w: World, prompts: seq<string>, needEmail: bool, p: Person, links: seq<string>)
    requires |links| > 0 ==> HeaderPresent(p)
    ensures AllWellFormed(AllOutput(w, prompts, needEmail, p, links))
    decreases |links|
  {
    if |links| > 0 {
      AllOutputWellFormed(w, prompts, needEmail, p, links[..|links| - 1]);
      LinkRecordsWellFormed(w, prompts, needEmail, p, Last(links));
      AllWellFormedConcat(AllOutput(w, prompts, needEmail, p, links[..|links| - 1]),
        LinkRecords(w, prompts, needEmail, p, Last(links)));
    }
  }

  /** The records one link adds are well-formed. */
  lemma LinkRecordsWellFormed(w: World, prompts: seq<string>, needEmail: bool, p: Person, link: string)
    requires HeaderPresent(p)
    ensures AllWellFormed(LinkRecords(w, prompts, needEmail, p, link))
  {
    RespondedWellFormed(w, prompts, w.fetch(link), p);
    SingleWellFormed("email", Other(ListText(w.findEmails(link))));
  }

  /** Two lists of well-formed records make one. */
  lemma AllWellFormedConcat(a: seq<Record>, b: seq<Record>)
    requires AllWellFormed(a) && AllWellFormed(b)
    ensures AllWellFormed(a + b)
  {
    forall i | 0 <= i < |a + b| ensures WellFormed((a + b)[i]) {
      if i >= |a| {
        assert (a + b)[i] == b[i - |a|];
      }
    }
  }

  /** Without e-mails, all_output holds one response record per link, in link order. */
  lemma {:induction false} ResponsesPerLink(w: World, prompts: seq<string>, p: Person, links: seq<string>)
    requires HeaderPresent(p)
    ensures var out := AllOutput(w, prompts, false, p, links);
      && |out| == |links|
      && forall i :: 0 <= i < |links| ==> out[i] == Responded(w, prompts, w.fetch(links[i]), p)
    decreases |links|
  {
    if |links| > 0 {
      var front := links[..|links| - 1];
      ResponsesPerLink(w, prompts, p, front);
      var before := AllOutput(w, prompts, false, p, front);
      var out := AllOutput(w, prompts, false, p, links);
      assert out == before + [Responded(w, prompts, w.fetch(Last(links)), p)];
      ResponsesSnoc(w, prompts, p, links, before);
    }
  }

  lemma ResponsesSnoc(w: World, prompts: seq<string>, p: Person, links: seq<string>, before: seq<Record>)
    requires HeaderPresent(p) && |links| > 0 && |before| == |links| - 1
    requires forall i :: 0 <= i < |before| ==> before[i] == Responded(w, prompts, w.fetch(links[i]), p)
    ensures var out := before + [Responded(w, prompts, w.fetch(Last(links)), p)];
      forall i :: 0 <= i < |links| ==> out[i] == Responded(w, prompts, w.fetch(links[i]), p)
  {
  }

  /**
   * With e-mails, all_output holds two records per link, in link order:
   * the link's e-mail record directly before its response record.
   */
  lemma {:induction false} EmailThenResponse(w: World, prompts: seq<string>, p: Person, links: seq<string>)
    requires HeaderPresent(p)
    ensures var out := AllOutput(w, prompts, true, p, links);
      && |out| == 2 * |links|
      && forall i :: 0 <= i < |links| ==>
           out[2 * i] == EmailRecord(w, links[i]) && out[2 * i + 1] == Responded(w, prompts, w.fetch(links[i]), p)
    decreases |links|
  {
    if |links| > 0 {
      var front := links[..|links| - 1];
      EmailThenResponse(w, prompts, p, front);
      var before := AllOutput(w, prompts, true, p, front);
      var out := AllOutput(w, prompts, true, p, links);
      assert out == before + [EmailRecord(w, Last(links)), Responded(w, prompts, w.fetch(Last(links)), p)];
      EmailsSnoc(w, prompts, p, links, before);
    }
  }

  lemma EmailsSnoc(w: World, prompts: seq<string>, p: Person, links: seq<string>, before: seq<Record>)
    requires HeaderPresent(p) && |links| > 0 && |before| == 2 * (|links| - 1)
    requires forall i :: 0 <= i < |links| - 1 ==>
      before[2 * i] == EmailRecord(w, links[i]) && before[2 * i + 1] == Responded(w, prompts, w.fetch(links[i]), p)
    ensures var out := before + [EmailRecord(w, Last(links)), Responded(w, prompts, w.fetch(Last(links)), p)];
      forall i :: 0 <= i < |links| ==>
        out[2 * i] == EmailRecord(w, links[i]) && out[2 * i + 1] == Responded(w, prompts, w.fetch(links[i]), p)
  {
    var out := before + [EmailRecord(w, Last(links)), Responded(w, prompts, w.fetch(Last(links)), p)];
    forall i | 0 <= i < |links|
      ensures out[2 * i] == EmailRecord(w, links[i]) && out[2 * i + 1] == Responded(w, prompts, w.fetch(links[i]), p)
    {
      if i < |links| - 1 {
        assert 2 * i + 1 < |before|;
        assert out[2 * i] == before[2 * i] && out[2 * i + 1] == before[2 * i + 1];
      } else {
        assert 2 * i == |before|;
      }
    }
  }

  /** A person without links is merged into the empty record, not into an error record. */
  lemma NoLinksNoOutput(w: World, p: Person, prompts: seq<string>, needEmail: bool)
    requires p.links == []
    ensures Combine(AllOutput(w, prompts, needEmail, p, p.links)) == Empty()
  {
  }
}
