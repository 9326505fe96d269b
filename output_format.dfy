/**
 * The requested output format: turning the requested columns into
 * extraction prompts (code/output_format.py, build_prompts), and the small
 * three-section text file a format is saved in (save_format, read_saved).
 */
module OutputFormat {
  import opened Strs
  import opened Dicts

  const HEADER := "#HEADER"
  const PROMPTS := "#PROMPTS"
  const USEFUL_SEARCH_TERMS := "#USEFUL_SEARCH_TERMS"
  const SAVED_FOLDER := "saved_output_formats"

  /** Columns resolved without the language model; `build_prompts` drops them. */
  const RESERVED_COLUMNS: seq<string> :=
    ["email", "emails", "Email", "Emails",
     "Other key notes", "other key notes",
     "Relevant links", "relevant links",
     "Name", "name",
     "Institution", "institution"]

  /** What a removed "other key notes" column is replaced by (spelling as in the program). */
  const NOTES_SYNONYMS: seq<string> := ["Patents under their name", "Awards recieved"]

  const OPTIM_PROMPT_SIZE := 3

  /** The prompt list that switches extraction off. */
  const SKIP_PROMPTS: seq<string> := ["NONE"]

  /** The placeholders generate_response fills in per person. */
  const PERSON_PLACEHOLDER := "PERSON_NAME"
  const INSTITUTION_PLACEHOLDER := "INSTITUTION_NAME"

  const START_HEAD := "When given the name '"
  const START_MID := "' and the institution of '"
  const START_TAIL := "', I want you to find the following data for the individual: "

  const PROMPT_START :=
    START_HEAD + PERSON_PLACEHOLDER + START_MID + INSTITUTION_PLACEHOLDER + START_TAIL

  const END_HEAD :=
    " Output should be in JSON format. If you cannot find information on a particular topic, enter "
  const NONE_MENTION := "'NONE'"
  const END_TAIL := " for that field. Do not include sub-JSONs or sub-lists."

  const PROMPT_END := END_HEAD + NONE_MENTION + END_TAIL

  // ---------------------------------------------------------------------------
  // Reserved-column removal
  // ---------------------------------------------------------------------------

  /** Python's `cols.index(r)`. */
  function IndexOf(cols: seq<string>, r: string): (i: nat)
    requires r in cols
    ensures i < |cols| && cols[i] == r
    ensures forall j :: 0 <= j < i ==> cols[j] != r
  {
    if cols[0] == r then 0 else 1 + IndexOf(cols[1..], r)
  }

  /** `del cols[cols.index(r)]` when `r in cols`. */
  function RemoveFirst(cols: seq<string>, r: string): (rest: seq<string>)
    requires r in cols
    ensures multiset(rest) == multiset(cols) - multiset{r}
  {
    var i := IndexOf(cols, r);
    assert cols == cols[..i] + [r] + cols[i + 1..];
    cols[..i] + cols[i + 1..]
  }

  predicate IsNotesColumn(r: string)
  {
    Lower(r) == "other key notes"
  }

  /** One turn of the loop over `RESERVED_COLUMNS`. */
  function ReserveStep(cols: seq<string>, r: string): seq<string>
  {
    if r in cols then
      RemoveFirst(cols, r) + (if IsNotesColumn(r) then NOTES_SYNONYMS else [])
    else cols
  }

  /** The caller's list after the loop has visited the names `rs`, in order. */
  function StripReserved(cols: seq<string>, rs: seq<string>): seq<string>
  {
    if |rs| == 0 then cols
    else ReserveStep(StripReserved(cols, rs[..|rs| - 1]), rs[|rs| - 1])
  }

  /** How many of the visited names `rs` are "other key notes" spellings present in `cols`. */
  function NotesRemoved(cols: seq<string>, rs: seq<string>): nat
  {
    if |rs| == 0 then 0
    else
      var r := rs[|rs| - 1];
      NotesRemoved(cols, rs[..|rs| - 1]) + (if IsNotesColumn(r) && r in cols then 1 else 0)
  }

  // ---------------------------------------------------------------------------
  // Chunking and prompt text
  // ---------------------------------------------------------------------------

  function Min(a: int, b: int): int { if a < b then a else b }

  /**
   * The chunks the `while len(columns) > 0` loop slices off, where `rem` is
   * the value of the program's `rem` before the turn: it is decremented
   * first, and a chunk gets a fourth column only while it is still positive.
   */
  function Chunks(cols: seq<string>, rem: int): seq<seq<string>>
    decreases |cols|
  {
    if |cols| == 0 then []
    else
      var upper := if rem - 1 > 0 then 4 else 3;
      var n := Min(upper, |cols|);
      [cols[..n]] + Chunks(cols[n..], rem - 1)
  }

  function Concat(chunks: seq<seq<string>>): seq<string>
  {
    if |chunks| == 0 then [] else chunks[0] + Concat(chunks[1..])
  }

  /** `"'" + "', '".join(chunk) + "'."` */
  function Requested(chunk: seq<string>): string
  {
    "'" + Join(chunk, "', '") + "'."
  }

  function PromptFor(chunk: seq<string>): string
  {
    PROMPT_START + Requested(chunk) + PROMPT_END
  }

  function PromptsFor(chunks: seq<seq<string>>): seq<string>
  {
    seq(|chunks|, i requires 0 <= i < |chunks| => PromptFor(chunks[i]))
  }

  /** The prompt list `build_prompts(cols)` returns. */
  function BuiltPrompts(cols: seq<string>): seq<string>
  {
    var left := StripReserved(cols, RESERVED_COLUMNS);
    if |left| == 0 then SKIP_PROMPTS
    else if |cols| < OPTIM_PROMPT_SIZE then [PromptFor(left)]
    else PromptsFor(Chunks(left, |cols| % OPTIM_PROMPT_SIZE))
  }

  /** What `build_prompts(cols)` leaves in the caller's list. */
  function LeftInCaller(cols: seq<string>): seq<string>
  {
    var left := StripReserved(cols, RESERVED_COLUMNS);
    if |left| == 0 || |cols| < OPTIM_PROMPT_SIZE then left else []
  }

  /** The caller's column list, which `build_prompts` edits in place. */
  class ColumnList {
    var items: seq<string>

    constructor (items: seq<string>)
      ensures this.items == items
    {
      this.items := items;
    }
  }

  /**
   * build_prompts: removes the reserved columns from the caller's list,
   * then wraps the rest, in chunks, in the prompt template.
   */
  method BuildPrompts(columns: ColumnList) returns (prompts: seq<string>)
    modifies columns
    ensures prompts == BuiltPrompts(old(columns.items))
    ensures columns.items == LeftInCaller(old(columns.items))
  {
    var colCount := |columns.items|;
    RemoveReserved(columns);

    prompts := [];
    if |columns.items| == 0 {
      return SKIP_PROMPTS;
    }
    if colCount < OPTIM_PROMPT_SIZE {
      prompts := prompts + [PromptFor(columns.items)];
      return;
    }
    prompts := ChunkPrompts(columns, colCount % OPTIM_PROMPT_SIZE);
  }

  /** The `while len(columns) > 0` loop: one prompt per chunk sliced off the front. */
  method ChunkPrompts(columns: ColumnList, rem0: int) returns (prompts: seq<string>)
    modifies columns
    ensures prompts == PromptsFor(Chunks(old(columns.items), rem0))
    ensures columns.items == []
  {
    ghost var left := columns.items;
    prompts := [];
    var rem := rem0;
    ghost var done: seq<seq<string>> := [];
    while |columns.items| > 0
      invariant done + Chunks(columns.items, rem) == Chunks(left, rem0)
      invariant prompts == PromptsFor(done)
      decreases |columns.items|
    {
      rem := rem - 1;
      var upper := 3 + (if rem > 0 then 1 else 0);
      var n := Min(upper, |columns.items|);
      prompts := prompts + [PromptFor(columns.items[..n])];
      done := done + [columns.items[..n]];
      columns.items := columns.items[n..];
    }
    assert done == Chunks(left, rem0);
  }

  lemma StripReservedNext(cols: seq<string>, rs: seq<string>, i: nat)
    requires i < |rs|
    ensures StripReserved(cols, rs[..i + 1]) == ReserveStep(StripReserved(cols, rs[..i]), rs[i])
  {
    assert rs[..i + 1][..i] == rs[..i];
  }

  /** The first loop of build_prompts: `del` each reserved name's first occurrence. */
  method RemoveReserved(columns: ColumnList)
    modifies columns
    ensures columns.items == StripReserved(old(columns.items), RESERVED_COLUMNS)
  {
    ghost var original := columns.items;
    var i := 0;
    while i < |RESERVED_COLUMNS|
      invariant 0 <= i <= |RESERVED_COLUMNS|
      invariant columns.items == StripReserved(original, RESERVED_COLUMNS[..i])
    {
      RemoveOne(columns, RESERVED_COLUMNS[i]);
      StripReservedNext(original, RESERVED_COLUMNS, i);
      i := i + 1;
    }
    assert RESERVED_COLUMNS[..i] == RESERVED_COLUMNS;
  }

  /** The body of that loop, for the reserved name `r`. */
  method RemoveOne(columns: ColumnList, r: string)
    modifies columns
    ensures columns.items == ReserveStep(old(columns.items), r)
  {
    if r in columns.items {
      ghost var before := columns.items;
      var ind := IndexOf(columns.items, r);
      columns.items := columns.items[..ind] + columns.items[ind + 1..];
      assert columns.items == RemoveFirst(before, r);
      if Lower(r) == "other key notes" {
        columns.items := columns.items + NOTES_SYNONYMS;
      }
    }
  }

  // ---------------------------------------------------------------------------
  // Properties of build_prompts
  // ---------------------------------------------------------------------------

  lemma ReservedFacts()
    ensures Distinct(RESERVED_COLUMNS)
    ensures forall r :: r in RESERVED_COLUMNS ==> r !in NOTES_SYNONYMS
    ensures NOTES_SYNONYMS[0] != NOTES_SYNONYMS[1]
  {
  }

  /**
   * Counting each name: a visited reserved name loses its first occurrence,
   * the synonyms gain one copy per "other key notes" spelling removed, and
   * every other column keeps its count.
   */
  lemma {:induction false} StripReservedCount(cols: seq<string>, rs: seq<string>, x: string)
    requires Distinct(rs)
    requires forall r :: r in rs ==> r !in NOTES_SYNONYMS
    requires NOTES_SYNONYMS[0] != NOTES_SYNONYMS[1]
    ensures multiset(StripReserved(cols, rs))[x]
      == multiset(cols)[x] - (if x in rs && x in cols then 1 else 0)
         + (if x in NOTES_SYNONYMS then NotesRemoved(cols, rs) else 0)
    decreases |rs|
  {
    if |rs| > 0 {
      var front := rs[..|rs| - 1];
      var r := rs[|rs| - 1];
      var s := StripReserved(cols, front);
      assert Distinct(front);
      assert r !in front;
      StripReservedCount(cols, front, x);
      StripReservedCount(cols, front, r);
      assert (r in s) == (r in cols);
      assert x in rs <==> x in front || x == r;
      assert NotesRemoved(cols, rs)
        == NotesRemoved(cols, front) + (if IsNotesColumn(r) && r in cols then 1 else 0);
      ReserveStepCount(s, r, x);
    }
  }

  /** One turn of the loop, counted for the column `x`. */
  lemma ReserveStepCount(s: seq<string>, r: string, x: string)
    ensures multiset(ReserveStep(s, r))[x]
      == multiset(s)[x] - (if r in s && x == r then 1 else 0)
         + (if r in s && IsNotesColumn(r) && x in NOTES_SYNONYMS then 1 else 0)
  {
    if r in s {
      var tail := if IsNotesColumn(r) then NOTES_SYNONYMS else [];
      var t := ReserveStep(s, r);
      assert t == RemoveFirst(s, r) + tail;
      assert multiset(t) == multiset(s) - multiset{r} + multiset(tail);
      SynonymCount(x);
      assert multiset(tail)[x] == if IsNotesColumn(r) && x in NOTES_SYNONYMS then 1 else 0;
    }
  }

  lemma SynonymCount(x: string)
    ensures multiset(NOTES_SYNONYMS)[x] == if x in NOTES_SYNONYMS then 1 else 0
  {
  }

  /**
   * build_prompts' first loop, counted column by column: a reserved name
   * present in the request loses exactly one occurrence, the two synonyms
   * gain one copy per "other key notes" spelling present, and no other
   * column is touched.
   */
  lemma ReservedRemoval(cols: seq<string>)
    ensures var left := StripReserved(cols, RESERVED_COLUMNS);
      && (forall r :: r in RESERVED_COLUMNS ==>
            multiset(left)[r] == if r in cols then multiset(cols)[r] - 1 else 0)
      && (forall x :: x !in RESERVED_COLUMNS && x !in NOTES_SYNONYMS ==>
            multiset(left)[x] == multiset(cols)[x])
      && (forall x :: x in NOTES_SYNONYMS ==>
            multiset(left)[x] == multiset(cols)[x]
              + (if "Other key notes" in cols then 1 else 0)
              + (if "other key notes" in cols then 1 else 0))
  {
    ReservedFacts();
    var left := StripReserved(cols, RESERVED_COLUMNS);
    forall x ensures multiset(left)[x]
      == multiset(cols)[x] - (if x in RESERVED_COLUMNS && x in cols then 1 else 0)
         + (if x in NOTES_SYNONYMS then NotesRemoved(cols, RESERVED_COLUMNS) else 0)
    {
      StripReservedCount(cols, RESERVED_COLUMNS, x);
    }
    NotesRemovedReserved(cols);
  }

  /** Of the reserved names, exactly the two "other key notes" spellings lower-case to it. */
  lemma NotesSpellings()
    ensures IsNotesColumn("Other key notes") && IsNotesColumn("other key notes")
    ensures forall i :: 0 <= i < |RESERVED_COLUMNS| && i != 4 && i != 5 ==> !IsNotesColumn(RESERVED_COLUMNS[i])
  {
    assert Lower("Other key notes") == "other key notes";
    assert Lower("other key notes") == "other key notes";
    var R := RESERVED_COLUMNS;
    assert forall i :: 0 <= i < |R| && i != 4 && i != 5 ==> |R[i]| != 15;
  }

  /** Names past index `k` that are no "other key notes" spelling add nothing to the count. */
  lemma {:induction false} NotesRemovedPrefix(cols: seq<string>, rs: seq<string>, k: nat)
    requires k <= |rs|
    requires forall i :: k <= i < |rs| ==> !IsNotesColumn(rs[i])
    ensures NotesRemoved(cols, rs) == NotesRemoved(cols, rs[..k])
    decreases |rs|
  {
    if |rs| > k {
      var front := rs[..|rs| - 1];
      NotesRemovedPrefix(cols, front, k);
      assert front[..k] == rs[..k];
    } else {
      assert rs[..k] == rs;
    }
  }

  lemma NotesRemovedReserved(cols: seq<string>)
    ensures NotesRemoved(cols, RESERVED_COLUMNS)
      == (if "Other key notes" in cols then 1 else 0) + (if "other key notes" in cols then 1 else 0)
  {
    var R := RESERVED_COLUMNS;
    NotesSpellings();
    NotesRemovedPrefix(cols, R, 6);
    assert R[..6][..5] == R[..5] && R[..5][..4] == R[..4];
    NotesRemovedPrefix(cols, R[..4], 0);
    assert R[..4][..0] == [];
  }

  /** Removing a name found in `a` leaves a suffix `b` in place. */
  lemma {:induction false} RemoveFirstKeepsSuffix(a: seq<string>, b: seq<string>, r: string)
    requires r in a
    ensures RemoveFirst(a + b, r) == RemoveFirst(a, r) + b
  {
    var i := IndexOf(a, r);
    assert (a + b)[i] == r;
    assert forall j :: 0 <= j < i ==> (a + b)[j] != r;
    assert IndexOf(a + b, r) == i by {
      IndexOfUnique(a + b, r, i);
    }
    assert (a + b)[..i] == a[..i];
    assert (a + b)[i + 1..] == a[i + 1..] + b;
  }

  lemma {:induction false} IndexOfUnique(cols: seq<string>, r: string, i: nat)
    requires i < |cols| && cols[i] == r
    requires forall j :: 0 <= j < i ==> cols[j] != r
    ensures IndexOf(cols, r) == i
    decreases i
  {
    if i > 0 {
      IndexOfUnique(cols[1..], r, i - 1);
    }
  }

  predicate EndsWithSeq(s: seq<string>, t: seq<string>)
  {
    |t| <= |s| && s[|s| - |t|..] == t
  }

  /** Once the synonyms end the list, later visits of non-synonym names keep them there. */
  lemma {:induction false} SynonymsStayLast(cols: seq<string>, rs: seq<string>, n: nat)
    requires n <= |rs|
    requires forall r :: r in rs ==> r !in NOTES_SYNONYMS
    requires EndsWithSeq(StripReserved(cols, rs[..n]), NOTES_SYNONYMS)
    ensures EndsWithSeq(StripReserved(cols, rs), NOTES_SYNONYMS)
    decreases |rs|
  {
    if |rs| > n {
      var front := rs[..|rs| - 1];
      assert front[..n] == rs[..n];
      SynonymsStayLast(cols, front, n);
      assert rs[|rs| - 1] in rs;
      SynonymsStayStep(StripReserved(cols, front), rs[|rs| - 1]);
    } else {
      assert rs[..n] == rs;
    }
  }

  /** Visiting a name that is no synonym keeps the synonyms last. */
  lemma SynonymsStayStep(s: seq<string>, r: string)
    requires EndsWithSeq(s, NOTES_SYNONYMS) && r !in NOTES_SYNONYMS
    ensures EndsWithSeq(ReserveStep(s, r), NOTES_SYNONYMS)
  {
    if r in s && !IsNotesColumn(r) {
      var a := s[..|s| - 2];
      assert s == a + NOTES_SYNONYMS;
      assert r in a;
      RemoveFirstKeepsSuffix(a, NOTES_SYNONYMS, r);
    }
  }

  /**
   * Removing "Other key notes" or "other key notes" leaves "Patents under
   * their name" and "Awards recieved" as the last two columns.
   */
  lemma NotesBecomeSynonyms(cols: seq<string>)
    requires "Other key notes" in cols || "other key notes" in cols
    ensures EndsWithSeq(StripReserved(cols, RESERVED_COLUMNS), NOTES_SYNONYMS)
  {
    var R := RESERVED_COLUMNS;
    ReservedFacts();
    NotesSpellings();
    var n := if "Other key notes" in cols then 4 else 5;
    var front := R[..n];
    assert Distinct(front);
    StripReservedCount(cols, front, R[n]);
    assert R[n] !in front;
    assert R[n] in StripReserved(cols, front);
    NotesVisitEnds(cols, R, n);
    SynonymsStayLast(cols, R, n + 1);
  }

  /** Visiting a present "other key notes" spelling puts the synonyms last. */
  lemma NotesVisitEnds(cols: seq<string>, rs: seq<string>, n: nat)
    requires n < |rs| && IsNotesColumn(rs[n]) && rs[n] in StripReserved(cols, rs[..n])
    ensures EndsWithSeq(StripReserved(cols, rs[..n + 1]), NOTES_SYNONYMS)
  {
    assert rs[..n + 1][..n] == rs[..n];
  }

  /** Slicing chunks off reproduces the columns, in order. */
  lemma {:induction false} ChunksCover(cols: seq<string>, rem: int)
    ensures Concat(Chunks(cols, rem)) == cols
    decreases |cols|
  {
    if |cols| > 0 {
      var n := Min(if rem - 1 > 0 then 4 else 3, |cols|);
      ChunksCover(cols[n..], rem - 1);
      assert cols == cols[..n] + cols[n..];
    }
  }

  /**
   * Every chunk holds one to four columns; only the first can hold four,
   * and it does exactly when `rem` is 2 and four columns are left.
   */
  lemma {:induction false} ChunkSizes(cols: seq<string>, rem: int)
    requires rem <= 2
    ensures var ch := Chunks(cols, rem);
      && (forall i :: 0 <= i < |ch| ==> 1 <= |ch[i]| <= (if i == 0 && rem == 2 then 4 else 3))
      && (|cols| > 0 ==> (|ch[0]| == 4 <==> rem == 2 && |cols| >= 4))
    decreases |cols|
  {
    if |cols| > 0 {
      var n := Min(if rem - 1 > 0 then 4 else 3, |cols|);
      ChunkSizes(cols[n..], rem - 1);
    }
  }

  /**
   * Seven plain columns make three prompts of 3, 3 and 1 columns: the
   * remainder 1 is decremented to 0 before it is tested, so no chunk gets a
   * fourth column and the last one is short.
   */
  lemma SevenColumns(cols: seq<string>)
    requires |cols| == 7
    ensures var ch := Chunks(cols, 7 % OPTIM_PROMPT_SIZE);
      |ch| == 3 && |ch[0]| == 3 && |ch[1]| == 3 && |ch[2]| == 1
  {
    var a := cols[3..];
    var b := a[3..];
    assert |b| == 1 && b[1..] == [];
    assert Chunks(b, -1) == [b[..1]] + Chunks(b[1..], -2);
    assert Chunks(a, 0) == [a[..3]] + Chunks(b, -1);
    assert Chunks(cols, 1) == [cols[..3]] + Chunks(a, 0);
  }

  /** The request is inside the fixed template, which names both placeholders and the sentinel. */
  lemma PromptFraming(chunk: seq<string>)
    ensures StartsWith(PromptFor(chunk), PROMPT_START)
    ensures EndsWith(PromptFor(chunk), PROMPT_END)
    ensures Contains(PROMPT_START, PERSON_PLACEHOLDER) && Contains(PROMPT_START, INSTITUTION_PLACEHOLDER)
    ensures Contains(PROMPT_END, NONE_MENTION)
  {
    var p := PromptFor(chunk);
    assert p[..|PROMPT_START|] == PROMPT_START;
    assert p[|p| - |PROMPT_END|..] == PROMPT_END;
    var i := |START_HEAD|;
    assert PROMPT_START[i..i + |PERSON_PLACEHOLDER|] == PERSON_PLACEHOLDER;
    ContainsWitness(PROMPT_START, PERSON_PLACEHOLDER, i);
    var j := |START_HEAD + PERSON_PLACEHOLDER + START_MID|;
    assert PROMPT_START[j..j + |INSTITUTION_PLACEHOLDER|] == INSTITUTION_PLACEHOLDER;
    ContainsWitness(PROMPT_START, INSTITUTION_PLACEHOLDER, j);
    assert PROMPT_END[|END_HEAD|..|END_HEAD| + |NONE_MENTION|] == NONE_MENTION;
    ContainsWitness(PROMPT_END, NONE_MENTION, |END_HEAD|);
  }

  /**
   * What build_prompts returns: the skip sentinel when no column is left;
   * one prompt naming every remaining column when fewer than three were
   * requested (counted before removal); otherwise one prompt per chunk,
   * the chunks reproducing the remaining columns in order and holding one
   * to four columns each, only the first ever four.
   */
  lemma BuiltPromptsShape(cols: seq<string>)
    ensures var left := StripReserved(cols, RESERVED_COLUMNS);
      && (|left| == 0 <==> BuiltPrompts(cols) == SKIP_PROMPTS)
      && (|left| > 0 && |cols| < OPTIM_PROMPT_SIZE ==> BuiltPrompts(cols) == [PromptFor(left)])
      && (|left| > 0 && |cols| >= OPTIM_PROMPT_SIZE ==>
            exists ch :: && BuiltPrompts(cols) == PromptsFor(ch)
                         && Concat(ch) == left
                         && (forall i :: 0 <= i < |ch| ==> 1 <= |ch[i]| <= 4 && (i > 0 ==> |ch[i]| <= 3)))
  {
    var left := StripReserved(cols, RESERVED_COLUMNS);
    if |left| > 0 {
      if |cols| >= OPTIM_PROMPT_SIZE {
        var ch := Chunks(left, |cols| % OPTIM_PROMPT_SIZE);
        ChunksCover(left, |cols| % OPTIM_PROMPT_SIZE);
        ChunkSizes(left, |cols| % OPTIM_PROMPT_SIZE);
        assert |ch| > 0;
        var ps := PromptsFor(ch);
        assert BuiltPrompts(cols) == ps;
        assert ps[0] == PromptFor(ch[0]) && |ps[0]| > 4;
        assert ps != SKIP_PROMPTS;
      } else {
        assert |PromptFor(left)| > 4;
        assert [PromptFor(left)] != SKIP_PROMPTS;
      }
    }
  }

  // ---------------------------------------------------------------------------
  // The saved-format file
  // ---------------------------------------------------------------------------

  datatype SavedFormat = SavedFormat(header: seq<string>, prompts: seq<string>, sites: seq<string>)

  /** The text save_format writes. */
  function SavedText(header: seq<string>, sites: seq<string>, prompts: seq<string>): string
  {
    (HEADER + "\n") + ((Join(header, ",") + "\n")
    + ((USEFUL_SEARCH_TERMS + "\n") + ((Join(sites, ",") + "\n")
    + ((PROMPTS + "\n") + Join(prompts, "\n")))))
  }

  /** Six writes in a row leave their texts in order. */
  lemma WritesInOrder(a: string, b: string, c: string, d: string, e: string, f: string)
    ensures a + b + c + d + e + f == a + (b + (c + (d + (e + f))))
  {
  }

  /** A file opened for writing (`open(path, 'w')`): it starts empty. */
  class OutFile {
    const path: string
    var written: string

    constructor Open(path: string)
      ensures this.path == path && written == ""
    {
      this.path := path;
      written := "";
    }

    method Write(s: string)
      modifies this
      ensures written == old(written) + s
    {
      written := written + s;
    }
  }

  /** save_format: the three sections, written one after the other. */
  method SaveFormat(name: string, header: seq<string>, sites: seq<string>, prompts: seq<string>)
    returns (f: OutFile)
    ensures fresh(f)
    ensures f.path == SAVED_FOLDER + "/" + name + ".txt"
    ensures f.written == SavedText(header, sites, prompts)
  {
    f := new OutFile.Open(SAVED_FOLDER + "/" + name + ".txt");
    var headerMark, headerLine := HEADER + "\n", Join(header, ",") + "\n";
    var sitesMark, sitesLine := USEFUL_SEARCH_TERMS + "\n", Join(sites, ",") + "\n";
    var promptsMark, promptLines := PROMPTS + "\n", Join(prompts, "\n");
    f.Write(headerMark);
    assert f.written == headerMark;
    f.Write(headerLine);
    f.Write(sitesMark);
    f.Write(sitesLine);
    f.Write(promptsMark);
    f.Write(promptLines);
    WritesInOrder(headerMark, headerLine, sitesMark, sitesLine, promptsMark, promptLines);
  }

  /** `f.readline()` on the unread text `rest`: up to and including the next newline. */
  function ReadLine(rest: string): (line: string)
    ensures |line| <= |rest| && rest[..|line|] == line
    ensures line == "" <==> rest == ""
  {
    var k := Find(rest, "\n");
    if k < 0 then rest else rest[..k + 1]
  }

  /** `f.readlines()` on the unread text `rest`. */
  function ReadLines(rest: string): seq<string>
    decreases |rest|
  {
    var line := ReadLine(rest);
    if line == "" then [] else [line] + ReadLines(rest[|line|..])
  }

  /** `line.split("\n")[0]` */
  function Content(line: string): string
  {
    Split(line, "\n")[0]
  }

  /** `line.split("\n")[0].split(",")`: the comma-separated items of a section line. */
  function Items(line: string): seq<string>
  {
    Split(Content(line), ",")
  }

  /**
   * The read_saved loop from the state (current `line`, unread text
   * `rest`, lists found so far) to the end of the file.
   */
  function ParseFrom(line: string, rest: string, acc: SavedFormat): SavedFormat
    decreases |rest|, |line|
  {
    if line == "" then acc
    else if Contains(line, HEADER) then
      var row := ReadLine(rest);
      var rest' := rest[|row|..];
      var next := ReadLine(rest');
      ParseFrom(next, rest'[|next|..], acc.(header := Items(row)))
    else if Contains(line, USEFUL_SEARCH_TERMS) then
      var row := ReadLine(rest);
      var rest' := rest[|row|..];
      var next := ReadLine(rest');
      ParseFrom(next, rest'[|next|..], acc.(sites := Items(row)))
    else if Contains(line, PROMPTS) then
      var lines := ReadLines(rest);
      acc.(prompts := seq(|lines|, i requires 0 <= i < |lines| => Content(lines[i])))
    else
      var next := ReadLine(rest);
      ParseFrom(next, rest[|next|..], acc)
  }

  function Parsed(text: string): SavedFormat
  {
    var first := ReadLine(text);
    ParseFrom(first, text[|first|..], SavedFormat([], [], []))
  }

  /** read_saved on the text of the file: a readline loop that fills the three lists. */
  method ReadSaved(text: string) returns (fmt: SavedFormat)
    ensures fmt == Parsed(text)
  {
    var headersToUse: seq<string> := [];
    var promptsToUse: seq<string> := [];
    var usefulSearchTerms: seq<string> := [];
    var rest := text;
    var line := ReadLine(rest);
    rest := rest[|line|..];
    while line != ""
      invariant ParseFrom(line, rest, SavedFormat(headersToUse, promptsToUse, usefulSearchTerms))
        == Parsed(text)
      decreases |rest|, |line|
    {
      if Contains(line, HEADER) {
        line := ReadLine(rest);
        rest := rest[|line|..];
        headersToUse := Items(line);
      } else if Contains(line, USEFUL_SEARCH_TERMS) {
        line := ReadLine(rest);
        rest := rest[|line|..];
        usefulSearchTerms := Items(line);
      } else if Contains(line, PROMPTS) {
        var lines := ReadLines(rest);
        rest := "";
        promptsToUse := seq(|lines|, i requires 0 <= i < |lines| => Content(lines[i]));
      }
      line := ReadLine(rest);
      rest := rest[|line|..];
    }
    fmt := SavedFormat(headersToUse, promptsToUse, usefulSearchTerms);
  }

  // ---------------------------------------------------------------------------
  // Properties of the saved format
  // ---------------------------------------------------------------------------

  /** Reading a line that ends at the first newline of `x + "\n" + y`. */
  lemma ReadLineAt(x: string, y: string)
    requires '\n' !in x
    ensures ReadLine(x + "\n" + y) == x + "\n"
    ensures Content(x + "\n") == x
  {
    ContainsChar(x, '\n');
    FindAfterPrefix(x, '\n', y);
    assert (x + "\n" + y)[..|x| + 1] == x + "\n";
    FindAfterPrefix(x, '\n', "");
    assert x + "\n" + "" == x + "\n";
    assert Split(x + "\n", "\n") == [(x + "\n")[..|x|]] + Split((x + "\n")[|x| + 1..], "\n");
    assert (x + "\n")[..|x|] == x;
  }

  lemma {:induction false} JoinAvoids(parts: seq<string>, sep: string, c: char)
    requires c !in sep
    requires forall i :: 0 <= i < |parts| ==> c !in parts[i]
    ensures c !in Join(parts, sep)
    decreases |parts|
  {
    if |parts| > 1 {
      JoinAvoids(parts[1..], sep, c);
    }
  }

  /** `readlines` over prompts joined by newlines gives them back, one per line. */
  lemma {:induction false} ReadLinesJoined(prompts: seq<string>)
    requires forall i :: 0 <= i < |prompts| ==> '\n' !in prompts[i]
    requires |prompts| > 0 ==> Last(prompts) != ""
    ensures var lines := ReadLines(Join(prompts, "\n"));
      && |lines| == |prompts|
      && forall i :: 0 <= i < |lines| ==> Content(lines[i]) == prompts[i]
    decreases |prompts|
  {
    var text := Join(prompts, "\n");
    if |prompts| == 1 {
      var p := prompts[0];
      ContainsChar(p, '\n');
      assert ReadLine(p) == p;
      assert p[|p|..] == "";
      assert ReadLines(text) == [p];
    } else if |prompts| > 1 {
      var rest := Join(prompts[1..], "\n");
      assert text == prompts[0] + "\n" + rest;
      ReadLineAt(prompts[0], rest);
      assert text[|prompts[0] + "\n"|..] == rest;
      ReadLinesJoined(prompts[1..]);
      assert ReadLines(text) == [prompts[0] + "\n"] + ReadLines(rest);
    }
  }

  /** The text of one comma-separated section line splits back into its items. */
  lemma SectionLine(items: seq<string>, y: string)
    requires |items| > 0
    requires forall i :: 0 <= i < |items| ==> ',' !in items[i] && '\n' !in items[i]
    ensures ReadLine(Join(items, ",") + "\n" + y) == Join(items, ",") + "\n"
    ensures Items(Join(items, ",") + "\n") == items
  {
    JoinAvoids(items, ",", '\n');
    ReadLineAt(Join(items, ","), y);
    forall i | 0 <= i < |items| ensures !Contains(items[i], [',']) {
      ContainsChar(items[i], ',');
    }
    SplitJoin(items, ',');
  }

  lemma MarkerLine(marker: string, y: string)
    requires '\n' !in marker
    ensures ReadLine(marker + "\n" + y) == marker + "\n"
    ensures Contains(marker + "\n", marker)
  {
    ReadLineAt(marker, y);
    assert (marker + "\n")[..|marker|] == marker;
    ContainsWitness(marker + "\n", marker, 0);
  }

  /** Which markers the three marker lines mention. */
  lemma MarkersDiffer()
    ensures !Contains(USEFUL_SEARCH_TERMS + "\n", HEADER)
    ensures !Contains(PROMPTS + "\n", HEADER)
    ensures !Contains(PROMPTS + "\n", USEFUL_SEARCH_TERMS)
  {
    MissingCharNotContained(USEFUL_SEARCH_TERMS + "\n", HEADER, 'D');
    MissingCharNotContained(PROMPTS + "\n", HEADER, 'D');
    MissingCharNotContained(PROMPTS + "\n", USEFUL_SEARCH_TERMS, 'U');
  }

  /** The header marker line, then the header line, then the line `next`. */
  lemma HeaderSection(header: seq<string>, next: string, rest: string, acc: SavedFormat)
    requires |header| > 0
    requires forall i :: 0 <= i < |header| ==> ',' !in header[i] && '\n' !in header[i]
    requires '\n' !in next
    ensures ParseFrom(HEADER + "\n", Join(header, ",") + "\n" + (next + "\n" + rest), acc)
      == ParseFrom(next + "\n", rest, acc.(header := header))
  {
    var H := Join(header, ",");
    var tail := next + "\n" + rest;
    MarkerLine(HEADER, H + "\n" + tail);
    SectionLine(header, tail);
    assert (H + "\n" + tail)[|H + "\n"|..] == tail;
    ReadLineAt(next, rest);
    assert tail[|next + "\n"|..] == rest;
  }

  /** The search-terms marker line, then the search-terms line, then the line `next`. */
  lemma SitesSection(sites: seq<string>, next: string, rest: string, acc: SavedFormat)
    requires |sites| > 0
    requires forall i :: 0 <= i < |sites| ==> ',' !in sites[i] && '\n' !in sites[i]
    requires '\n' !in next
    ensures ParseFrom(USEFUL_SEARCH_TERMS + "\n", Join(sites, ",") + "\n" + (next + "\n" + rest), acc)
      == ParseFrom(next + "\n", rest, acc.(sites := sites))
  {
    var S := Join(sites, ",");
    var tail := next + "\n" + rest;
    MarkersDiffer();
    MarkerLine(USEFUL_SEARCH_TERMS, S + "\n" + tail);
    SectionLine(sites, tail);
    assert (S + "\n" + tail)[|S + "\n"|..] == tail;
    ReadLineAt(next, rest);
    assert tail[|next + "\n"|..] == rest;
  }

  /** Each marker fits on one line. */
  lemma MarkersOneLine()
    ensures '\n' !in HEADER && '\n' !in USEFUL_SEARCH_TERMS && '\n' !in PROMPTS
  {
  }

  /** The first line of a saved file is the header marker line. */
  lemma HeaderFirst(rest: string)
    ensures Parsed(HEADER + "\n" + rest) == ParseFrom(HEADER + "\n", rest, SavedFormat([], [], []))
  {
    MarkerLine(HEADER, rest);
    assert (HEADER + "\n" + rest)[|HEADER + "\n"|..] == rest;
  }

  /** The prompts marker line: every remaining line is one prompt. */
  lemma PromptsSection(prompts: seq<string>, acc: SavedFormat)
    requires forall i :: 0 <= i < |prompts| ==> '\n' !in prompts[i]
    requires |prompts| > 0 ==> Last(prompts) != ""
    ensures ParseFrom(PROMPTS + "\n", Join(prompts, "\n"), acc) == acc.(prompts := prompts)
  {
    MarkersDiffer();
    MarkerLine(PROMPTS, "");
    ReadLinesJoined(prompts);
    var lines := ReadLines(Join(prompts, "\n"));
    assert seq(|lines|, i requires 0 <= i < |lines| => Content(lines[i])) == prompts;
  }

  /**
   * read_saved gives back what save_format wrote, when the header and the
   * search terms are non-empty lists whose items hold no comma, '\n' or
   * '\r', and the prompts hold no '\n' or '\r', the last one being non-empty
   * (a text-mode read ends a line at '\r' too).
   */
  lemma SaveThenRead(header: seq<string>, sites: seq<string>, prompts: seq<string>)
    requires |header| > 0 && |sites| > 0
    requires forall i :: 0 <= i < |header| ==> ',' !in header[i] && '\n' !in header[i] && '\r' !in header[i]
    requires forall i :: 0 <= i < |sites| ==> ',' !in sites[i] && '\n' !in sites[i] && '\r' !in sites[i]
    requires forall i :: 0 <= i < |prompts| ==> '\n' !in prompts[i] && '\r' !in prompts[i]
    requires |prompts| > 0 ==> Last(prompts) != ""
    ensures Parsed(SavedText(header, sites, prompts)) == SavedFormat(header, prompts, sites)
  {
    var P := Join(prompts, "\n");
    var acc := SavedFormat([], [], []);
    var t4 := Join(sites, ",") + "\n" + (PROMPTS + "\n" + P);
    var t2 := Join(header, ",") + "\n" + (USEFUL_SEARCH_TERMS + "\n" + t4);
    MarkersOneLine();
    HeaderFirst(t2);
    HeaderSection(header, USEFUL_SEARCH_TERMS, t4, acc);
    SitesSection(sites, PROMPTS, P, acc.(header := header));
    PromptsSection(prompts, acc.(header := header).(sites := sites));
  }

  lemma SliceContains(s: string, i: nat, j: nat, sub: string)
    requires i <= j <= |s|
    requires Contains(s[i..j], sub)
    ensures Contains(s, sub)
  {
    var k := Find(s[i..j], sub);
    assert OccursAt(s[i..j], sub, k);
    forall m | 0 <= m < |sub|
      ensures s[i + k + m] == sub[m]
    {
      assert s[i..j][k..k + |sub|][m] == sub[m];
    }
    assert s[i + k..i + k + |sub|] == sub;
    ContainsWitness(s, sub, i + k);
  }

  /** The three section markers, and the list each one fills. */
  function Marker(k: nat): string
  {
    if k == 0 then HEADER else if k == 1 then USEFUL_SEARCH_TERMS else PROMPTS
  }

  function Section(f: SavedFormat, k: nat): seq<string>
  {
    if k == 0 then f.header else if k == 1 then f.sites else f.prompts
  }


  /** A header or search-terms marker line: the next line is its list. */
  lemma ParseSectionStep(line: string, rest: string, acc: SavedFormat)
    requires line != "" && (Contains(line, HEADER) || Contains(line, USEFUL_SEARCH_TERMS))
    ensures var row := ReadLine(rest);
      var rest' := rest[|row|..];
      var next := ReadLine(rest');
      var acc' := if Contains(line, HEADER) then acc.(header := Items(row))
                  else acc.(sites := Items(row));
      ParseFrom(line, rest, acc) == ParseFrom(next, rest'[|next|..], acc')
  {
  }

  /** The prompts marker line: the rest of the file is the prompts. */
  lemma ParsePromptsStep(line: string, rest: string, acc: SavedFormat)
    requires line != "" && Contains(line, PROMPTS)
    requires !Contains(line, HEADER) && !Contains(line, USEFUL_SEARCH_TERMS)
    ensures ParseFrom(line, rest, acc).header == acc.header
    ensures ParseFrom(line, rest, acc).sites == acc.sites
  {
  }


  /** A line with no marker is skipped. */
  lemma ParseOtherStep(line: string, rest: string, acc: SavedFormat)
    requires line != ""
    requires !Contains(line, HEADER) && !Contains(line, USEFUL_SEARCH_TERMS) && !Contains(line, PROMPTS)
    ensures var next := ReadLine(rest);
      ParseFrom(line, rest, acc) == ParseFrom(next, rest[|next|..], acc)
  {
  }

  /** A marker missing from `s` is missing from both sides of any cut of `s`. */
  lemma OmitsSlices(s: string, k: nat, m: string)
    requires k <= |s| && !Contains(s, m)
    ensures !Contains(s[..k], m) && !Contains(s[k..], m)
  {
    if Contains(s[..k], m) {
      SliceContains(s, 0, k, m);
    }
    if Contains(s[k..], m) {
      assert s[k..] == s[k..|s|];
      SliceContains(s, k, |s|, m);
    }
  }

  /** A section marker the unread text never mentions leaves that list as it was. */
  lemma {:induction false} MissingSectionFrom(line: string, rest: string, acc: SavedFormat, k: nat)
    requires !Contains(line, Marker(k)) && !Contains(rest, Marker(k))
    ensures Section(ParseFrom(line, rest, acc), k) == Section(acc, k)
    decreases |rest|, |line|, 1
  {
    if line != "" {
      if Contains(line, HEADER) || Contains(line, USEFUL_SEARCH_TERMS) {
        MissingAfterSection(line, rest, acc, k);
      } else if !Contains(line, PROMPTS) {
        MissingAfterOther(line, rest, acc, k);
      } else {
        ParsePromptsStep(line, rest, acc);
        assert k != 2 && Marker(2) == PROMPTS;
      }
    }
  }

  /** MissingSectionFrom past a header or search-terms marker line. */
  lemma {:induction false} MissingAfterSection(line: string, rest: string, acc: SavedFormat, k: nat)
    requires !Contains(line, Marker(k)) && !Contains(rest, Marker(k))
    requires line != "" && (Contains(line, HEADER) || Contains(line, USEFUL_SEARCH_TERMS))
    ensures Section(ParseFrom(line, rest, acc), k) == Section(acc, k)
    decreases |rest|, |line|, 0
  {
    var row := ReadLine(rest);
    var rest' := rest[|row|..];
    var next := ReadLine(rest');
    OmitsSlices(rest, |row|, Marker(k));
    OmitsSlices(rest', |next|, Marker(k));
    ParseSectionStep(line, rest, acc);
    if Contains(line, HEADER) {
      assert k != 0 && Marker(0) == HEADER;
      MissingSectionFrom(next, rest'[|next|..], acc.(header := Items(row)), k);
    } else {
      assert k != 1 && Marker(1) == USEFUL_SEARCH_TERMS;
      MissingSectionFrom(next, rest'[|next|..], acc.(sites := Items(row)), k);
    }
  }

  /** MissingSectionFrom past a line with no marker. */
  lemma {:induction false} MissingAfterOther(line: string, rest: string, acc: SavedFormat, k: nat)
    requires !Contains(rest, Marker(k))
    requires line != ""
    requires !Contains(line, HEADER) && !Contains(line, USEFUL_SEARCH_TERMS) && !Contains(line, PROMPTS)
    ensures Section(ParseFrom(line, rest, acc), k) == Section(acc, k)
    decreases |rest|, |line|, 0
  {
    var next := ReadLine(rest);
    OmitsSlices(rest, |next|, Marker(k));
    ParseOtherStep(line, rest, acc);
    MissingSectionFrom(next, rest[|next|..], acc, k);
  }

  /** A section missing from the file yields an empty list. */
  lemma MissingSections(text: string)
    ensures !Contains(text, HEADER) ==> Parsed(text).header == []
    ensures !Contains(text, USEFUL_SEARCH_TERMS) ==> Parsed(text).sites == []
    ensures !Contains(text, PROMPTS) ==> Parsed(text).prompts == []
  {
    var first := ReadLine(text);
    var acc := SavedFormat([], [], []);
    forall k | 0 <= k < 3 && !Contains(text, Marker(k))
      ensures Section(Parsed(text), k) == []
    {
      OmitsSlices(text, |first|, Marker(k));
      MissingSectionFrom(first, text[|first|..], acc, k);
    }
    assert Marker(0) == HEADER && Marker(1) == USEFUL_SEARCH_TERMS && Marker(2) == PROMPTS;
  }
}
