/**
 * The scraper's driver (code/main.py): which links of a search result page
 * are worth visiting (get_links, after the page fetch), how one
 * researcher's combined output becomes a spreadsheet row (write_to_excel),
 * and how the list of researchers is read from a CSV file (read_csv).
 */
module ScraperMain {
  import opened Strs
  import opened Dicts

  // ---------------------------------------------------------------------------
  // get_links
  // ---------------------------------------------------------------------------

  /** Hrefs starting with one of these are Google's own navigation. */
  const BAD_LINK_PREFIXES: seq<string> := ["/search", "q=", "/?", "/advanced_search"]

  /** Sites and file types that say nothing useful about a researcher. */
  const BAD_LOCATIONS: seq<string> := ["facebook", "instagram", "linkedin", "twitter",
    "ratemyprofessors", "coursicle", "youtube", "amazon", ".doc", ".pdf", "wiki", "imgres"]

  const GOOGLE := "google.com"
  /** Google wraps a result as `/url?q=<target>&sa=...`. */
  const REDIRECT := "/url?q="
  const TRACKING := "&sa"
  const SEARCH := "/search"

  /** `xs` names every member of `s` exactly once, in some order: how Python iterates a set. */
  ghost predicate Lists(xs: seq<string>, s: set<string>)
  {
    Distinct(xs) && forall x :: x in xs <==> x in s
  }

  /** The list comprehension `[x for x in xs if keep(x)]`. */
  function Filter(xs: seq<string>, keep: string -> bool): (r: seq<string>)
    ensures |r| <= |xs|
    ensures forall x :: x in r <==> x in xs && keep(x)
    ensures (forall i :: 0 <= i < |xs| ==> keep(xs[i])) ==> r == xs
    ensures Distinct(xs) ==> Distinct(r)
    decreases |xs|
  {
    if |xs| == 0 then []
    else
      var rest := Filter(xs[1..], keep);
      assert forall x :: x in xs <==> x == xs[0] || x in xs[1..] by {
        assert xs == [xs[0]] + xs[1..];
      }
      assert Distinct(xs) ==> xs[0] !in xs[1..];
      if keep(xs[0]) then [xs[0]] + rest else rest
  }

  /**
   * The first filter: the href starts with no bad prefix and has no
   * `google.com` past its first character. The source tests both inside
   * one `any` over the prefixes.
   */
  predicate KeepHref(h: string)
  {
    forall i :: 0 <= i < |BAD_LINK_PREFIXES| ==>
      !(StartsWith(h, BAD_LINK_PREFIXES[i]) || Find(h, GOOGLE) > 0)
  }

  /** The second filter: no bad location occurs anywhere in the href. */
  predicate NoBadLocation(h: string)
  {
    forall i :: 0 <= i < |BAD_LOCATIONS| ==> !(Find(h, BAD_LOCATIONS[i]) > -1)
  }

  /** `h.split("/url?q=")[-1].split("&sa")[0]` */
  function Unwrap(h: string): string
  {
    Split(Last(Split(h, REDIRECT)), TRACKING)[0]
  }

  predicate NotSearch(link: string)
  {
    !Contains(link, SEARCH)
  }

  /** Every test an href must pass before the relevance test. */
  predicate Passes(h: string)
  {
    KeepHref(h) && NoBadLocation(h) && NotSearch(Unwrap(h))
  }

  /** The links left after the two href filters, the unwrapping and the `/search` drop. */
  function Candidates(hrefs: seq<string>): seq<string>
  {
    var kept := Filter(Filter(hrefs, KeepHref), NoBadLocation);
    Filter(seq(|kept|, i requires 0 <= i < |kept| => Unwrap(kept[i])), NotSearch)
  }

  /** The first and the last word of the lower-cased name. */
  function NameTokens(name: string): (string, string)
  {
    var parts := Split(Lower(name), " ");
    (parts[0], Last(parts))
  }

  /** The relevance test, with Python's precedence (`and` before `or`). */
  predicate Relevant(link: string, first: string, last: string, institution: string)
  {
    || Contains(link, "ieee")
    || (Contains(link, "researchgate") && (Contains(link, first) && Contains(link, last)))
    || (Contains(link, first) && Contains(link, last))
    || Contains(link, Lower(institution))
  }

  /** `map(lambda x: x.lower(), xs)` */
  function LowerEach(xs: seq<string>): (r: seq<string>)
    ensures |r| == |xs| && forall i :: 0 <= i < |xs| ==> r[i] == Lower(xs[i])
  {
    seq(|xs|, i requires 0 <= i < |xs| => Lower(xs[i]))
  }

  /**
   * get_links as written: the candidates are deduplicated by `set(...)`,
   * visited in the set's order `order`, and lower-cased only afterwards.
   */
  function GetLinksAsWritten(name: string, institution: string, hrefs: seq<string>, order: seq<string>): (r: seq<string>)
    requires Lists(order, set x | x in Candidates(hrefs))
    ensures |r| <= |order|
    ensures forall x :: x in r ==> exists y :: y in order && x == Lower(y)
  {
    var t := NameTokens(name);
    Filter(LowerEach(order), l => Relevant(l, t.0, t.1, institution))
  }

  /** Everything a list of lower-cased strings names is lower-case. */
  lemma LowerListed(order: seq<string>, xs: seq<string>)
    requires forall x :: x in order <==> x in set y | y in xs :: Lower(y)
    ensures forall x :: x in order ==> IsLower(x)
  {
    forall x | x in order ensures IsLower(x) {
      var y :| y in xs && x == Lower(y);
    }
  }

  /**
   * get_links with the deduplication after the lower-casing: `order` visits
   * the set of lower-cased candidates.
   */
  function GetLinks(name: string, institution: string, hrefs: seq<string>, order: seq<string>): (r: seq<string>)
    requires Lists(order, set x | x in Candidates(hrefs) :: Lower(x))
    ensures Distinct(r)
    ensures forall i :: 0 <= i < |r| ==> IsLower(r[i])
  {
    var t := NameTokens(name);
    LowerListed(order, Candidates(hrefs));
    Filter(order, l => Relevant(l, t.0, t.1, institution))
  }

  /** The first filter drops exactly the hrefs with a bad prefix or a `google.com` past index 0. */
  lemma KeepHrefMeaning(h: string)
    ensures KeepHref(h) <==>
      && (forall i :: 0 <= i < |BAD_LINK_PREFIXES| ==> !StartsWith(h, BAD_LINK_PREFIXES[i]))
      && Find(h, GOOGLE) <= 0
  {
    if Find(h, GOOGLE) > 0 {
      assert !(StartsWith(h, BAD_LINK_PREFIXES[0]) || Find(h, GOOGLE) > 0) == false;
    }
  }

  /**
   * Unwrapping keeps the text after the last `/url?q=` (all of the href
   * when it has none) and, of that, the text before the first `&sa`.
   */
  lemma Unwrapped(h: string)
    ensures var t := Last(Split(h, REDIRECT));
      && EndsWith(h, t) && !Contains(t, REDIRECT)
      && (Contains(h, REDIRECT) ==> EndsWith(h, REDIRECT + t))
      && (!Contains(h, REDIRECT) ==> t == h)
      && StartsWith(t, Unwrap(h)) && !Contains(Unwrap(h), TRACKING)
      && (Contains(t, TRACKING) ==> OccursAt(t, TRACKING, |Unwrap(h)|))
      && (!Contains(t, TRACKING) ==> Unwrap(h) == t)
  {
    SplitLast(h, REDIRECT);
    SplitFirst(Last(Split(h, REDIRECT)), TRACKING);
  }

  /** A candidate is the unwrapping of an href that passed every filter, and each such unwrapping is a candidate. */
  lemma CandidatesFrom(hrefs: seq<string>, x: string)
    ensures x in Candidates(hrefs) <==> exists h :: h in hrefs && Passes(h) && x == Unwrap(h)
  {
    if x in Candidates(hrefs) {
      CandidateSource(hrefs, x);
    }
    if h :| h in hrefs && Passes(h) && x == Unwrap(h) {
      CandidateOf(hrefs, h);
    }
  }

  /** Every candidate comes from an href that passed every filter. */
  lemma CandidateSource(hrefs: seq<string>, x: string)
    requires x in Candidates(hrefs)
    ensures exists h :: h in hrefs && Passes(h) && x == Unwrap(h)
  {
    var kept := Filter(Filter(hrefs, KeepHref), NoBadLocation);
    var unwrapped := seq(|kept|, i requires 0 <= i < |kept| => Unwrap(kept[i]));
    var i :| 0 <= i < |unwrapped| && unwrapped[i] == x;
    assert kept[i] in kept;
    assert kept[i] in hrefs && Passes(kept[i]);
  }

  /** Every href that passes every filter gives its unwrapping as a candidate. */
  lemma CandidateOf(hrefs: seq<string>, h: string)
    requires h in hrefs && Passes(h)
    ensures Unwrap(h) in Candidates(hrefs)
  {
    var kept := Filter(Filter(hrefs, KeepHref), NoBadLocation);
    var unwrapped := seq(|kept|, i requires 0 <= i < |kept| => Unwrap(kept[i]));
    assert h in kept;
    var i :| 0 <= i < |kept| && kept[i] == h;
    assert unwrapped[i] == Unwrap(h);
  }

  /** The link names "ieee", both name tokens or the institution. */
  predicate Mentions(link: string, name: string, institution: string)
  {
    var t := NameTokens(name);
    Contains(link, "ieee") || (Contains(link, t.0) && Contains(link, t.1)) || Contains(link, Lower(institution))
  }

  /** The link is the lower-cased unwrapping of an href that passed every filter. */
  ghost predicate FromPassing(hrefs: seq<string>, link: string)
  {
    exists h :: h in hrefs && Passes(h) && link == Lower(Unwrap(h))
  }

  lemma LoweredCandidate(hrefs: seq<string>, x: string)
    ensures x in (set y | y in Candidates(hrefs) :: Lower(y)) <==> FromPassing(hrefs, x)
  {
    if y :| y in Candidates(hrefs) && x == Lower(y) {
      CandidatesFrom(hrefs, y);
    }
    if h :| h in hrefs && Passes(h) && x == Lower(Unwrap(h)) {
      CandidatesFrom(hrefs, Unwrap(h));
      assert Unwrap(h) in Candidates(hrefs);
    }
  }

  /**
   * The links get_links returns are exactly the lower-cased candidates that
   * mention "ieee", both name tokens or the institution.
   */
  lemma GetLinksMember(name: string, institution: string, hrefs: seq<string>, order: seq<string>, x: string)
    requires Lists(order, set x | x in Candidates(hrefs) :: Lower(x))
    ensures x in GetLinks(name, institution, hrefs, order) <==> Mentions(x, name, institution) && FromPassing(hrefs, x)
  {
    var t := NameTokens(name);
    assert x in GetLinks(name, institution, hrefs, order) <==> x in order && Relevant(x, t.0, t.1, institution);
    LoweredCandidate(hrefs, x);
  }

  /** Lower-casing a listing of a set names the lower-cased members of the set. */
  lemma LowerEachListed(written: seq<string>, xs: seq<string>, x: string)
    requires forall y :: y in written <==> y in xs
    ensures x in LowerEach(written) <==> x in set y | y in xs :: Lower(y)
  {
    var lowered := LowerEach(written);
    if x in lowered {
      var i :| 0 <= i < |written| && lowered[i] == x;
      assert written[i] in xs;
    }
    if y :| y in xs && x == Lower(y) {
      var i :| 0 <= i < |written| && written[i] == y;
      assert lowered[i] == x;
    }
  }

  /** As written, get_links returns the same links as the corrected one; only their number of copies differs. */
  lemma AsWrittenMember(name: string, institution: string, hrefs: seq<string>, written: seq<string>, x: string)
    requires Lists(written, set x | x in Candidates(hrefs))
    ensures x in GetLinksAsWritten(name, institution, hrefs, written) <==> Mentions(x, name, institution) && FromPassing(hrefs, x)
  {
    var t := NameTokens(name);
    assert x in GetLinksAsWritten(name, institution, hrefs, written) <==> x in LowerEach(written) && Relevant(x, t.0, t.1, institution);
    LowerEachListed(written, Candidates(hrefs), x);
    LoweredCandidate(hrefs, x);
  }

  /** As written, every link get_links returns is lower-case. */
  lemma AsWrittenLower(name: string, institution: string, hrefs: seq<string>, written: seq<string>)
    requires Lists(written, set x | x in Candidates(hrefs))
    ensures forall x :: x in GetLinksAsWritten(name, institution, hrefs, written) ==> IsLower(x)
  {
    var lowered := LowerEach(written);
    forall x | x in GetLinksAsWritten(name, institution, hrefs, written) ensures IsLower(x) {
      var i :| 0 <= i < |lowered| && lowered[i] == x;
    }
  }

  /** An empty name splits into one empty token, and the empty token occurs in every link. */
  lemma EmptyNameAcceptsAll(link: string, institution: string)
    ensures NameTokens("") == ("", "")
    ensures Mentions(link, "", institution)
  {
    assert Lower("") == "";
    assert Split("", " ") == [""];
    EmptyContained(link);
  }

  /** A string "starts with" only what it contains. */
  lemma StartsWithContains(h: string, p: string)
    requires StartsWith(h, p)
    ensures Contains(h, p)
  {
    ContainsWitness(h, p, 0);
  }

  /**
   * An href built without any of the characters below passes every filter
   * and is its own unwrapping: each filtered pattern holds one of them.
   */
  lemma PassesPlain(h: string)
    requires forall c :: c in h ==> c !in "gqsu&?_.ontwm"
    ensures Passes(h) && Unwrap(h) == h
  {
    PlainKeepsHref(h);
    PlainNoBadLocation(h);
    PlainUnwrap(h);
  }

  /** Such an href starts with no bad prefix and holds no `google.com`. */
  lemma PlainKeepsHref(h: string)
    requires forall c :: c in h ==> c !in "gqsu&?_.ontwm"
    ensures KeepHref(h)
  {
    MissingCharNotContained(h, GOOGLE, 'g');
    var prefixChars := "sq?_";
    forall i | 0 <= i < |BAD_LINK_PREFIXES| ensures !StartsWith(h, BAD_LINK_PREFIXES[i]) {
      MissingCharNotContained(h, BAD_LINK_PREFIXES[i], prefixChars[i]);
      if StartsWith(h, BAD_LINK_PREFIXES[i]) {
        StartsWithContains(h, BAD_LINK_PREFIXES[i]);
      }
    }
  }

  /** Such an href holds no bad location. */
  lemma PlainNoBadLocation(h: string)
    requires forall c :: c in h ==> c !in "gqsu&?_.ontwm"
    ensures NoBadLocation(h)
  {
    var locationChars := "onntoooo..wm";
    forall i | 0 <= i < |BAD_LOCATIONS| ensures !(Find(h, BAD_LOCATIONS[i]) > -1) {
      MissingCharNotContained(h, BAD_LOCATIONS[i], locationChars[i]);
    }
  }

  /** Such an href is its own unwrapping and holds no `/search`. */
  lemma PlainUnwrap(h: string)
    requires forall c :: c in h ==> c !in "gqsu&?_.ontwm"
    ensures Unwrap(h) == h && NotSearch(h)
  {
    MissingCharNotContained(h, REDIRECT, 'u');
    MissingCharNotContained(h, TRACKING, '&');
    MissingCharNotContained(h, SEARCH, 's');
    SplitNone(h, REDIRECT);
    SplitNone(h, TRACKING);
  }

  /** A value kept twice by a filter appears twice in its result. */
  lemma {:induction false} FilterKeepsRepeat(xs: seq<string>, keep: string -> bool, i: nat, j: nat)
    requires i < j < |xs| && xs[i] == xs[j] && keep(xs[i])
    ensures !Distinct(Filter(xs, keep))
    decreases i
  {
    var rest := Filter(xs[1..], keep);
    if i == 0 {
      assert xs[j] == xs[1..][j - 1];
      RepeatInFront(xs[0], rest);
    } else {
      FilterKeepsRepeat(xs[1..], keep, i - 1, j - 1);
      if keep(xs[0]) {
        RepeatBehind(xs[0], rest);
      }
    }
  }

  /** A list starting with an item it holds again has a repeat. */
  lemma RepeatInFront(x: string, rest: seq<string>)
    requires x in rest
    ensures !Distinct([x] + rest)
  {
    var k :| 0 <= k < |rest| && rest[k] == x;
    assert ([x] + rest)[0] == ([x] + rest)[k + 1];
  }

  /** A repeat stays a repeat with an item put in front. */
  lemma RepeatBehind(x: string, rest: seq<string>)
    requires !Distinct(rest)
    ensures !Distinct([x] + rest)
  {
    var a, b :| 0 <= a < b < |rest| && rest[a] == rest[b];
    assert ([x] + rest)[a + 1] == ([x] + rest)[b + 1];
  }

  /** Where a listing of a set holds one of its members. */
  lemma PositionOf(xs: seq<string>, s: set<string>, x: string) returns (i: nat)
    requires forall y :: y in xs <==> y in s
    requires x in s
    ensures i < |xs| && xs[i] == x
  {
    i :| i < |xs| && xs[i] == x;
  }

  /**
   * As written, get_links repeats a link whenever two hrefs that pass the
   * filters unwrap to two links differing only in case, and the link is
   * relevant: both are members of the set, and both lower-case to it.
   */
  lemma CaseDuplicates(name: string, institution: string, hrefs: seq<string>, written: seq<string>, a: string, b: string)
    requires Lists(written, set x | x in Candidates(hrefs))
    requires a in hrefs && Passes(a) && b in hrefs && Passes(b)
    requires Unwrap(a) != Unwrap(b) && Lower(Unwrap(a)) == Lower(Unwrap(b))
    requires Mentions(Lower(Unwrap(a)), name, institution)
    ensures !Distinct(GetLinksAsWritten(name, institution, hrefs, written))
  {
    CandidatesFrom(hrefs, Unwrap(a));
    CandidatesFrom(hrefs, Unwrap(b));
    var i := PositionOf(written, (set x | x in Candidates(hrefs)), Unwrap(a));
    var j := PositionOf(written, (set x | x in Candidates(hrefs)), Unwrap(b));
    var t := NameTokens(name);
    var lowered := LowerEach(written);
    var keep := l => Relevant(l, t.0, t.1, institution);
    assert lowered[i] == lowered[j] && keep(lowered[i]);
    assert GetLinksAsWritten(name, institution, hrefs, written) == Filter(lowered, keep);
    if i < j {
      FilterKeepsRepeat(lowered, keep, i, j);
    } else {
      FilterKeepsRepeat(lowered, keep, j, i);
    }
  }

  lemma LowerIeee()
    ensures Lower("IEEE") == "ieee"
  {
    var r := Lower("IEEE");
    assert r[0] == LowerChar('I') == 'i';
    assert r[1] == r[2] == r[3] == LowerChar('E') == 'e';
  }

  lemma IeeePasses()
    ensures Passes("IEEE") && Unwrap("IEEE") == "IEEE"
  {
    PassesPlain("IEEE");
  }

  lemma LowerIeeePasses()
    ensures Passes("ieee") && Unwrap("ieee") == "ieee"
  {
    PassesPlain("ieee");
  }

  lemma IeeeMentioned()
    ensures Lower("IEEE") == "ieee" && Contains("ieee", "ieee")
  {
    LowerIeee();
    ContainsWitness("ieee", "ieee", 0);
  }

  /** Such hrefs exist: "IEEE" and "ieee" pass every filter and both name "ieee". */
  lemma CaseDuplicatesExist(name: string, institution: string, written: seq<string>)
    requires Lists(written, set x | x in Candidates(["IEEE", "ieee"]))
    ensures !Distinct(GetLinksAsWritten(name, institution, ["IEEE", "ieee"], written))
  {
    IeeePasses();
    LowerIeeePasses();
    IeeeMentioned();
    CaseDuplicates(name, institution, ["IEEE", "ieee"], written, "IEEE", "ieee");
  }

  lemma LowerSearch()
    ensures Lower("/Search") == SEARCH
  {
    var r := Lower("/Search");
    assert r[1] == LowerChar('S') == 's';
  }

  /**
   * The `/search` drop looks at the unwrapped link before it is lower-cased,
   * so a link that reads "/search" once lower-cased can still be returned.
   */
  lemma SearchCheckIsCaseSensitive(order: seq<string>)
    requires Lists(order, set x | x in Candidates(["/Search"]) :: Lower(x))
    ensures SEARCH in GetLinks("", "", ["/Search"], order)
  {
    PassesPlain("/Search");
    LowerSearch();
    assert FromPassing(["/Search"], SEARCH);
    EmptyNameAcceptsAll(SEARCH, "");
    GetLinksMember("", "", ["/Search"], order, SEARCH);
  }

  /** The same holds for get_links as written. */
  lemma SearchCheckIsCaseSensitiveAsWritten(written: seq<string>)
    requires Lists(written, set x | x in Candidates(["/Search"]))
    ensures SEARCH in GetLinksAsWritten("", "", ["/Search"], written)
  {
    PassesPlain("/Search");
    LowerSearch();
    assert FromPassing(["/Search"], SEARCH);
    EmptyNameAcceptsAll(SEARCH, "");
    AsWrittenMember("", "", ["/Search"], written, SEARCH);
  }

  // ---------------------------------------------------------------------------
  // write_to_excel
  // ---------------------------------------------------------------------------

  const NONE := "NONE"
  const RELEVANT_LINKS := "relevant links"
  const TOPIC := "topic"

  /** How many blank lines `items` starts with. */
  function LeadingBlanks(items: seq<string>): (n: nat)
    ensures n <= |items|
    ensures forall i :: 0 <= i < n ==> items[i] == ""
    ensures n < |items| ==> items[n] != ""
    decreases |items|
  {
    if |items| == 0 || items[0] != "" then 0 else 1 + LeadingBlanks(items[1..])
  }

  /**
   * How many lines the strip loop removes. Its counter grows while the list
   * shrinks, so it stops after half of the lines even when more of them are
   * blank.
   */
  function Dropped(items: seq<string>): nat
  {
    var n := LeadingBlanks(items);
    if n <= |items| / 2 then n else |items| / 2
  }

  /** The `while count < len(items) - 1 and items[0] == ""` loop of write_to_excel. */
  method StripLeadingBlanks(lines: seq<string>) returns (items: seq<string>)
    ensures items == lines[Dropped(lines)..]
  {
    items := lines;
    var count := 0;
    while count < |items| - 1 && items[0] == ""
      invariant count <= LeadingBlanks(lines) && 2 * count <= |lines|
      invariant items == lines[count..]
    {
      items := items[1..];
      count := count + 1;
    }
  }

  /**
   * Stripping removes only blank lines and never the last one, so every
   * text line survives. As written, when more than half of the lines are
   * leading blanks, a blank line is left in front.
   */
  lemma StripKeepsText(lines: seq<string>)
    ensures forall i :: 0 <= i < Dropped(lines) ==> lines[i] == ""
    ensures |lines| > 0 ==> |lines[Dropped(lines)..]| > 0
    ensures forall x :: x != "" ==> (x in lines[Dropped(lines)..] <==> x in lines)
    ensures LeadingBlanks(lines) > |lines| / 2 ==> lines[Dropped(lines)..][0] == ""
  {
    var d := Dropped(lines);
    forall x | x != "" && x in lines ensures x in lines[d..] {
      var i :| 0 <= i < |lines| && lines[i] == x;
      assert lines[d..][i - d] == x;
    }
  }

  /** The lines of a value with the leading blanks stripped: `items` in write_to_excel. */
  function Stripped(data: string): seq<string>
  {
    var lines := Split(data, "\n");
    lines[Dropped(lines)..]
  }

  /** `"\n".join(set(items))`, with `enumerate` fixing the set's iteration order. */
  function Unique(data: string, enumerate: set<string> -> seq<string>): string
  {
    Join(enumerate(set x | x in Stripped(data)), "\n")
  }

  /** The cell of a column that matches the key. */
  function MatchedCell(data: string, enumerate: set<string> -> seq<string>): string
  {
    var u := Unique(data, enumerate);
    if u == "" then NONE else u
  }

  /** What one (key, column) step of the nested loops leaves in a cell. */
  function CellUpdate(cell: string, h: string, key: string, data: string, links: seq<string>,
                      enumerate: set<string> -> seq<string>): string
  {
    if Lower(h) == RELEVANT_LINKS then Join(links, "\n")
    else if Lower(h) == Lower(key) then MatchedCell(data, enumerate)
    else if Lower(h) == TOPIC then ""
    else cell
  }

  /** The row after the inner loop has run over every column for one key. */
  function Step(row: seq<string>, header: seq<string>, key: string, data: string, links: seq<string>,
                enumerate: set<string> -> seq<string>): seq<string>
    requires |row| == |header|
  {
    seq(|header|, c requires 0 <= c < |header| => CellUpdate(row[c], header[c], key, data, links, enumerate))
  }

  /** The row after the outer loop has visited `keys`, starting from a "NONE" per column. */
  function RowAfter(header: seq<string>, output: Dict<string>, keys: seq<string>, links: seq<string>,
                    enumerate: set<string> -> seq<string>): (r: seq<string>)
    requires forall k :: k in keys ==> k in output.vals
    ensures |r| == |header|
    decreases |keys|
  {
    if |keys| == 0 then seq(|header|, _ => NONE)
    else
      var k := Last(keys);
      Step(RowAfter(header, output, keys[..|keys| - 1], links, enumerate), header, k, output.vals[k], links, enumerate)
  }

  /**
   * The inner loop for one key: every column is visited once, in order.
   * The header cell at index `c` is column `c + 1` of the sheet, so
   * `to_write[col - 1]` is `toWrite[c]`.
   */
  method FillForKey(toWrite: array<string>, header: seq<string>, key: string, data: string,
                    links: seq<string>, enumerate: set<string> -> seq<string>)
    requires toWrite.Length == |header|
    modifies toWrite
    ensures toWrite[..] == Step(old(toWrite[..]), header, key, data, links, enumerate)
  {
    ghost var before := toWrite[..];
    for c := 0 to |header|
      invariant forall j :: 0 <= j < c ==> toWrite[j] == CellUpdate(before[j], header[j], key, data, links, enumerate)
      invariant forall j :: c <= j < |header| ==> toWrite[j] == before[j]
    {
      var h := header[c];
      if Lower(h) == RELEVANT_LINKS {
        toWrite[c] := Join(links, "\n");
      } else {
        var items := Split(data, "\n");
        items := StripLeadingBlanks(items);
        var unique := Join(enumerate(set x | x in items), "\n");
        if Lower(h) == Lower(key) {
          if unique == "" {
            unique := NONE;
          }
          toWrite[c] := unique;
        } else if Lower(h) == TOPIC {
          toWrite[c] := "";
        }
      }
    }
  }

  /**
   * write_to_excel's row: one cell per header column, each "NONE" until a
   * key of the output fills it.
   */
  method WriteRow(header: seq<string>, output: Dict<string>, links: seq<string>,
                  enumerate: set<string> -> seq<string>) returns (row: seq<string>)
    requires forall k :: k in output.keys ==> k in output.vals
    ensures row == RowAfter(header, output, output.keys, links, enumerate)
  {
    var toWrite := new string[|header|](_ => NONE);
    assert toWrite[..] == RowAfter(header, output, [], links, enumerate);
    for i := 0 to |output.keys|
      invariant toWrite[..] == RowAfter(header, output, output.keys[..i], links, enumerate)
    {
      var key := output.keys[i];
      assert output.keys[..i + 1][..i] == output.keys[..i];
      FillForKey(toWrite, header, key, output.vals[key], links, enumerate);
    }
    assert output.keys[..|output.keys|] == output.keys;
    row := toWrite[..];
  }

  /** A column no key matches, other than the links and topic columns, keeps its "NONE". */
  lemma {:induction false} ColumnUnmatched(header: seq<string>, output: Dict<string>, keys: seq<string>,
                                            links: seq<string>, enumerate: set<string> -> seq<string>, c: nat)
    requires forall k :: k in keys ==> k in output.vals
    requires c < |header| && Lower(header[c]) != RELEVANT_LINKS && Lower(header[c]) != TOPIC
    requires forall i :: 0 <= i < |keys| ==> Lower(keys[i]) != Lower(header[c])
    ensures RowAfter(header, output, keys, links, enumerate)[c] == NONE
    decreases |keys|
  {
    if |keys| > 0 {
      ColumnUnmatched(header, output, keys[..|keys| - 1], links, enumerate, c);
    }
  }

  /**
   * A column that is neither the links nor the topic column ends with the
   * cell of the last key matching it case-insensitively.
   */
  lemma {:induction false} ColumnMatched(header: seq<string>, output: Dict<string>, keys: seq<string>,
                                          links: seq<string>, enumerate: set<string> -> seq<string>, c: nat, i: nat)
    requires forall k :: k in keys ==> k in output.vals
    requires c < |header| && Lower(header[c]) != RELEVANT_LINKS && Lower(header[c]) != TOPIC
    requires i < |keys| && Lower(keys[i]) == Lower(header[c])
    requires forall j :: i < j < |keys| ==> Lower(keys[j]) != Lower(header[c])
    ensures keys[i] in output.vals
    ensures RowAfter(header, output, keys, links, enumerate)[c] == MatchedCell(output.vals[keys[i]], enumerate)
    decreases |keys|
  {
    if i < |keys| - 1 {
      ColumnMatched(header, output, keys[..|keys| - 1], links, enumerate, c, i);
    }
  }

  /** Once the output has a key, the links column holds the links used, one per line. */
  lemma LinksColumn(header: seq<string>, output: Dict<string>, keys: seq<string>,
                    links: seq<string>, enumerate: set<string> -> seq<string>, c: nat)
    requires forall k :: k in keys ==> k in output.vals
    requires |keys| > 0 && c < |header| && Lower(header[c]) == RELEVANT_LINKS
    ensures RowAfter(header, output, keys, links, enumerate)[c] == Join(links, "\n")
  {
  }

  /**
   * Every key the output visits rewrites the topic column: with its own
   * cell when it is the topic key, with "" otherwise. The last key decides.
   */
  lemma TopicColumn(header: seq<string>, output: Dict<string>, keys: seq<string>,
                    links: seq<string>, enumerate: set<string> -> seq<string>, c: nat)
    requires forall k :: k in keys ==> k in output.vals
    requires |keys| > 0 && c < |header| && Lower(header[c]) == TOPIC
    ensures Last(keys) in output.vals
    ensures RowAfter(header, output, keys, links, enumerate)[c] ==
      if Lower(Last(keys)) == TOPIC then MatchedCell(output.vals[Last(keys)], enumerate) else ""
  {
  }

  /** Joining gives "" only for no parts or one empty part. */
  lemma JoinEmpty(parts: seq<string>, sep: string)
    requires |sep| > 0
    ensures Join(parts, sep) == "" <==> |parts| == 0 || (|parts| == 1 && parts[0] == "")
  {
    if |parts| >= 2 {
      assert |Join(parts, sep)| >= |sep|;
    }
  }

  /** A listing without repeats is as long as the set it lists. */
  lemma {:induction false} DistinctCard(xs: seq<string>)
    requires Distinct(xs)
    ensures |set x | x in xs| == |xs|
    decreases |xs|
  {
    if |xs| > 0 {
      var rest := xs[1..];
      DistinctCard(rest);
      assert (set x | x in xs) == {xs[0]} + (set x | x in rest) by {
        assert xs == [xs[0]] + rest;
      }
      assert xs[0] !in rest;
    }
  }

  predicate AllBlank(lines: seq<string>)
  {
    forall i :: 0 <= i < |lines| ==> lines[i] == ""
  }

  /** Whatever the set's order, the joined lines are "" exactly when every line is blank. */
  lemma UniqueBlank(data: string, enumerate: set<string> -> seq<string>)
    requires forall s :: Lists(enumerate(s), s)
    ensures Unique(data, enumerate) == "" <==> AllBlank(Split(data, "\n"))
  {
    var lines := Split(data, "\n");
    var items := Stripped(data);
    StripKeepsText(lines);
    var order := enumerate(set x | x in items);
    assert Lists(order, set x | x in items);
    if AllBlank(lines) {
      assert AllBlank(items) by {
        forall k | 0 <= k < |items| ensures items[k] == "" {
          assert items[k] == lines[Dropped(lines) + k];
        }
      }
      BlankListing(items, order);
    } else {
      var i :| 0 <= i < |lines| && lines[i] != "";
      assert lines[i] in lines;
      TextListing(items, order, lines[i]);
    }
  }

  /** A listing of the set of some blank lines is the one blank line. */
  lemma BlankListing(items: seq<string>, order: seq<string>)
    requires |items| > 0 && AllBlank(items) && Lists(order, set x | x in items)
    ensures Join(order, "\n") == ""
  {
    var s := set x | x in items;
    assert items[0] in s;
    forall x | x in order ensures x == "" {
      var k :| 0 <= k < |items| && items[k] == x;
    }
    assert s == {""};
    assert (set x | x in order) == s;
    DistinctCard(order);
    assert order[0] in order;
    JoinEmpty(order, "\n");
  }

  /** A listing of a set holding a non-blank line joins to a non-empty text. */
  lemma TextListing(items: seq<string>, order: seq<string>, x: string)
    requires x != "" && x in items && Lists(order, set y | y in items)
    ensures Join(order, "\n") != ""
  {
    assert x in order;
    JoinEmpty(order, "\n");
  }

  /** A matched column whose lines are all blank shows "NONE". */
  lemma BlankMatchedIsNone(data: string, enumerate: set<string> -> seq<string>)
    requires forall s :: Lists(enumerate(s), s)
    requires AllBlank(Split(data, "\n"))
    ensures MatchedCell(data, enumerate) == NONE
  {
    UniqueBlank(data, enumerate);
  }

  // ---------------------------------------------------------------------------
  // read_csv
  // ---------------------------------------------------------------------------

  /** The Domain of a researcher whose row has only a name and an institution. */
  const NO_DOMAIN := "N/A"

  /** The dictionary `{"Name": ..., "Institution": ..., "Domain": ...}` read_csv builds per row. */
  datatype Researcher = Researcher(name: string, institution: string, domain: string)

  /**
   * Why read_csv stops: `next(reader)` finds no header line, or a row
   * (counted from the header, which is row 0) has fewer than two fields and
   * indexing it fails.
   */
  datatype ReadError = NoHeader | TooFewFields(row: nat)

  datatype Outcome = Done | Raised(error: ReadError)

  /** The index of the first row with fewer than two fields, or `|rows|`. */
  function FirstShort(rows: seq<seq<string>>): (n: nat)
    ensures n <= |rows|
    ensures forall i :: 0 <= i < n ==> |rows[i]| >= 2
    ensures n < |rows| ==> |rows[n]| < 2
    decreases |rows|
  {
    if |rows| == 0 || |rows[0]| < 2 then 0 else 1 + FirstShort(rows[1..])
  }

  function Normalise(row: seq<string>): Researcher
    requires |row| >= 2
  {
    Researcher(row[0], row[1], if |row| == 2 then NO_DOMAIN else row[2])
  }

  /**
   * The researchers read_csv appends, in file order: one per row after the
   * header, up to the first row with fewer than two fields.
   */
  function Loaded(records: seq<seq<string>>): (r: seq<Researcher>)
    ensures |records| == 0 ==> r == []
    ensures |records| > 0 ==> |r| == FirstShort(records[1..])
    ensures forall i :: 0 <= i < |r| ==>
      && |records[i + 1]| >= 2
      && r[i].name == records[i + 1][0]
      && r[i].institution == records[i + 1][1]
      && r[i].domain == if |records[i + 1]| == 2 then NO_DOMAIN else records[i + 1][2]
  {
    if |records| == 0 then []
    else
      var rows := records[1..];
      seq(FirstShort(rows), i requires 0 <= i < FirstShort(rows) => Normalise(rows[i]))
  }

  /** How read_csv ends. */
  function ReadOutcome(records: seq<seq<string>>): (o: Outcome)
    ensures o == Raised(NoHeader) <==> |records| == 0
    ensures o == Done <==> |records| > 0 && forall i :: 1 <= i < |records| ==> |records[i]| >= 2
    ensures o.Raised? && o.error.TooFewFields? ==>
      && 1 <= o.error.row < |records| && |records[o.error.row]| < 2
      && forall i :: 1 <= i < o.error.row ==> |records[i]| >= 2
  {
    if |records| == 0 then Raised(NoHeader)
    else
      var n := FirstShort(records[1..]);
      if n == |records| - 1 then Done
      else
        assert |records[1..][n]| < 2;
        Raised(TooFewFields(n + 1))
  }

  /** The module-level `to_search` list that read_csv appends to. */
  class SearchList {
    var toSearch: seq<Researcher>

    constructor()
      ensures toSearch == []
    {
      toSearch := [];
    }

    /**
     * read_csv over the file's rows, as the CSV reader splits them. The
     * researchers of the rows read before a failure stay appended.
     */
    method ReadCsv(records: seq<seq<string>>) returns (outcome: Outcome)
      modifies this
      ensures toSearch == old(toSearch) + Loaded(records)
      ensures outcome == ReadOutcome(records)
    {
      if |records| == 0 {
        return Raised(NoHeader);
      }
      ghost var rows := records[1..];
      var i := 1;
      while i < |records|
        invariant 1 <= i <= |records|
        invariant forall j :: 1 <= j < i ==> |records[j]| >= 2
        invariant toSearch == old(toSearch) + seq(i - 1, j requires 0 <= j < i - 1 => Normalise(rows[j]))
      {
        var researcher := records[i];
        if |researcher| == 2 {
          researcher := researcher + [NO_DOMAIN];
        }
        if |researcher| < 3 {
          assert rows[i - 1] == records[i];
          assert FirstShort(rows) == i - 1;
          return Raised(TooFewFields(i));
        }
        toSearch := toSearch + [Researcher(researcher[0], researcher[1], researcher[2])];
        i := i + 1;
      }
      assert FirstShort(rows) == |rows|;
      return Done;
    }
  }
}
