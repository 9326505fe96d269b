/**
 * The handful of Python `str` operations the scraper relies on: `find`,
 * `in`, `startswith`, `split`, `join`, `replace` and `lower`, stated over
 * `seq<char>`. `Lower` folds only the ASCII letters A-Z.
 */
module Strs {

  /** `sub` occurs in `s` starting at index `i`. */
  predicate OccursAt(s: string, sub: string, i: int)
  {
    0 <= i && i + |sub| <= |s| && s[i..i + |sub|] == sub
  }

  /** An occurrence inside the suffix `s[d..]` is an occurrence in `s`, shifted by `d`. */
  lemma OccursShift(s: string, sub: string, d: nat, j: int)
    requires d <= |s|
    ensures OccursAt(s[d..], sub, j) == (0 <= j && OccursAt(s, sub, d + j))
  {
    if 0 <= j && d + j + |sub| <= |s| {
      assert s[d + j..d + j + |sub|] == s[d..][j..j + |sub|];
    }
  }

  /** Python's `s.find(sub)`: the first index where `sub` occurs, or -1. */
  function Find(s: string, sub: string): (r: int)
    ensures -1 <= r <= |s|
    ensures r >= 0 ==> OccursAt(s, sub, r)
    ensures r >= 0 ==> forall j :: 0 <= j < r ==> !OccursAt(s, sub, j)
    ensures r < 0 ==> forall j :: !OccursAt(s, sub, j)
    decreases |s|
  {
    if |s| < |sub| then -1
    else if s[..|sub|] == sub then 0
    else
      var k := Find(s[1..], sub);
      assert forall j :: 1 <= j ==> OccursAt(s, sub, j) == OccursAt(s[1..], sub, j - 1) by {
        forall j | 1 <= j ensures OccursAt(s, sub, j) == OccursAt(s[1..], sub, j - 1) {
          OccursShift(s, sub, 1, j - 1);
        }
      }
      assert !OccursAt(s, sub, 0);
      if k < 0 then -1 else k + 1
  }

  /** Python's `sub in s`. */
  predicate Contains(s: string, sub: string)
  {
    Find(s, sub) >= 0
  }

  lemma ContainsWitness(s: string, sub: string, i: int)
    requires OccursAt(s, sub, i)
    ensures Contains(s, sub)
  {
  }

  /** A character of `sub` that `s` lacks rules out every occurrence. */
  lemma MissingCharNotContained(s: string, sub: string, c: char)
    requires c in sub && c !in s
    ensures !Contains(s, sub)
  {
    var r := Find(s, sub);
    if r >= 0 {
      assert false;
    }
  }

  lemma EmptyContained(s: string)
    ensures Contains(s, "")
  {
    assert OccursAt(s, "", 0);
  }

  /** Python's `s.startswith(p)`. */
  predicate StartsWith(s: string, p: string)
  {
    |p| <= |s| && s[..|p|] == p
  }

  predicate EndsWith(s: string, p: string)
  {
    |p| <= |s| && s[|s| - |p|..] == p
  }

  /** Python's `s.split(sep)` for a non-empty separator. */
  function Split(s: string, sep: string): (parts: seq<string>)
    requires |sep| > 0
    ensures |parts| >= 1
    decreases |s|
  {
    var k := Find(s, sep);
    if k < 0 then [s] else [s[..k]] + Split(s[k + |sep|..], sep)
  }

  /** Python's `sep.join(parts)`. */
  function Join(parts: seq<string>, sep: string): string
  {
    if |parts| == 0 then ""
    else if |parts| == 1 then parts[0]
    else parts[0] + sep + Join(parts[1..], sep)
  }

  function Last<T>(s: seq<T>): T
    requires |s| > 0
  {
    s[|s| - 1]
  }

  /** Python's `s.replace(pat, with)` for a non-empty `pat`. */
  function Replace(s: string, pat: string, with: string): string
    requires |pat| > 0
  {
    Join(Split(s, pat), with)
  }

  /** Splitting and re-joining on the same separator gives the string back. */
  lemma {:induction false} JoinSplit(s: string, sep: string)
    requires |sep| > 0
    ensures Join(Split(s, sep), sep) == s
    decreases |s|
  {
    var k := Find(s, sep);
    if k >= 0 {
      var rest := s[k + |sep|..];
      JoinSplit(rest, sep);
      var tail := Split(rest, sep);
      SplitAt(s, sep, k);
      JoinCons(s[..k], tail, sep);
      StitchAt(s, sep, k);
    }
  }

  /** Joining a part put in front of at least one more part puts it and the separator first. */
  lemma JoinCons(head: string, tail: seq<string>, sep: string)
    requires |tail| > 0
    ensures Join([head] + tail, sep) == head + sep + Join(tail, sep)
  {
    assert ([head] + tail)[1..] == tail;
  }

  /** A string is what comes before an occurrence, the occurrence, and what comes after. */
  lemma StitchAt(s: string, sub: string, k: int)
    requires OccursAt(s, sub, k)
    ensures s == s[..k] + sub + s[k + |sub|..]
  {
    assert s == s[..k] + s[k..k + |sub|] + s[k + |sub|..];
  }

  /** Every piece of a split is free of the separator. */
  lemma {:induction false} SplitPiecesFree(s: string, sep: string)
    requires |sep| > 0
    ensures forall i :: 0 <= i < |Split(s, sep)| ==> !Contains(Split(s, sep)[i], sep)
    decreases |s|
  {
    var k := Find(s, sep);
    if k >= 0 {
      SplitPiecesFree(s[k + |sep|..], sep);
      var p := s[..k];
      if Contains(p, sep) {
        var j := Find(p, sep);
        assert p[j..j + |sep|] == s[j..j + |sep|];
        assert OccursAt(s, sep, j);
        assert false;
      }
    }
  }

  /** The last piece of a split is a suffix of `s`, all of `s` when it holds no separator. */
  lemma {:induction false} SplitLastSuffix(s: string, sep: string)
    requires |sep| > 0
    ensures EndsWith(s, Last(Split(s, sep)))
    ensures !Contains(s, sep) ==> Last(Split(s, sep)) == s
    decreases |s|
  {
    var k := Find(s, sep);
    if k >= 0 {
      var rest := s[k + |sep|..];
      SplitLastSuffix(rest, sep);
      SplitLastPast(s, sep, k);
      EndsWithDrop(s, k + |sep|, Last(Split(rest, sep)));
    } else {
      SplitNone(s, sep);
    }
  }

  /** Past the first separator, the split ends as the split of what follows it. */
  lemma SplitLastPast(s: string, sep: string, k: int)
    requires |sep| > 0 && k == Find(s, sep) && k >= 0
    ensures Last(Split(s, sep)) == Last(Split(s[k + |sep|..], sep))
  {
    SplitAt(s, sep, k);
    LastConcat([s[..k]], Split(s[k + |sep|..], sep));
  }

  /** Without a separator, the split is the whole string. */
  lemma SplitNone(s: string, sep: string)
    requires |sep| > 0 && !Contains(s, sep)
    ensures Split(s, sep) == [s]
  {
  }

  /** At the first separator, the split is the piece before it and the split of what follows it. */
  lemma SplitAt(s: string, sep: string, k: int)
    requires |sep| > 0 && k == Find(s, sep) && k >= 0
    ensures Split(s, sep) == [s[..k]] + Split(s[k + |sep|..], sep)
  {
  }

  lemma LastConcat<T>(a: seq<T>, b: seq<T>)
    requires |b| > 0
    ensures Last(a + b) == Last(b)
  {
  }

  /** When `s` holds the separator, `s` ends with the separator and then the last piece. */
  lemma {:induction false} SplitLastAfterSep(s: string, sep: string)
    requires |sep| > 0 && Contains(s, sep)
    ensures EndsWith(s, sep + Last(Split(s, sep)))
    decreases |s|
  {
    var k := Find(s, sep);
    var rest := s[k + |sep|..];
    if Contains(rest, sep) {
      SplitLastAfterSep(rest, sep);
      AfterSepDeeper(s, sep, k);
    } else {
      AfterSepLast(s, sep, k);
    }
  }

  /** When the rest past the first separator ends with a separator and its last piece, so does `s`. */
  lemma AfterSepDeeper(s: string, sep: string, k: int)
    requires |sep| > 0 && k == Find(s, sep) && k >= 0
    requires var rest := s[k + |sep|..]; EndsWith(rest, sep + Last(Split(rest, sep)))
    ensures EndsWith(s, sep + Last(Split(s, sep)))
  {
    var d := k + |sep|;
    SplitLastPast(s, sep, k);
    EndsWithDrop(s, d, sep + Last(Split(s[d..], sep)));
  }

  /** When `s` holds only one separator, its last piece is all that follows it. */
  lemma AfterSepLast(s: string, sep: string, k: int)
    requires |sep| > 0 && k == Find(s, sep) && k >= 0 && !Contains(s[k + |sep|..], sep)
    ensures EndsWith(s, sep + Last(Split(s, sep)))
  {
    SplitLastPast(s, sep, k);
    SplitLastSuffix(s[k + |sep|..], sep);
    SepThenRest(s, sep, k);
  }

  /** A suffix of `s[d..]` is a suffix of `s`. */
  lemma EndsWithDrop(s: string, d: nat, x: string)
    requires d <= |s| && EndsWith(s[d..], x)
    ensures EndsWith(s, x)
  {
    assert s[|s| - |x|..] == s[d..][|s[d..]| - |x|..];
  }

  /** An occurrence of `sep` at `k` is followed by the rest of `s`. */
  lemma SepThenRest(s: string, sep: string, k: int)
    requires OccursAt(s, sep, k)
    ensures EndsWith(s, sep + s[k + |sep|..])
  {
    assert s[k..] == s[k..k + |sep|] + s[k + |sep|..];
  }

  /**
   * The last piece of a split is the text after the last occurrence of the
   * separator: a suffix of `s` that holds no separator and that follows a
   * separator whenever `s` contains one.
   */
  lemma SplitLast(s: string, sep: string)
    requires |sep| > 0
    ensures var l := Last(Split(s, sep));
      && EndsWith(s, l)
      && !Contains(l, sep)
      && (Contains(s, sep) ==> EndsWith(s, sep + l))
      && (!Contains(s, sep) ==> l == s)
  {
    SplitLastSuffix(s, sep);
    if Contains(s, sep) {
      SplitLastAfterSep(s, sep);
    }
    SplitPiecesFree(s, sep);
  }

  /** The first piece of a split is the text before the first separator. */
  lemma SplitFirst(s: string, sep: string)
    requires |sep| > 0
    ensures var f := Split(s, sep)[0];
      && StartsWith(s, f)
      && !Contains(f, sep)
      && (Contains(s, sep) ==> OccursAt(s, sep, |f|))
      && (!Contains(s, sep) ==> f == s)
  {
    SplitPiecesFree(s, sep);
  }

  /** For a one-character pattern, `in` on strings is membership of the character. */
  lemma ContainsChar(s: string, c: char)
    ensures Contains(s, [c]) <==> c in s
  {
    if c in s {
      var i :| 0 <= i < |s| && s[i] == c;
      assert s[i..i + 1] == [c];
      ContainsWitness(s, [c], i);
    } else {
      MissingCharNotContained(s, [c], c);
    }
  }

  /** Joining splits off the last part behind the last separator. */
  lemma {:induction false} JoinSnoc(parts: seq<string>, sep: string)
    requires |parts| >= 2
    ensures Join(parts, sep) == Join(parts[..|parts| - 1], sep) + sep + Last(parts)
    decreases |parts|
  {
    if |parts| > 2 {
      var tail := parts[1..];
      JoinSnoc(tail, sep);
      assert tail[..|tail| - 1] == parts[..|parts| - 1][1..];
    }
  }

  /** Where `c` does not occur in `a`, the first `c` of `a + [c] + b` sits at `|a|`. */
  lemma FindAfterPrefix(a: string, c: char, b: string)
    requires !Contains(a, [c])
    ensures Find(a + [c] + b, [c]) == |a|
  {
    var s := a + [c] + b;
    assert OccursAt(s, [c], |a|);
    forall j | 0 <= j < |a| ensures !OccursAt(s, [c], j) {
      assert s[j..j + 1] == a[j..j + 1];
      assert OccursAt(s, [c], j) == OccursAt(a, [c], j);
    }
  }

  /** With a one-character separator that no part contains, splitting undoes joining. */
  lemma {:induction false} SplitJoin(parts: seq<string>, c: char)
    requires |parts| >= 1
    requires forall i :: 0 <= i < |parts| ==> !Contains(parts[i], [c])
    ensures Split(Join(parts, [c]), [c]) == parts
    decreases |parts|
  {
    if |parts| == 1 {
      SplitNone(parts[0], [c]);
    } else {
      var rest := parts[1..];
      assert parts == [parts[0]] + rest;
      JoinCons(parts[0], rest, [c]);
      SplitAfterFirst(parts[0], c, Join(rest, [c]));
      SplitJoin(rest, c);
    }
  }

  /** Behind a first piece free of the separator, the split is that piece and the split of the rest. */
  lemma SplitAfterFirst(a: string, c: char, rest: string)
    requires !Contains(a, [c])
    ensures Split(a + [c] + rest, [c]) == [a] + Split(rest, [c])
  {
    var s := a + [c] + rest;
    FindAfterPrefix(a, c, rest);
    assert s[|a| + 1..] == rest;
    assert s[..|a|] == a;
    SplitAt(s, [c], |a|);
  }

  /** Without an occurrence of `pat`, `replace` leaves the string alone. */
  lemma ReplaceAbsent(s: string, pat: string, with: string)
    requires |pat| > 0 && !Contains(s, pat)
    ensures Replace(s, pat, with) == s
  {
  }

  function LowerChar(c: char): char
  {
    if 'A' <= c <= 'Z' then (c as int - 'A' as int + 'a' as int) as char else c
  }

  predicate IsLower(s: string)
  {
    forall i :: 0 <= i < |s| ==> !('A' <= s[i] <= 'Z')
  }

  /** Python's `s.lower()`, restricted to the ASCII letters. */
  function Lower(s: string): (r: string)
    ensures |r| == |s| && IsLower(r)
    ensures forall i :: 0 <= i < |s| && !('A' <= s[i] <= 'Z') ==> r[i] == s[i]
    ensures IsLower(s) ==> r == s
  {
    seq(|s|, i requires 0 <= i < |s| => LowerChar(s[i]))
  }
}
