/**
 Rust's string operations on ASCII text: `to_lowercase`, `find`, `split`, `replace`, `trim`.
 */
module Strings {
  import opened Sequences

  // ---------------------------------------------------------------------------------------
  // Case, search, split and join
  // ---------------------------------------------------------------------------------------

  function LowerChar(c: char): char {
    if 'A' <= c <= 'Z' then (c as int + 32) as char else c
  }

  // `to_lowercase`.
  function Lower(s: string): (r: string)
    ensures |r| == |s| && forall k | 0 <= k < |s| :: r[k] == LowerChar(s[k])
  {
    seq(|s|, i requires 0 <= i < |s| => LowerChar(s[i]))
  }

  // `to_uppercase`, and two texts that differ in case only.
  function Upper(s: string): string {
    seq(|s|, i requires 0 <= i < |s| => if 'a' <= s[i] <= 'z' then (s[i] as int - 32) as char else s[i])
  }

  predicate SameButCase(s: string, t: string) {
    && |s| == |t|
    && forall k | 0 <= k < |s| ::
         || s[k] == t[k]
         || ('A' <= s[k] <= 'Z' && t[k] as int == s[k] as int + 32)
         || ('A' <= t[k] <= 'Z' && s[k] as int == t[k] as int + 32)
  }

  /** Lower case forgets the case of letters, whatever it is, and nothing else. */
  lemma LowerForgetsCase(s: string, t: string)
    ensures Lower(s) == Lower(t) <==> SameButCase(s, t)
    ensures Lower(Upper(s)) == Lower(s) && Lower(Lower(s)) == Lower(s)
  {
    if Lower(s) == Lower(t) {
      forall k | 0 <= k < |s|
        ensures LowerChar(s[k]) == LowerChar(t[k])
      {
        assert Lower(s)[k] == Lower(t)[k];
      }
    }
  }

  predicate EndsWith(s: string, suffix: string) {
    |suffix| <= |s| && s[|s| - |suffix|..] == suffix
  }

  // `find`: the first occurrence at or after `from`, the end of the string if there is none.
  function Find(needle: string, haystack: string, from: nat): (p: nat)
    requires 0 < |needle| && from <= |haystack|
    ensures from <= p <= |haystack| && forall q | from <= q < p :: !OccursAt(needle, haystack, q)
    ensures p < |haystack| ==> OccursAt(needle, haystack, p)
    decreases |haystack| - from
  {
    if from == |haystack| || OccursAt(needle, haystack, from) then from else Find(needle, haystack, from + 1)
  }

  // `split`: the parts between occurrences of the separator, found from the left.
  function Split(s: string, separator: string): (parts: seq<string>)
    requires 0 < |separator|
    ensures 0 < |parts|
    decreases |s|
  {
    if s == "" then [""]
    else if OccursAt(separator, s, 0) then [""] + Split(s[|separator|..], separator)
    else var rest := Split(s[1..], separator); [[s[0]] + rest[0]] + rest[1..]
  }

  function Join(parts: seq<string>, separator: string): string
    requires 0 < |parts|
  {
    if |parts| == 1 then parts[0] else parts[0] + separator + Join(parts[1..], separator)
  }

  lemma JoinCons(part: string, parts: seq<string>, separator: string)
    requires 0 < |parts|
    ensures Join([part] + parts, separator) == part + separator + Join(parts, separator)
  {
    assert ([part] + parts)[1..] == parts;
  }

  // Splitting loses nothing: joining the parts restores the string.
  lemma {:induction false} JoinSplit(s: string, separator: string)
    requires 0 < |separator|
    ensures Join(Split(s, separator), separator) == s
    decreases |s|
  {
    if s != "" {
      if OccursAt(separator, s, 0) {
        JoinAfterSeparator(s, separator);
        JoinSplit(s[|separator|..], separator);
      } else {
        JoinSplit(s[1..], separator);
        JoinFirst(s[0], Split(s[1..], separator), separator);
        assert s == [s[0]] + s[1..];
      }
    }
  }

  lemma JoinAfterSeparator(s: string, separator: string)
    requires 0 < |separator| && OccursAt(separator, s, 0)
    ensures s == separator + s[|separator|..]
    ensures Join(Split(s, separator), separator) == separator + Join(Split(s[|separator|..], separator), separator)
  {
    assert s[0..|separator|] == separator;
    JoinCons("", Split(s[|separator|..], separator), separator);
    assert "" + separator == separator;
  }

  lemma JoinFirst(c: char, parts: seq<string>, separator: string)
    requires 0 < |parts|
    ensures Join([[c] + parts[0]] + parts[1..], separator) == [c] + Join(parts, separator)
  {
    if |parts| > 1 {
      JoinCons([c] + parts[0], parts[1..], separator);
      Reassociate([c], parts[0], separator);
      Reassociate([c], parts[0] + separator, Join(parts[1..], separator));
    }
  }

  // Text up to the first separator is one part.
  lemma {:induction false} SplitAtFirst(front: string, separator: string, back: string)
    requires 0 < |separator|
    requires forall p | 0 <= p < |front| :: !OccursAt(separator, front + separator + back, p)
    ensures Split(front + separator + back, separator) == [front] + Split(back, separator)
  {
    var s := front + separator + back;
    if front == "" {
      assert s[|separator|..] == back;
    } else {
      assert s[1..] == front[1..] + separator + back;
      forall p | 0 <= p < |front| - 1
        ensures !OccursAt(separator, s[1..], p)
      {
        assert !OccursAt(separator, s, p + 1);
      }
      SplitAtFirst(front[1..], separator, back);
      assert !OccursAt(separator, s, 0);
      assert [s[0]] + front[1..] == front;
    }
  }

  lemma {:induction false} SplitNone(s: string, separator: string)
    requires 0 < |separator| && !Occurs(separator, s)
    ensures Split(s, separator) == [s]
    decreases |s|
  {
    if s != "" {
      forall p | 0 <= p <= |s| - 1 - |separator|
        ensures !OccursAt(separator, s[1..], p)
      {
        assert !OccursAt(separator, s, p + 1);
      }
      SplitNone(s[1..], separator);
      assert |separator| <= |s| ==> !OccursAt(separator, s, 0);
      assert [s[0]] + s[1..] == s;
    }
  }

  // No part contains a comma.
  lemma {:induction false} SplitCommaFree(s: string)
    ensures forall part | part in Split(s, ",") :: ',' !in part
    decreases |s|
  {
    if s != "" {
      SplitCommaFree(s[1..]);
    }
  }

  // A part without the mark ends at the next mark.
  lemma SplitAtMark(part: string, mark: string, back: string)
    requires |mark| == 1 && mark[0] !in part
    ensures Split(part, mark) == [part]
    ensures Split(part + mark + back, mark) == [part] + Split(back, mark)
  {
    var s := part + mark + back;
    forall p | 0 <= p < |part|
      ensures !OccursAt(mark, s, p) && !OccursAt(mark, part, p)
    {
      assert s[p..p + 1][0] == part[p] && part[p..p + 1][0] == part[p];
    }
    SplitNone(part, mark);
    SplitAtFirst(part, mark, back);
  }

  // Splitting what was joined with commas gives the parts back, if they hold no comma.
  lemma {:induction false} SplitJoin(parts: seq<string>)
    requires 0 < |parts| && forall part | part in parts :: ',' !in part
    ensures Split(Join(parts, ","), ",") == parts
  {
    if |parts| == 1 {
      SplitAtMark(parts[0], ",", "");
    } else {
      SplitJoin(parts[1..]);
      SplitAtMark(parts[0], ",", Join(parts[1..], ","));
      HeadTail(parts);
    }
  }

  // ... also in front of other text.
  lemma {:induction false} SplitJoinBefore(parts: seq<string>, back: string)
    requires 0 < |parts| && forall part | part in parts :: ',' !in part
    ensures Split(Join(parts, ",") + "," + back, ",") == parts + Split(back, ",")
  {
    if |parts| > 1 {
      SplitJoinBefore(parts[1..], back);
      JoinThenMore(parts, back);
      OnePartMore(parts, Join(parts[1..], ",") + "," + back, Split(back, ","));
    } else {
      OnePartBefore(parts, back);
    }
  }

  lemma OnePartBefore(parts: seq<string>, back: string)
    requires |parts| == 1 && ',' !in parts[0]
    ensures Split(Join(parts, ",") + "," + back, ",") == parts + Split(back, ",")
  {
    SplitAtMark(parts[0], ",", back);
    assert parts == [parts[0]];
  }

  lemma OnePartMore(parts: seq<string>, rest: string, more: seq<string>)
    requires 0 < |parts| && ',' !in parts[0] && Split(rest, ",") == parts[1..] + more
    ensures Split(parts[0] + "," + rest, ",") == parts + more
  {
    SplitAtMark(parts[0], ",", rest);
    HeadTail(parts);
    Reassociate([parts[0]], parts[1..], more);
  }

  lemma JoinThenMore(parts: seq<string>, back: string)
    requires 1 < |parts|
    ensures Join(parts, ",") + "," + back == parts[0] + "," + (Join(parts[1..], ",") + "," + back)
  {
    var tail := Join(parts[1..], ",");
    Reassociate(parts[0] + ",", tail, ",");
    Reassociate(parts[0] + ",", tail + ",", back);
  }

  // Only what comes after a character that is not in the suffix decides about it.
  lemma EndsWithSkips(a: string, b: string, suffix: string)
    requires a != "" && a[|a| - 1] !in suffix
    ensures EndsWith(a + b, suffix) <==> EndsWith(b, suffix)
  {
    var s, n := a + b, |suffix|;
    if n <= |b| {
      assert s[|s| - n..] == b[|b| - n..];
    } else if n <= |s| {
      assert s[|s| - n..][n - |b| - 1] == a[|a| - 1];
    }
  }

  lemma EndsWithAll(s: string, suffix: string)
    ensures EndsWith(s + suffix, suffix)
  {
  }

  // ---------------------------------------------------------------------------------------
  // Parts of a string
  // ---------------------------------------------------------------------------------------

  lemma OccursIn(a: string, b: string, c: string)
    requires Occurs(a, b) && Occurs(b, c)
    ensures Occurs(a, c)
  {
    var p :| 0 <= p <= |b| - |a| && OccursAt(a, b, p);
    var q :| 0 <= q <= |c| - |b| && OccursAt(b, c, q);
    OccursInPart(a, c, q, b, p);
  }

  lemma PrefixOccurs(s: string, to: nat)
    requires to <= |s|
    ensures Occurs(s[..to], s)
  {
    assert OccursAt(s[..to], s, 0);
  }

  lemma SuffixOccurs(s: string, from: nat)
    requires from <= |s|
    ensures Occurs(s[from..], s)
  {
    assert OccursAt(s[from..], s, from);
  }

  // What is found is there, and not before.
  lemma FoundAt(needle: string, s: string)
    requires 0 < |needle| && Occurs(needle, s)
    ensures var p := Find(needle, s, 0); OccursAt(needle, s, p) && !Occurs(needle, s[..p])
  {
    var p := Find(needle, s, 0);
    var q :| 0 <= q <= |s| - |needle| && OccursAt(needle, s, q);
    forall k | 0 <= k <= p - |needle|
      ensures !OccursAt(needle, s[..p], k)
    {
      OccursInPart(needle, s, 0, s[..p], k);
    }
  }

  // Nothing appears where two texts meet if the second one does not start like its rest.
  lemma NotAcross(needle: string, a: string, b: string)
    requires needle != "" && !Occurs(needle, a) && !Occurs(needle, b)
    requires b == "" || b[0] !in needle[1..]
    ensures !Occurs(needle, a + b)
  {
    forall p | 0 <= p <= |a + b| - |needle|
      ensures !OccursAt(needle, a + b, p)
    {
      NotAcrossAt(needle, a, b, p);
    }
  }

  lemma NotAcrossAt(needle: string, a: string, b: string, p: nat)
    requires needle != "" && !Occurs(needle, a) && !Occurs(needle, b)
    requires p + |needle| <= |a + b| && (b == "" || b[0] !in needle[1..])
    ensures !OccursAt(needle, a + b, p)
  {
    var s, n := a + b, |needle|;
    if p + n <= |a| {
      assert s[0..|a|] == a;
      NotInPart(needle, s, 0, a, p);
    } else if |a| <= p {
      assert s[|a|..|a| + |b|] == b;
      NotInPart(needle, s, |a|, b, p - |a|);
    } else {
      assert s[p..p + n][|a| - p] == b[0] && needle[|a| - p] == needle[1..][|a| - p - 1];
    }
  }

  lemma NotInPart(needle: string, s: string, start: nat, part: string, p: nat)
    requires start + |part| <= |s| && s[start..start + |part|] == part && p + |needle| <= |part|
    requires !Occurs(needle, part)
    ensures !OccursAt(needle, s, start + p)
  {
    OccursInPart(needle, s, start, part, p);
    assert !OccursAt(needle, part, p);
  }

  lemma OccursPrefix(longer: string, needle: string, s: string, p: nat)
    requires needle <= longer && OccursAt(longer, s, p)
    ensures OccursAt(needle, s, p)
  {
    SliceOfSlice(s, p, p + |longer|, 0, |needle|);
  }

  lemma {:induction false} SplitStartsAtStart(s: string, separator: string)
    requires 0 < |separator|
    ensures Split(s, separator)[0] <= s
    decreases |s|
  {
    if s != "" && !OccursAt(separator, s, 0) {
      SplitStartsAtStart(s[1..], separator);
    }
  }

  lemma {:induction false} SplitPartsOccur(s: string, separator: string, part: string)
    requires 0 < |separator| && part in Split(s, separator)
    ensures Occurs(part, s)
    decreases |s|
  {
    SplitStartsAtStart(s, separator);
    var first := Split(s, separator)[0];
    PrefixOccurs(s, |first|);
    assert first == s[..|first|];
    if s != "" && part != first {
      var skipped := if OccursAt(separator, s, 0) then |separator| else 1;
      SplitPartsOccur(s[skipped..], separator, part);
      SuffixOccurs(s, skipped);
      OccursIn(part, s[skipped..], s);
    }
  }

  lemma {:induction false} FirstPartAndSeparator(s: string, separator: string)
    requires 0 < |separator| && 1 < |Split(s, separator)|
    ensures Split(s, separator)[0] + separator <= s
    decreases |s|
  {
    if !OccursAt(separator, s, 0) {
      FirstPartAndSeparator(s[1..], separator);
      assert s == [s[0]] + s[1..];
    } else {
      assert "" + separator == separator == s[..|separator|];
    }
  }

  lemma {:induction false} PartAndSeparatorOccur(s: string, separator: string, i: nat)
    requires 0 < |separator| && i < |Split(s, separator)| - 1
    ensures Occurs(Split(s, separator)[i] + separator, s)
    decreases |s|
  {
    FirstPartAndSeparator(s, separator);
    var text := Split(s, separator)[i] + separator;
    if i == 0 {
      PrefixOccurs(s, |text|);
      assert text == s[..|text|];
    } else {
      var skipped := if OccursAt(separator, s, 0) then |separator| else 1;
      PartAndSeparatorOccur(s[skipped..], separator, if OccursAt(separator, s, 0) then i - 1 else i);
      SuffixOccurs(s, skipped);
      OccursIn(text, s[skipped..], s);
    }
  }

  lemma NoneAtStart(s: string, part: string, separator: string)
    requires 0 < |separator| && s != "" && part <= s[1..]
    requires !OccursAt(separator, s, 0) && !Occurs(separator, part)
    ensures !Occurs(separator, [s[0]] + part)
  {
    var longer, n := [s[0]] + part, |separator|;
    assert longer <= s;
    forall p | 0 <= p <= |longer| - n
      ensures !OccursAt(separator, longer, p)
    {
      if p > 0 {
        assert longer[p..p + n] == part[p - 1..p - 1 + n];
        assert !OccursAt(separator, part, p - 1);
      } else {
        assert longer[..n] == s[..n];
      }
    }
  }

  lemma {:induction false} SplitLeavesNone(s: string, separator: string)
    requires 0 < |separator|
    ensures forall part | part in Split(s, separator) :: !Occurs(separator, part)
    decreases |s|
  {
    if s != "" {
      if OccursAt(separator, s, 0) {
        SplitLeavesNone(s[|separator|..], separator);
      } else {
        SplitLeavesNone(s[1..], separator);
        SplitStartsAtStart(s[1..], separator);
        NoneAtStart(s, Split(s[1..], separator)[0], separator);
      }
    }
  }

  // Cutting the string short cuts its parts short.
  lemma {:induction false} SplitOfPrefix(s: string, k: nat, separator: string)
    requires |separator| == 1 && k <= |s|
    ensures PartsShortened(Split(s[..k], separator), Split(s, separator))
    decreases |s|
  {
    if k > 0 {
      SplitOfPrefix(s[1..], k - 1, separator);
      FirstOfPrefix(s, k, separator);
      var cut, parts := Split(s[1..][..k - 1], separator), Split(s[1..], separator);
      if OccursAt(separator, s, 0) {
        assert PartsShortened([""] + cut, [""] + parts);
      } else {
        assert PartsShortened([[s[0]] + cut[0]] + cut[1..], [[s[0]] + parts[0]] + parts[1..]);
      }
    }
  }

  lemma FirstOfPrefix(s: string, k: nat, separator: string)
    requires |separator| == 1 && 0 < k <= |s|
    ensures s[..k] != "" && s[..k][0] == s[0] && s[..k][1..] == s[1..][..k - 1]
    ensures OccursAt(separator, s[..k], 0) <==> OccursAt(separator, s, 0)
  {
    assert s[..k][0..1] == s[0..1];
  }

  predicate PartsShortened(cut: seq<string>, parts: seq<string>) {
    |cut| <= |parts| && forall j | 0 <= j < |cut| :: cut[j] <= parts[j]
  }

  // The text before the first possible occurrence starts the first part.
  lemma {:induction false} SplitKeepsStart(s: string, separator: string, n: nat)
    requires 0 < |separator| && n <= |s| && forall p | 0 <= p < n :: !OccursAt(separator, s, p)
    ensures s[..n] <= Split(s, separator)[0]
    decreases |s|
  {
    if n > 0 {
      forall p | 0 <= p < n - 1
        ensures !OccursAt(separator, s[1..], p)
      {
        assert !OccursAt(separator, s, p + 1);
      }
      SplitKeepsStart(s[1..], separator, n - 1);
      assert s[..n] == [s[0]] + s[1..][..n - 1];
    }
  }

  // ---------------------------------------------------------------------------------------
  // White space
  // ---------------------------------------------------------------------------------------

  predicate IsSpace(c: char) {
    c == ' ' || '\t' <= c <= '\r'
  }

  // Blank, tab, line feed, vertical tab, form feed and carriage return.
  lemma WhiteSpace(c: char)
    ensures IsSpace(c) <==> c as int == 32 || c as int == 9 || c as int == 10 || c as int == 11 || c as int == 12
                            || c as int == 13
  {
  }

  function TrimStart(s: string): string {
    if s != "" && IsSpace(s[0]) then TrimStart(s[1..]) else s
  }

  function TrimEnd(s: string): string {
    if s != "" && IsSpace(s[|s| - 1]) then TrimEnd(s[..|s| - 1]) else s
  }

  function Trim(s: string): string {
    TrimEnd(TrimStart(s))
  }

  function TrimAll(parts: seq<string>): seq<string> {
    seq(|parts|, i requires 0 <= i < |parts| => Trim(parts[i]))
  }

  predicate Blank(s: string) {
    forall k | 0 <= k < |s| :: IsSpace(s[k])
  }

  predicate Trimmed(s: string) {
    s != "" && !IsSpace(s[0]) && !IsSpace(s[|s| - 1])
  }

  lemma {:induction false} TrimBlanks(s: string, blanks: string)
    requires Trimmed(s) && Blank(blanks)
    ensures Trim(s + blanks) == s
  {
    if blanks == "" {
      assert s + blanks == s;
    } else {
      TrimBlanks(s, blanks[..|blanks| - 1]);
      assert (s + blanks)[..|s + blanks| - 1] == s + blanks[..|blanks| - 1];
    }
  }

  lemma {:induction false} TrimKeeps(s: string, p: nat)
    requires p < |s| && !IsSpace(s[p])
    ensures s[p] in Trim(s)
    decreases |s|
  {
    if IsSpace(s[0]) {
      TrimKeeps(s[1..], p - 1);
    } else if IsSpace(s[|s| - 1]) {
      TrimKeeps(s[..|s| - 1], p);
    }
  }

  lemma {:induction false} TrimOccurs(s: string)
    ensures Occurs(Trim(s), s) && Occurs(TrimEnd(s), s)
    decreases |s|
  {
    assert OccursAt(s, s, 0);
    if s != "" {
      if IsSpace(s[|s| - 1]) {
        TrimOccurs(s[..|s| - 1]);
        PrefixOccurs(s, |s| - 1);
        OccursIn(TrimEnd(s), s[..|s| - 1], s);
      }
      if IsSpace(s[0]) {
        TrimOccurs(s[1..]);
        SuffixOccurs(s, 1);
        OccursIn(Trim(s), s[1..], s);
      }
    }
  }

  lemma {:induction false} TrimEndTwice(s: string)
    ensures TrimEnd(TrimEnd(s)) == TrimEnd(s) && TrimEnd(s) <= s
    decreases |s|
  {
    if s != "" && IsSpace(s[|s| - 1]) {
      TrimEndTwice(s[..|s| - 1]);
    }
  }

  // What is trimmed stays as it is.
  lemma {:induction false} TrimTwice(s: string)
    ensures Trim(Trim(s)) == Trim(s)
    decreases |s|
  {
    if s != "" && IsSpace(s[0]) {
      TrimTwice(s[1..]);
    } else {
      TrimEndTwice(s);
    }
  }

  // ---------------------------------------------------------------------------------------
  // Replacement
  // ---------------------------------------------------------------------------------------

  function Replace(s: string, from: string, to: string): string
    requires 0 < |from|
  {
    Join(Split(s, from), to)
  }

  lemma ReplaceNone(s: string, from: string, to: string)
    requires 0 < |from| && !Occurs(from, s)
    ensures Replace(s, from, to) == s
  {
    SplitNone(s, from);
  }

  lemma ReplaceOnce(front: string, from: string, back: string, to: string)
    requires 0 < |from| && !Occurs(from, back)
    requires forall p | 0 <= p < |front| :: !OccursAt(from, front + from + back, p)
    ensures Replace(front + from + back, from, to) == front + to + back
  {
    SplitAtFirst(front, from, back);
    SplitNone(back, from);
    var parts := Split(front + from + back, from);
    assert parts == [front, back] && parts[1..] == [back];
    assert Join([back], to) == back;
  }

  // A shorter replacement makes the text shorter, once for every part but one.
  lemma {:induction false} JoinLength(parts: seq<string>, longer: string, shorter: string)
    requires 0 < |parts| && |shorter| <= |longer|
    ensures |Join(parts, shorter)| <= |Join(parts, longer)|
    ensures 1 < |parts| ==> |Join(parts, shorter)| + |longer| - |shorter| <= |Join(parts, longer)|
  {
    if 1 < |parts| {
      JoinLength(parts[1..], longer, shorter);
    }
  }

  lemma SplitNeedsSeparator(s: string, separator: string)
    requires 0 < |separator| && Occurs(separator, s)
    ensures 1 < |Split(s, separator)|
  {
    SplitLeavesNone(s, separator);
    OnlyPart(s, separator);
  }

  lemma OnlyPart(s: string, separator: string)
    requires 0 < |separator|
    ensures |Split(s, separator)| == 1 ==> Split(s, separator)[0] == s
  {
    JoinSplit(s, separator);
  }

  lemma ReplaceShrinks(s: string, from: string, to: string)
    requires |to| < |from| && Occurs(from, s)
    ensures |Replace(s, from, to)| + |from| - |to| <= |s|
  {
    JoinSplit(s, from);
    SplitNeedsSeparator(s, from);
    JoinLength(Split(s, from), from, to);
  }

  lemma ReplaceKeepsStart(s: string, from: string, to: string, n: nat)
    requires 0 < |from| && n <= |s| && forall p | 0 <= p < n :: !OccursAt(from, s, p)
    ensures s[..n] <= Replace(s, from, to)
  {
    SplitKeepsStart(s, from, n);
  }
}
