/**
 The two file scanners of build.py, which read a binary chunk by chunk and carry a short tail
 over each boundary, against a search of the whole file. Bytes are modelled as characters.
 */
module BuildScanners {
  import opened Arithmetic
  import opened Sequences

  // ---------------------------------------------------------------------------------------
  // Chunks, tails and windows
  // ---------------------------------------------------------------------------------------

  // Python's chunk[-k:]: the last k bytes, or everything if there are fewer or k is 0.
  function PySuffix(chunk: string, k: nat): string {
    if k == 0 || |chunk| <= k then chunk else chunk[|chunk| - k..]
  }

  function Tail(chunks: seq<string>, i: nat, overlap: nat): string
    requires i <= |chunks|
  {
    if i == 0 then "" else PySuffix(chunks[i - 1], overlap)
  }

  // What the i-th iteration searches.
  function Window(chunks: seq<string>, i: nat, overlap: nat): string
    requires i < |chunks|
  {
    Tail(chunks, i, overlap) + chunks[i]
  }

  // Where that window starts in the file.
  function Offset(chunks: seq<string>, i: nat, overlap: nat): (start: nat)
    requires i < |chunks|
  {
    TailInFile(chunks, i, overlap);
    |Flatten(chunks[..i])| - |Tail(chunks, i, overlap)|
  }

  // The i-th window contains bytes from..to of the file.
  predicate Shows(chunks: seq<string>, overlap: nat, i: nat, from: nat, to: nat)
    requires i < |chunks|
  {
    Offset(chunks, i, overlap) <= from && to <= Offset(chunks, i, overlap) + |Window(chunks, i, overlap)|
  }

  // Every chunk but the last covers the overlap, as full reads do.
  ghost predicate LongEnough(chunks: seq<string>, overlap: nat) {
    forall i | 0 <= i < |chunks| - 1 :: overlap <= |chunks[i]|
  }

  lemma TailInFile(chunks: seq<string>, i: nat, overlap: nat)
    requires i <= |chunks|
    ensures |Tail(chunks, i, overlap)| <= |Flatten(chunks[..i])|
    ensures Flatten(chunks[..i])[|Flatten(chunks[..i])| - |Tail(chunks, i, overlap)|..] == Tail(chunks, i, overlap)
  {
    if i > 0 {
      assert chunks[..i][..i - 1] == chunks[..i - 1];
      assert Flatten(chunks[..i]) == Flatten(chunks[..i - 1]) + chunks[i - 1];
    }
  }

  // A window is a contiguous part of the file.
  lemma WindowInFile(chunks: seq<string>, i: nat, overlap: nat)
    requires i < |chunks|
    ensures var start := Offset(chunks, i, overlap);
            && start + |Window(chunks, i, overlap)| <= |Flatten(chunks)|
            && Flatten(chunks)[start..start + |Window(chunks, i, overlap)|] == Window(chunks, i, overlap)
  {
    TailInFile(chunks, i, overlap);
    ChunkInFile(chunks, i);
    TailAndChunk(Flatten(chunks[..i]), Tail(chunks, i, overlap), chunks[i], Flatten(chunks[i + 1..]));
  }

  lemma TailAndChunk(before: string, tail: string, chunk: string, after: string)
    requires |tail| <= |before| && before[|before| - |tail|..] == tail
    ensures var start := |before| - |tail|;
            (before + chunk + after)[start..start + |tail + chunk|] == tail + chunk
  {
    var file, start := before + chunk + after, |before| - |tail|;
    forall k | 0 <= k < |tail + chunk|
      ensures file[start + k] == (tail + chunk)[k]
    {
      assert k < |tail| ==> before[start + k] == before[start..][k];
    }
  }

  lemma ChunkInFile(chunks: seq<string>, i: nat)
    requires i < |chunks|
    ensures Flatten(chunks) == Flatten(chunks[..i]) + chunks[i] + Flatten(chunks[i + 1..])
  {
    SplitAround(chunks, i);
    FlattenConcat(chunks[..i] + [chunks[i]], chunks[i + 1..]);
    FlattenPush(chunks[..i], chunks[i]);
  }

  /** No stretch of at most overlap + 1 bytes falls between the windows. */
  lemma {:induction false} StretchIsSeen(chunks: seq<string>, overlap: nat, from: nat, to: nat) returns (i: nat)
    requires LongEnough(chunks, overlap) && from < to <= |Flatten(chunks)| && to - from <= overlap + 1
    ensures i < |chunks| && Shows(chunks, overlap, i, from, to)
  {
    var last := |chunks| - 1;
    var front := chunks[..last];
    if to <= |Flatten(front)| {
      i := StretchIsSeen(front, overlap, from, to);
      FrontShows(chunks, overlap, i, from, to);
    } else {
      i := last;
      LastShows(chunks, overlap, from, to);
    }
  }

  lemma FrontShows(chunks: seq<string>, overlap: nat, i: nat, from: nat, to: nat)
    requires i < |chunks| - 1
    ensures Shows(chunks[..|chunks| - 1], overlap, i, from, to) <==> Shows(chunks, overlap, i, from, to)
  {
    PrefixOfPrefix(chunks, |chunks| - 1, i);
  }

  lemma LastShows(chunks: seq<string>, overlap: nat, from: nat, to: nat)
    requires 0 < |chunks| && LongEnough(chunks, overlap)
    requires |Flatten(chunks[..|chunks| - 1])| < to <= |Flatten(chunks)| && to - from <= overlap + 1
    ensures Shows(chunks, overlap, |chunks| - 1, from, to)
  {
    var last := |chunks| - 1;
    assert Flatten(chunks) == Flatten(chunks[..last]) + chunks[last];
    TailInFile(chunks, last, overlap);
  }

  // ---------------------------------------------------------------------------------------
  // _carries_drmtap_marker
  // ---------------------------------------------------------------------------------------

  // The i-th iteration finds the marker.
  predicate SeenIn(chunks: seq<string>, marker: string, i: nat)
    requires 0 < |marker|
  {
    i < |chunks| && Occurs(marker, Window(chunks, i, |marker| - 1))
  }

  // The i-th window contains the whole occurrence at p of the file.
  predicate OccurrenceWhole(chunks: seq<string>, marker: string, i: nat, p: nat)
    requires 0 < |marker|
  {
    && i < |chunks| && OccursAt(marker, Flatten(chunks), p)
    && Shows(chunks, |marker| - 1, i, p, p + |marker|)
  }

  lemma SeenIsWhole(chunks: seq<string>, marker: string, i: nat) returns (p: nat)
    requires 0 < |marker| && SeenIn(chunks, marker, i)
    ensures OccurrenceWhole(chunks, marker, i, p)
  {
    var w, start := Window(chunks, i, |marker| - 1), Offset(chunks, i, |marker| - 1);
    WindowInFile(chunks, i, |marker| - 1);
    var q := AnOccurrence(marker, w);
    OccursInPart(marker, Flatten(chunks), start, w, q);
    p := start + q;
  }

  lemma AnOccurrence(needle: string, s: string) returns (q: nat)
    requires Occurs(needle, s)
    ensures q + |needle| <= |s| && OccursAt(needle, s, q)
  {
    q :| 0 <= q <= |s| - |needle| && OccursAt(needle, s, q);
  }

  lemma WholeIsSeen(chunks: seq<string>, marker: string, i: nat, p: nat)
    requires 0 < |marker| && OccurrenceWhole(chunks, marker, i, p)
    ensures SeenIn(chunks, marker, i)
  {
    var overlap := |marker| - 1;
    WindowInFile(chunks, i, overlap);
    FoundInPart(marker, Flatten(chunks), Offset(chunks, i, overlap), Window(chunks, i, overlap), p);
  }

  lemma FoundInPart(needle: string, file: string, start: nat, part: string, p: nat)
    requires start + |part| <= |file| && file[start..start + |part|] == part
    requires start <= p && p + |needle| <= start + |part| && OccursAt(needle, file, p)
    ensures Occurs(needle, part)
  {
    OccursInPart(needle, file, start, part, p - start);
    assert OccursAt(needle, part, p - start);
  }

  /** Whatever the chunks: a window holds the marker exactly if one shows a whole occurrence of it in the file. */
  lemma MarkerSeenExactly(chunks: seq<string>, marker: string)
    requires 0 < |marker|
    ensures (exists i: nat :: SeenIn(chunks, marker, i)) <==>
            exists i: nat, p: nat :: OccurrenceWhole(chunks, marker, i, p)
  {
    if i: nat :| SeenIn(chunks, marker, i) {
      var p := SeenIsWhole(chunks, marker, i);
    }
    if i: nat, p: nat :| OccurrenceWhole(chunks, marker, i, p) {
      WholeIsSeen(chunks, marker, i, p);
    }
  }

  /** The marker occurs in some window exactly if it occurs in the file. */
  lemma WindowsFindMarker(chunks: seq<string>, marker: string)
    requires 0 < |marker| && LongEnough(chunks, |marker| - 1)
    ensures (exists i: nat :: SeenIn(chunks, marker, i)) <==> Occurs(marker, Flatten(chunks))
  {
    if i: nat :| SeenIn(chunks, marker, i) {
      SeenOccurs(chunks, marker, i);
    }
    if p :| 0 <= p <= |Flatten(chunks)| - |marker| && OccursAt(marker, Flatten(chunks), p) {
      var i := OccurrenceSeen(chunks, marker, p);
    }
  }

  lemma SeenOccurs(chunks: seq<string>, marker: string, i: nat)
    requires 0 < |marker| && SeenIn(chunks, marker, i)
    ensures Occurs(marker, Flatten(chunks))
  {
    var p := SeenIsWhole(chunks, marker, i);
    assert OccursAt(marker, Flatten(chunks), p);
  }

  lemma OccurrenceSeen(chunks: seq<string>, marker: string, p: nat) returns (i: nat)
    requires 0 < |marker| && LongEnough(chunks, |marker| - 1) && OccursAt(marker, Flatten(chunks), p)
    ensures SeenIn(chunks, marker, i)
  {
    i := StretchIsSeen(chunks, |marker| - 1, p, p + |marker|);
    WholeIsSeen(chunks, marker, i, p);
  }

  /** `chunks` is what `f.read` returns until the end of the file. */
  method CarriesDrmtapMarker(chunks: seq<string>, marker: string) returns (found: bool)
    requires 0 < |marker|
    ensures found <==> exists i: nat :: SeenIn(chunks, marker, i)
    ensures LongEnough(chunks, |marker| - 1) ==> (found <==> Occurs(marker, Flatten(chunks)))
  {
    if LongEnough(chunks, |marker| - 1) {
      WindowsFindMarker(chunks, marker);
    }
    var tail := "";
    for i := 0 to |chunks|
      invariant tail == Tail(chunks, i, |marker| - 1)
      invariant forall j: nat | j < i :: !SeenIn(chunks, marker, j)
    {
      if Occurs(marker, tail + chunks[i]) {
        assert SeenIn(chunks, marker, i);
        return true;
      }
      tail := PySuffix(chunks[i], |marker| - 1);
    }
    found := false;
  }

  // ---------------------------------------------------------------------------------------
  // _max_glibc_minor
  // ---------------------------------------------------------------------------------------

  const GLIBC_PREFIX: string := "GLIBC_2."
  const GLIBC_OVERLAP: nat := 16

  predicate IsDigit(c: char) {
    '0' <= c <= '9'
  }

  // The greedy \d* from position p.
  function DigitRun(s: string, p: nat): (n: nat)
    requires p <= |s|
    ensures p + n <= |s| && forall k | p <= k < p + n :: IsDigit(s[k])
    ensures p + n < |s| ==> !IsDigit(s[p + n])
    decreases |s| - p
  {
    if p < |s| && IsDigit(s[p]) then 1 + DigitRun(s, p + 1) else 0
  }

  function Digit(c: char): nat
    requires IsDigit(c)
  {
    c as int - '0' as int
  }

  // Python's int() of a run of digits.
  function Value(digits: string): nat
    requires forall k | 0 <= k < |digits| :: IsDigit(digits[k])
  {
    if digits == "" then 0
    else Value(digits[..|digits| - 1]) * 10 + Digit(digits[|digits| - 1])
  }

  // The pattern GLIBC_2\.(\d+) matches at p.
  predicate MatchAt(s: string, p: nat) {
    OccursAt(GLIBC_PREFIX, s, p) && p + 8 < |s| && IsDigit(s[p + 8])
  }

  // What it captures there, and the number that is.
  function Captured(s: string, p: nat): (digits: string)
    requires MatchAt(s, p)
    ensures |digits| == DigitRun(s, p + 8) && forall k | 0 <= k < |digits| :: IsDigit(digits[k])
  {
    s[p + 8..p + 8 + DigitRun(s, p + 8)]
  }

  function MinorAt(s: string, p: nat): nat
    requires MatchAt(s, p)
  {
    Value(Captured(s, p))
  }

  // `best` is the largest number captured anywhere, 0 if there is none.
  ghost predicate IsMaxMinor(s: string, best: nat) {
    && (forall p: nat | MatchAt(s, p) :: MinorAt(s, p) <= best)
    && (best == 0 || exists p: nat :: MatchAt(s, p) && MinorAt(s, p) == best)
  }

  // ---------------------------------------------------------------------------------------
  // ... in terms of decimal numbers
  // ---------------------------------------------------------------------------------------

  // A number as it is printed.
  function Decimal(n: nat): (digits: string)
    ensures 0 < |digits|
  {
    if n < 10 then [DecimalDigit(n)] else Decimal(n / 10) + [DecimalDigit(n % 10)]
  }

  function DecimalDigit(d: nat): char
    requires d < 10
  {
    ('0' as int + d) as char
  }

  predicate Zeros(s: string) {
    forall k | 0 <= k < |s| :: s[k] == '0'
  }

  lemma ValuePush(digits: string, last: char)
    requires (forall k | 0 <= k < |digits| :: IsDigit(digits[k])) && IsDigit(last)
    ensures forall k | 0 <= k < |digits + [last]| :: IsDigit((digits + [last])[k])
    ensures Value(digits + [last]) == 10 * Value(digits) + Digit(last)
  {
    assert (digits + [last])[..|digits|] == digits;
  }

  /** The value of a printed number, with or without leading zeros, is that number. */
  lemma {:induction false} ValueOfDecimal(zeros: string, n: nat)
    requires Zeros(zeros)
    ensures forall k | 0 <= k < |zeros + Decimal(n)| :: IsDigit((zeros + Decimal(n))[k])
    ensures Value(zeros + Decimal(n)) == n
  {
    var last := DecimalDigit(n % 10);
    if n < 10 {
      ValueOfZeros(zeros);
      ValuePush(zeros, last);
      assert Decimal(n) == [last];
    } else {
      ValueOfDecimal(zeros, n / 10);
      ValuePush(zeros + Decimal(n / 10), last);
      Reassociate(zeros, Decimal(n / 10), [last]);
    }
  }

  lemma {:induction false} ValueOfZeros(zeros: string)
    requires Zeros(zeros)
    ensures Value(zeros) == 0
  {
    if zeros != "" {
      ValueOfZeros(zeros[..|zeros| - 1]);
    }
  }

  // Every run of digits is a printed number with leading zeros.
  lemma {:induction false} DecimalOfValue(digits: string) returns (zeros: string)
    requires digits != "" && forall k | 0 <= k < |digits| :: IsDigit(digits[k])
    ensures Zeros(zeros) && digits == zeros + Decimal(Value(digits))
  {
    var front, last := digits[..|digits| - 1], digits[|digits| - 1];
    assert digits == front + [last];
    ValuePush(front, last);
    if front == "" {
      zeros := "";
    } else {
      zeros := DecimalOfValue(front);
      zeros := DecimalPush(zeros, Value(front), last);
    }
  }

  lemma DecimalPush(zeros: string, v: nat, last: char) returns (more: string)
    requires Zeros(zeros) && IsDigit(last)
    ensures Zeros(more) && zeros + Decimal(v) + [last] == more + Decimal(10 * v + Digit(last))
  {
    if v == 0 {
      more := zeros + "0";
    } else {
      more := zeros;
      DecimalStep(v, last);
      Reassociate(zeros, Decimal(v), [last]);
    }
  }

  lemma DecimalStep(v: nat, last: char)
    requires 0 < v && IsDigit(last)
    ensures Decimal(10 * v + Digit(last)) == Decimal(v) + [last]
  {
    DivUnique(10 * v + Digit(last), 10, v, Digit(last));
  }

  // At p stands the text of the symbol version with minor number n, with or without leading zeros.
  ghost predicate Stands(s: string, p: nat, n: nat) {
    exists zeros :: Zeros(zeros) && StandsAt(s, p, "GLIBC_2." + zeros + Decimal(n))
  }

  predicate StandsAt(s: string, p: nat, text: string) {
    var end := p + |text|;
    end <= |s| && s[p..end] == text && (end == |s| || !('0' <= s[end] <= '9'))
  }

  lemma MinorStands(s: string, p: nat)
    requires MatchAt(s, p)
    ensures Stands(s, p, MinorAt(s, p))
  {
    var zeros := DecimalOfValue(Captured(s, p));
    Reassociate("GLIBC_2.", zeros, Decimal(MinorAt(s, p)));
    MatchStands(s, p);
    assert StandsAt(s, p, "GLIBC_2." + zeros + Decimal(MinorAt(s, p)));
  }

  lemma MatchStands(s: string, p: nat)
    requires MatchAt(s, p)
    ensures StandsAt(s, p, "GLIBC_2." + Captured(s, p))
  {
    var end := p + 8 + DigitRun(s, p + 8);
    assert s[p..end] == s[p..p + 8] + s[p + 8..end];
  }

  lemma StandsIsMinor(s: string, p: nat, n: nat)
    requires Stands(s, p, n)
    ensures MatchAt(s, p) && MinorAt(s, p) == n
  {
    var zeros :| Zeros(zeros) && StandsAt(s, p, "GLIBC_2." + zeros + Decimal(n));
    var digits := zeros + Decimal(n);
    ValueOfDecimal(zeros, n);
    Reassociate("GLIBC_2.", zeros, Decimal(n));
    TextMatches(s, p, digits);
  }

  lemma TextMatches(s: string, p: nat, digits: string)
    requires digits != "" && forall k | 0 <= k < |digits| :: IsDigit(digits[k])
    requires StandsAt(s, p, "GLIBC_2." + digits)
    ensures MatchAt(s, p) && Captured(s, p) == digits
  {
    var text, end := "GLIBC_2." + digits, p + 8 + |digits|;
    SliceOfSlice(s, p, end, 0, 8);
    SliceOfSlice(s, p, end, 8, |text|);
    assert text[0..8] == "GLIBC_2." && text[8..|text|] == digits;
    assert forall k | p + 8 <= k < end :: s[k] == s[p + 8..end][k - (p + 8)];
    RunOf(s, p + 8, |digits|);
  }

  /** The maximum is the largest number printed after a literal `GLIBC_2.` anywhere in the text, 0 if none is. */
  lemma MaxMinorIsDecimal(s: string, best: nat)
    ensures IsMaxMinor(s, best) <==>
            && (forall p: nat, n: nat | Stands(s, p, n) :: n <= best)
            && (best == 0 || exists p: nat :: Stands(s, p, best))
  {
    forall p: nat, n: nat | Stands(s, p, n)
      ensures MatchAt(s, p) && MinorAt(s, p) == n
    {
      StandsIsMinor(s, p, n);
    }
    forall p: nat | MatchAt(s, p)
      ensures Stands(s, p, MinorAt(s, p))
    {
      MinorStands(s, p);
    }
  }

  // ---------------------------------------------------------------------------------------
  // The matches of one window
  // ---------------------------------------------------------------------------------------

  // A match leaves no room for another one inside it.
  lemma MatchesDisjoint(s: string, p: nat, q: nat)
    requires MatchAt(s, p) && p < q < p + 8 + DigitRun(s, p + 8)
    ensures !MatchAt(s, q)
  {
    PrefixChar(s, p, if q < p + 8 then q - p else 0);
    assert s[q] != 'G';
    if OccursAt(GLIBC_PREFIX, s, q) {
      PrefixChar(s, q, 0);
    }
  }

  lemma PrefixChar(s: string, p: nat, k: nat)
    requires OccursAt(GLIBC_PREFIX, s, p) && k < 8
    ensures s[p + k] == GLIBC_PREFIX[k]
  {
    assert s[p..p + 8][k] == s[p + k];
  }

  // `best` is the larger of `before` and every number captured in the window.
  ghost predicate RaisedBy(window: string, before: nat, best: nat) {
    && before <= best && (forall p: nat | MatchAt(window, p) :: MinorAt(window, p) <= best)
    && (best == before || exists p: nat :: MatchAt(window, p) && MinorAt(window, p) == best)
  }

  /** The `finditer` loop over one window raises `best` to the largest number captured in it. */
  method MaxInWindow(window: string, before: nat) returns (best: nat)
    ensures RaisedBy(window, before, best)
  {
    best := before;
    var pos := 0;
    while pos < |window|
      invariant before <= best && forall p: nat | p < pos && MatchAt(window, p) :: MinorAt(window, p) <= best
      invariant best == before || exists p: nat :: MatchAt(window, p) && MinorAt(window, p) == best
    {
      if MatchAt(window, pos) {
        best := Max(best, MinorAt(window, pos));
        forall q: nat | pos < q < pos + 8 + DigitRun(window, pos + 8)
          ensures !MatchAt(window, q)
        {
          MatchesDisjoint(window, pos, q);
        }
        pos := pos + 8 + DigitRun(window, pos + 8);
      } else {
        pos := pos + 1;
      }
    }
  }

  // ---------------------------------------------------------------------------------------
  // ... over windows, and over the file
  // ---------------------------------------------------------------------------------------

  predicate MatchIn(chunks: seq<string>, i: nat, p: nat) {
    i < |chunks| && MatchAt(Window(chunks, i, GLIBC_OVERLAP), p)
  }

  function MinorIn(chunks: seq<string>, i: nat, p: nat): nat
    requires MatchIn(chunks, i, p)
  {
    MinorAt(Window(chunks, i, GLIBC_OVERLAP), p)
  }

  // `best` is the largest number captured in the first n windows.
  ghost predicate IsMaxInWindows(chunks: seq<string>, n: nat, best: nat) {
    && (forall i: nat, p: nat | i < n && MatchIn(chunks, i, p) :: MinorIn(chunks, i, p) <= best)
    && (best == 0 || exists i: nat, p: nat :: i < n && MatchIn(chunks, i, p) && MinorIn(chunks, i, p) == best)
  }

  // No captured number has more than nine digits.
  ghost predicate ShortRuns(s: string) {
    forall p: nat | MatchAt(s, p) :: DigitRun(s, p + 8) <= 9
  }

  lemma {:induction false} ValuePrefix(digits: string, k: nat)
    requires k <= |digits| && forall i | 0 <= i < |digits| :: IsDigit(digits[i])
    ensures Value(digits[..k]) <= Value(digits)
  {
    if k < |digits| {
      ValuePrefix(digits[..|digits| - 1], k);
      assert digits[..|digits| - 1][..k] == digits[..k];
    } else {
      assert digits[..k] == digits;
    }
  }

  // Cutting digits off a number never makes it larger, and a positive one smaller.
  lemma ValueShrinks(cut: string, digits: string)
    requires cut <= digits && forall i | 0 <= i < |digits| :: IsDigit(digits[i])
    ensures Value(cut) <= Value(digits) && (Value(cut) == Value(digits) > 0 ==> cut == digits)
  {
    if cut != digits {
      var front := digits[..|digits| - 1];
      ValuePrefix(front, |cut|);
      assert front[..|cut|] == cut;
    }
  }

  lemma MatchMoves(file: string, start: nat, part: string, p: nat)
    requires start + |part| <= |file| && file[start..start + |part|] == part && MatchAt(part, p)
    ensures MatchAt(file, start + p)
  {
    OccursInPart(GLIBC_PREFIX, file, start, part, p);
    assert part[p + 8] == file[start + (p + 8)];
  }

  // The digits seen in a part of the file are the file's; only the end of the part can cut them.
  lemma DigitsInPart(file: string, start: nat, part: string, p: nat)
    requires start + |part| <= |file| && file[start..start + |part|] == part && p <= |part|
    ensures DigitRun(part, p) <= DigitRun(file, start + p)
    ensures p + DigitRun(file, start + p) <= |part| ==> DigitRun(part, p) == DigitRun(file, start + p)
    ensures part[p..p + DigitRun(part, p)] <= file[start + p..start + p + DigitRun(file, start + p)]
  {
    assert forall k | 0 <= k < |part| :: part[k] == file[start + k];
    var cut, whole := DigitRun(part, p), DigitRun(file, start + p);
    assert cut <= whole && (p + whole <= |part| ==> cut == whole);
    SliceOfSlice(file, start, start + |part|, p, p + cut);
    SliceOfSlice(file, start + p, start + p + whole, 0, cut);
  }

  // A match in a part of the file is a match in the file; only the end of its digits can be cut.
  lemma MatchInPart(file: string, start: nat, part: string, p: nat)
    requires start + |part| <= |file| && file[start..start + |part|] == part && MatchAt(part, p)
    ensures MatchAt(file, start + p) && MinorAt(part, p) <= MinorAt(file, start + p)
    ensures MinorAt(part, p) == MinorAt(file, start + p) > 0 ==> DigitRun(part, p + 8) == DigitRun(file, start + p + 8)
  {
    MatchMoves(file, start, part, p);
    CapturedInPart(file, start, part, p);
    ValueShrinks(Captured(part, p), Captured(file, start + p));
  }

  lemma CapturedInPart(file: string, start: nat, part: string, p: nat)
    requires start + |part| <= |file| && file[start..start + |part|] == part
    requires MatchAt(part, p) && MatchAt(file, start + p)
    ensures Captured(part, p) <= Captured(file, start + p)
    ensures p + 8 + DigitRun(file, start + p + 8) <= |part| ==> Captured(part, p) == Captured(file, start + p)
  {
    DigitsInPart(file, start, part, p + 8);
  }

  lemma WindowMinorBelow(chunks: seq<string>, i: nat, p: nat)
    requires MatchIn(chunks, i, p)
    ensures exists q: nat :: MatchAt(Flatten(chunks), q) && MinorIn(chunks, i, p) <= MinorAt(Flatten(chunks), q)
  {
    WindowInFile(chunks, i, GLIBC_OVERLAP);
    MatchInPart(Flatten(chunks), Offset(chunks, i, GLIBC_OVERLAP), Window(chunks, i, GLIBC_OVERLAP), p);
  }

  lemma WholeMatchInPart(file: string, start: nat, part: string, p: nat)
    requires start + |part| <= |file| && file[start..start + |part|] == part && MatchAt(file, start + p)
    requires p + 8 + DigitRun(file, start + p + 8) <= |part|
    ensures MatchAt(part, p) && MinorAt(part, p) == MinorAt(file, start + p)
  {
    MatchMovesBack(file, start, part, p);
    CapturedInPart(file, start, part, p);
  }

  lemma MatchMovesBack(file: string, start: nat, part: string, p: nat)
    requires start + |part| <= |file| && file[start..start + |part|] == part && MatchAt(file, start + p)
    requires p + 8 < |part|
    ensures MatchAt(part, p)
  {
    OccursInPart(GLIBC_PREFIX, file, start, part, p);
    assert part[p + 8] == file[start + (p + 8)];
  }

  // The i-th window contains the whole match at p of the file.
  predicate MatchWhole(chunks: seq<string>, i: nat, p: nat) {
    && i < |chunks| && MatchAt(Flatten(chunks), p)
    && Shows(chunks, GLIBC_OVERLAP, i, p, p + 8 + DigitRun(Flatten(chunks), p + 8))
  }

  lemma WholeMatchSeen(chunks: seq<string>, i: nat, p: nat) returns (q: nat)
    requires MatchWhole(chunks, i, p)
    ensures MatchIn(chunks, i, q) && MinorIn(chunks, i, q) == MinorAt(Flatten(chunks), p)
  {
    var start := Offset(chunks, i, GLIBC_OVERLAP);
    WindowInFile(chunks, i, GLIBC_OVERLAP);
    q := p - start;
    WholeMatchInPart(Flatten(chunks), start, Window(chunks, i, GLIBC_OVERLAP), q);
  }

  // A window that captures a number of the file in full shows the whole match.
  lemma FullNumberIsWhole(chunks: seq<string>, i: nat, q: nat) returns (p: nat)
    requires MatchIn(chunks, i, q)
    ensures MatchAt(Flatten(chunks), p) && MinorIn(chunks, i, q) <= MinorAt(Flatten(chunks), p)
    ensures 0 < MinorIn(chunks, i, q) == MinorAt(Flatten(chunks), p) ==> MatchWhole(chunks, i, p)
  {
    var start := Offset(chunks, i, GLIBC_OVERLAP);
    WindowInFile(chunks, i, GLIBC_OVERLAP);
    MatchInPart(Flatten(chunks), start, Window(chunks, i, GLIBC_OVERLAP), q);
    p := start + q;
  }

  // Some window shows a whole match that captures `max`, if there is anything to report.
  ghost predicate Shown(chunks: seq<string>, max: nat) {
    max == 0 || exists i: nat, p: nat :: MatchWhole(chunks, i, p) && MinorAt(Flatten(chunks), p) == max
  }

  /** Whatever the chunks: the windows' maximum is the file's exactly if it is zero or one shows it whole. */
  lemma MaximumSeenExactly(chunks: seq<string>, max: nat)
    requires IsMaxMinor(Flatten(chunks), max)
    ensures IsMaxInWindows(chunks, |chunks|, max) <==> Shown(chunks, max)
  {
    forall i: nat, q: nat | i < |chunks| && MatchIn(chunks, i, q)
      ensures MinorIn(chunks, i, q) <= max && (0 < MinorIn(chunks, i, q) == max ==> Shown(chunks, max))
    {
      WindowAndMaximum(chunks, i, q, max);
    }
    if Shown(chunks, max) {
      ShownInWindow(chunks, max);
    }
  }

  lemma WindowAndMaximum(chunks: seq<string>, i: nat, q: nat, max: nat)
    requires MatchIn(chunks, i, q) && IsMaxMinor(Flatten(chunks), max)
    ensures MinorIn(chunks, i, q) <= max && (0 < MinorIn(chunks, i, q) == max ==> Shown(chunks, max))
  {
    var p := FullNumberIsWhole(chunks, i, q);
    assert MinorAt(Flatten(chunks), p) <= max;
  }

  lemma ShownInWindow(chunks: seq<string>, max: nat)
    requires Shown(chunks, max)
    ensures max == 0 || exists i: nat, q: nat :: i < |chunks| && MatchIn(chunks, i, q) && MinorIn(chunks, i, q) == max
  {
    if max != 0 {
      var i: nat, p: nat :| MatchWhole(chunks, i, p) && MinorAt(Flatten(chunks), p) == max;
      var q := WholeMatchSeen(chunks, i, p);
    }
  }

  /** A match with at most nine digits is whole in some window. */
  lemma ShortMatchWhole(chunks: seq<string>, p: nat) returns (i: nat)
    requires LongEnough(chunks, GLIBC_OVERLAP) && MatchAt(Flatten(chunks), p)
    requires DigitRun(Flatten(chunks), p + 8) <= 9
    ensures MatchWhole(chunks, i, p)
  {
    i := StretchIsSeen(chunks, GLIBC_OVERLAP, p, p + 8 + DigitRun(Flatten(chunks), p + 8));
  }

  // Some number of at most nine digits attains the maximum, if there is anything to report.
  ghost predicate ShortMaximum(file: string, max: nat) {
    || max == 0
    || exists p: nat :: MatchAt(file, p) && MinorAt(file, p) == max && DigitRun(file, p + 8) <= 9
  }

  lemma ShortMaximumShown(chunks: seq<string>, max: nat)
    requires LongEnough(chunks, GLIBC_OVERLAP) && ShortMaximum(Flatten(chunks), max)
    ensures Shown(chunks, max)
  {
    if max != 0 {
      var p: nat :| MatchAt(Flatten(chunks), p) && MinorAt(Flatten(chunks), p) == max
                    && DigitRun(Flatten(chunks), p + 8) <= 9;
      var i := ShortMatchWhole(chunks, p);
    }
  }

  lemma OneMaxInWindows(chunks: seq<string>, n: nat, a: nat, b: nat)
    requires IsMaxInWindows(chunks, n, a) && IsMaxInWindows(chunks, n, b)
    ensures a == b
  {
  }

  // The file's maximum exists: the largest number captured from position n on.
  lemma {:induction false} FileMaximum(file: string, n: nat) returns (max: nat)
    requires n <= |file|
    ensures forall p: nat | n <= p && MatchAt(file, p) :: MinorAt(file, p) <= max
    ensures max == 0 || exists p: nat :: MatchAt(file, p) && MinorAt(file, p) == max
    decreases |file| - n
  {
    if n == |file| {
      max := 0;
    } else {
      max := FileMaximum(file, n + 1);
      if MatchAt(file, n) && max < MinorAt(file, n) {
        max := MinorAt(file, n);
      }
    }
  }

  /** What the windows' maximum says about the file's: it is never larger, it is the same exactly if
      a window shows it whole, and no number over nine digits is enough for that. */
  lemma WindowsAndFile(chunks: seq<string>, best: nat)
    requires IsMaxInWindows(chunks, |chunks|, best)
    ensures forall max: nat | IsMaxMinor(Flatten(chunks), max) :: best <= max && (best == max <==> Shown(chunks, max))
    ensures LongEnough(chunks, GLIBC_OVERLAP) && ShortRuns(Flatten(chunks)) ==> IsMaxMinor(Flatten(chunks), best)
  {
    forall max: nat | IsMaxMinor(Flatten(chunks), max)
      ensures best <= max && (best == max <==> Shown(chunks, max))
    {
      ReportStands(chunks, best);
      MaximumSeenExactly(chunks, max);
      if Shown(chunks, max) {
        OneMaxInWindows(chunks, |chunks|, best, max);
      }
    }
    if LongEnough(chunks, GLIBC_OVERLAP) && ShortRuns(Flatten(chunks)) {
      var max := FileMaximum(Flatten(chunks), 0);
      assert IsMaxMinor(Flatten(chunks), max);
      ShortMaximumShown(chunks, max);
    }
  }

  /** Whatever the scan reports is at most a number that really stands in the file. */
  lemma ReportStands(chunks: seq<string>, best: nat)
    requires IsMaxInWindows(chunks, |chunks|, best)
    ensures best == 0 || exists p: nat :: MatchAt(Flatten(chunks), p) && best <= MinorAt(Flatten(chunks), p)
  {
    if best != 0 {
      var i: nat, p: nat :| i < |chunks| && MatchIn(chunks, i, p) && MinorIn(chunks, i, p) == best;
      WindowMinorBelow(chunks, i, p);
    }
  }

  /** `chunks` is what `f.read` returns until the end of the file. */
  method MaxGlibcMinor(chunks: seq<string>) returns (best: nat)
    ensures IsMaxInWindows(chunks, |chunks|, best)
    ensures forall max: nat | IsMaxMinor(Flatten(chunks), max) :: best <= max && (best == max <==> Shown(chunks, max))
    ensures LongEnough(chunks, GLIBC_OVERLAP) && ShortRuns(Flatten(chunks)) ==> IsMaxMinor(Flatten(chunks), best)
  {
    best := ScanWindows(chunks);
    WindowsAndFile(chunks, best);
  }

  // Its loop.
  method ScanWindows(chunks: seq<string>) returns (best: nat)
    ensures IsMaxInWindows(chunks, |chunks|, best)
  {
    best := 0;
    var tail := "";
    for i := 0 to |chunks|
      invariant tail == Tail(chunks, i, GLIBC_OVERLAP)
      invariant IsMaxInWindows(chunks, i, best)
    {
      best, tail := ScanWindow(chunks, i, tail, best);
    }
  }

  // Its body.
  method ScanWindow(chunks: seq<string>, i: nat, tail: string, before: nat) returns (best: nat, tail': string)
    requires i < |chunks| && tail == Tail(chunks, i, GLIBC_OVERLAP) && IsMaxInWindows(chunks, i, before)
    ensures IsMaxInWindows(chunks, i + 1, best) && tail' == Tail(chunks, i + 1, GLIBC_OVERLAP)
  {
    best := MaxInWindow(tail + chunks[i], before);
    AnotherWindow(chunks, i, before, best);
    tail' := PySuffix(chunks[i], GLIBC_OVERLAP);
  }

  lemma AnotherWindow(chunks: seq<string>, i: nat, before: nat, best: nat)
    requires i < |chunks| && IsMaxInWindows(chunks, i, before)
    requires RaisedBy(Window(chunks, i, GLIBC_OVERLAP), before, best)
    ensures IsMaxInWindows(chunks, i + 1, best)
  {
    if best != before {
      var p: nat :| MatchAt(Window(chunks, i, GLIBC_OVERLAP), p)
        && MinorAt(Window(chunks, i, GLIBC_OVERLAP), p) == best;
      assert MatchIn(chunks, i, p) && MinorIn(chunks, i, p) == best;
    } else if best != 0 {
      var j: nat, p: nat :| j < i && MatchIn(chunks, j, p) && MinorIn(chunks, j, p) == best;
      assert j < i + 1;
    }
    forall j: nat, p: nat | j < i + 1 && MatchIn(chunks, j, p)
      ensures MinorIn(chunks, j, p) <= best
    {
      if j == i {
        assert MatchAt(Window(chunks, i, GLIBC_OVERLAP), p);
      }
    }
  }

  // ---------------------------------------------------------------------------------------
  // When the maximum gets lost
  // ---------------------------------------------------------------------------------------

  predicate Attains(s: string, p: nat, v: nat) {
    MatchAt(s, p) && MinorAt(s, p) == v
  }

  // v is the most any match captures, and every match that captures it has at least ten digits.
  ghost predicate OnlyLongAttain(s: string, v: nat) {
    forall p: nat | MatchAt(s, p) ::
      MinorAt(s, p) <= v && (MinorAt(s, p) == v ==> DigitRun(s, p + 8) > 9)
  }

  ghost predicate AllBelow(chunks: seq<string>, v: nat) {
    forall i: nat, p: nat | MatchIn(chunks, i, p) :: MinorIn(chunks, i, p) < v
  }

  // The last chunk is the whole string, or starts at the last digit of a match that captures v.
  ghost predicate LastChunkAtDigit(s: string, chunks: seq<string>, v: nat)
    requires 0 < |chunks|
  {
    var last := chunks[|chunks| - 1];
    |last| == |s| || exists q: nat :: Attains(s, q, v) && q + 8 + DigitRun(s, q + 8) == |s| - |last| + 1
  }

  // The last match that captures v ends its digits just after b.
  ghost predicate LastCut(s: string, v: nat, last: nat, b: nat) {
    && OnlyLongAttain(s, v) && Attains(s, last, v) && b == last + 8 + DigitRun(s, last + 8) - 1
    && forall q: nat | last < q :: !Attains(s, q, v)
  }

  lemma {:induction false} LastAttaining(s: string, v: nat, p: nat) returns (last: nat)
    requires Attains(s, p, v)
    ensures Attains(s, last, v) && forall q: nat | last < q :: !Attains(s, q, v)
    decreases |s| - p
  {
    if q: nat :| p < q && Attains(s, q, v) {
      last := LastAttaining(s, v, q);
    } else {
      last := p;
    }
  }

  // A match of a prefix that captures v is one of the whole string, with the same digits.
  lemma PrefixAttains(s: string, v: nat, b: nat, q: nat)
    requires b <= |s| && 0 < v && OnlyLongAttain(s, v) && MatchAt(s[..b], q)
    ensures MatchAt(s, q) && MinorAt(s[..b], q) <= v
    ensures MinorAt(s[..b], q) == v ==> MinorAt(s, q) == v && DigitRun(s[..b], q + 8) == DigitRun(s, q + 8)
  {
    assert s[0..0 + |s[..b]|] == s[..b];
    MatchInPart(s, 0, s[..b], q);
  }

  lemma PrefixOnlyLong(s: string, v: nat, b: nat)
    requires b <= |s| && 0 < v && OnlyLongAttain(s, v)
    ensures OnlyLongAttain(s[..b], v)
  {
    forall q: nat | MatchAt(s[..b], q)
      ensures MinorAt(s[..b], q) <= v && (MinorAt(s[..b], q) == v ==> DigitRun(s[..b], q + 8) > 9)
    {
      PrefixAttains(s, v, b, q);
    }
  }

  // Cut just before the last digit of every number that attains v, the last one first.
  lemma {:induction false} CutAll(s: string, v: nat) returns (chunks: seq<string>)
    requires 0 < v && OnlyLongAttain(s, v)
    ensures 0 < |chunks| && Flatten(chunks) == s && LongEnough(chunks, GLIBC_OVERLAP)
    ensures AllBelow(chunks, v) && LastChunkAtDigit(s, chunks, v)
    decreases |s|
  {
    if p: nat :| Attains(s, p, v) {
      var last := LastAttaining(s, v, p);
      var b := last + 8 + DigitRun(s, last + 8) - 1;
      PrefixOnlyLong(s, v, b);
      var front := CutAll(s[..b], v);
      LastPartFits(front);
      FrontChunkLong(s, v, last, b, front[|front| - 1], front);
      OneMoreCut(s, v, last, b, front);
      chunks := front + [s[b..]];
    } else {
      chunks := [s];
      FlattenPush([], s);
      assert [] + [s] == [s];
      WholeStringBelow(s, v);
    }
  }

  lemma LastPartFits(chunks: seq<string>)
    requires 0 < |chunks|
    ensures |chunks[|chunks| - 1]| <= |Flatten(chunks)|
  {
  }

  lemma WholeStringBelow(s: string, v: nat)
    requires 0 < v && OnlyLongAttain(s, v) && forall p: nat :: !Attains(s, p, v)
    ensures AllBelow([s], v)
  {
    forall i: nat, p: nat | MatchIn([s], i, p)
      ensures MinorIn([s], i, p) < v
    {
      assert Window([s], i, GLIBC_OVERLAP) == s;
      assert !Attains(s, p, v);
    }
  }

  // The chunk before the last cut is longer than the overlap.
  lemma FrontChunkLong(s: string, v: nat, last: nat, b: nat, chunk: string, front: seq<string>)
    requires 0 < v && LastCut(s, v, last, b)
    requires 0 < |front| && chunk == front[|front| - 1] && LastChunkAtDigit(s[..b], front, v) && |chunk| <= b
    ensures GLIBC_OVERLAP < |chunk|
  {
    if |chunk| < b {
      var q: nat :| Attains(s[..b], q, v) && q + 8 + DigitRun(s[..b], q + 8) == b - |chunk| + 1;
      EarlierEnds(s, v, last, b, q);
    }
  }

  // A match of the front that captures v ends before the last one of the whole string.
  lemma EarlierEnds(s: string, v: nat, last: nat, b: nat, q: nat)
    requires 0 < v && LastCut(s, v, last, b) && Attains(s[..b], q, v)
    ensures q + 8 + DigitRun(s[..b], q + 8) <= last
  {
    PrefixAttains(s, v, b, q);
    assert q != last by {
      assert DigitRun(s[..b], q + 8) <= b - (q + 8);
    }
    assert Attains(s, q, v);
    NotInside(s, q, last);
  }

  lemma NotInside(s: string, p: nat, q: nat)
    requires MatchAt(s, p) && MatchAt(s, q) && p < q
    ensures p + 8 + DigitRun(s, p + 8) <= q
  {
    if q < p + 8 + DigitRun(s, p + 8) {
      MatchesDisjoint(s, p, q);
    }
  }

  // One more cut leaves the windows of the front as they are; the new last one starts past the number.
  lemma OneMoreCut(s: string, v: nat, last: nat, b: nat, front: seq<string>)
    requires 0 < v && LastCut(s, v, last, b)
    requires 0 < |front| && Flatten(front) == s[..b] && AllBelow(front, v)
    requires LongEnough(front, GLIBC_OVERLAP) && GLIBC_OVERLAP < |front[|front| - 1]|
    ensures Flatten(front + [s[b..]]) == s && LongEnough(front + [s[b..]], GLIBC_OVERLAP)
    ensures AllBelow(front + [s[b..]], v) && LastChunkAtDigit(s, front + [s[b..]], v)
  {
    var chunks := front + [s[b..]];
    FlattenPush(front, s[b..]);
    assert s == s[..b] + s[b..];
    assert last + 8 + DigitRun(s, last + 8) == |s| - |s[b..]| + 1;
    forall i: nat, p: nat | MatchIn(chunks, i, p)
      ensures MinorIn(chunks, i, p) < v
    {
      if i < |front| {
        FrontWindow(front, s[b..], i, p);
      } else {
        LastWindow(front, s, b);
        AfterLast(s, v, last, b, p);
      }
    }
  }

  lemma FrontWindow(front: seq<string>, chunk: string, i: nat, p: nat)
    requires i < |front| && MatchIn(front + [chunk], i, p)
    ensures MatchIn(front, i, p) && MinorIn(front, i, p) == MinorIn(front + [chunk], i, p)
  {
    assert Window(front + [chunk], i, GLIBC_OVERLAP) == Window(front, i, GLIBC_OVERLAP);
  }

  lemma AfterLast(s: string, v: nat, last: nat, b: nat, p: nat)
    requires LastCut(s, v, last, b) && MatchAt(s[b - GLIBC_OVERLAP..], p)
    ensures MinorAt(s[b - GLIBC_OVERLAP..], p) < v
  {
    var start := b - GLIBC_OVERLAP;
    assert s[start..start + |s[start..]|] == s[start..];
    MatchInPart(s, start, s[start..], p);
    assert !Attains(s, start + p, v);
  }

  lemma LastWindow(front: seq<string>, s: string, b: nat)
    requires b <= |s| && 0 < |front| && Flatten(front) == s[..b] && GLIBC_OVERLAP < |front[|front| - 1]|
    ensures GLIBC_OVERLAP <= b && Window(front + [s[b..]], |front|, GLIBC_OVERLAP) == s[b - GLIBC_OVERLAP..]
  {
    var n, chunks := |front|, front + [s[b..]];
    assert front == front[..n - 1] + [front[n - 1]];
    FlattenPush(front[..n - 1], front[n - 1]);
    assert Tail(chunks, n, GLIBC_OVERLAP) == front[n - 1][|front[n - 1]| - GLIBC_OVERLAP..];
    assert Tail(chunks, n, GLIBC_OVERLAP) == s[..b][b - GLIBC_OVERLAP..];
  }

  /** Every chunking that covers the overlap reports the maximum of the file exactly if there is
      nothing to report or some number of at most nine digits attains it. */
  lemma AlwaysReportedIff(file: string, max: nat)
    requires IsMaxMinor(file, max)
    ensures (forall chunks | Flatten(chunks) == file && LongEnough(chunks, GLIBC_OVERLAP) ::
               IsMaxInWindows(chunks, |chunks|, max))
            <==> ShortMaximum(file, max)
  {
    if ShortMaximum(file, max) {
      forall chunks | Flatten(chunks) == file && LongEnough(chunks, GLIBC_OVERLAP)
        ensures IsMaxInWindows(chunks, |chunks|, max)
      {
        ShortMaximumShown(chunks, max);
        MaximumSeenExactly(chunks, max);
      }
    } else {
      var chunks := CutAll(file, max);
      assert !IsMaxInWindows(chunks, |chunks|, max);
    }
  }

  lemma {:induction false} RunOf(s: string, p: nat, n: nat)
    requires p + n <= |s| && forall k | p <= k < p + n :: IsDigit(s[k])
    requires p + n == |s| || !IsDigit(s[p + n])
    ensures DigitRun(s, p) == n
    decreases n
  {
    if n > 0 {
      RunOf(s, p + 1, n - 1);
    }
  }

  // ---------------------------------------------------------------------------------------
  // Full reads
  // ---------------------------------------------------------------------------------------

  // What a regular file's f.read(size) returns until it is empty.
  function Reads(file: string, size: nat): (chunks: seq<string>)
    requires 0 < size
  {
    if file == "" then []
    else
      var taken := if |file| <= size then |file| else size;
      [file[..taken]] + Reads(file[taken..], size)
  }

  /** Reading a file in full blocks loses nothing and keeps every boundary covered. */
  lemma ReadsAreLongEnough(file: string, size: nat, overlap: nat)
    requires overlap <= size && 0 < size
    ensures Flatten(Reads(file, size)) == file && LongEnough(Reads(file, size), overlap)
    ensures forall i | 0 <= i < |Reads(file, size)| :: 0 < |Reads(file, size)[i]| <= size
  {
    ReadsFlatten(file, size);
    ReadSizes(file, size);
  }

  lemma {:induction false} ReadsFlatten(file: string, size: nat)
    requires 0 < size
    ensures Flatten(Reads(file, size)) == file
  {
    if file != "" {
      var taken := if |file| <= size then |file| else size;
      ReadsFlatten(file[taken..], size);
      FlattenCons(file[..taken], Reads(file[taken..], size));
      assert file == file[..taken] + file[taken..];
    }
  }

  lemma {:induction false} ReadSizes(file: string, size: nat)
    requires 0 < size
    ensures forall i | 0 <= i < |Reads(file, size)| :: 0 < |Reads(file, size)[i]| <= size
    ensures forall i | 0 <= i < |Reads(file, size)| - 1 :: |Reads(file, size)[i]| == size
  {
    if |file| > size {
      ReadSizes(file[size..], size);
    }
  }

  /** Read in blocks of a mebibyte, the marker scan answers as a search of the whole file. */
  lemma FullReadsFindMarker(file: string, marker: string)
    requires 0 < |marker| <= 0x10_0000
    ensures (exists i: nat :: SeenIn(Reads(file, 0x10_0000), marker, i)) <==> Occurs(marker, file)
  {
    ReadsAreLongEnough(file, 0x10_0000, |marker| - 1);
    WindowsFindMarker(Reads(file, 0x10_0000), marker);
  }

  // Padding without a G, then one number whose last digit falls into the second block.
  function CutFile(pad: string, digits: string, last: char): string {
    pad + GLIBC_PREFIX + digits + [last]
  }

  /** Read in such blocks, a number of ten or more digits that ends just past a block loses its last
      digit, and the scan reports less than the file's maximum. */
  lemma FullReadsCutNumber(pad: string, digits: string, last: char, best: nat)
    requires 'G' !in pad && (forall k | 0 <= k < |digits| :: IsDigit(digits[k])) && IsDigit(last)
    requires 9 <= |digits| && |pad| + 8 + |digits| == 0x10_0000 && 0 < Value(digits + [last])
    requires var chunks := Reads(CutFile(pad, digits, last), 0x10_0000); IsMaxInWindows(chunks, |chunks|, best)
    ensures IsMaxMinor(CutFile(pad, digits, last), Value(digits + [last])) && best < Value(digits + [last])
  {
    BlocksCutNumber(pad, digits, last, best, 0x10_0000);
  }

  lemma BlocksCutNumber(pad: string, digits: string, last: char, best: nat, size: nat)
    requires 'G' !in pad && (forall k | 0 <= k < |digits| :: IsDigit(digits[k])) && IsDigit(last)
    requires 9 <= |digits| && |pad| + 8 + |digits| == size && 0 < Value(digits + [last])
    requires var chunks := Reads(CutFile(pad, digits, last), size); IsMaxInWindows(chunks, |chunks|, best)
    ensures IsMaxMinor(CutFile(pad, digits, last), Value(digits + [last])) && best < Value(digits + [last])
  {
    var file, max := CutFile(pad, digits, last), Value(digits + [last]);
    var chunks := Reads(file, size);
    ReadsFlatten(file, size);
    Reassociate(pad + GLIBC_PREFIX, digits, [last]);
    OneNumber(pad, digits + [last]);
    TwoReads(file, size);
    WindowsAndFile(chunks, best);
    NeverWhole(file, |pad|, file[..size], file[size..]);
  }

  // If the only match is cut, none is whole in a window.
  lemma NeverWhole(file: string, n: nat, a: string, b: string)
    requires Flatten([a, b]) == file && MatchAt(file, n) && DigitRun(file, n + 8) >= 10
    requires n + 8 + DigitRun(file, n + 8) == |a| + 1 && forall p: nat | MatchAt(file, p) :: p == n
    ensures forall i: nat, p: nat :: !MatchWhole([a, b], i, p)
  {
    forall i: nat, p: nat
      ensures !MatchWhole([a, b], i, p)
    {
      NumberCut(file, n, a, b, i);
    }
  }

  // A match whose digits end just past the first of two chunks is whole in no window.
  lemma NumberCut(file: string, n: nat, a: string, b: string, i: nat)
    requires Flatten([a, b]) == file && MatchAt(file, n) && DigitRun(file, n + 8) >= 10
    requires n + 8 + DigitRun(file, n + 8) == |a| + 1
    ensures !MatchWhole([a, b], i, n)
  {
    if i < 2 {
      TwoWindows(a, b, i);
    }
  }

  lemma TwoReads(file: string, size: nat)
    requires 0 < size && |file| == size + 1
    ensures Reads(file, size) == [file[..size], file[size..]]
  {
    var rest := file[size..];
    assert Reads(rest, size) == [rest[..1]] + Reads(rest[1..], size) && rest[..1] == rest;
  }

  // Two windows: the first ends with the first chunk, the second starts the overlap before its end.
  lemma TwoWindows(a: string, b: string, i: nat)
    requires i < 2 && GLIBC_OVERLAP < |a|
    ensures i == 0 ==> Offset([a, b], 0, GLIBC_OVERLAP) == 0 && |Window([a, b], 0, GLIBC_OVERLAP)| == |a|
    ensures i == 1 ==> Offset([a, b], 1, GLIBC_OVERLAP) == |a| - GLIBC_OVERLAP
  {
    FlattenPush([], a);
    assert [a, b][..1] == [] + [a] && [a, b][..0] == [];
  }

  // In padding and one number, that number is the only match.
  lemma OneNumber(pad: string, digits: string)
    requires 'G' !in pad && digits != "" && forall k | 0 <= k < |digits| :: IsDigit(digits[k])
    ensures var s := pad + GLIBC_PREFIX + digits;
            && MatchAt(s, |pad|) && DigitRun(s, |pad| + 8) == |digits| && MinorAt(s, |pad|) == Value(digits)
            && IsMaxMinor(s, Value(digits)) && forall p: nat | MatchAt(s, p) :: p == |pad|
  {
    var s, n := pad + GLIBC_PREFIX + digits, |pad|;
    NumberAt(pad, digits);
    forall p: nat | MatchAt(s, p)
      ensures p == n
    {
      if p < n {
        NoGInPad(pad, GLIBC_PREFIX, digits, p);
        PrefixChar(s, p, 0);
      } else if n < p {
        MatchesDisjoint(s, n, p);
      }
    }
  }

  lemma NumberAt(pad: string, digits: string)
    requires digits != "" && forall k | 0 <= k < |digits| :: IsDigit(digits[k])
    ensures var s := pad + GLIBC_PREFIX + digits;
            MatchAt(s, |pad|) && DigitRun(s, |pad| + 8) == |digits| && MinorAt(s, |pad|) == Value(digits)
  {
    var s, n := pad + GLIBC_PREFIX + digits, |pad|;
    MiddleAndEnd(pad, GLIBC_PREFIX, digits);
    DigitsToEnd(s, n + 8, digits);
    assert Captured(s, n) == digits;
  }

  lemma DigitsToEnd(s: string, n: nat, digits: string)
    requires n <= |s| && s[n..] == digits && forall k | 0 <= k < |digits| :: IsDigit(digits[k])
    ensures DigitRun(s, n) == |digits| && s[n..n + DigitRun(s, n)] == digits
    ensures digits != "" ==> IsDigit(s[n])
  {
    forall k | n <= k < |s|
      ensures IsDigit(s[k])
    {
      assert s[k] == s[n..][k - n];
    }
    RunOf(s, n, |digits|);
  }

  lemma MiddleAndEnd(a: string, b: string, c: string)
    ensures OccursAt(b, a + b + c, |a|) && (a + b + c)[|a| + |b|..] == c
  {
  }

  lemma NoGInPad(pad: string, b: string, c: string, p: nat)
    requires 'G' !in pad && p < |pad|
    ensures (pad + b + c)[p] != 'G'
  {
    assert (pad + b + c)[p] == pad[p];
  }

  /** ... and so does the version scan, if no number has more than nine digits. */
  lemma FullReadsFindMaxMinor(file: string, best: nat)
    requires IsMaxInWindows(Reads(file, 0x10_0000), |Reads(file, 0x10_0000)|, best) && ShortRuns(file)
    ensures IsMaxMinor(file, best)
  {
    ReadsAreLongEnough(file, 0x10_0000, GLIBC_OVERLAP);
    WindowsAndFile(Reads(file, 0x10_0000), best);
  }
}
