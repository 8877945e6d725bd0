/**
 Installer names that carry a licence code, and when the code is read back from them.
 */
module LicenceNames {
  import opened Wrappers
  import opened Sequences
  import opened Strings
  import opened CustomServers

  // ---------------------------------------------------------------------------------------
  // One separator between the application and the rest of the name
  // ---------------------------------------------------------------------------------------

  // The text after the separator keeps its parts: it does not start with a dash, holds no double
  // dash, and no `-licensed-`, not even together with the dash before it.
  predicate DashSafe(rest: string) {
    !Occurs("--", "-" + rest) && !Occurs(LICENSED, "-" + rest)
  }

  predicate IsSeparator(separator: string) {
    separator == "-licensed---" || separator == "-licensed--" || separator == "-licensed-"
  }

  // A separator starts nowhere but where it was put.
  lemma OnlyLicensed(app: string, separator: string, rest: string, p: nat)
    requires '-' !in app && IsSeparator(separator) && DashSafe(rest)
    requires OccursAt(LICENSED, app + separator + rest, p)
    ensures p == |app|
  {
    var s := app + separator + rest;
    assert s[p..p + 10][0] == s[p] && s[p..p + 10][1] == s[p + 1];
    var last := |app| + |separator| - 1;
    if last <= p {
      assert s[last..] == "-" + rest;
      OccursInPart(LICENSED, s, last, "-" + rest, p - last);
    }
  }

  // ... and once it is replaced, nowhere.
  lemma NothingLicensed(app: string, rest: string, p: nat)
    requires '-' !in app && DashSafe(rest)
    ensures !OccursAt(LICENSED, app + "--" + rest, p)
  {
    var s := app + "--" + rest;
    if OccursAt(LICENSED, s, p) {
      assert s[p..p + 10][0] == s[p] && s[p..p + 10][1] == s[p + 1];
      assert s[|app| + 1..] == "-" + rest;
      OccursInPart(LICENSED, s, |app| + 1, "-" + rest, p - (|app| + 1));
    }
  }

  lemma LongerNeedsDash(app: string, separator: string, rest: string, longer: string)
    requires IsSeparator(separator) && IsSeparator(longer) && |separator| < |longer|
    requires OccursAt(longer, app + separator + rest, |app|)
    ensures rest != "" && rest[0] == '-'
  {
    var s := app + separator + rest;
    assert s[|app|..|app| + |longer|][|separator|] == rest[0];
  }

  // A separator in a name is not found as a longer one ...
  lemma NotLonger(app: string, separator: string, rest: string, longer: string)
    requires '-' !in app && IsSeparator(separator) && IsSeparator(longer) && |separator| < |longer| && DashSafe(rest)
    ensures Replace(app + separator + rest, longer, "--") == app + separator + rest
  {
    var s := app + separator + rest;
    DashMakesDouble(rest);
    forall p | 0 <= p <= |s| - |longer|
      ensures !OccursAt(longer, s, p)
    {
      if OccursAt(longer, s, p) {
        OccursPrefix(longer, LICENSED, s, p);
        OnlyLicensed(app, separator, rest, p);
        LongerNeedsDash(app, separator, rest, longer);
      }
    }
    ReplaceNone(s, longer, "--");
  }

  // ... is replaced as itself ...
  lemma ReplacedOnce(app: string, separator: string, rest: string)
    requires '-' !in app && IsSeparator(separator) && DashSafe(rest)
    ensures Replace(app + separator + rest, separator, "--") == app + "--" + rest
  {
    var s := app + separator + rest;
    forall p | 0 <= p < |app|
      ensures !OccursAt(separator, s, p)
    {
      if OccursAt(separator, s, p) {
        OccursPrefix(separator, LICENSED, s, p);
        OnlyLicensed(app, separator, rest, p);
      }
    }
    forall p | 0 <= p <= |rest| - |separator|
      ensures !OccursAt(separator, rest, p)
    {
      if OccursAt(separator, rest, p) {
        OccursPrefix(separator, LICENSED, rest, p);
        OccursInPart(LICENSED, "-" + rest, 1, rest, p);
      }
    }
    ReplaceOnce(app, separator, rest, "--");
  }

  // ... and leaves nothing for a shorter one.
  lemma NothingLeft(app: string, rest: string, separator: string)
    requires '-' !in app && IsSeparator(separator) && DashSafe(rest)
    ensures Replace(app + "--" + rest, separator, "--") == app + "--" + rest
  {
    var s := app + "--" + rest;
    forall p | 0 <= p <= |s| - |separator|
      ensures !OccursAt(separator, s, p)
    {
      if OccursAt(separator, s, p) {
        OccursPrefix(separator, LICENSED, s, p);
        NothingLicensed(app, rest, p);
      }
    }
    ReplaceNone(s, separator, "--");
  }

  lemma NormalizedName(app: string, separator: string, rest: string)
    requires '-' !in app && (IsSeparator(separator) || separator == "--") && DashSafe(rest)
    ensures Normalized(app + separator + rest) == app + "--" + rest
  {
    NothingLeft(app, rest, "-licensed---");
    NothingLeft(app, rest, "-licensed--");
    NothingLeft(app, rest, "-licensed-");
    if separator != "--" {
      ReplacedOnce(app, separator, rest);
      if |separator| < 12 {
        NotLonger(app, separator, rest, "-licensed---");
      }
      if |separator| < 11 {
        NotLonger(app, separator, rest, "-licensed--");
      }
    }
  }

  lemma SplitNormalized(app: string, rest: string)
    requires '-' !in app && !Occurs("--", "-" + rest)
    ensures Split(app + "--" + rest, "--") == [app, rest]
  {
    var s := app + "--" + rest;
    forall p | 0 <= p < |app|
      ensures !OccursAt("--", s, p)
    {
      assert s[p] != '-';
    }
    forall p | 0 <= p <= |rest| - 2
      ensures !OccursAt("--", rest, p)
    {
      if OccursAt("--", rest, p) {
        OccursInPart("--", "-" + rest, 1, rest, p);
      }
    }
    SplitAtFirst(app, "--", rest);
    SplitNone(rest, "--");
  }

  // ---------------------------------------------------------------------------------------
  // A code that keeps its dashes apart comes back
  // ---------------------------------------------------------------------------------------

  // The licence is found before blanks and a bracket, as in the " (1)" of a second download.
  lemma PartDecodes(code: string, blanks: string, bracket: string, decode: Decoder)
    requires Trimmed(code) && '(' !in code && Blank(blanks) && (bracket == "" || bracket[0] == '(')
    requires decode(code).Some? && forall t | '(' in t :: decode(t) == None
    ensures FirstDecoded(PartCandidates(code + blanks + bracket), decode) == decode(code)
  {
    var front := code + blanks;
    TrimBlanks(code, blanks);
    if bracket == "" {
      assert front + bracket == front;
    } else {
      var part, back := front + bracket, bracket[1..];
      assert part == front + "(" + back;
      assert forall k | 0 <= k < |front| :: front[k] == if k < |code| then code[k] else blanks[k - |code|];
      assert part[|front|..|front| + 1] == "(";
      assert OccursAt("(", part, |front|);
      SplitAtMark(front, "(", back);
      assert TrimAll(Split(part, "("))[0] == code;
      if decode(Trim(part)).Some? {
        TrimKeeps(part, |front|);
      }
    }
  }

  // What is tried for such a name.
  lemma TriedInName(app: string, separator: string, rest: string)
    requires '-' !in app && (IsSeparator(separator) || separator == "--") && DashSafe(rest)
    ensures LicenceCandidates(app + separator + rest) == PartCandidates(app) + PartCandidates(rest)
  {
    NormalizedName(app, separator, rest);
    SplitNormalized(app, rest);
    TwoPartsTried(app, rest);
  }

  lemma TwoPartsTried(a: string, b: string)
    ensures Candidates([a, b]) == PartCandidates(a) + PartCandidates(b)
  {
    assert [a, b][1..] == [b] && [b][1..] == [];
    assert Candidates([b]) == PartCandidates(b) + [];
  }

  lemma SafePrefix(a: string, b: string)
    requires DashSafe(a + b)
    ensures DashSafe(a)
  {
    assert "-" + (a + b) == "-" + a + b;
    PrefixOccurs("-" + (a + b), |a| + 1);
    assert ("-" + (a + b))[..|a| + 1] == "-" + a;
    if Occurs("--", "-" + a) {
      OccursIn("--", "-" + a, "-" + (a + b));
    }
    if Occurs(LICENSED, "-" + a) {
      OccursIn(LICENSED, "-" + a, "-" + (a + b));
    }
  }

  lemma SafeLeft(front: string, left: string, bracket: string)
    requires left <= bracket && DashSafe(front + bracket)
    ensures DashSafe(front + left)
  {
    assert front + bracket == front + left + bracket[|left|..];
    SafePrefix(front + left, bracket[|left|..]);
  }

  // What is read from a name with this stem.
  function ReadFrom(stem: string, licence: Option<CustomServer>): Option<CustomServer> {
    if HasHost(stem) then Some(Fields(Tokens(stem))) else licence
  }

  lemma PartComesBack(app: string, separator: string, code: string, blanks: string, bracket: string, decode: Decoder)
    requires '-' !in app && (forall t | t in PartCandidates(app) :: decode(t) == None)
    requires (IsSeparator(separator) || separator == "--") && DashSafe(code + blanks + bracket)
    requires Trimmed(code) && '(' !in code && Blank(blanks) && (bracket == "" || bracket[0] == '(')
    requires decode(code).Some? && forall t | '(' in t :: decode(t) == None
    ensures FirstDecoded(LicenceCandidates(app + separator + (code + blanks + bracket)), decode) == decode(code)
  {
    var rest := code + blanks + bracket;
    TriedInName(app, separator, rest);
    PartDecodes(code, blanks, bracket, decode);
    FirstDecodedConcat(PartCandidates(app), PartCandidates(rest), decode);
  }

  // Extensions may only take a piece of the bracket; this is what they leave of it.
  function LeftOf(bracket: string, exe: string): string {
    if bracket == "" then "" else "(" + Stem(bracket[1..] + exe)
  }

  lemma StemInBracket(front: string, bracket: string, exe: string)
    requires bracket != "" && bracket[0] == '(' && IsExe(exe)
    ensures Stem(front + bracket + exe) == front + LeftOf(bracket, exe) && LeftOf(bracket, exe) <= bracket
  {
    var text := bracket[1..];
    HeadTail(bracket);
    StemOfExe(text, exe);
    Reassociate(front, "(", text);
    Reassociate(front + "(", text, exe);
    StemAfterBracket(front, text + exe);
  }

  lemma StemAfterBracket(front: string, text: string)
    ensures Stem(front + "(" + text) == front + ("(" + Stem(text))
  {
    StemAfter(front + "(", text);
    Reassociate(front, "(", Stem(text));
  }

  lemma StemAtCode(front: string, code: string, exe: string)
    requires front != "" && front[|front| - 1] == '-' && IsExe(exe) && KeepsEnd(code, exe)
    ensures Stem(front + code + exe) == front + code
  {
    StemOfExe(code, exe);
    StemAfter(front, code + exe);
    Reassociate(front, code, exe);
  }

  lemma StemOfLicence(app: string, separator: string, code: string, bracket: string, exe: string)
    requires IsExe(exe) && (if bracket == "" then KeepsEnd(code, exe) else bracket[0] == '(')
    requires separator != "" && separator[|separator| - 1] == '-'
    ensures Stem(app + separator + (code + bracket) + exe) == app + separator + (code + LeftOf(bracket, exe))
    ensures LeftOf(bracket, exe) <= bracket
  {
    if bracket == "" {
      StemAtCode(app + separator, code, exe);
      assert code + bracket == code + LeftOf(bracket, exe) == code;
    } else {
      StemInBracket(app + separator + code, bracket, exe);
      Reassociate(app + separator, code, bracket);
      Reassociate(app + separator, code, LeftOf(bracket, exe));
    }
  }

  /** A licence written into a name comes back, past an ` (1)` and an `.exe` the system adds, unless
      the name also holds a `host=`. */
  lemma LicenceComesBack(app: string, separator: string, code: string, blanks: string, bracket: string,
                         exe: string, decode: Decoder)
    requires '-' !in app && (forall t | t in PartCandidates(app) :: decode(t) == None)
    requires (IsSeparator(separator) || separator == "--") && DashSafe(code + blanks + bracket)
    requires Trimmed(code) && '(' !in code && Blank(blanks) && (bracket == "" || bracket[0] == '(')
    requires decode(code).Some? && forall t | '(' in t :: decode(t) == None
    requires IsExe(exe) && (bracket == "" ==> KeepsEnd(code + blanks, exe))
    ensures var name := app + separator + (code + blanks + bracket) + exe;
            Parsed(name, decode) == ReadFrom(Stem(name), decode(code))
  {
    var left := LeftOf(bracket, exe);
    StemOfLicence(app, separator, code + blanks, bracket, exe);
    SafeLeft(code + blanks, left, bracket);
    PartComesBack(app, separator, code, blanks, left, decode);
  }

  // A code of letters and digits.
  predicate Plain(code: string) {
    && code != ""
    && forall k | 0 <= k < |code| ::
         '0' <= code[k] <= '9' || 'A' <= code[k] <= 'Z' || 'a' <= code[k] <= 'z'
  }

  /** Names as the repository's own tests have them, with any code of letters and digits. */
  lemma LiteralLicencesComeBack(code: string, decode: Decoder)
    requires Plain(code) && decode("rustdesk") == None && decode(code).Some?
    requires forall t | '(' in t :: decode(t) == None
    ensures Parsed("rustdesk-licensed-" + code + ".exe", decode) == decode(code)
    ensures Parsed("rustdesk-licensed--" + code + " (1).EXE", decode) == decode(code)
    ensures Parsed("rustdesk-licensed---" + code + "\t(2)", decode) == decode(code)
    ensures Parsed("rustdesk--" + code + "(1).exe.exe", decode) == decode(code)
  {
    OnceLicensed(code, decode);
    TwiceDashed(code, decode);
    ThriceDashed(code, decode);
    OnlyDashed(code, decode);
  }

  lemma OnceLicensed(code: string, decode: Decoder)
    requires Plain(code) && decode("rustdesk") == None && decode(code).Some?
    requires forall t | '(' in t :: decode(t) == None
    ensures Parsed("rustdesk-licensed-" + code + ".exe", decode) == decode(code)
  {
    LiteralApplication("rustdesk");
    LiteralExe(".exe");
    assert "rustdesk-licensed-" == "rustdesk" + "-licensed-";
    OneLiteral("rustdesk", "-licensed-", "rustdesk-licensed-", code, "", "", ".exe", ".exe", decode);
  }

  lemma TwiceDashed(code: string, decode: Decoder)
    requires Plain(code) && decode("rustdesk") == None && decode(code).Some?
    requires forall t | '(' in t :: decode(t) == None
    ensures Parsed("rustdesk-licensed--" + code + " (1).EXE", decode) == decode(code)
  {
    LiteralApplication("rustdesk");
    LiteralExe(".EXE");
    assert "rustdesk-licensed--" == "rustdesk" + "-licensed--";
    OneLiteral("rustdesk", "-licensed--", "rustdesk-licensed--", code, " ", "(1)", ".EXE", " (1).EXE", decode);
  }

  lemma ThriceDashed(code: string, decode: Decoder)
    requires Plain(code) && decode("rustdesk") == None && decode(code).Some?
    requires forall t | '(' in t :: decode(t) == None
    ensures Parsed("rustdesk-licensed---" + code + "\t(2)", decode) == decode(code)
  {
    LiteralApplication("rustdesk");
    LiteralExe("");
    assert "rustdesk-licensed---" == "rustdesk" + "-licensed---";
    OneLiteral("rustdesk", "-licensed---", "rustdesk-licensed---", code, "\t", "(2)", "", "\t(2)", decode);
  }

  lemma OnlyDashed(code: string, decode: Decoder)
    requires Plain(code) && decode("rustdesk") == None && decode(code).Some?
    requires forall t | '(' in t :: decode(t) == None
    ensures Parsed("rustdesk--" + code + "(1).exe.exe", decode) == decode(code)
  {
    LiteralApplication("rustdesk");
    LiteralExe(".exe.exe");
    assert "rustdesk--" == "rustdesk" + "--";
    OneLiteral("rustdesk", "--", "rustdesk--", code, "", "(1)", ".exe.exe", "(1).exe.exe", decode);
  }

  lemma LiteralExe(exe: string)
    requires exe == "" || exe == ".exe" || exe == ".EXE" || exe == ".exe.exe"
    ensures IsExe(exe) && '=' !in exe
  {
    assert Lower(exe) == if exe == ".EXE" then ".exe" else exe;
  }

  lemma LiteralApplication(app: string)
    requires app == "rustdesk"
    ensures '-' !in app && '=' !in app && PartCandidates(app) == [app]
  {
    assert Trimmed(app) && '(' !in app;
    TrimBlanks(app, "");
    assert app + "" == app;
    forall p | 0 <= p <= |app| - 1
      ensures !OccursAt("(", app, p)
    {
      assert app[p..p + 1][0] == app[p];
    }
  }

  lemma OneLiteral(app: string, separator: string, start: string, code: string, blanks: string, bracket: string,
                   exe: string, tail: string, decode: Decoder)
    requires '-' !in app && '=' !in app && PartCandidates(app) == [app] && decode(app) == None
    requires (IsSeparator(separator) || separator == "--") && start == app + separator && '=' !in separator
    requires Plain(code) && decode(code).Some? && forall t | '(' in t :: decode(t) == None
    requires Blank(blanks) && (bracket == "" || bracket[0] == '(') && '-' !in bracket && '=' !in bracket
    requires IsExe(exe) && '=' !in exe && tail == blanks + bracket + exe
    ensures Parsed(start + code + tail, decode) == decode(code)
  {
    PlainCode(code, blanks);
    NoDashIsSafe(code + blanks + bracket);
    NoDotKeepsEnd(code + blanks, exe);
    LicenceComesBack(app, separator, code, blanks, bracket, exe, decode);
    LiteralTail(app + separator, code, blanks, bracket, exe);
    NoHostWithoutEquals(start + code + tail);
  }

  lemma LiteralTail(start: string, code: string, blanks: string, bracket: string, exe: string)
    ensures start + (code + blanks + bracket) + exe == start + code + (blanks + bracket + exe)
  {
  }

  lemma PlainCode(code: string, blanks: string)
    requires Plain(code) && Blank(blanks)
    ensures Trimmed(code) && '(' !in code && '=' !in code && '=' !in blanks
    ensures '-' !in code + blanks && '.' !in code + blanks
  {
  }

  lemma NoDashIsSafe(rest: string)
    requires '-' !in rest
    ensures DashSafe(rest)
  {
    var s := "-" + rest;
    forall p | 0 <= p <= |s| - 2
      ensures !OccursAt("--", s, p)
    {
      assert s[p..p + 2][1] == s[p + 1];
    }
    forall p | 0 <= p <= |s| - 10
      ensures !OccursAt(LICENSED, s, p)
    {
      assert s[p..p + 10][9] == s[p + 9];
    }
  }

  lemma NoDotKeepsEnd(text: string, exe: string)
    requires '.' !in text
    ensures KeepsEnd(text, exe)
  {
    var lower := Lower(text);
    if 4 <= |text| {
      assert lower[|text| - 4..][0] == lower[|text| - 4] == LowerChar(text[|text| - 4]);
    }
  }

  lemma NoHostWithoutEquals(name: string)
    requires '=' !in name
    ensures !HasHost(Stem(name))
  {
    var lower := Lower(Stem(name));
    forall p | 0 <= p <= |lower| - 5
      ensures !OccursAt(HOST, lower, p)
    {
      assert lower[p..p + 5][4] == lower[p + 4] == LowerChar(Stem(name)[p + 4]);
      assert Stem(name)[p + 4] == name[p + 4];
    }
  }

  /** A code that starts with a dash loses it to the separator: what is read is the shorter code. */
  lemma LeadingDashIsLost(app: string, code: string, exe: string, decode: Decoder)
    requires '-' !in app && (forall t | t in PartCandidates(app) :: decode(t) == None)
    requires DashSafe(code) && Trimmed(code) && '(' !in code && IsExe(exe) && KeepsEnd(code, exe)
    requires decode(code).Some? && forall t | '(' in t :: decode(t) == None
    ensures var name := app + LICENSED + ("-" + code) + exe;
            Parsed(name, decode) == ReadFrom(Stem(name), decode(code))
  {
    var rest := code + "" + "";
    assert rest == code && code + "" == code;
    LicenceComesBack(app, "-licensed--", code, "", "", exe, decode);
    DashMoves(app, code, exe);
  }

  lemma DashMoves(app: string, code: string, exe: string)
    ensures app + "-licensed--" + code + exe == app + LICENSED + ("-" + code) + exe
  {
    assert "-licensed--" == LICENSED + "-";
  }

  // ---------------------------------------------------------------------------------------
  // What is never tried
  // ---------------------------------------------------------------------------------------

  /** Nothing with a double dash is ever tried, whatever the name. */
  lemma DoubleDashIsNeverTried(s: string, code: string)
    requires Occurs("--", code)
    ensures code !in LicenceCandidates(s)
  {
    SplitLeavesNone(Normalized(s), "--");
    CandidatesWithout(Split(Normalized(s), "--"), "--");
  }

  lemma {:induction false} CandidatesWithout(parts: seq<string>, needle: string)
    requires forall part | part in parts :: !Occurs(needle, part)
    ensures forall candidate | candidate in Candidates(parts) :: !Occurs(needle, candidate)
  {
    if parts != [] {
      CandidatesWithout(parts[1..], needle);
      forall candidate | candidate in PartCandidates(parts[0])
        ensures !Occurs(needle, candidate)
      {
        PartCandidateOccurs(parts[0], candidate);
        if Occurs(needle, candidate) {
          OccursIn(needle, candidate, parts[0]);
        }
      }
    }
  }

  lemma PartCandidateOccurs(part: string, candidate: string)
    requires candidate in PartCandidates(part)
    ensures Occurs(candidate, part)
  {
    TrimOccurs(part);
    if candidate != Trim(part) {
      var i :| 0 <= i < |Split(part, "(")| && candidate == TrimAll(Split(part, "("))[i];
      var piece := Split(part, "(")[i];
      TrimOccurs(piece);
      SplitPartsOccur(part, "(", piece);
      OccursIn(candidate, piece, part);
    }
  }

  // Every candidate is trimmed, and stands somewhere in one of the parts.
  lemma {:induction false} CandidateOccurs(parts: seq<string>, candidate: string) returns (part: string)
    requires candidate in Candidates(parts)
    ensures part in parts && candidate in PartCandidates(part)
    ensures Occurs(candidate, part) && Trim(candidate) == candidate
  {
    if candidate in PartCandidates(parts[0]) {
      part := parts[0];
      PartCandidateOccurs(part, candidate);
      PartCandidateTrimmed(part, candidate);
    } else {
      part := CandidateOccurs(parts[1..], candidate);
    }
  }

  lemma PartCandidateTrimmed(part: string, candidate: string)
    requires candidate in PartCandidates(part)
    ensures Trim(candidate) == candidate
  {
    TrimTwice(part);
    if candidate != Trim(part) {
      var i :| 0 <= i < |Split(part, "(")| && candidate == TrimAll(Split(part, "("))[i];
      TrimTwice(Split(part, "(")[i]);
    }
  }

  // ---------------------------------------------------------------------------------------
  // Names without a double dash
  // ---------------------------------------------------------------------------------------

  /** Without a double dash in the name, replacing and splitting again is splitting at `-licensed-`. */
  lemma PartsOfName(s: string)
    requires !Occurs("--", s)
    ensures Split(Normalized(s), "--") == Split(s, LICENSED)
  {
    DoubleDashInside("-licensed---", s);
    DoubleDashInside("-licensed--", s);
    ReplaceNone(s, "-licensed---", "--");
    ReplaceNone(s, "-licensed--", "--");
    PartsApart(s);
    SplitAgain(Split(s, LICENSED));
  }

  lemma DoubleDashInside(longer: string, s: string)
    requires longer in ["-licensed---", "-licensed--"] && !Occurs("--", s)
    ensures !Occurs(longer, s)
  {
    if p :| 0 <= p <= |s| - |longer| && OccursAt(longer, s, p) {
      DoubleDashAt(longer, s, p, 9);
    }
  }

  lemma DoubleDashAt(longer: string, s: string, p: nat, k: nat)
    requires OccursAt(longer, s, p) && k + 2 <= |longer| && longer[k] == '-' && longer[k + 1] == '-'
    ensures OccursAt("--", s, p + k)
  {
    assert s[p..p + |longer|][k] == s[p + k] && s[p..p + |longer|][k + 1] == s[p + k + 1];
  }

  // No double dash within a part, nor where a dash follows it.
  predicate Apart(parts: seq<string>)
    requires 0 < |parts|
  {
    && (forall i | 0 <= i < |parts| - 1 :: !Occurs("--", parts[i] + "-"))
    && !Occurs("--", parts[|parts| - 1])
  }

  lemma {:induction false} SplitAgain(parts: seq<string>)
    requires 0 < |parts| && Apart(parts)
    ensures Split(Join(parts, "--"), "--") == parts
  {
    if |parts| == 1 {
      SplitNone(parts[0], "--");
    } else {
      var first, rest := parts[0], Join(parts[1..], "--");
      assert Apart(parts[1..]) by {
        assert forall i | 0 <= i < |parts[1..]| :: parts[1..][i] == parts[i + 1];
      }
      SplitAgain(parts[1..]);
      NoneBefore(first, rest);
      SplitAtFirst(first, "--", rest);
    }
  }

  lemma NoneBefore(first: string, rest: string)
    requires !Occurs("--", first + "-")
    ensures forall p | 0 <= p < |first| :: !OccursAt("--", first + "--" + rest, p)
  {
    var s := first + "--" + rest;
    assert s[0..|first| + 1] == first + "-";
    forall p | 0 <= p < |first|
      ensures !OccursAt("--", s, p)
    {
      OccursInPart("--", s, 0, first + "-", p);
    }
  }

  lemma PartsApart(s: string)
    requires !Occurs("--", s)
    ensures Apart(Split(s, LICENSED))
  {
    var parts := Split(s, LICENSED);
    forall i | 0 <= i < |parts| - 1
      ensures !Occurs("--", parts[i] + "-")
    {
      PartAndSeparatorOccur(s, LICENSED, i);
      PrefixOccurs(parts[i] + LICENSED, |parts[i]| + 1);
      assert (parts[i] + LICENSED)[..|parts[i]| + 1] == parts[i] + "-";
      OccursIn(parts[i] + "-", parts[i] + LICENSED, s);
      if Occurs("--", parts[i] + "-") {
        OccursIn("--", parts[i] + "-", s);
      }
    }
    var last := parts[|parts| - 1];
    SplitPartsOccur(s, LICENSED, last);
    if Occurs("--", last) {
      OccursIn("--", last, s);
    }
  }

  lemma SplitAtLicensed(app: string, code: string)
    requires '-' !in app && !Occurs(LICENSED, code)
    ensures Split(app + LICENSED + code, LICENSED) == [app, code]
  {
    var s := app + LICENSED + code;
    forall p | 0 <= p < |app|
      ensures !OccursAt(LICENSED, s, p)
    {
      assert s[p] != '-';
      if p + 10 <= |s| {
        assert s[p..p + 10][0] != '-';
      }
    }
    SplitAtFirst(app, LICENSED, code);
    SplitNone(code, LICENSED);
  }

  lemma NoDoubleDash(app: string, code: string)
    requires '-' !in app && !Occurs("--", "-" + code)
    ensures !Occurs("--", app + LICENSED + code)
  {
    var s := app + LICENSED + code;
    if p :| 0 <= p <= |s| - 2 && OccursAt("--", s, p) {
      var start := |app| + 9;
      assert s[p..p + 2][0] == s[p] && s[p..p + 2][1] == s[p + 1];
      assert s[start..|s|] == "-" + code;
      assert start <= p;
      OccursInPart("--", s, start, "-" + code, p - start);
    }
  }

  // Without a double dash, what is tried holds no `-licensed-`, and without that there are two parts.
  lemma TriedWithoutDoubleDash(app: string, rest: string)
    requires '-' !in app && !Occurs("--", "-" + rest)
    ensures forall candidate | candidate in LicenceCandidates(app + LICENSED + rest) :: !Occurs(LICENSED, candidate)
    ensures !Occurs(LICENSED, rest) ==>
              LicenceCandidates(app + LICENSED + rest) == PartCandidates(app) + PartCandidates(rest)
  {
    var s := app + LICENSED + rest;
    NoDoubleDash(app, rest);
    PartsOfName(s);
    SplitLeavesNone(s, LICENSED);
    CandidatesWithout(Split(s, LICENSED), LICENSED);
    if !Occurs(LICENSED, rest) {
      SplitAtLicensed(app, rest);
      TwoPartsTried(app, rest);
    }
  }

  // ---------------------------------------------------------------------------------------
  // Codes that start with a dash
  // ---------------------------------------------------------------------------------------

  const LICENSED_DASH: string := "-licensed--"

  // The only double dash of such a name is the one where the code starts.
  lemma OnlyDoubleDash(app: string, rest: string, p: nat)
    requires '-' !in app && !Occurs("--", "-" + rest) && OccursAt("--", app + LICENSED_DASH + rest, p)
    ensures p == |app| + 9
  {
    var s, start := app + LICENSED_DASH + rest, |app| + 10;
    assert s[p..p + 2][0] == s[p] && s[p..p + 2][1] == s[p + 1];
    assert s[start..|s|] == "-" + rest;
    if start <= p {
      OccursInPart("--", s, start, "-" + rest, p - start);
    }
  }

  lemma DashSeparatorReplaced(app: string, rest: string)
    requires '-' !in app && !Occurs("--", "-" + rest)
    ensures Normalized(app + LICENSED_DASH + rest) == Replace(app + "--" + rest, LICENSED, "--")
  {
    var s := app + LICENSED_DASH + rest;
    forall p | 0 <= p <= |s| - 12
      ensures !OccursAt("-licensed---", s, p)
    {
      if OccursAt("-licensed---", s, p) {
        DoubleDashAt("-licensed---", s, p, 9);
        DoubleDashAt("-licensed---", s, p, 10);
        OnlyDoubleDash(app, rest, p + 9);
        OnlyDoubleDash(app, rest, p + 10);
      }
    }
    ReplaceNone(s, "-licensed---", "--");
    forall p | 0 <= p < |app|
      ensures !OccursAt(LICENSED_DASH, s, p)
    {
      if OccursAt(LICENSED_DASH, s, p) {
        DoubleDashAt(LICENSED_DASH, s, p, 9);
        OnlyDoubleDash(app, rest, p + 9);
      }
    }
    DoubleDashAfterDash(rest);
    DoubleDashInside(LICENSED_DASH, rest);
    ReplaceOnce(app, LICENSED_DASH, rest, "--");
  }

  lemma DoubleDashAfterDash(rest: string)
    requires !Occurs("--", "-" + rest)
    ensures !Occurs("--", rest) && (rest == "" || rest[0] != '-')
  {
    SuffixOccurs("-" + rest, 1);
    assert ("-" + rest)[1..] == rest;
    if Occurs("--", rest) {
      OccursIn("--", rest, "-" + rest);
    }
    DashMakesDouble(rest);
  }

  lemma DashMakesDouble(rest: string)
    ensures rest != "" && rest[0] == '-' ==> Occurs("--", "-" + rest)
  {
    if rest != "" && rest[0] == '-' {
      assert OccursAt("--", "-" + rest, 0);
    }
  }

  // Whatever is left of its end, a code that starts with a dash is not tried.
  lemma DashIsNotTried(app: string, code: string, rest: string)
    requires '-' !in app && code != "" && code[0] == '-' && !Occurs("--", code) && "-" + rest <= code
    ensures code !in LicenceCandidates(app + LICENSED_DASH + rest)
  {
    var t := app + "--" + rest;
    RestIsSafe(code, rest);
    DashSeparatorReplaced(app, rest);
    if Occurs(LICENSED, t) {
      DashTooLong(app, code, rest);
    } else {
      ReplaceNone(t, LICENSED, "--");
      DashNotInParts(app, code, rest);
    }
  }

  lemma RestIsSafe(code: string, rest: string)
    requires !Occurs("--", code) && "-" + rest <= code
    ensures !Occurs("--", "-" + rest)
  {
    PrefixOccurs(code, |rest| + 1);
    assert code[..|rest| + 1] == "-" + rest;
    if Occurs("--", "-" + rest) {
      OccursIn("--", "-" + rest, code);
    }
  }

  lemma DashNotInParts(app: string, code: string, rest: string)
    requires '-' !in app && code != "" && code[0] == '-' && !Occurs("--", "-" + rest) && |rest| < |code|
    ensures code !in Candidates(Split(app + "--" + rest, "--"))
  {
    SplitNormalized(app, rest);
    if code in Candidates([app, rest]) {
      var part := CandidateOccurs([app, rest], code);
      FirstCharOccurs(code, part);
    }
  }

  lemma FirstCharOccurs(code: string, s: string)
    requires code != "" && Occurs(code, s)
    ensures code[0] in s
  {
    var p :| 0 <= p <= |s| - |code| && OccursAt(code, s, p);
    assert s[p..p + |code|][0] == s[p];
  }

  // After a replacement the name is too short to hold the code behind the application.
  lemma DashTooLong(app: string, code: string, rest: string)
    requires '-' !in app && code != "" && code[0] == '-' && |rest| < |code| && Occurs(LICENSED, app + "--" + rest)
    ensures code !in Candidates(Split(Replace(app + "--" + rest, LICENSED, "--"), "--"))
  {
    var t := app + "--" + rest;
    var n := Replace(t, LICENSED, "--");
    ReplaceShrinks(t, LICENSED, "--");
    forall p | 0 <= p < |app|
      ensures !OccursAt(LICENSED, t, p)
    {
      assert t[p] != '-';
      if p + 10 <= |t| {
        assert t[p..p + 10][0] == t[p];
      }
    }
    ReplaceKeepsStart(t, LICENSED, "--", |app|);
    assert t[..|app|] == app;
    if code in Candidates(Split(n, "--")) {
      var part := CandidateOccurs(Split(n, "--"), code);
      SplitPartsOccur(n, "--", part);
      OccursIn(code, part, n);
      BehindApplication(app, code, n);
    }
  }

  lemma BehindApplication(app: string, code: string, n: string)
    requires '-' !in app && app <= n && code != "" && code[0] == '-' && Occurs(code, n)
    ensures |app| + |code| <= |n|
  {
    var q :| 0 <= q <= |n| - |code| && OccursAt(code, n, q);
    assert n[q..q + |code|][0] == n[q];
    InPrefix(app, n, q);
  }

  lemma InPrefix(app: string, n: string, q: nat)
    requires app <= n && q < |n|
    ensures q < |app| ==> n[q] in app
  {
    if q < |app| {
      assert n[q] == app[q];
    }
  }

  // ---------------------------------------------------------------------------------------
  // Exactly which codes come back
  // ---------------------------------------------------------------------------------------

  // A decoder that knows one code.
  function Knows(code: string, licence: CustomServer): Decoder {
    t => if t == code then Some(licence) else None
  }

  lemma {:induction false} KnownIffTried(candidates: seq<string>, code: string, licence: CustomServer)
    ensures FirstDecoded(candidates, Knows(code, licence)) == Some(licence) <==> code in candidates
  {
    if candidates != [] {
      KnownIffTried(candidates[1..], code, licence);
      HeadTail(candidates);
    }
  }

  // The name brings back whatever licence the code stands for.
  ghost predicate BringsBack(name: string, code: string) {
    forall licence: CustomServer :: Parsed(name, Knows(code, licence)) == Some(licence)
  }

  lemma BringsBackIffTried(name: string, code: string)
    ensures BringsBack(name, code) <==> !HasHost(Stem(name)) && code in LicenceCandidates(Stem(name))
  {
    forall licence: CustomServer
      ensures !HasHost(Stem(name)) ==>
                (Parsed(name, Knows(code, licence)) == Some(licence) <==> code in LicenceCandidates(Stem(name)))
    {
      KnownIffTried(LicenceCandidates(Stem(name)), code, licence);
    }
    var a, b := CustomServer("", "", "", ""), CustomServer("a", "", "", "");
    assert HasHost(Stem(name)) ==> Parsed(name, Knows(code, a)) != Some(a) || Parsed(name, Knows(code, b)) != Some(b);
    assert !HasHost(Stem(name)) && code !in LicenceCandidates(Stem(name)) ==> Parsed(name, Knows(code, a)) != Some(a);
  }

  // The code reads as it is written: not behind a `host=`, without an end like an extension, trimmed,
  // without a dash where it starts or two in a row, and without a separator of its own.
  predicate Legible(app: string, code: string, exe: string) {
    && !HasHost(app + LICENSED + code) && KeepsEnd(code, exe) && Trim(code) == code
    && !Occurs("--", "-" + code) && !Occurs(LICENSED, code)
  }

  /** A code comes back from a name exactly if it is legible there. */
  lemma LicenceComesBackIff(app: string, code: string, exe: string)
    requires '-' !in app && code !in PartCandidates(app) && IsExe(exe)
    ensures BringsBack(app + LICENSED + code + exe, code) <==> Legible(app, code, exe)
  {
    var name, rest := app + LICENSED + code + exe, Stem(code + exe);
    StemOfExe(code, exe);
    assert name == app + LICENSED + (code + exe);
    StemAfter(app + LICENSED, code + exe);
    BringsBackIffTried(name, code);
    TriedIff(app, code, rest);
  }

  lemma TriedIff(app: string, code: string, rest: string)
    requires '-' !in app && code !in PartCandidates(app) && rest <= code
    ensures code in LicenceCandidates(app + LICENSED + rest) <==>
            rest == code && Trim(code) == code && !Occurs("--", "-" + code) && !Occurs(LICENSED, code)
  {
    var s := app + LICENSED + rest;
    if Trim(code) != code {
      OnlyTrimmedTried(s, code);
    } else if Occurs("--", code) {
      DoubleDashIsNeverTried(s, code);
      DoubleDashWithDash(code);
    } else if Occurs("--", "-" + code) {
      StartsWithDash(code);
      if rest == "" {
        EmptyRest(app, code);
      } else {
        DashIsNotTried(app, code, rest[1..]);
        assert s == app + LICENSED_DASH + rest[1..];
      }
    } else {
      SafeRest(code, rest);
      TriedWithoutDoubleDash(app, rest);
      if !Occurs(LICENSED, code) {
        NotLicensedPrefix(code, rest);
        LastPartTried(code, rest);
      }
    }
  }

  lemma OnlyTrimmedTried(s: string, code: string)
    ensures code in LicenceCandidates(s) ==> Trim(code) == code
  {
    if code in LicenceCandidates(s) {
      var part := CandidateOccurs(Split(Normalized(s), "--"), code);
    }
  }

  lemma DoubleDashWithDash(code: string)
    requires Occurs("--", code)
    ensures Occurs("--", "-" + code)
  {
    SuffixOccurs("-" + code, 1);
    assert ("-" + code)[1..] == code;
    OccursIn("--", code, "-" + code);
  }

  lemma StartsWithDash(code: string)
    requires Occurs("--", "-" + code) && !Occurs("--", code)
    ensures code != "" && code[0] == '-'
  {
    var p :| 0 <= p <= |code| - 1 && OccursAt("--", "-" + code, p);
    if p > 0 {
      assert ("-" + code)[p..p + 2] == code[p - 1..p + 1];
      assert OccursAt("--", code, p - 1);
    }
    assert ("-" + code)[0..2][1] == code[0];
  }

  lemma EmptyRest(app: string, code: string)
    requires '-' !in app && code != "" && code !in PartCandidates(app)
    ensures code !in LicenceCandidates(app + LICENSED + "")
  {
    TriedWithoutDoubleDash(app, "");
    LastPartTried(code, "");
  }

  lemma SafeRest(code: string, rest: string)
    requires rest <= code && !Occurs("--", "-" + code)
    ensures !Occurs("--", "-" + rest)
  {
    PrefixOccurs("-" + code, |rest| + 1);
    assert ("-" + code)[..|rest| + 1] == "-" + rest;
    if Occurs("--", "-" + rest) {
      OccursIn("--", "-" + rest, "-" + code);
    }
  }

  lemma NotLicensedPrefix(code: string, rest: string)
    requires rest <= code && !Occurs(LICENSED, code)
    ensures !Occurs(LICENSED, rest)
  {
    PrefixOccurs(code, |rest|);
    assert code[..|rest|] == rest;
    if Occurs(LICENSED, rest) {
      OccursIn(LICENSED, rest, code);
    }
  }

  // A part holds the whole code only if nothing of it is missing.
  lemma LastPartTried(code: string, rest: string)
    requires rest <= code
    ensures code in PartCandidates(rest) ==> rest == code
    ensures rest == code == Trim(code) ==> code in PartCandidates(rest)
  {
    if code in PartCandidates(rest) {
      PartCandidateOccurs(rest, code);
    }
    assert PartCandidates(rest)[0] == Trim(rest);
  }
}
