/**
 `get_custom_server_from_string` of src/custom_server.rs: the server settings a user puts into
 the name of the installer, read back from that name. Names are ASCII; `decode` stands for the
 Base64, JSON and signature code behind the licence form of a name.
 */
module CustomServers {
  import opened Wrappers
  import opened Sequences
  import opened Strings

  datatype CustomServer = CustomServer(key: string, host: string, api: string, relay: string)

  type Decoder = string -> Option<CustomServer>

  const HOST: string := "host="
  const KEY: string := "key="
  const API: string := "api="
  const RELAY: string := "relay="

  predicate IsLabel(tag: string) {
    tag == HOST || tag == KEY || tag == API || tag == RELAY
  }

  // ---------------------------------------------------------------------------------------
  // The host= form
  // ---------------------------------------------------------------------------------------

  // The name without one or two .exe endings.
  function Stem(s: string): string {
    if EndsWith(Lower(s), ".exe.exe") then s[..|s| - 8]
    else if EndsWith(Lower(s), ".exe") then s[..|s| - 4]
    else s
  }

  predicate HasHost(s: string) {
    Occurs(HOST, Lower(s))
  }

  // The comma-separated tokens from the first `host=` on.
  function Tokens(s: string): (tokens: seq<string>)
  {
    Split(s[Find(HOST, Lower(s), 0)..], ",")
  }

  predicate Labelled(token: string, tag: string) {
    OccursAt(tag, Lower(token), 0)
  }

  function LastField(tokens: seq<string>, tag: string): string {
    if tokens == [] then ""
    else
      var last := tokens[|tokens| - 1];
      if Labelled(last, tag) then last[|tag|..] else LastField(tokens[..|tokens| - 1], tag)
  }

  /** What follows the label in the last token that has it; nothing if no token does. */
  lemma {:induction false} LastFieldIsLast(tokens: seq<string>, tag: string)
    ensures (forall k | 0 <= k < |tokens| :: !Labelled(tokens[k], tag)) ==> LastField(tokens, tag) == ""
    ensures forall j | 0 <= j < |tokens| && Labelled(tokens[j], tag)
                       && (forall k | j < k < |tokens| :: !Labelled(tokens[k], tag)) ::
              LastField(tokens, tag) == tokens[j][|tag|..]
  {
    if tokens != [] && !Labelled(tokens[|tokens| - 1], tag) {
      LastFieldIsLast(tokens[..|tokens| - 1], tag);
    }
  }

  function Fields(tokens: seq<string>): CustomServer {
    CustomServer(LastField(tokens, KEY), LastField(tokens, HOST), LastField(tokens, API), LastField(tokens, RELAY))
  }

  // The token loop.
  method ReadFields(tokens: seq<string>) returns (server: CustomServer)
    ensures server == Fields(tokens)
  {
    var host, key, api, relay := "", "", "", "";
    for i := 0 to |tokens|
      invariant host == LastField(tokens[..i], HOST) && key == LastField(tokens[..i], KEY)
      invariant api == LastField(tokens[..i], API) && relay == LastField(tokens[..i], RELAY)
    {
      var el := tokens[i];
      assert tokens[..i + 1][..i] == tokens[..i];
      if Labelled(el, HOST) {
        host := el[5..];
      }
      if Labelled(el, KEY) {
        key := el[4..];
      }
      if Labelled(el, API) {
        api := el[4..];
      }
      if Labelled(el, RELAY) {
        relay := el[6..];
      }
    }
    assert tokens[..|tokens|] == tokens;
    server := CustomServer(key, host, api, relay);
  }

  // ---------------------------------------------------------------------------------------
  // The licence form
  // ---------------------------------------------------------------------------------------

  const LICENSED: string := "-licensed-"

  function Normalized(s: string): string {
    Replace(Replace(Replace(s, "-licensed---", "--"), "-licensed--", "--"), "-licensed-", "--")
  }

  // What is tried for one part of the name, and for all of them, in order.
  function PartCandidates(part: string): seq<string> {
    [Trim(part)] + if Occurs("(", part) then TrimAll(Split(part, "(")) else []
  }

  function Candidates(parts: seq<string>): seq<string> {
    if parts == [] then [] else PartCandidates(parts[0]) + Candidates(parts[1..])
  }

  function LicenceCandidates(s: string): seq<string> {
    Candidates(Split(Normalized(s), "--"))
  }

  /** The first candidate that decodes. */
  function FirstDecoded(candidates: seq<string>, decode: Decoder): (r: Option<CustomServer>)
    ensures r == None <==> forall i | 0 <= i < |candidates| :: decode(candidates[i]) == None
    ensures r != None ==> exists i :: 0 <= i < |candidates| && decode(candidates[i]) == r
                                      && forall j | 0 <= j < i :: decode(candidates[j]) == None
  {
    if candidates == [] then None
    else if decode(candidates[0]).Some? then decode(candidates[0])
    else
      var r := FirstDecoded(candidates[1..], decode);
      assert forall i | 0 < i < |candidates| :: candidates[i] == candidates[1..][i - 1];
      assert r != None ==>
        exists i :: 0 <= i < |candidates| - 1 && decode(candidates[1..][i]) == r && decode(candidates[i + 1]) == r
                    && forall j | 0 <= j < i + 1 :: decode(candidates[j]) == None;
      r
  }

  lemma {:induction false} FirstDecodedConcat(front: seq<string>, back: seq<string>, decode: Decoder)
    ensures FirstDecoded(front + back, decode) ==
            if FirstDecoded(front, decode).Some? then FirstDecoded(front, decode) else FirstDecoded(back, decode)
  {
    if front == [] {
      assert front + back == back;
    } else {
      FirstDecodedConcat(front[1..], back, decode);
      TailOfConcat(front, back);
    }
  }

  // The loop over the pieces of one part.
  method DecodePieces(pieces: seq<string>, decode: Decoder) returns (r: Option<CustomServer>)
    ensures r == FirstDecoded(TrimAll(pieces), decode)
  {
    for i := 0 to |pieces|
      invariant FirstDecoded(TrimAll(pieces), decode) == FirstDecoded(TrimAll(pieces)[i..], decode)
    {
      r := decode(Trim(pieces[i]));
      if r.Some? {
        return;
      }
      assert TrimAll(pieces)[i..][1..] == TrimAll(pieces)[i + 1..];
    }
    r := None;
  }

  // The loop over the parts.
  method DecodeParts(parts: seq<string>, decode: Decoder) returns (r: Option<CustomServer>)
    ensures r == FirstDecoded(Candidates(parts), decode)
  {
    assert parts[0..] == parts;
    for i := 0 to |parts|
      invariant FirstDecoded(Candidates(parts), decode) == FirstDecoded(Candidates(parts[i..]), decode)
    {
      assert parts[i..][1..] == parts[i + 1..];
      FirstDecodedConcat(PartCandidates(parts[i]), Candidates(parts[i + 1..]), decode);
      r := decode(Trim(parts[i]));
      if r.Some? {
        return;
      } else if Occurs("(", parts[i]) {
        r := DecodePieces(Split(parts[i], "("), decode);
        if r.Some? {
          return;
        }
      }
    }
    r := None;
  }

  /** The settings in a name: the labelled ones if there is a `host=`, else the first licence. */
  function Parsed(s: string, decode: Decoder): Option<CustomServer> {
    var stem := Stem(s);
    if HasHost(stem) then Some(Fields(Tokens(stem))) else FirstDecoded(LicenceCandidates(stem), decode)
  }

  method GetCustomServerFromString(s: string, decode: Decoder) returns (r: Option<CustomServer>)
    ensures r == Parsed(s, decode)
  {
    var stem := Stem(s);
    if Occurs(HOST, Lower(stem)) {
      var strs := Split(stem[Find(HOST, Lower(stem), 0)..], ",");
      var server := ReadFields(strs);
      return Some(server);
    }
    r := DecodeParts(Split(Normalized(stem), "--"), decode);
  }

  // ---------------------------------------------------------------------------------------
  // File extensions
  // ---------------------------------------------------------------------------------------

  predicate IsExe(exe: string) {
    Lower(exe) == "" || Lower(exe) == ".exe" || Lower(exe) == ".exe.exe"
  }

  // The text is still there once the extensions are taken off.
  predicate KeepsEnd(text: string, exe: string) {
    |exe| == 8 || !EndsWith(Lower(text), ".exe")
  }

  /** Text before an extension is read back as it is exactly if it keeps its end. */
  lemma StemOfExe(text: string, exe: string)
    requires IsExe(exe)
    ensures Stem(text + exe) <= text && (Stem(text + exe) == text <==> KeepsEnd(text, exe))
  {
    if |exe| == 8 {
      StemTwice(text, exe);
    } else if |exe| == 4 {
      StemOnce(text, exe);
    } else {
      assert text + exe == text;
      EndsOnce(Lower(text));
    }
  }

  lemma StemTwice(text: string, exe: string)
    requires Lower(exe) == ".exe.exe"
    ensures Stem(text + exe) == text
  {
    assert Lower(text + exe) == Lower(text) + Lower(exe);
    EndsAfter(Lower(text), Lower(exe));
    assert (text + exe)[..|text|] == text;
  }

  lemma StemOnce(text: string, exe: string)
    requires Lower(exe) == ".exe"
    ensures Stem(text + exe) == if EndsWith(Lower(text), ".exe") then text[..|text| - 4] else text
  {
    assert Lower(text + exe) == Lower(text) + Lower(exe);
    EndsAfter(Lower(text), Lower(exe));
    assert (text + exe)[..|text|] == text;
    if EndsWith(Lower(text), ".exe") {
      assert (text + exe)[..|text| - 4] == text[..|text| - 4];
    }
  }

  lemma EndsAfter(s: string, exe: string)
    ensures exe == "" ==> s + exe == s
    ensures exe == ".exe" ==> EndsWith(s + exe, ".exe") && (EndsWith(s + exe, ".exe.exe") <==> EndsWith(s, ".exe"))
    ensures exe == ".exe.exe" ==> EndsWith(s + exe, ".exe.exe")
  {
    if exe == ".exe" {
      EndsWithAll(s, ".exe");
      ExeTwice(s);
    }
    if exe == ".exe.exe" {
      EndsWithAll(s, ".exe.exe");
    }
  }

  lemma ExeTwice(s: string)
    ensures EndsWith(s + ".exe", ".exe.exe") <==> EndsWith(s, ".exe")
  {
    var t := s + ".exe";
    if 4 <= |s| {
      assert t[|t| - 8..] == s[|s| - 4..] + ".exe";
      assert ".exe.exe" == ".exe" + ".exe";
      assert (s[|s| - 4..] + ".exe")[..4] == s[|s| - 4..];
    }
  }

  lemma EndsOnce(s: string)
    ensures EndsWith(s, ".exe.exe") ==> EndsWith(s, ".exe")
  {
    if EndsWith(s, ".exe.exe") {
      assert s[|s| - 8..][4..] == s[|s| - 4..];
    }
  }

  // An extension never reaches past a character it does not consist of.
  lemma StemAfter(front: string, text: string)
    requires front != "" && LowerChar(front[|front| - 1]) !in ".exe"
    ensures Stem(front + text) == front + Stem(text)
  {
    assert Lower(front + text) == Lower(front) + Lower(text);
    assert LowerChar(front[|front| - 1]) !in ".exe.exe";
    EndsWithSkips(Lower(front), Lower(text), ".exe.exe");
    EndsWithSkips(Lower(front), Lower(text), ".exe");
  }

  // ---------------------------------------------------------------------------------------
  // Names that carry settings
  // ---------------------------------------------------------------------------------------

  // One labelled setting as written in a name.
  datatype Field = Field(tag: string, value: string)
  {
    function Text(): string {
      tag + value
    }
  }

  function Texts(fields: seq<Field>): seq<string> {
    seq(|fields|, i requires 0 <= i < |fields| => fields[i].Text())
  }

  function Get(server: CustomServer, tag: string): string {
    if tag == HOST then server.host
    else if tag == KEY then server.key
    else if tag == API then server.api
    else server.relay
  }

  // Some field has this label.
  ghost predicate HasTag(fields: seq<Field>, tag: string) {
    exists i :: 0 <= i < |fields| && Lower(fields[i].tag) == tag
  }

  // Every value is the server's for its label, in any case, in any order, repeated or not.
  predicate Truthful(fields: seq<Field>, server: CustomServer) {
    forall i | 0 <= i < |fields| ::
      IsLabel(Lower(fields[i].tag)) && fields[i].value == Get(server, Lower(fields[i].tag))
  }

  /** The field reading starts in: the first one that holds `host=`, as its label or in its value. */
  function FirstHost(fields: seq<Field>): (j: nat)
    ensures j <= |fields|
  {
    if fields == [] || HasHost(fields[0].Text()) then 0 else 1 + FirstHost(fields[1..])
  }

  function AfterHost(fields: seq<Field>): seq<Field> {
    var j := FirstHost(fields);
    if j < |fields| then fields[j + 1..] else []
  }

  // What is not empty has a field, the host apart.
  ghost predicate Covers(fields: seq<Field>, server: CustomServer) {
    forall tag | IsLabel(tag) && tag != HOST && Get(server, tag) != "" :: HasTag(fields, tag)
  }

  // The fields as the code sees them: a host, of which nothing remains if another one follows,
  // and then the server's settings.
  ghost predicate IsRead(fields: seq<Field>, server: CustomServer) {
    && 0 < |fields| && Lower(fields[0].tag) == HOST && Truthful(fields[1..], server)
    && (fields[0].value == server.host || HasTag(fields[1..], HOST))
    && (CommaFree(server) ==> ',' !in fields[0].value)
  }

  // What may follow the settings: nothing, or a comma and text whose parts have no label, like
  // the " (1)" of a second download.
  ghost predicate Unlabelled(ending: string) {
    ending != "" ==>
      && ending[0] == ','
      && forall part, tag | part in Split(ending[1..], ",") && IsLabel(tag) :: !Labelled(part, tag)
  }

  function Name(prefix: string, fields: seq<Field>, ending: string): string
    requires 0 < |fields|
  {
    prefix + (Join(Texts(fields), ",") + ending)
  }

  ghost predicate CommaFree(server: CustomServer) {
    forall tag | IsLabel(tag) :: ',' !in Get(server, tag)
  }

  // No occurrence of `host=` can overlap the start of another one.
  lemma HostStartsAt(prefix: string, back: string)
    requires !HasHost(prefix) && Labelled(back, HOST)
    ensures HasHost(prefix + back) && Find(HOST, Lower(prefix + back), 0) == |prefix|
  {
    var lower := Lower(prefix + back);
    assert lower == Lower(prefix) + Lower(back);
    assert lower[0..|prefix|] == Lower(prefix);
    assert lower[|prefix|..|prefix| + 5] == Lower(back)[0..5];
    HostBegins(lower, |prefix|);
    forall p | 0 <= p < |prefix|
      ensures !OccursAt(HOST, lower, p)
    {
      if p + 5 <= |prefix| {
        OccursInPart(HOST, lower, 0, Lower(prefix), p);
        assert !OccursAt(HOST, Lower(prefix), p);
      } else {
        NoOverlap(lower, p, |prefix|);
      }
    }
    assert OccursAt(HOST, lower, |prefix|);
  }

  lemma HostBegins(s: string, p: nat)
    requires OccursAt(HOST, s, p)
    ensures s[p] == 'h'
  {
    assert s[p..p + 5][0] == s[p];
  }

  lemma NoOverlap(s: string, p: nat, q: nat)
    requires p < q < p + 5 && q < |s| && s[q] == 'h'
    ensures !OccursAt(HOST, s, p)
  {
    assert HOST[1] != 'h' && HOST[2] != 'h' && HOST[3] != 'h' && HOST[4] != 'h';
    if p + 5 <= |s| {
      assert s[p..p + 5][q - p] == s[q];
    }
  }

  // A text has the label it was written with and no other.
  lemma OwnLabel(field: Field, tag: string)
    requires IsLabel(Lower(field.tag)) && IsLabel(tag)
    ensures Labelled(field.Text(), tag) <==> Lower(field.tag) == tag
  {
    var lower := Lower(field.Text());
    assert lower == Lower(field.tag) + Lower(field.value);
    assert lower[..|field.tag|] == Lower(field.tag);
    if Labelled(field.Text(), tag) {
      assert lower[..|tag|][0] == tag[0];
      assert lower[0] == Lower(field.tag)[0];
    }
  }

  lemma {:induction false} LastFieldSkips(tokens: seq<string>, others: seq<string>, tag: string)
    requires forall other | other in others :: !Labelled(other, tag)
    ensures LastField(tokens + others, tag) == LastField(tokens, tag)
  {
    if others == [] {
      assert tokens + others == tokens;
    } else {
      var front := others[..|others| - 1];
      LastFieldSkips(tokens, front, tag);
      assert (tokens + others)[..|tokens + others| - 1] == tokens + front;
      assert others[|others| - 1] in others;
    }
  }

  lemma {:induction false} LastFieldOfTexts(fields: seq<Field>, server: CustomServer, tag: string)
    requires IsLabel(tag) && 0 < |fields| && Lower(fields[0].tag) == HOST && Truthful(fields[1..], server)
    ensures LastField(Texts(fields), tag) ==
            if HasTag(fields[1..], tag) then Get(server, tag) else if tag == HOST then fields[0].value else ""
  {
    var front, last := fields[..|fields| - 1], fields[|fields| - 1];
    if front == [] {
      OneFieldDecides(last, tag);
      assert fields == [last];
    } else {
      TailStep(fields, server);
      LastFieldOfTexts(front, server, tag);
      LastFieldStep(fields, server, tag);
    }
  }

  lemma LastFieldStep(fields: seq<Field>, server: CustomServer, tag: string)
    requires IsLabel(tag) && 1 < |fields| && Truthful(fields[1..], server)
    requires LastField(Texts(fields[..|fields| - 1]), tag) ==
             if HasTag(fields[..|fields| - 1][1..], tag) then Get(server, tag)
             else if tag == HOST then fields[0].value else ""
    ensures LastField(Texts(fields), tag) ==
            if HasTag(fields[1..], tag) then Get(server, tag) else if tag == HOST then fields[0].value else ""
  {
    TailStep(fields, server);
    LastTextStep(fields, tag);
    TagsStep(fields[1..], tag);
  }

  lemma TailStep(fields: seq<Field>, server: CustomServer)
    requires 1 < |fields| && Truthful(fields[1..], server)
    ensures fields[1..][|fields| - 2] == fields[|fields| - 1] == fields[1..][|fields[1..]| - 1]
    ensures fields[..|fields| - 1][1..] == fields[1..][..|fields| - 2]
    ensures Truthful(fields[..|fields| - 1][1..], server)
  {
  }

  lemma OneFieldDecides(field: Field, tag: string)
    requires IsLabel(tag) && IsLabel(Lower(field.tag))
    ensures LastField(Texts([field]), tag) == if Lower(field.tag) == tag then field.value else ""
  {
    LastTextStep([field], tag);
    assert Texts([field][..0]) == [];
  }

  lemma LastTextStep(fields: seq<Field>, tag: string)
    requires 0 < |fields| && IsLabel(tag) && IsLabel(Lower(fields[|fields| - 1].tag))
    ensures var last := fields[|fields| - 1];
            LastField(Texts(fields), tag) ==
            if Lower(last.tag) == tag then last.value else LastField(Texts(fields[..|fields| - 1]), tag)
  {
    var last, texts := fields[|fields| - 1], Texts(fields);
    OwnLabel(last, tag);
    assert texts[|fields| - 1] == last.Text() && texts[..|fields| - 1] == Texts(fields[..|fields| - 1]);
    assert last.Text()[|last.tag|..] == last.value;
  }

  lemma TagsStep(fields: seq<Field>, tag: string)
    requires 0 < |fields|
    ensures HasTag(fields, tag) <==> HasTag(fields[..|fields| - 1], tag) || Lower(fields[|fields| - 1].tag) == tag
  {
    var front := fields[..|fields| - 1];
    assert forall i | 0 <= i < |front| :: front[i] == fields[i];
    if HasTag(front, tag) {
      var i :| 0 <= i < |front| && Lower(front[i].tag) == tag;
      assert Lower(fields[i].tag) == tag;
    }
  }

  // What stands before the first `host=` is ignored.
  lemma TokensFromHost(prefix: string, back: string)
    requires !HasHost(prefix) && Labelled(back, HOST)
    ensures HasHost(prefix + back) && Tokens(prefix + back) == Split(back, ",")
  {
    HostStartsAt(prefix, back);
    assert (prefix + back)[|prefix|..] == back;
  }

  // The tokens of such a name are the texts of its fields, then parts without a label.
  lemma TokensOfName(prefix: string, fields: seq<Field>, ending: string, server: CustomServer)
    requires !HasHost(prefix) && IsRead(fields, server) && Unlabelled(ending) && CommaFree(server)
    ensures Tokens(Name(prefix, fields, ending)) ==
            Texts(fields) + if ending == "" then [] else Split(ending[1..], ",")
  {
    StartsWithHost(fields, ending);
    TokensFromHost(prefix, Join(Texts(fields), ",") + ending);
    SplitTexts(fields, ending, server);
  }

  lemma SplitTexts(fields: seq<Field>, ending: string, server: CustomServer)
    requires IsRead(fields, server) && Unlabelled(ending) && CommaFree(server)
    ensures Split(Join(Texts(fields), ",") + ending, ",") ==
            Texts(fields) + if ending == "" then [] else Split(ending[1..], ",")
  {
    TextsCommaFree(fields, server);
    SplitBeforeEnding(Texts(fields), ending);
  }

  lemma SplitBeforeEnding(parts: seq<string>, ending: string)
    requires 0 < |parts| && forall part | part in parts :: ',' !in part
    requires ending != "" ==> ending[0] == ','
    ensures Split(Join(parts, ",") + ending, ",") == parts + if ending == "" then [] else Split(ending[1..], ",")
  {
    var body := Join(parts, ",");
    if ending == "" {
      SplitJoin(parts);
      assert body + ending == body;
    } else {
      SplitJoinBefore(parts, ending[1..]);
      Reassociate(body, ",", ending[1..]);
      assert ending == "," + ending[1..];
    }
  }

  lemma TextsCommaFree(fields: seq<Field>, server: CustomServer)
    requires IsRead(fields, server) && CommaFree(server)
    ensures forall text | text in Texts(fields) :: ',' !in text
  {
    forall text | text in Texts(fields)
      ensures ',' !in text
    {
      var i :| 0 <= i < |fields| && Texts(fields)[i] == text;
      ReadFieldCommaFree(fields, server, i);
    }
  }

  lemma ReadFieldCommaFree(fields: seq<Field>, server: CustomServer, i: nat)
    requires IsRead(fields, server) && CommaFree(server) && i < |fields|
    ensures ',' !in fields[i].Text()
  {
    if 0 < i {
      assert fields[i] == fields[1..][i - 1];
    }
    TextCommaFree(fields[i]);
  }

  lemma TextCommaFree(field: Field)
    requires IsLabel(Lower(field.tag)) && ',' !in field.value
    ensures ',' !in field.Text()
  {
    forall k | 0 <= k < |field.tag|
      ensures field.tag[k] != ','
    {
      assert Lower(field.tag)[k] != ',';
    }
  }

  lemma StartsWithHost(fields: seq<Field>, ending: string)
    requires 0 < |fields| && Lower(fields[0].tag) == HOST
    ensures Labelled(Join(Texts(fields), ",") + ending, HOST)
  {
    var s := Join(Texts(fields), ",") + ending;
    assert s[..5] == fields[0].tag;
    assert Lower(s)[..5] == Lower(fields[0].tag);
  }

  // Nothing that was read contains a comma.
  lemma {:induction false} LastFieldCommaFree(tokens: seq<string>, tag: string)
    requires forall token | token in tokens :: ',' !in token
    ensures ',' !in LastField(tokens, tag)
  {
    if tokens != [] {
      LastFieldCommaFree(tokens[..|tokens| - 1], tag);
      assert tokens[|tokens| - 1] in tokens;
    }
  }

  // Settings without a comma come back exactly if every one that is not empty is read.
  lemma FieldsOfName(prefix: string, fields: seq<Field>, ending: string, server: CustomServer)
    requires !HasHost(prefix) && IsRead(fields, server) && Unlabelled(ending) && CommaFree(server)
    ensures Fields(Tokens(Name(prefix, fields, ending))) == server <==> Covers(fields[1..], server)
  {
    var tokens := Tokens(Name(prefix, fields, ending));
    TokensOfName(prefix, fields, ending, server);
    forall tag | IsLabel(tag)
      ensures LastField(tokens, tag) ==
              if HasTag(fields[1..], tag) then Get(server, tag) else if tag == HOST then fields[0].value else ""
    {
      LastFieldSkips(Texts(fields), if ending == "" then [] else Split(ending[1..], ","), tag);
      LastFieldOfTexts(fields, server, tag);
    }
    FieldsAre(tokens, server);
  }

  lemma FieldsAre(tokens: seq<string>, server: CustomServer)
    ensures Fields(tokens) == server <==> forall tag | IsLabel(tag) :: LastField(tokens, tag) == Get(server, tag)
  {
    assert IsLabel(HOST) && IsLabel(KEY) && IsLabel(API) && IsLabel(RELAY);
  }

  // Taking an extension off the ending leaves it without a label.
  lemma EndingStaysUnlabelled(ending: string, exe: string)
    requires ending != "" && Unlabelled(ending) && IsExe(exe)
    ensures Unlabelled("," + Stem(ending[1..] + exe))
  {
    StemOfExe(ending[1..], exe);
    var text, k := ending[1..], |Stem(ending[1..] + exe)|;
    assert Stem(text + exe) == text[..k];
    SplitOfPrefix(text, k, ",");
    forall part, tag | part in Split(text[..k], ",") && IsLabel(tag)
      ensures !Labelled(part, tag)
    {
      var j :| 0 <= j < |Split(text[..k], ",")| && Split(text[..k], ",")[j] == part;
      LabelOfPrefix(part, Split(text, ",")[j], tag);
    }
    assert ("," + text[..k])[1..] == text[..k];
  }

  lemma LabelOfPrefix(part: string, whole: string, tag: string)
    requires part <= whole
    ensures Labelled(part, tag) ==> Labelled(whole, tag)
  {
    if Labelled(part, tag) {
      assert Lower(whole)[0..|tag|] == Lower(part)[0..|tag|];
    }
  }

  // Everything in front of the last value.
  function LeadIn(fields: seq<Field>): string
    requires 0 < |fields|
  {
    var front, last := fields[..|fields| - 1], fields[|fields| - 1];
    (if front == [] then "" else Join(Texts(front), ",") + ",") + last.tag
  }

  lemma {:induction false} JoinLast(parts: seq<string>, last: string)
    requires 0 < |parts|
    ensures Join(parts + [last], ",") == Join(parts, ",") + "," + last
  {
    if |parts| > 1 {
      JoinLast(parts[1..], last);
      assert (parts + [last])[1..] == parts[1..] + [last];
      Reassociate(parts[0] + ",", Join(parts[1..], ",") + ",", last);
      Reassociate(parts[0] + ",", Join(parts[1..], ","), ",");
    } else {
      assert (parts + [last])[1..] == [last];
    }
  }

  lemma LastValueLast(fields: seq<Field>)
    requires 0 < |fields|
    ensures Join(Texts(fields), ",") == LeadIn(fields) + fields[|fields| - 1].value
  {
    var front, last := fields[..|fields| - 1], fields[|fields| - 1];
    assert Texts(fields) == Texts(front) + [last.Text()];
    if front != [] {
      JoinLast(Texts(front), last.Text());
      Reassociate(Join(Texts(front), ",") + ",", last.tag, last.value);
    }
  }

  // The fields as they are read when the last value is cut short.
  function Shortened(fields: seq<Field>, value: string): seq<Field>
    requires 0 < |fields|
  {
    fields[|fields| - 1 := Field(fields[|fields| - 1].tag, value)]
  }

  // Extensions may take a piece of the ending ...
  lemma StemInEnding(prefix: string, fields: seq<Field>, ending: string, exe: string)
    requires 0 < |fields| && ending != "" && ending[0] == ','
    ensures Stem(Name(prefix, fields, ending) + exe) == Name(prefix, fields, "," + Stem(ending[1..] + exe))
  {
    var body, text := Join(Texts(fields), ","), ending[1..] + exe;
    var front := prefix + body + ",";
    assert Name(prefix, fields, ending) + exe == front + text;
    StemAfter(front, text);
    assert front + Stem(text) == Name(prefix, fields, "," + Stem(text));
  }

  // ... or, if there is none, of the last value.
  lemma StemInValue(prefix: string, fields: seq<Field>, exe: string)
    requires 0 < |fields| && IsLabel(Lower(fields[|fields| - 1].tag))
    ensures Stem(Name(prefix, fields, "") + exe)
            == Name(prefix, Shortened(fields, Stem(fields[|fields| - 1].value + exe)), "")
  {
    var last := fields[|fields| - 1];
    var front, text := prefix + LeadIn(fields), last.value + exe;
    NameWithValue(prefix, fields);
    assert Name(prefix, fields, "") + exe == front + text;
    TagEnd(last.tag);
    StemAfter(front, text);
    var short := Shortened(fields, Stem(text));
    NameWithValue(prefix, short);
    assert short[..|fields| - 1] == fields[..|fields| - 1];
  }

  lemma NameWithValue(prefix: string, fields: seq<Field>)
    requires 0 < |fields|
    ensures Name(prefix, fields, "") == prefix + LeadIn(fields) + fields[|fields| - 1].value
  {
    LastValueLast(fields);
    assert Join(Texts(fields), ",") + "" == Join(Texts(fields), ",");
    Reassociate(prefix, LeadIn(fields), fields[|fields| - 1].value);
  }

  lemma TagEnd(tag: string)
    requires IsLabel(Lower(tag))
    ensures tag != "" && LowerChar(tag[|tag| - 1]) !in ".exe"
  {
    assert Lower(tag)[|tag| - 1] == '=';
  }

  // The last field is the server's, also if it is the only one.
  lemma LastIsTruthful(fields: seq<Field>, server: CustomServer)
    requires IsRead(fields, server)
    ensures var last := fields[|fields| - 1]; IsLabel(Lower(last.tag)) && last.value == Get(server, Lower(last.tag))
  {
    if 1 < |fields| {
      assert fields[|fields| - 1] == fields[1..][|fields| - 2];
    }
  }

  // A last value that lost its end is not read back.
  lemma ShortenedIsWrong(prefix: string, fields: seq<Field>, server: CustomServer, value: string)
    requires !HasHost(prefix) && IsRead(fields, server) && CommaFree(server)
    requires value <= fields[|fields| - 1].value && value != fields[|fields| - 1].value
    ensures Fields(Tokens(Name(prefix, Shortened(fields, value), ""))) != server
  {
    var short, tag := Shortened(fields, value), Lower(fields[|fields| - 1].tag);
    ShortTokens(prefix, fields, server, value);
    LastIsTruthful(fields, server);
    assert short[|short| - 1].value == value;
    LastTextStep(short, tag);
    FieldsAre(Texts(short), server);
  }

  lemma ShortTokens(prefix: string, fields: seq<Field>, server: CustomServer, value: string)
    requires !HasHost(prefix) && IsRead(fields, server) && CommaFree(server) && value <= fields[|fields| - 1].value
    ensures Tokens(Name(prefix, Shortened(fields, value), "")) == Texts(Shortened(fields, value))
  {
    var short := Shortened(fields, value);
    NameHasHost(prefix, short, "");
    ShortTextsCommaFree(fields, server, value);
    SplitBeforeEnding(Texts(short), "");
    assert Texts(short) + [] == Texts(short);
  }

  lemma ShortTextsCommaFree(fields: seq<Field>, server: CustomServer, value: string)
    requires IsRead(fields, server) && CommaFree(server) && value <= fields[|fields| - 1].value
    ensures forall text | text in Texts(Shortened(fields, value)) :: ',' !in text
  {
    var short := Shortened(fields, value);
    forall text | text in Texts(short)
      ensures ',' !in text
    {
      var i :| 0 <= i < |short| && Texts(short)[i] == text;
      ReadFieldCommaFree(fields, server, i);
      ShortTextStarts(fields[i], short[i]);
    }
  }

  lemma ShortTextStarts(field: Field, short: Field)
    requires short.tag == field.tag && short.value <= field.value
    ensures short.Text() <= field.Text()
  {
  }

  lemma NothingReadHasComma(name: string, server: CustomServer)
    requires !CommaFree(server)
    ensures Fields(Tokens(name)) != server
  {
    SplitCommaFree(name[Find(HOST, Lower(name), 0)..]);
    forall tag | IsLabel(tag)
      ensures ',' !in LastField(Tokens(name), tag)
    {
      LastFieldCommaFree(Tokens(name), tag);
    }
    FieldsAre(Tokens(name), server);
  }

  // Settings that start with the host.
  lemma HostFirstComesBack(
    prefix: string, fields: seq<Field>, ending: string, exe: string, server: CustomServer, decode: Decoder)
    requires !HasHost(prefix) && IsRead(fields, server) && Unlabelled(ending) && IsExe(exe)
    ensures Parsed(Name(prefix, fields, ending) + exe, decode) == Some(server)
            <==> CommaFree(server) && (ending != "" || KeepsEnd(fields[|fields| - 1].value, exe))
                 && Covers(fields[1..], server)
  {
    if ending != "" {
      var rest := "," + Stem(ending[1..] + exe);
      StemInEnding(prefix, fields, ending, exe);
      EndingStaysUnlabelled(ending, exe);
      NameHasHost(prefix, fields, rest);
      SettingsRead(prefix, fields, rest, server);
    } else {
      LastIsTruthful(fields, server);
      StemInValue(prefix, fields, exe);
      SettingsInValue(prefix, fields, exe, server);
    }
  }

  lemma SettingsRead(prefix: string, fields: seq<Field>, ending: string, server: CustomServer)
    requires !HasHost(prefix) && IsRead(fields, server) && Unlabelled(ending)
    ensures Fields(Tokens(Name(prefix, fields, ending))) == server <==> CommaFree(server) && Covers(fields[1..], server)
  {
    if CommaFree(server) {
      FieldsOfName(prefix, fields, ending, server);
    } else {
      NothingReadHasComma(Name(prefix, fields, ending), server);
    }
  }

  lemma SettingsInValue(prefix: string, fields: seq<Field>, exe: string, server: CustomServer)
    requires !HasHost(prefix) && IsRead(fields, server) && IsExe(exe)
    ensures var value := fields[|fields| - 1].value;
            var name := Name(prefix, Shortened(fields, Stem(value + exe)), "");
            && HasHost(name)
            && (Fields(Tokens(name)) == server
                <==> CommaFree(server) && KeepsEnd(value, exe) && Covers(fields[1..], server))
  {
    var value := fields[|fields| - 1].value;
    var short := Stem(value + exe);
    StemOfExe(value, exe);
    NameHasHost(prefix, Shortened(fields, short), "");
    if KeepsEnd(value, exe) {
      assert Shortened(fields, value) == fields;
      SettingsRead(prefix, fields, "", server);
    } else if CommaFree(server) {
      ShortenedIsWrong(prefix, fields, server, short);
    } else {
      NothingReadHasComma(Name(prefix, Shortened(fields, short), ""), server);
    }
  }

  lemma NameHasHost(prefix: string, fields: seq<Field>, ending: string)
    requires !HasHost(prefix) && 0 < |fields| && Lower(fields[0].tag) == HOST
    ensures HasHost(Name(prefix, fields, ending))
    ensures Tokens(Name(prefix, fields, ending)) == Split(Join(Texts(fields), ",") + ending, ",")
  {
    StartsWithHost(fields, ending);
    TokensFromHost(prefix, Join(Texts(fields), ",") + ending);
  }

  // No `host=` appears where two texts meet.
  lemma NoHostAcross(front: string, back: string)
    requires !HasHost(front) && !HasHost(back)
    requires back == "" || LowerChar(back[0]) !in "ost="
    ensures !HasHost(front + back)
  {
    assert Lower(front + back) == Lower(front) + Lower(back);
    assert HOST[1..] == "ost=";
    NotAcross(HOST, Lower(front), Lower(back));
  }

  // A label starts with none of the characters `host=` goes on with.
  lemma LabelStart(field: Field)
    requires IsLabel(Lower(field.tag))
    ensures field.Text() != "" && LowerChar(field.Text()[0]) !in "ost="
  {
    assert field.Text()[0] == field.tag[0] && Lower(field.tag)[0] == LowerChar(field.tag[0]);
  }

  // What stands before the first `host=` of a text.
  lemma NoHostBefore(text: string)
    requires HasHost(text)
    ensures var q := Find(HOST, Lower(text), 0);
            q + 5 <= |text| && Lower(text[q..q + 5]) == HOST && !HasHost(text[..q])
  {
    var lower, q := Lower(text), Find(HOST, Lower(text), 0);
    FoundAt(HOST, lower);
    assert Lower(text[q..q + 5]) == lower[q..q + 5];
    assert Lower(text[..q]) == lower[..q];
  }

  // The first field is read from its first `host=` on ...
  lemma LeadOf(field: Field) returns (q: nat, lead: Field)
    requires IsLabel(Lower(field.tag)) && HasHost(field.Text())
    ensures q <= |field.Text()| && lead.Text() == field.Text()[q..] && !HasHost(field.Text()[..q])
    ensures Lower(lead.tag) == HOST && (Lower(field.tag) == HOST ==> lead == field)
    ensures ',' !in field.Text() ==> ',' !in lead.value
  {
    var text := field.Text();
    q := Find(HOST, Lower(text), 0);
    NoHostBefore(text);
    lead := Field(text[q..q + 5], text[q + 5..]);
    if Lower(field.tag) == HOST {
      HostAtStart(field);
    }
  }

  lemma StartInField(prefix: string, fields: seq<Field>, ending: string, q: nat, lead: Field)
    requires 0 < |fields| && q <= |fields[0].Text()| && lead.Text() == fields[0].Text()[q..]
    ensures Name(prefix, fields, ending) == Name(prefix + fields[0].Text()[..q], [lead] + fields[1..], ending)
  {
    JoinFrom(fields, lead, q);
    NameFrom(prefix, fields[0].Text()[..q], Join(Texts([lead] + fields[1..]), ","), ending);
  }

  lemma NoHostBeforeLead(prefix: string, field: Field, q: nat)
    requires !HasHost(prefix) && IsLabel(Lower(field.tag)) && q <= |field.Text()| && !HasHost(field.Text()[..q])
    ensures !HasHost(prefix + field.Text()[..q])
  {
    LabelStart(field);
    NoHostAcross(prefix, field.Text()[..q]);
  }

  lemma HostAtStart(field: Field)
    requires Lower(field.tag) == HOST
    ensures Find(HOST, Lower(field.Text()), 0) == 0
    ensures field.Text()[..5] == field.tag && field.Text()[5..] == field.value
  {
    OwnLabel(field, HOST);
  }

  lemma NameFrom(prefix: string, skipped: string, body: string, ending: string)
    ensures prefix + ((skipped + body) + ending) == prefix + skipped + (body + ending)
  {
    Reassociate(skipped, body, ending);
    Reassociate(prefix, skipped, body + ending);
  }

  lemma JoinFrom(fields: seq<Field>, lead: Field, q: nat)
    requires 0 < |fields| && q <= |fields[0].Text()| && lead.Text() == fields[0].Text()[q..]
    ensures Join(Texts(fields), ",") == fields[0].Text()[..q] + Join(Texts([lead] + fields[1..]), ",")
  {
    var text, rest := fields[0].Text(), Texts(fields[1..]);
    assert text == text[..q] + text[q..];
    assert Texts(fields) == [text] + rest && Texts([lead] + fields[1..]) == [text[q..]] + rest;
    if rest != [] {
      JoinCons(text, rest, ",");
      JoinCons(text[q..], rest, ",");
      Reassociate(text[..q], text[q..], ",");
      Reassociate(text[..q], text[q..] + ",", Join(rest, ","));
    }
  }

  // ... and a field without one is skipped.
  lemma SkipField(prefix: string, fields: seq<Field>, ending: string)
    requires !HasHost(prefix) && 1 < |fields| && IsLabel(Lower(fields[0].tag)) && !HasHost(fields[0].Text())
    ensures !HasHost(prefix + fields[0].Text() + ",")
    ensures Name(prefix, fields, ending) == Name(prefix + fields[0].Text() + ",", fields[1..], ending)
  {
    var text := fields[0].Text();
    LabelStart(fields[0]);
    NoHostAcross(prefix, text);
    NoHostAcross(prefix + text, ",");
    assert Texts(fields)[1..] == Texts(fields[1..]);
    NameFrom(prefix, text + ",", Join(Texts(fields[1..]), ","), ending);
    Reassociate(prefix, text, ",");
  }

  lemma {:induction false} StartInName(prefix: string, fields: seq<Field>, ending: string, server: CustomServer)
    returns (before: string, lead: Field)
    requires !HasHost(prefix) && HasTag(fields, HOST) && Truthful(fields, server)
    ensures !HasHost(before) && Name(prefix, fields, ending) == Name(before, [lead] + AfterHost(fields), ending)
    ensures IsLead(fields, lead)
    decreases |fields|
  {
    if HasHost(fields[0].Text()) {
      var q;
      q, lead := LeadOf(fields[0]);
      before := prefix + fields[0].Text()[..q];
      NoHostBeforeLead(prefix, fields[0], q);
      StartInField(prefix, fields, ending, q, lead);
    } else {
      HostIsLater(fields);
      SkipField(prefix, fields, ending);
      before, lead := StartInName(prefix + fields[0].Text() + ",", fields[1..], ending, server);
      HostOneLater(fields, lead);
    }
  }

  // A host field, cut out of the field reading starts in.
  ghost predicate IsLead(fields: seq<Field>, lead: Field) {
    var j := FirstHost(fields);
    && j < |fields| && Lower(lead.tag) == HOST
    && (Lower(fields[j].tag) == HOST ==> lead == fields[j])
    && (',' !in fields[j].Text() ==> ',' !in lead.value)
  }

  lemma HostOneLater(fields: seq<Field>, lead: Field)
    requires 0 < |fields| && !HasHost(fields[0].Text())
    ensures AfterHost(fields) == AfterHost(fields[1..])
    ensures IsLead(fields[1..], lead) ==> IsLead(fields, lead)
  {
    var j := FirstHost(fields[1..]);
    assert FirstHost(fields) == 1 + j;
    assert j < |fields| - 1 ==> fields[1..][j] == fields[1 + j];
  }

  lemma HostIsLater(fields: seq<Field>)
    requires HasTag(fields, HOST) && !HasHost(fields[0].Text())
    ensures HasTag(fields[1..], HOST)
  {
    var i :| 0 <= i < |fields| && Lower(fields[i].tag) == HOST;
    HostFieldHasHost(fields[i]);
    assert fields[1..][i - 1] == fields[i];
  }

  lemma HostFieldHasHost(field: Field)
    requires Lower(field.tag) == HOST
    ensures HasHost(field.Text())
  {
    OwnLabel(field, HOST);
    assert OccursAt(HOST, Lower(field.Text()), 0);
  }

  lemma {:induction false} HostNotBefore(fields: seq<Field>, i: nat)
    requires i < |fields| && Lower(fields[i].tag) == HOST
    ensures FirstHost(fields) <= i
  {
    if i == 0 {
      HostFieldHasHost(fields[0]);
    } else {
      assert fields[1..][i - 1] == fields[i];
      HostNotBefore(fields[1..], i - 1);
    }
  }

  // A host field stands where reading starts or after that.
  lemma HostIsRead(fields: seq<Field>)
    requires HasTag(fields, HOST)
    ensures var j := FirstHost(fields);
            j < |fields| && (Lower(fields[j].tag) == HOST || HasTag(AfterHost(fields), HOST))
  {
    var i := TaggedField(fields, HOST);
    HostNotBefore(fields, i);
    TaggedFrom(fields, FirstHost(fields), i, HOST);
  }

  lemma TaggedField(fields: seq<Field>, tag: string) returns (i: nat)
    requires HasTag(fields, tag)
    ensures i < |fields| && Lower(fields[i].tag) == tag
  {
    i :| 0 <= i < |fields| && Lower(fields[i].tag) == tag;
  }

  lemma TaggedFrom(fields: seq<Field>, j: nat, i: nat, tag: string)
    requires j <= i < |fields| && Lower(fields[i].tag) == tag
    ensures Lower(fields[j].tag) == tag || HasTag(fields[j + 1..], tag)
  {
    if j < i {
      assert fields[j + 1..][i - j - 1] == fields[i];
    }
  }

  // A name and the fields that are read from it.
  lemma ReadFromName(prefix: string, fields: seq<Field>, ending: string, server: CustomServer)
    returns (before: string, read: seq<Field>)
    requires !HasHost(prefix) && Truthful(fields, server) && HasTag(fields, HOST)
    ensures !HasHost(before) && IsRead(read, server) && read[1..] == AfterHost(fields)
    ensures Name(prefix, fields, ending) == Name(before, read, ending)
    ensures read[|read| - 1] == fields[|fields| - 1]
  {
    var lead;
    before, lead := StartInName(prefix, fields, ending, server);
    LeadIsRead(fields, lead, server);
    read := [lead] + AfterHost(fields);
    assert read[1..] == AfterHost(fields);
    LastIsRead(fields, read, FirstHost(fields));
  }

  lemma LeadIsRead(fields: seq<Field>, lead: Field, server: CustomServer)
    requires Truthful(fields, server) && HasTag(fields, HOST) && IsLead(fields, lead)
    ensures IsRead([lead] + AfterHost(fields), server)
    ensures AfterHost(fields) == [] ==> lead == fields[FirstHost(fields)]
  {
    HostIsRead(fields);
    assert ([lead] + AfterHost(fields))[1..] == AfterHost(fields);
    if CommaFree(server) {
      TextCommaFree(fields[FirstHost(fields)]);
    }
  }

  /** Settings with a host, written into a name, come back exactly if none of them contains a comma,
      the last one, unless a comma or a second extension follows it, does not itself end like an
      extension, and every other one that is not empty is written after the first `host=`. */
  lemma SettingsComeBack(
    prefix: string, fields: seq<Field>, ending: string, exe: string, server: CustomServer, decode: Decoder)
    requires !HasHost(prefix) && Truthful(fields, server) && HasTag(fields, HOST) && Unlabelled(ending) && IsExe(exe)
    ensures Parsed(Name(prefix, fields, ending) + exe, decode) == Some(server)
            <==> CommaFree(server) && (ending != "" || KeepsEnd(fields[|fields| - 1].value, exe))
                 && Covers(AfterHost(fields), server)
  {
    var before, read := ReadFromName(prefix, fields, ending, server);
    HostFirstComesBack(before, read, ending, exe, server, decode);
  }

  lemma LastIsRead(fields: seq<Field>, read: seq<Field>, j: nat)
    requires j < |fields| && |read| == |fields| - j && read[1..] == fields[j + 1..]
    requires j == |fields| - 1 ==> read[0] == fields[j]
    ensures read[|read| - 1] == fields[|fields| - 1]
  {
    if j < |fields| - 1 {
      assert read[|read| - 1] == read[1..][|read| - 2] && fields[|fields| - 1] == fields[j + 1..][|read| - 2];
    }
  }

  // A key in front of the host is lost.
  lemma KeyBeforeHostIsLost(decode: Decoder)
    ensures Parsed("key=k,host=h", decode) != Some(CustomServer("k", "h", "", ""))
  {
    var server, fields := CustomServer("k", "h", "", ""), [Field(KEY, "k"), Field(HOST, "h")];
    LabelsAreLower();
    assert KEY + "k" == "key=k" && HOST + "h" == "host=h";
    assert Texts(fields) == ["key=k", "host=h"];
    JoinCons("key=k", ["host=h"], ",");
    assert ["key=k"] + ["host=h"] == ["key=k", "host=h"];
    assert "" + ("key=k" + "," + "host=h" + "") + "" == "key=k,host=h";
    OneHostOnly(fields[0], fields[1]);
    SettingsComeBack("", fields, "", "", server, decode);
    assert Get(server, KEY) != "";
  }

  lemma OneHostOnly(key: Field, host: Field)
    requires |key.Text()| == 5 && Lower(key.tag) == KEY && Lower(host.tag) == HOST
    ensures HasTag([key, host], HOST) && AfterHost([key, host]) == []
  {
    HostFieldHasHost(host);
    assert Lower(key.Text())[..4] == Lower(key.tag);
    assert !HasHost(key.Text()) by {
      assert Lower(key.Text())[0] == KEY[0];
      assert Lower(key.Text())[0..5][0] != HOST[0];
    }
    assert [key, host][1..] == [host];
    assert FirstHost([host]) == 0 && FirstHost([key, host]) == 1;
    assert Lower([key, host][1].tag) == HOST;
  }

  /** A name with a literal label for each setting, in mixed case and in the order of the labels here. */
  lemma LiteralNameComesBack(host: string, key: string, api: string, relay: string, decode: Decoder)
    requires ',' !in host && ',' !in key && ',' !in api && ',' !in relay
    ensures Parsed("HOST=" + host + ",Key=" + key + ",API=" + api + ",relay=" + relay + ",.EXE", decode)
            == Some(CustomServer(key, host, api, relay))
  {
    var server := CustomServer(key, host, api, relay);
    var fields := [Field("HOST=", host), Field("Key=", key), Field("API=", api), Field("relay=", relay)];
    LiteralLabels();
    LiteralName(host, key, api, relay);
    HostFieldHasHost(fields[0]);
    assert fields[0].tag == "HOST=";
    assert HasTag(fields, HOST);
    assert AfterHost(fields) == fields[1..];
    LiteralFieldsCover(fields[1..], server);
    SplitOfNothing();
    SettingsComeBack("", fields, ",", ".EXE", server, decode);
  }

  lemma LiteralLabels()
    ensures Lower("HOST=") == HOST && Lower("Key=") == KEY && Lower("API=") == API && Lower("relay=") == RELAY
    ensures Lower(".EXE") == ".exe"
  {
  }

  lemma LiteralName(host: string, key: string, api: string, relay: string)
    ensures var fields := [Field("HOST=", host), Field("Key=", key), Field("API=", api), Field("relay=", relay)];
            Name("", fields, ",") + ".EXE" ==
            "HOST=" + host + ",Key=" + key + ",API=" + api + ",relay=" + relay + ",.EXE"
  {
    var fields := [Field("HOST=", host), Field("Key=", key), Field("API=", api), Field("relay=", relay)];
    assert Texts(fields) == ["HOST=" + host, "Key=" + key, "API=" + api, "relay=" + relay];
    JoinFour("HOST=" + host, "Key=" + key, "API=" + api, "relay=" + relay);
    var first := "HOST=" + host;
    var second, third := first + ",Key=" + key, first + ",Key=" + key + ",API=" + api;
    assert ",Key=" == "," + "Key=" && ",API=" == "," + "API=" && ",relay=" == "," + "relay=" && ",.EXE" == "," + ".EXE";
    AfterComma(first, "Key=", key);
    AfterComma(second, "API=", api);
    AfterComma(third, "relay=", relay);
    Reassociate(third + ",relay=" + relay, ",", ".EXE");
    assert "" + (Join(Texts(fields), ",") + ",") == Join(Texts(fields), ",") + ",";
  }

  lemma AfterComma(front: string, tag: string, value: string)
    ensures front + ("," + tag) + value == front + "," + (tag + value)
  {
  }

  lemma JoinFour(a: string, b: string, c: string, d: string)
    ensures Join([a, b, c, d], ",") == a + "," + b + "," + c + "," + d
  {
    assert [a, b, c, d][1..] == [b, c, d] && [b, c, d][1..] == [c, d] && [c, d][1..] == [d];
    assert Join([c, d], ",") == c + "," + d;
    assert Join([b, c, d], ",") == b + "," + (c + "," + d);
    assert Join([a, b, c, d], ",") == a + "," + (b + "," + (c + "," + d));
  }

  lemma LiteralFieldsCover(fields: seq<Field>, server: CustomServer)
    requires |fields| == 3
    requires Lower(fields[0].tag) == KEY && Lower(fields[1].tag) == API && Lower(fields[2].tag) == RELAY
    ensures Covers(fields, server)
  {
  }

  lemma SplitOfNothing()
    ensures Unlabelled(",") && !HasHost("")
  {
    assert ","[1..] == "";
  }

  lemma LabelsAreLower()
    ensures Lower(HOST) == HOST && Lower(KEY) == KEY
  {
  }
}
