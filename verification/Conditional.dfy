/** Conditional requests, internal/arm/conditional.go: entity tags, how they match, and what they
    decide, against RFC 9110. */
module Conditional {
  import opened Wrappers
  import opened GoStrings

  // --- Entity tags: section 8.8.3 of RFC 9110 ---

  /** `etagc`: visible ASCII but the double quote, and everything above ASCII. */
  predicate EntityTagChar(c: char) {
    c as int == 0x21 || 0x23 <= c as int <= 0x7E || c as int >= 0x80
  }

  predicate OpaqueTag(s: string) {
    && |s| >= 2 && s[0] == '"' && s[|s| - 1] == '"'
    && forall k | 1 <= k < |s| - 1 :: EntityTagChar(s[k])
  }

  predicate IsWeak(tag: string) {
    "W/" <= tag
  }

  function Opaque(tag: string): string {
    if IsWeak(tag) then tag[2..] else tag
  }

  predicate EntityTag(s: string) {
    OpaqueTag(Opaque(s))
  }

  /** Section 8.8.3.2: strong comparison needs two strong tags, weak comparison ignores the marks. */
  predicate StrongEqual(a: string, b: string) {
    !IsWeak(a) && !IsWeak(b) && a == b
  }

  predicate WeakEqual(a: string, b: string) {
    Opaque(a) == Opaque(b)
  }

  /** `validEntityTag` looks at runes; the grammar is about bytes. */
  method ValidEntityTag(value: string) returns (valid: bool)
    ensures valid == EntityTag(value)
  {
    var tag := if "W/" <= value then value[2..] else value;
    if |tag| < 2 || tag[0] != '"' || tag[|tag| - 1] != '"' {
      return false;
    }
    var inner := tag[1..|tag| - 1];
    var i := 0;
    while i < |inner|
      invariant 0 <= i <= |inner|
      invariant forall k | 0 <= k < i :: EntityTagChar(inner[k])
    {
      var (character, width) := DecodeRune(inner[i..]);
      assert forall k | 0 <= k < width :: inner[i..][k] == inner[i + k];
      if character == '"' as int || character < 0x21 || character == 0x7F {
        assert !EntityTagChar(tag[i + 1]);
        return false;
      }
      forall k | i <= k < i + width ensures EntityTagChar(inner[k]) {
        assert inner[k] == inner[i..][k - i];
      }
      i := i + width;
    }
    forall k | 1 <= k < |tag| - 1 ensures EntityTagChar(tag[k]) {
      assert tag[k] == inner[k - 1];
    }
    return true;
  }

  // --- Header lists ---

  datatype HeaderTags = Absent | Invalid | Tags(tags: seq<string>)

  function TrimAll(pieces: seq<string>): seq<string> {
    seq(|pieces|, i requires 0 <= i < |pieces| => TrimSpace(pieces[i]))
  }

  /** The comma-separated pieces of all header values, in order. */
  function Pieces(values: seq<string>): seq<string> {
    if values == [] then [] else TrimAll(SplitAt(values[0], ',')) + Pieces(values[1..])
  }

  predicate ListMember(tag: string) {
    tag == "*" || EntityTag(tag)
  }

  function HeaderOf(values: seq<string>): HeaderTags {
    if values == [] then Absent
    else if forall k | 0 <= k < |Pieces(values)| :: ListMember(Pieces(values)[k]) then Tags(Pieces(values))
    else Invalid
  }

  lemma {:induction false} PiecesAppend(values: seq<string>, value: string)
    ensures Pieces(values + [value]) == Pieces(values) + TrimAll(SplitAt(value, ','))
  {
    if values == [] {
      assert values + [value] == [value] && [value][1..] == [];
    } else {
      assert (values + [value])[1..] == values[1..] + [value];
      PiecesAppend(values[1..], value);
    }
  }

  lemma {:induction false} PiecesPrefix(values: seq<string>, n: nat)
    requires n <= |values|
    ensures Pieces(values[..n]) <= Pieces(values)
  {
    if n == 0 {
      assert values[..0] == [];
    } else {
      assert values[..n][1..] == values[1..][..n - 1];
      PiecesPrefix(values[1..], n - 1);
    }
  }

  /** One piece that is no tag spoils the header. */
  lemma InvalidPiece(values: seq<string>, i: nat, j: nat)
    requires i < |values| && j < |SplitAt(values[i], ',')| && !ListMember(TrimAll(SplitAt(values[i], ','))[j])
    ensures HeaderOf(values) == Invalid
  {
    hide ListMember, Pieces, SplitAt, TrimSpace, TrimAll, HeaderOf;
    assert values[..i + 1] == values[..i] + [values[i]];
    PiecesAppend(values[..i], values[i]);
    PiecesPrefix(values, i + 1);
    TrimAllKeepsCount(SplitAt(values[i], ','));
    assert Pieces(values)[|Pieces(values[..i])| + j] == TrimAll(SplitAt(values[i], ','))[j];
    InvalidHeader(values, |Pieces(values[..i])| + j);
  }

  lemma TrimAllKeepsCount(pieces: seq<string>)
    ensures |TrimAll(pieces)| == |pieces|
  {
  }

  lemma InvalidHeader(values: seq<string>, k: nat)
    requires values != [] && k < |Pieces(values)| && !ListMember(Pieces(values)[k])
    ensures HeaderOf(values) == Invalid
  {
    hide ListMember, Pieces;
  }

  lemma ValidHeader(values: seq<string>)
    requires values != [] && forall k | 0 <= k < |Pieces(values)| :: ListMember(Pieces(values)[k])
    ensures HeaderOf(values) == Tags(Pieces(values))
  {
  }

  lemma NoHeader()
    ensures HeaderOf([]) == Absent
  {
  }

  lemma NoPieces(values: seq<string>)
    ensures Pieces(values[..0]) == []
  {
  }

  /** `entityTags`. */
  method ReadEntityTags(values: seq<string>) returns (header: HeaderTags)
    ensures header == HeaderOf(values)
  {
    hide Pieces, TrimSpace, SplitAt, EntityTag, HeaderOf;
    if |values| == 0 {
      assert HeaderOf([]) == Absent by { NoHeader(); }
      return Absent;
    }
    NoPieces(values);
    var result: seq<string> := [];
    for i := 0 to |values|
      invariant result == Pieces(values[..i])
      invariant forall k | 0 <= k < |result| :: ListMember(result[k])
    {
      assert values[..i + 1] == values[..i] + [values[i]];
      PiecesAppend(values[..i], values[i]);
      var parts := SplitAt(values[i], ',');
      ghost var before := result;
      for j := 0 to |parts|
        invariant result == before + TrimAll(parts)[..j]
        invariant forall k | 0 <= k < |result| :: ListMember(result[k])
      {
        var tag := TrimSpace(parts[j]);
        var valid := ValidEntityTag(tag);
        assert TrimAll(parts)[j] == tag;
        if tag != "*" && !valid {
          InvalidPiece(values, i, j);
          return Invalid;
        }
        result := result + [tag];
      }
    }
    assert values[..|values|] == values;
    ValidHeader(values);
    return Tags(result);
  }

  /** Joining tags the way a client lists them. */
  function JoinTags(tags: seq<string>): string
    requires tags != []
  {
    if |tags| == 1 then tags[0] else tags[0] + ", " + JoinTags(tags[1..])
  }

  lemma ListMemberIsTrimmed(lead: string, tag: string)
    requires ListMember(tag) && (lead == "" || lead == " ")
    ensures TrimSpace(lead + tag) == tag
  {
    TrimKeepsSolidEnds(tag);
    var s := lead + tag;
    if lead == " " {
      assert s[1..] == tag;
      assert TrimLeft(s) == TrimLeft(tag);
    } else {
      assert s == tag;
    }
  }

  lemma TrimFirst(piece: string, pieces: seq<string>)
    ensures TrimAll([piece] + pieces) == [TrimSpace(piece)] + TrimAll(pieces)
  {
  }

  lemma JoinTagsStep(tags: seq<string>, lead: string)
    requires |tags| > 1
    ensures lead + JoinTags(tags) == lead + tags[0] + [','] + (" " + JoinTags(tags[1..]))
  {
  }

  /** A list of comma-free tags survives the header: one value holding them all reads back as them. */
  lemma {:induction false} TagListRoundTrip(tags: seq<string>, lead: string)
    requires tags != [] && (lead == "" || lead == " ")
    requires forall k | 0 <= k < |tags| :: ListMember(tags[k]) && ',' !in tags[k]
    ensures TrimAll(SplitAt(lead + JoinTags(tags), ',')) == tags
  {
    hide ListMember, TrimSpace, TrimAll, SplitAt;
    var s := lead + tags[0];
    ListMemberIsTrimmed(lead, tags[0]);
    SplitPieces(s, ',');
    TrimFirst(s, []);
    assert [s] + [] == [s] && TrimAll([]) == [] by { TrimAllKeepsCount([]); }
    if |tags| > 1 {
      var rest := " " + JoinTags(tags[1..]);
      TagListRoundTrip(tags[1..], " ");
      JoinTagsStep(tags, lead);
      SplitJoined(s, rest, ',');
      TrimFirst(s, SplitAt(rest, ','));
    }
  }

  /** Every comma splits, also one inside a tag. */
  lemma {:induction false} EveryCommaSplits(tags: seq<string>, lead: string)
    requires tags != [] && ',' !in lead
    ensures |SplitAt(lead + JoinTags(tags), ',')| >= |tags|
    ensures (exists k | 0 <= k < |tags| :: ',' in tags[k]) ==> |SplitAt(lead + JoinTags(tags), ',')| > |tags|
  {
    var s := lead + tags[0];
    SplitPieces(s, ',');
    assert ',' in s <==> ',' in tags[0];
    if |tags| > 1 {
      var rest := " " + JoinTags(tags[1..]);
      EveryCommaSplits(tags[1..], " ");
      assert lead + JoinTags(tags) == s + "," + rest;
      SplitJoined(s, rest, ',');
      assert forall k | 0 < k < |tags| :: tags[k] == tags[1..][k - 1];
    }
  }

  /** A LIST OF TAGS IS READ BACK AS ITSELF just when none of them contains a comma, which the grammar
      of section 8.8.3 allows inside a tag. */
  lemma HeaderRoundTrip(tags: seq<string>)
    requires tags != [] && forall k | 0 <= k < |tags| :: ListMember(tags[k])
    ensures HeaderOf([JoinTags(tags)]) == Tags(tags) <==> forall k | 0 <= k < |tags| :: ',' !in tags[k]
  {
    hide ListMember, TrimSpace, SplitAt;
    var values := [JoinTags(tags)];
    assert "" + JoinTags(tags) == JoinTags(tags);
    assert values[1..] == [];
    assert Pieces(values) == TrimAll(SplitAt(JoinTags(tags), ','));
    if forall k | 0 <= k < |tags| :: ',' !in tags[k] {
      TagListRoundTrip(tags, "");
    } else {
      EveryCommaSplits(tags, "");
    }
  }

  /** Every value is a comma-separated list of stars and tags, each with any white space around it. */
  ghost predicate WellFormed(values: seq<string>) {
    forall n | 0 <= n < |values| :: exists parts ::
      MadeUpOf(values[n], parts, ',') && forall k | 0 <= k < |parts| :: ListMember(TrimSpace(parts[k]))
  }

  /** One of the values lists this tag. */
  ghost predicate Lists(values: seq<string>, tag: string) {
    exists n, parts, k | 0 <= n < |values| && MadeUpOf(values[n], parts, ',') && 0 <= k < |parts| ::
      tag == TrimSpace(parts[k])
  }

  lemma {:induction false} PieceOfValue(values: seq<string>, piece: string) returns (n: nat, k: nat)
    requires piece in Pieces(values)
    ensures n < |values| && k < |SplitAt(values[n], ',')| && piece == TrimSpace(SplitAt(values[n], ',')[k])
  {
    hide TrimSpace, SplitAt;
    if piece in TrimAll(SplitAt(values[0], ',')) {
      n := 0;
      k :| 0 <= k < |SplitAt(values[0], ',')| && TrimAll(SplitAt(values[0], ','))[k] == piece;
    } else {
      n, k := PieceOfValue(values[1..], piece);
      n := n + 1;
    }
  }

  lemma {:induction false} ValueOfPiece(values: seq<string>, n: nat, k: nat)
    requires n < |values| && k < |SplitAt(values[n], ',')|
    ensures TrimSpace(SplitAt(values[n], ',')[k]) in Pieces(values)
  {
    hide TrimSpace, SplitAt;
    if n == 0 {
      assert TrimAll(SplitAt(values[0], ','))[k] == TrimSpace(SplitAt(values[0], ',')[k]);
    } else {
      ValueOfPiece(values[1..], n - 1, k);
    }
  }

  lemma ListsPieces(values: seq<string>, tag: string)
    ensures Lists(values, tag) <==> tag in Pieces(values)
  {
    hide TrimSpace, SplitAt, MadeUpOf, Pieces;
    if Lists(values, tag) {
      var n, parts, k :| 0 <= n < |values| && MadeUpOf(values[n], parts, ',') && 0 <= k < |parts|
                         && tag == TrimSpace(parts[k]);
      SplitIsExact(values[n], parts, ',');
      ValueOfPiece(values, n, k);
    }
    if tag in Pieces(values) {
      var n, k := PieceOfValue(values, tag);
      SplitIsExact(values[n], SplitAt(values[n], ','), ',');
      assert 0 <= k < |SplitAt(values[n], ',')|;
    }
  }

  lemma WellFormedPieces(values: seq<string>)
    ensures WellFormed(values) <==> forall tag | tag in Pieces(values) :: ListMember(tag)
  {
    hide TrimSpace, SplitAt, MadeUpOf, ListMember, Pieces;
    if WellFormed(values) {
      forall tag | tag in Pieces(values) ensures ListMember(tag) {
        var n, k := PieceOfValue(values, tag);
        var parts :| MadeUpOf(values[n], parts, ',') && forall k | 0 <= k < |parts| :: ListMember(TrimSpace(parts[k]));
        SplitIsExact(values[n], parts, ',');
      }
    }
    if forall tag | tag in Pieces(values) :: ListMember(tag) {
      forall n | 0 <= n < |values|
        ensures exists parts ::
                  MadeUpOf(values[n], parts, ',') && forall k | 0 <= k < |parts| :: ListMember(TrimSpace(parts[k]))
      {
        var parts := SplitAt(values[n], ',');
        SplitIsExact(values[n], parts, ',');
        forall k | 0 <= k < |parts| ensures ListMember(TrimSpace(parts[k])) {
          ValueOfPiece(values, n, k);
        }
      }
    }
  }

  /** WHAT A HEADER SAYS: nothing when it is not sent, nothing readable when some value is no list of stars
      and tags, and otherwise the tags its values list. */
  lemma HeaderSays(values: seq<string>)
    ensures HeaderOf(values) == Absent <==> values == []
    ensures HeaderOf(values) == Invalid <==> !WellFormed(values)
    ensures HeaderOf(values).Tags? ==> forall tag :: tag in HeaderOf(values).tags <==> Lists(values, tag)
  {
    hide WellFormed, ListMember, Lists, Pieces;
    WellFormedPieces(values);
    assert values == [] ==> Pieces(values) == [] by { NoPieces(values); }
    assert (forall tag | tag in Pieces(values) :: ListMember(tag)) <==>
           forall k | 0 <= k < |Pieces(values)| :: ListMember(Pieces(values)[k]);
    forall tag ensures tag in Pieces(values) <==> Lists(values, tag) {
      ListsPieces(values, tag);
    }
  }

  /** A run of tag characters between double quotes. */
  ghost predicate Quoted(tag: string, text: string) {
    tag == "\"" + text + "\"" && forall k | 0 <= k < |text| :: EntityTagChar(text[k])
  }

  lemma OpaqueIsQuoted(tag: string)
    ensures OpaqueTag(tag) <==> exists text :: Quoted(tag, text)
  {
    if OpaqueTag(tag) {
      assert tag == "\"" + tag[1..|tag| - 1] + "\"";
      assert Quoted(tag, tag[1..|tag| - 1]);
    }
    forall text | Quoted(tag, text) ensures OpaqueTag(tag) {
      forall k | 1 <= k < |tag| - 1 ensures EntityTagChar(tag[k]) {
        assert tag[k] == text[k - 1];
      }
    }
  }

  /** A tag is a quoted run of its characters, marked as weak or not. */
  lemma TagIsQuoted(s: string)
    ensures EntityTag(s) <==> exists tag, text :: (s == tag || s == "W/" + tag) && Quoted(tag, text)
  {
    hide OpaqueTag;
    OpaqueIsQuoted(Opaque(s));
    if EntityTag(s) {
      assert s == Opaque(s) || s == "W/" + Opaque(s);
    }
    forall tag, text | (s == tag || s == "W/" + tag) && Quoted(tag, text) ensures EntityTag(s) {
      assert s[|s| - |tag|..] == tag && tag[0] == '"';
      OpaqueIsQuoted(tag);
    }
  }

  // --- Matching ---

  /** The current version of a resource: its tag, or none when there is no current representation. */
  type Version = Option<string>

  /** Section 13.1.1: `If-Match` holds of the current representation. */
  ghost predicate IfMatchHolds(tags: seq<string>, current: Version) {
    current.Some? && ("*" in tags || exists tag | tag in tags :: StrongEqual(tag, current.value))
  }

  /** Section 13.1.2: `If-None-Match` holds. */
  ghost predicate IfNoneMatchHolds(tags: seq<string>, current: Version) {
    current.None? || ("*" !in tags && forall tag | tag in tags :: !WeakEqual(tag, current.value))
  }

  /** `strongTagMatch`. */
  method StrongTagMatch(candidates: seq<string>, current: string, present: bool) returns (matched: bool)
    ensures matched == IfMatchHolds(candidates, if present then Some(current) else None)
  {
    for i := 0 to |candidates|
      invariant "*" !in candidates[..i]
      invariant present ==> forall tag | tag in candidates[..i] :: !StrongEqual(tag, current)
    {
      assert candidates[..i + 1] == candidates[..i] + [candidates[i]];
      if candidates[i] == "*" {
        return present;
      }
      if present && !("W/" <= candidates[i]) && candidates[i] == current {
        assert StrongEqual(candidates[i], current);
        return true;
      }
    }
    assert candidates[..|candidates|] == candidates;
    return false;
  }

  /** `weakTagMatch`: the opposite of what `If-None-Match` asks for. */
  method WeakTagMatch(candidates: seq<string>, current: string, present: bool) returns (matched: bool)
    ensures matched == !IfNoneMatchHolds(candidates, if present then Some(current) else None)
  {
    for i := 0 to |candidates|
      invariant present ==> "*" !in candidates[..i] && forall tag | tag in candidates[..i] :: !WeakEqual(tag, current)
    {
      assert candidates[..i + 1] == candidates[..i] + [candidates[i]];
      if candidates[i] == "*" {
        return present;
      }
      if present && Opaque(candidates[i]) == Opaque(current) {
        assert WeakEqual(candidates[i], current);
        return true;
      }
    }
    assert candidates[..|candidates|] == candidates;
    return false;
  }

  // --- The decision ---

  datatype Method = GET | HEAD | PUT | PATCH | DELETE | POST | OPTIONS

  /** What routing the request as a GET answered. */
  datatype Probe = Probe(code: nat, etag: string) {
    predicate Found() {
      200 <= code < 300
    }

    function Current(): Version {
      if Found() then Some(etag) else None
    }
  }

  /** What becomes of a request: refused, answered from the probe, or carried out. */
  datatype Verdict = BadHeader | MissingHeader | PreconditionFailed | NotModified | AnswerProbe | Proceed

  predicate Reading(m: Method) {
    m == GET || m == HEAD
  }

  predicate Writing(m: Method) {
    m == PUT || m == PATCH || m == DELETE
  }

  /** `handleConditionalRequest`, with `required` standing for its table of operations that need an
      `If-Match`, and `probe` for the answer it gets from routing the request as a GET. */
  method Handle(m: Method, ifMatchValues: seq<string>, ifNoneMatchValues: seq<string>, required: bool, probe: Probe)
    returns (verdict: Verdict)
    ensures verdict == Decide(m, HeaderOf(ifMatchValues), HeaderOf(ifNoneMatchValues), required, probe)
  {
    var ifMatch := ReadEntityTags(ifMatchValues);
    var ifNoneMatch := ReadEntityTags(ifNoneMatchValues);
    if ifMatch == Invalid || ifNoneMatch == Invalid {
      return BadHeader;
    }
    if required && ifMatch == Absent {
      return MissingHeader;
    }
    if ifMatch == Absent && ifNoneMatch == Absent {
      return Proceed;
    }
    if Reading(m) {
      if probe.code == 404 && ifMatch.Tags? {
        return PreconditionFailed;
      }
      if probe.Found() {
        if ifMatch.Tags? {
          var matched := StrongTagMatch(ifMatch.tags, probe.etag, true);
          if !matched {
            return PreconditionFailed;
          }
        }
        if ifNoneMatch.Tags? {
          var matched := WeakTagMatch(ifNoneMatch.tags, probe.etag, true);
          if matched {
            return NotModified;
          }
        }
      }
      return AnswerProbe;
    }
    if Writing(m) {
      if ifMatch.Tags? {
        var matched := StrongTagMatch(ifMatch.tags, probe.etag, probe.Found());
        if !matched {
          return PreconditionFailed;
        }
      }
      if ifNoneMatch.Tags? {
        var matched := WeakTagMatch(ifNoneMatch.tags, probe.etag, probe.Found());
        if matched {
          return PreconditionFailed;
        }
      }
    }
    return Proceed;
  }

  ghost predicate IfMatchFails(header: HeaderTags, current: Version) {
    header.Tags? && !IfMatchHolds(header.tags, current)
  }

  ghost predicate IfNoneMatchFails(header: HeaderTags, current: Version) {
    header.Tags? && !IfNoneMatchHolds(header.tags, current)
  }

  /** The decision on one request, as the code takes it. */
  ghost function Decide(m: Method, ifMatch: HeaderTags, ifNoneMatch: HeaderTags, required: bool,
                        probe: Probe): Verdict {
    if ifMatch == Invalid || ifNoneMatch == Invalid then BadHeader
    else if required && ifMatch == Absent then MissingHeader
    else if ifMatch == Absent && ifNoneMatch == Absent then Proceed
    else if Reading(m) then
      if !probe.Found() then (if probe.code == 404 && ifMatch.Tags? then PreconditionFailed else AnswerProbe)
      else if IfMatchFails(ifMatch, probe.Current()) then PreconditionFailed
      else if IfNoneMatchFails(ifNoneMatch, probe.Current()) then NotModified
      else AnswerProbe
    else if Writing(m) && IfMatchFails(ifMatch, probe.Current()) then PreconditionFailed
    else if Writing(m) && IfNoneMatchFails(ifNoneMatch, probe.Current()) then PreconditionFailed
    else Proceed
  }

  /** What section 13.2.2 asks for. */
  datatype Outcome = Perform | Status304 | Status412

  /** Section 13.2.2, the two conditions this server knows, in their order of precedence. */
  ghost function Precedence(m: Method, ifMatch: HeaderTags, ifNoneMatch: HeaderTags, current: Version): Outcome {
    if ifMatch.Tags? && !IfMatchHolds(ifMatch.tags, current) then Status412
    else if ifNoneMatch.Tags? && !IfNoneMatchHolds(ifNoneMatch.tags, current) then
      if Reading(m) then Status304 else Status412
    else Perform
  }

  predicate CarriesOut(verdict: Verdict, outcome: Outcome) {
    match outcome
    case Perform => verdict == Proceed || verdict == AnswerProbe
    case Status304 => verdict == NotModified
    case Status412 => verdict == PreconditionFailed
  }

  /** WHEN CONDITIONS FOLLOW RFC 9110. With readable headers, none missing, the verdict is the outcome
      section 13.2.2 prescribes exactly when
      - a GET or HEAD found the resource, or found it missing, or has no `If-Match`;
      - or the request is a PUT, PATCH or DELETE;
      - or, for any other method, no condition fails: those are never looked at. */
  lemma DecideFollowsPrecedence(m: Method, ifMatch: HeaderTags, ifNoneMatch: HeaderTags, required: bool, probe: Probe)
    requires ifMatch != Invalid && ifNoneMatch != Invalid && !(required && ifMatch == Absent)
    ensures var current := probe.Current();
            CarriesOut(Decide(m, ifMatch, ifNoneMatch, required, probe),
                       Precedence(m, ifMatch, ifNoneMatch, current)) <==>
              if Reading(m) then probe.Found() || probe.code == 404 || ifMatch == Absent
              else Writing(m) || (!IfMatchFails(ifMatch, current) && !IfNoneMatchFails(ifNoneMatch, current))
  {
  }

  /** Section 13.2.1: conditions count where the request without them would get a 2xx, or a 412. */
  predicate Counts(plain: nat) {
    200 <= plain < 300 || plain == 412
  }

  /** Sections 13.2.1 and 13.2.2 together: conditions are ignored on OPTIONS, and where they do not count;
      `plain` is the status of the request without them, before its content is looked at. */
  ghost function Prescribed(m: Method, ifMatch: HeaderTags, ifNoneMatch: HeaderTags, current: Version,
                            plain: nat): Outcome {
    if m == OPTIONS || !Counts(plain) then Perform else Precedence(m, ifMatch, ifNoneMatch, current)
  }

  ghost predicate NothingFails(ifMatch: HeaderTags, ifNoneMatch: HeaderTags, current: Version) {
    !IfMatchFails(ifMatch, current) && !IfNoneMatchFails(ifNoneMatch, current)
  }

  /** WHEN CONDITIONS FOLLOW SECTIONS 13.2.1 AND 13.2.2. With readable headers, none missing, exactly when
      - a GET or HEAD has no `If-Match`, or its probe, which is the request without conditions, answered
        anything but 404 and 412;
      - or the request is an OPTIONS;
      - or it is a PUT, PATCH or DELETE for which conditions count, or for which none fails;
      - or it is a POST for which conditions do not count, or for which none fails. */
  lemma DecideFollowsSections(m: Method, ifMatch: HeaderTags, ifNoneMatch: HeaderTags, required: bool, probe: Probe,
                              plain: nat)
    requires ifMatch != Invalid && ifNoneMatch != Invalid && !(required && ifMatch == Absent)
    requires Reading(m) ==> plain == probe.code
    ensures var current := probe.Current();
            CarriesOut(Decide(m, ifMatch, ifNoneMatch, required, probe),
                       Prescribed(m, ifMatch, ifNoneMatch, current, plain)) <==>
              if Reading(m) then ifMatch == Absent || (plain != 404 && plain != 412)
              else if m == OPTIONS then true
              else (if Writing(m) then Counts(plain) else !Counts(plain)) || NothingFails(ifMatch, ifNoneMatch, current)
  {
  }

  /** WHICH VERDICT A REQUEST CAN GET. A header that is no list of tags is refused before anything else, then
      a missing `If-Match` that is required. Past both, a GET or HEAD with a condition is never carried out by
      itself, and anything else never answered from the probe; without a condition a request is carried out. */
  lemma DecideReadsHeaders(m: Method, ifMatch: seq<string>, ifNoneMatch: seq<string>, required: bool, probe: Probe)
    ensures var verdict := Decide(m, HeaderOf(ifMatch), HeaderOf(ifNoneMatch), required, probe);
            && (verdict == BadHeader <==> !WellFormed(ifMatch) || !WellFormed(ifNoneMatch))
            && (verdict == MissingHeader <==>
                  WellFormed(ifMatch) && WellFormed(ifNoneMatch) && required && ifMatch == [])
            && (verdict == NotModified ==> Reading(m) && probe.Found() && ifNoneMatch != [])
            && (verdict == AnswerProbe ==> Reading(m) && (ifMatch != [] || ifNoneMatch != []))
            && (verdict == Proceed ==> !Reading(m) || (ifMatch == [] && ifNoneMatch == []))
            && (ifMatch == [] && ifNoneMatch == [] && !required ==> verdict == Proceed)
  {
    hide HeaderOf, WellFormed;
    HeaderSays(ifMatch);
    HeaderSays(ifNoneMatch);
    assert WellFormed([]) by { NoValueIsWellFormed(); }
  }

  lemma NoValueIsWellFormed()
    ensures WellFormed([])
  {
  }

  /** The comparison functions on the examples of section 8.8.3.2. */
  lemma ComparisonExamples()
    ensures !StrongEqual("W/\"1\"", "W/\"1\"") && WeakEqual("W/\"1\"", "W/\"1\"")
    ensures !StrongEqual("W/\"1\"", "W/\"2\"") && !WeakEqual("W/\"1\"", "W/\"2\"")
    ensures !StrongEqual("W/\"1\"", "\"1\"") && WeakEqual("W/\"1\"", "\"1\"")
    ensures StrongEqual("\"1\"", "\"1\"") && WeakEqual("\"1\"", "\"1\"")
  {
    assert "W/\"1\""[2..] == "\"1\"" && "W/\"2\""[2..] == "\"2\"";
    assert "\"1\""[1] != "\"2\""[1];
  }

  const A_TAG := "\"a\""
  const B_TAG := "\"b\""

  /** A POST is carried out against an `If-Match` that fails. */
  lemma PostIsNotChecked()
    ensures ListMember(A_TAG) && Decide(POST, Tags([A_TAG]), Absent, false, Probe(200, B_TAG)) == Proceed
    ensures Precedence(POST, Tags([A_TAG]), Absent, Probe(200, B_TAG).Current()) == Status412
    ensures Prescribed(POST, Tags([A_TAG]), Absent, Probe(200, B_TAG).Current(), 200) == Status412
  {
    assert A_TAG[1] != B_TAG[1];
  }

  /** A GET with `If-Match` of a resource that is not there gets a 412, where section 13.2.1 has the 404 stand. */
  lemma MissingIsPreconditionFailed()
    ensures Decide(GET, Tags([A_TAG]), Absent, false, Probe(404, "")) == PreconditionFailed
    ensures Prescribed(GET, Tags([A_TAG]), Absent, Probe(404, "").Current(), 404) == Perform
  {
  }

  /** So does a PATCH with `If-Match` of such a resource, which without it would get a 404. */
  lemma MissingPatchIsPreconditionFailed()
    ensures Decide(PATCH, Tags([A_TAG]), Absent, false, Probe(404, "")) == PreconditionFailed
    ensures Prescribed(PATCH, Tags([A_TAG]), Absent, Probe(404, "").Current(), 404) == Perform
  {
  }

  /** A GET whose probe broke answers what the probe answered, although its `If-Match` fails, as section
      13.2.1 asks. */
  lemma BrokenProbeIsAnswered()
    ensures Decide(GET, Tags([A_TAG]), Absent, false, Probe(500, "")) == AnswerProbe
    ensures Precedence(GET, Tags([A_TAG]), Absent, Probe(500, "").Current()) == Status412
    ensures Prescribed(GET, Tags([A_TAG]), Absent, Probe(500, "").Current(), 500) == Perform
  {
  }
}
