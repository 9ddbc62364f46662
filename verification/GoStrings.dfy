/** The parts of Go's string library the other modules rely on.

    A Go string is a sequence of bytes. Here it is a Dafny `string` with one `char` per byte, so
    that byte literals can be written as characters. A char above 0xFF never occurs in a Go
    string; every definition treats it like an invalid byte, so nothing depends on its absence. */
module GoStrings {
  import opened Wrappers

  const RUNE_ERROR := 0xFFFD

  /** The letters and decimal digits above ASCII, as `unicode.IsLetter` and `unicode.IsDigit`
      know them. The tables themselves are a parameter: every statement holds for any of them. */
  datatype Unicode = Unicode(letters: set<int>, digits: set<int>)

  predicate Continuation(c: char) {
    0x80 <= c as int <= 0xBF
  }

  /** `utf8.DecodeRuneInString`: the first rune and its width. Malformed input is U+FFFD, width 1. */
  function DecodeRune(s: string): (d: (int, nat))
    ensures s != "" ==> 1 <= d.1 <= |s|
    ensures s != "" && s[0] as int < 0x80 ==> d == (s[0] as int, 1)
    ensures s != "" && s[0] as int >= 0x80 ==> d.0 >= 0x80 && forall k | 0 <= k < d.1 :: s[k] as int >= 0x80
  {
    if s == "" then (RUNE_ERROR, 0)
    else
      var b0 := s[0] as int;
      if b0 < 0x80 then (b0, 1)
      else if 0xC2 <= b0 <= 0xDF && |s| >= 2 && Continuation(s[1]) then
        ((b0 - 0xC0) * 0x40 + (s[1] as int - 0x80), 2)
      else if 0xE0 <= b0 <= 0xEF && |s| >= 3 && Continuation(s[1]) && Continuation(s[2])
              && (b0 == 0xE0 ==> s[1] as int >= 0xA0) && (b0 == 0xED ==> s[1] as int <= 0x9F) then
        ((b0 - 0xE0) * 0x1000 + (s[1] as int - 0x80) * 0x40 + (s[2] as int - 0x80), 3)
      else if 0xF0 <= b0 <= 0xF4 && |s| >= 4 && Continuation(s[1]) && Continuation(s[2]) && Continuation(s[3])
              && (b0 == 0xF0 ==> s[1] as int >= 0x90) && (b0 == 0xF4 ==> s[1] as int <= 0x8F) then
        ((b0 - 0xF0) * 0x40000 + (s[1] as int - 0x80) * 0x1000 + (s[2] as int - 0x80) * 0x40 + (s[3] as int - 0x80), 4)
      else (RUNE_ERROR, 1)
  }

  /** The six bits a continuation byte carries. */
  function SixBits(c: char): int {
    c as int - 0x80
  }

  /** Sections 3 and 4 of RFC 3629: these bytes are the one encoding of this character, in the shortest form
      and no surrogate. */
  predicate Encodes(s: string, v: int) {
    && 1 <= |s| <= 4 && (forall k | 1 <= k < |s| :: Continuation(s[k]))
    && if |s| == 1 then v == s[0] as int < 0x80
       else if |s| == 2 then v == (s[0] as int - 0xC0) * 0x40 + SixBits(s[1]) && 0x80 <= v < 0x800
       else if |s| == 3 then
         && v == (s[0] as int - 0xE0) * 0x1000 + SixBits(s[1]) * 0x40 + SixBits(s[2])
         && 0x800 <= v < 0x1_0000 && !(0xD800 <= v <= 0xDFFF)
       else
         && v == (s[0] as int - 0xF0) * 0x40000 + SixBits(s[1]) * 0x1000 + SixBits(s[2]) * 0x40 + SixBits(s[3])
         && 0x1_0000 <= v <= 0x10_FFFF
  }

  lemma EncodingIsDecoded(s: string, rune: string, v: int)
    requires rune <= s && Encodes(rune, v)
    ensures DecodeRune(s) == (v, |rune|)
  {
    assert forall k | 0 <= k < |rune| :: s[k] == rune[k];
  }

  lemma DecodedIsEncoding(s: string)
    requires s != "" && DecodeRune(s) != (RUNE_ERROR, 1)
    ensures Encodes(s[..DecodeRune(s).1], DecodeRune(s).0)
  {
    var (r, w) := DecodeRune(s);
    assert forall k | 0 <= k < w :: s[..w][k] == s[k];
  }

  /** DECODING IS EXACT: a rune is what the bytes at the front encode, and where no bytes there encode
      anything, the replacement character for one byte. */
  lemma RuneIsExact(s: string, v: int, n: nat)
    requires s != ""
    ensures n <= |s| && Encodes(s[..n], v) ==> DecodeRune(s) == (v, n)
    ensures DecodeRune(s) == (v, n) ==> (n <= |s| && Encodes(s[..n], v)) || (v == RUNE_ERROR && n == 1)
  {
    hide DecodeRune, Encodes;
    if n <= |s| && Encodes(s[..n], v) {
      EncodingIsDecoded(s, s[..n], v);
    }
    if DecodeRune(s) == (v, n) && (v, n) != (RUNE_ERROR, 1) {
      DecodedIsEncoding(s);
    }
  }

  /** `utf8.DecodeLastRuneInString`: back up to a byte that starts a rune, at most four bytes. */
  function DecodeLastRune(s: string): (d: (int, nat))
    requires s != ""
    ensures 1 <= d.1 <= |s|
    ensures s[|s| - 1] as int < 0x80 ==> d == (s[|s| - 1] as int, 1)
  {
    var last := |s| - 1;
    if s[last] as int < 0x80 then (s[last] as int, 1)
    else
      var start := RuneStart(s, last - 1, if last >= 3 then last - 3 else 0);
      var (r, w) := DecodeRune(s[start..]);
      if start + w == |s| then (r, w) else (RUNE_ERROR, 1)
  }

  function RuneStart(s: string, i: int, limit: nat): (start: nat)
    requires -1 <= i < |s| && limit <= |s|
    ensures s != "" ==> start < |s| || start == limit
    decreases i + 1
  {
    if i < limit then (if limit > 0 then limit - 1 else 0)
    else if !Continuation(s[i]) then i
    else RuneStart(s, i - 1, limit)
  }

  /** `unicode.IsSpace`. */
  predicate IsSpace(r: int) {
    || 0x09 <= r <= 0x0D || r == 0x20 || r == 0x85 || r == 0xA0
    || r == 0x1680 || 0x2000 <= r <= 0x200A || r == 0x2028 || r == 0x2029
    || r == 0x202F || r == 0x205F || r == 0x3000
  }

  predicate IsAsciiDigit(c: char) {
    '0' <= c <= '9'
  }

  predicate IsAsciiLetter(c: char) {
    'a' <= c <= 'z' || 'A' <= c <= 'Z'
  }

  predicate IsLetter(u: Unicode, r: int) {
    if 0 <= r < 0x80 then IsAsciiLetter(r as char) else r in u.letters
  }

  predicate IsDigit(u: Unicode, r: int) {
    if 0 <= r < 0x80 then IsAsciiDigit(r as char) else r in u.digits
  }

  // --- Trimming ---

  function TrimLeft(s: string): (t: string)
    ensures |t| <= |s|
  {
    if s == "" then s
    else
      var (r, w) := DecodeRune(s);
      if IsSpace(r) then TrimLeft(s[w..]) else s
  }

  function TrimRight(s: string): (t: string)
    ensures |t| <= |s|
  {
    if s == "" then s
    else
      var (r, w) := DecodeLastRune(s);
      if IsSpace(r) then TrimRight(s[..|s| - w]) else s
  }

  /** `strings.TrimSpace`. */
  function TrimSpace(s: string): string {
    TrimRight(TrimLeft(s))
  }

  /** White space, rune by rune. */
  predicate SpaceRun(s: string) {
    s == "" || (var (r, w) := DecodeRune(s); IsSpace(r) && SpaceRun(s[w..]))
  }

  /** A rune that decodes does not depend on what follows it. */
  lemma RuneExtends(s: string, x: string)
    requires s != "" && DecodeRune(s).0 != RUNE_ERROR
    ensures DecodeRune(s + x) == DecodeRune(s)
  {
    assert forall k | 0 <= k < |s| :: (s + x)[k] == s[k];
  }

  lemma {:induction false} TrimLeftOver(a: string, rest: string)
    requires SpaceRun(a)
    ensures TrimLeft(a + rest) == TrimLeft(rest)
    decreases |a|
  {
    hide DecodeRune;
    if a == "" {
      assert a + rest == rest;
    } else {
      var w := DecodeRune(a).1;
      RuneExtends(a, rest);
      assert (a + rest)[w..] == a[w..] + rest;
      TrimLeftOver(a[w..], rest);
    }
  }

  lemma RuneShape(rune: string)
    requires rune != "" && DecodeRune(rune).1 == |rune| && DecodeRune(rune).0 != RUNE_ERROR
    ensures |rune| == 1 ==> rune[0] as int < 0x80
    ensures |rune| > 1 ==> rune[0] as int >= 0xC2 && |rune| <= 4 && forall k | 1 <= k < |rune| :: Continuation(rune[k])
  {
  }

  lemma {:induction false} RuneStartIs(s: string, i: nat, limit: nat, lead: nat)
    requires limit <= lead <= i < |s| && !Continuation(s[lead])
    requires forall k | lead < k <= i :: Continuation(s[k])
    ensures RuneStart(s, i, limit) == lead
    decreases i
  {
    if i > lead {
      RuneStartIs(s, i - 1, limit, lead);
    }
  }

  lemma TailOf(s: string, rune: string)
    ensures (s + rune)[|s|..] == rune && forall k | 0 <= k < |rune| :: (s + rune)[|s| + k] == rune[k]
  {
  }

  /** The last rune of a text that ends in a whole rune is that rune. */
  lemma LastRuneOf(s: string, rune: string)
    requires rune != "" && DecodeRune(rune).1 == |rune| && DecodeRune(rune).0 != RUNE_ERROR
    ensures DecodeLastRune(s + rune) == (DecodeRune(rune).0, |rune|)
  {
    hide DecodeRune, RuneStart;
    RuneShape(rune);
    var t, w, last := s + rune, |rune|, |s + rune| - 1;
    TailOf(s, rune);
    assert t[last] == t[|s| + (w - 1)] == rune[w - 1];
    if w > 1 {
      var limit := if last >= 3 then last - 3 else 0;
      assert t[|s|] == t[|s| + 0] == rune[0];
      forall k | |s| < k <= last - 1 ensures Continuation(t[k]) {
        assert t[k] == t[|s| + (k - |s|)] == rune[k - |s|];
      }
      RuneStartIs(t, last - 1, limit, |s|);
    }
  }

  lemma {:induction false} TrimRightOver(s: string, b: string)
    requires SpaceRun(b)
    ensures TrimRight(s + b) == TrimRight(s)
    decreases |b|
  {
    hide DecodeRune, DecodeLastRune;
    if b == "" {
      assert s + b == s;
    } else {
      var w := DecodeRune(b).1;
      var rune, more := b[..w], b[w..];
      RuneAlone(b);
      assert s + b == (s + rune) + more;
      TrimRightOver(s + rune, more);
      LastRuneOf(s, rune);
      assert (s + rune)[..|s + rune| - w] == s;
    }
  }

  lemma RuneAlone(s: string)
    requires s != "" && DecodeRune(s).0 != RUNE_ERROR
    ensures DecodeRune(s[..DecodeRune(s).1]) == DecodeRune(s)
  {
    var w := DecodeRune(s).1;
    assert forall k | 0 <= k < w :: s[..w][k] == s[k];
  }

  lemma TrimStops(s: string)
    ensures s == "" || !IsSpace(DecodeRune(s).0) ==> TrimLeft(s) == s
    ensures s == "" || !IsSpace(DecodeLastRune(s).0) ==> TrimRight(s) == s
  {
    hide DecodeRune, DecodeLastRune, IsSpace;
  }

  /** TRIMMING takes white space from both ends, and nothing else. */
  lemma TrimOfSpaced(a: string, core: string, b: string)
    requires SpaceRun(a) && SpaceRun(b)
    requires core != "" ==> !IsSpace(DecodeRune(core + b).0) && !IsSpace(DecodeLastRune(core).0)
    ensures TrimSpace(a + core + b) == core
  {
    hide DecodeRune, DecodeLastRune, IsSpace, TrimLeft, TrimRight, SpaceRun;
    assert a + core + b == a + (core + b);
    TrimLeftOver(a, core + b);
    TrimStops(core);
    if core == "" {
      assert core + b == b + "";
      TrimLeftOver(b, "");
    } else {
      TrimStops(core + b);
      TrimRightOver(core, b);
    }
  }

  /** A byte that `TrimSpace` never removes: ASCII, and no space. */
  predicate Solid(c: char) {
    (c as int) < 0x80 && !IsSpace(c as int)
  }

  lemma TrimKeepsSolidEnds(s: string)
    requires s != "" && Solid(s[0]) && Solid(s[|s| - 1])
    ensures TrimSpace(s) == s
  {
  }

  lemma {:induction false} TrimLeftKeepsSolidEnd(s: string, c: char)
    requires Solid(c)
    ensures TrimLeft(s + [c]) != "" && TrimLeft(s + [c])[|TrimLeft(s + [c])| - 1] == c
    decreases |s|
  {
    var t := s + [c];
    assert t[|t| - 1] == c;
    var (r, w) := DecodeRune(t);
    if IsSpace(r) {
      assert t[w..] == s[w..] + [c];
      TrimLeftKeepsSolidEnd(s[w..], c);
    }
  }

  lemma TrimSpaceSolidEnd(s: string, c: char)
    requires Solid(c)
    ensures TrimSpace(s + [c]) != ""
  {
    TrimLeftKeepsSolidEnd(s, c);
  }

  lemma {:induction false} TrimLeftKeepsSolid(s: string, i: nat) returns (j: nat)
    requires i < |s| && Solid(s[i])
    ensures j < |TrimLeft(s)| && Solid(TrimLeft(s)[j])
    decreases |s|
  {
    var (r, w) := DecodeRune(s);
    if IsSpace(r) {
      assert s[w..][i - w] == s[i];
      j := TrimLeftKeepsSolid(s[w..], i - w);
    } else {
      j := i;
    }
  }

  /** No space rune contains a solid byte, at either end. */
  lemma LastRuneIsHigh(s: string)
    requires s != "" && IsSpace(DecodeLastRune(s).0)
    ensures forall k | |s| - DecodeLastRune(s).1 <= k < |s| :: !Solid(s[k])
  {
    var last := |s| - 1;
    if s[last] as int >= 0x80 {
      var start := RuneStart(s, last - 1, if last >= 3 then last - 3 else 0);
      var (r, w) := DecodeRune(s[start..]);
      forall k | start <= k < |s| ensures !Solid(s[k]) {
        assert s[k] == s[start..][k - start];
      }
    }
  }

  lemma {:induction false} TrimRightKeepsSolid(s: string, i: nat)
    requires i < |s| && Solid(s[i])
    ensures TrimRight(s) != ""
    decreases |s|
  {
    var (r, w) := DecodeLastRune(s);
    if IsSpace(r) {
      LastRuneIsHigh(s);
      TrimRightKeepsSolid(s[..|s| - w], i);
    }
  }

  lemma TrimKeepsSolid(s: string, i: nat)
    requires i < |s| && Solid(s[i])
    ensures TrimSpace(s) != ""
  {
    var j := TrimLeftKeepsSolid(s, i);
    TrimRightKeepsSolid(TrimLeft(s), j);
  }

  // --- Case, order and splitting ---

  /** `strings.ToLower` and, through it, `strings.EqualFold`, on ASCII letters. */
  function ToLower(s: string): (t: string)
    ensures |t| == |s|
  {
    seq(|s|, i requires 0 <= i < |s| => if 'A' <= s[i] <= 'Z' then (s[i] as int + 32) as char else s[i])
  }

  predicate EqualFold(a: string, b: string) {
    ToLower(a) == ToLower(b)
  }

  predicate SameLetter(a: char, b: char) {
    || a == b
    || ('a' <= a <= 'z' && b as int == a as int - 32)
    || ('a' <= b <= 'z' && a as int == b as int - 32)
  }

  /** Folding is byte by byte, and joins a letter only with the same letter in the other case. */
  lemma FoldIsByLetter(a: string, b: string)
    ensures EqualFold(a, b) <==> |a| == |b| && forall k | 0 <= k < |a| :: SameLetter(a[k], b[k])
    ensures EqualFold(a, ToLower(a)) && forall k | 0 <= k < |a| :: !('A' <= ToLower(a)[k] <= 'Z')
  {
    forall k | 0 <= k < |a| && k < |b| ensures ToLower(a)[k] == ToLower(b)[k] <==> SameLetter(a[k], b[k]) {
    }
    if |a| == |b| && forall k | 0 <= k < |a| :: SameLetter(a[k], b[k]) {
      assert ToLower(a) == ToLower(b);
    }
    assert ToLower(ToLower(a)) == ToLower(a);
  }

  /** `strings.Compare`: -1, 0 or 1, byte by byte. */
  function Compare(a: string, b: string): (c: int)
    ensures c in {-1, 0, 1} && (c == 0 <==> a == b)
  {
    if a == "" then (if b == "" then 0 else -1)
    else if b == "" then 1
    else if a[0] < b[0] then -1
    else if a[0] > b[0] then 1
    else
      assert a[1..] == b[1..] <==> a == b by {
        assert a == [a[0]] + a[1..] && b == [b[0]] + b[1..];
      }
      Compare(a[1..], b[1..])
  }

  predicate HasSuffix(s: string, suffix: string) {
    |suffix| <= |s| && s[|s| - |suffix|..] == suffix
  }

  /** `strings.Contains`. */
  predicate Contains(s: string, part: string) {
    part <= s || (s != "" && Contains(s[1..], part))
  }

  /** `strings.Split` at a one-byte separator. */
  function SplitAt(s: string, separator: char): (parts: seq<string>)
    ensures parts != []
  {
    if s == "" then [""]
    else if s[0] == separator then [""] + SplitAt(s[1..], separator)
    else
      var rest := SplitAt(s[1..], separator);
      [[s[0]] + rest[0]] + rest[1..]
  }

  /** Splitting undoes joining, one separator at a time. */
  lemma {:induction false} SplitJoined(a: string, b: string, separator: char)
    ensures SplitAt(a + [separator] + b, separator) == SplitAt(a, separator) + SplitAt(b, separator)
  {
    var whole := a + [separator] + b;
    if a == "" {
      assert whole[1..] == b;
    } else {
      assert whole[1..] == a[1..] + [separator] + b;
      SplitJoined(a[1..], b, separator);
    }
  }

  lemma {:induction false} SplitPieces(s: string, separator: char)
    ensures separator !in s ==> SplitAt(s, separator) == [s]
    ensures separator in s ==> |SplitAt(s, separator)| > 1
  {
    if s != "" {
      SplitPieces(s[1..], separator);
      assert [s[0]] + s[1..] == s;
    }
  }

  function JoinAt(parts: seq<string>, separator: char): string {
    if |parts| == 0 then ""
    else if |parts| == 1 then parts[0]
    else parts[0] + [separator] + JoinAt(parts[1..], separator)
  }

  /** These parts, none of which holds the separator, make up the text. */
  ghost predicate MadeUpOf(s: string, parts: seq<string>, separator: char) {
    parts != [] && JoinAt(parts, separator) == s && forall part | part in parts :: separator !in part
  }

  lemma {:induction false} SplitOfJoin(parts: seq<string>, separator: char)
    requires parts != [] && forall part | part in parts :: separator !in part
    ensures SplitAt(JoinAt(parts, separator), separator) == parts
  {
    SplitPieces(parts[0], separator);
    if |parts| > 1 {
      SplitOfJoin(parts[1..], separator);
      SplitJoined(parts[0], JoinAt(parts[1..], separator), separator);
    }
  }

  lemma {:induction false} JoinOfSplit(s: string, separator: char)
    ensures MadeUpOf(s, SplitAt(s, separator), separator)
  {
    if s != "" {
      JoinOfSplit(s[1..], separator);
      var rest := SplitAt(s[1..], separator);
      if s[0] == separator {
        JoinStep("", rest, separator);
      } else {
        JoinGrows(s[0], rest, separator);
      }
    }
  }

  lemma JoinStep(part: string, rest: seq<string>, separator: char)
    requires rest != []
    ensures JoinAt([part] + rest, separator) == part + [separator] + JoinAt(rest, separator)
  {
    assert ([part] + rest)[1..] == rest;
  }

  lemma JoinGrows(c: char, rest: seq<string>, separator: char)
    requires rest != []
    ensures JoinAt([[c] + rest[0]] + rest[1..], separator) == [c] + JoinAt(rest, separator)
  {
    assert ([[c] + rest[0]] + rest[1..])[1..] == rest[1..];
  }

  /** SPLITTING IS EXACT: it gives the one list of separator-free parts that make up the text. */
  lemma SplitIsExact(s: string, parts: seq<string>, separator: char)
    ensures MadeUpOf(s, parts, separator) <==> parts == SplitAt(s, separator)
  {
    JoinOfSplit(s, separator);
    if MadeUpOf(s, parts, separator) {
      SplitOfJoin(parts, separator);
    }
  }

  // --- Decimal numbers ---

  const MAX_INT64 := 0x7FFF_FFFF_FFFF_FFFF

  predicate AllDigits(s: string) {
    forall k | 0 <= k < |s| :: IsAsciiDigit(s[k])
  }

  function DecimalValue(s: string): nat
    requires AllDigits(s)
  {
    if s == "" then 0
    else
      assert IsAsciiDigit(s[|s| - 1]);
      DecimalValue(s[..|s| - 1]) * 10 + (s[|s| - 1] as nat - '0' as nat)
  }

  /** A decimal number with an optional sign, as `strconv.Atoi` and `strconv.ParseInt` read it. */
  function ParseInteger(s: string): Option<int> {
    var digits := if s != "" && s[0] in "+-" then s[1..] else s;
    if digits == "" || !AllDigits(digits) then None
    else
      var value: int := DecimalValue(digits);
      Some(if s[0] == '-' then -value else value)
  }

  /** `strconv.Itoa` of a number that is not negative. */
  function Itoa(n: nat): (s: string)
    ensures s != "" && AllDigits(s)
  {
    var digit := [('0' as int + n % 10) as char];
    if n < 10 then digit else Itoa(n / 10) + digit
  }

  lemma {:induction false} DecimalRoundTrip(n: nat)
    ensures DecimalValue(Itoa(n)) == n && ParseInteger(Itoa(n)) == Some(n)
  {
    var s := Itoa(n);
    if n >= 10 {
      DecimalRoundTrip(n / 10);
      assert s[..|s| - 1] == Itoa(n / 10);
    } else {
      assert s[..|s| - 1] == "";
    }
    assert IsAsciiDigit(s[0]);
  }

  /** Decimal digits that spell this number, with zeros in front or not. */
  ghost predicate SpellsDecimal(digits: string, n: nat) {
    exists zeros: nat :: digits == Zeros(zeros) + Itoa(n)
  }

  function Zeros(count: nat): (s: string)
    ensures |s| == count && AllDigits(s)
  {
    seq(count, _ => '0')
  }

  lemma {:induction false} LeadingZeros(zeros: nat, s: string)
    requires AllDigits(s)
    ensures AllDigits(Zeros(zeros) + s) && DecimalValue(Zeros(zeros) + s) == DecimalValue(s)
    decreases |s|, zeros
  {
    var t := Zeros(zeros) + s;
    assert forall k | 0 <= k < |t| :: IsAsciiDigit(t[k]);
    if s != "" {
      assert t[..|t| - 1] == Zeros(zeros) + s[..|s| - 1];
      LeadingZeros(zeros, s[..|s| - 1]);
    } else if zeros > 0 {
      assert t == Zeros(zeros) && t[..|t| - 1] == Zeros(zeros - 1) + "";
      LeadingZeros(zeros - 1, "");
    } else {
      assert t == "";
    }
  }

  lemma ItoaStep(n: nat, c: char)
    requires n > 0 && IsAsciiDigit(c)
    ensures Itoa(n * 10 + (c as nat - '0' as nat)) == Itoa(n) + [c]
  {
  }

  lemma {:induction false} DigitsSpell(digits: string) returns (zeros: nat)
    requires digits != "" && AllDigits(digits)
    ensures digits == Zeros(zeros) + Itoa(DecimalValue(digits))
  {
    var lead, c := digits[..|digits| - 1], digits[|digits| - 1];
    assert digits == lead + [c] && IsAsciiDigit(c);
    if lead == "" {
      zeros := 0;
    } else {
      assert forall k | 0 <= k < |lead| :: lead[k] == digits[k];
      var before := DigitsSpell(lead);
      if DecimalValue(lead) == 0 {
        assert lead == Zeros(before + 1);
        zeros := before + 1;
      } else {
        zeros := before;
        ItoaStep(DecimalValue(lead), c);
      }
    }
  }

  /** The value of digits is the number they spell. */
  lemma DecimalIsExact(digits: string, n: nat)
    requires AllDigits(digits) && digits != ""
    ensures DecimalValue(digits) == n <==> SpellsDecimal(digits, n)
  {
    if DecimalValue(digits) == n {
      var zeros := DigitsSpell(digits);
    }
    if SpellsDecimal(digits, n) {
      var zeros: nat :| digits == Zeros(zeros) + Itoa(n);
      LeadingZeros(zeros, Itoa(n));
      DecimalRoundTrip(n);
    }
  }

  /** Digits behind an optional sign, as a number. */
  ghost predicate SpellsInteger(s: string, n: int) {
    || (n >= 0 && (SpellsDecimal(s, n) || (s != "" && s[0] == '+' && SpellsDecimal(s[1..], n))))
    || (n <= 0 && s != "" && s[0] == '-' && SpellsDecimal(s[1..], -n))
  }

  lemma SpelledDigits(digits: string, n: nat)
    requires SpellsDecimal(digits, n)
    ensures digits != "" && AllDigits(digits) && DecimalValue(digits) == n && IsAsciiDigit(digits[0])
  {
    var zeros: nat :| digits == Zeros(zeros) + Itoa(n);
    assert forall k | 0 <= k < |digits| :: IsAsciiDigit(digits[k]);
    LeadingZeros(zeros, Itoa(n));
    DecimalRoundTrip(n);
  }

  /** AN INTEGER IS READ exactly when the text spells it: an optional sign, then digits alone. */
  lemma IntegerIsExact(s: string, n: int)
    ensures ParseInteger(s) == Some(n) <==> SpellsInteger(s, n)
  {
    hide SpellsDecimal, Zeros;
    var digits := if s != "" && s[0] in "+-" then s[1..] else s;
    if ParseInteger(s) == Some(n) {
      DecimalIsExact(digits, DecimalValue(digits));
    }
    if SpellsInteger(s, n) {
      if n >= 0 && SpellsDecimal(s, n) {
        SpelledDigits(s, n);
      } else if s[0] == '+' {
        SpelledDigits(s[1..], n);
      } else {
        SpelledDigits(s[1..], -n);
      }
    }
  }
}
