/** Byte ranges and capabilities of the loopback media server
    (app/src-tauri/src/media_server.rs). */
module MediaRange {
  import opened Wrappers

  type Bytes = seq<bv8>

  const U64_MAX: nat := 0xFFFF_FFFF_FFFF_FFFF

  // ---------------------------------------------------------------- text

  predicate IsDigit(c: char) {
    '0' <= c <= '9'
  }

  predicate AllDigits(s: string) {
    forall i :: 0 <= i < |s| ==> IsDigit(s[i])
  }

  /** The number that a string of digits denotes. */
  function Value(s: string): nat
    requires AllDigits(s)
  {
    if s == [] then 0 else Value(s[..|s| - 1]) * 10 + (s[|s| - 1] as int - '0' as int)
  }

  /** Decimal printing, as a client does it. */
  function Print(n: nat): (s: string)
    ensures s != [] && AllDigits(s)
  {
    if n < 10 then [('0' as int + n) as char] else Print(n / 10) + [('0' as int + n % 10) as char]
  }

  lemma {:induction false} ValueOfPrint(n: nat)
    ensures Value(Print(n)) == n
  {
    if n >= 10 {
      ValueOfPrint(n / 10);
      var s := Print(n);
      assert s[..|s| - 1] == Print(n / 10);
    } else {
      assert Value([('0' as int + n) as char][..0]) == 0;
    }
  }

  /** str::parse for u64: an optional plus sign, digits, and no overflow. */
  function ParseU64(s: string): Option<nat> {
    var digits := if |s| > 1 && s[0] == '+' then s[1..] else s;
    if digits == [] || !AllDigits(digits) || Value(digits) > U64_MAX then None else Some(Value(digits))
  }

  predicate IsSpace(c: char) {
    c == ' ' || '\t' <= c <= '\r'
  }

  function TrimStart(s: string): string {
    if s != [] && IsSpace(s[0]) then TrimStart(s[1..]) else s
  }

  function Trim(s: string): string {
    TrimEnd(TrimStart(s))
  }

  function TrimEnd(s: string): string {
    if s != [] && IsSpace(s[|s| - 1]) then TrimEnd(s[..|s| - 1]) else s
  }

  /** The text before and after the first `c`. */
  function SplitOnce(s: string, c: char): (r: Option<(string, string)>)
    ensures r.None? <==> c !in s
    ensures r.Some? ==> s == r.value.0 + [c] + r.value.1 && c !in r.value.0
  {
    if s == [] then None
    else if s[0] == c then Some(([], s[1..]))
    else match SplitOnce(s[1..], c)
      case None => None
      case Some(p) => Some(([s[0]] + p.0, p.1))
  }

  lemma {:induction false} SplitAt(before: string, c: char, after: string)
    requires c !in before
    ensures SplitOnce(before + [c] + after, c) == Some((before, after))
  {
    var s := before + [c] + after;
    if before == [] {
      assert s[1..] == after;
    } else {
      assert s[1..] == before[1..] + [c] + after;
      SplitAt(before[1..], c, after);
      assert before[0] in before && [before[0]] + before[1..] == before;
    }
  }

  // ---------------------------------------------------------------- ranges

  /** A Range header for `length` bytes: the first and last position, or refusal. */
  function ParseRange(value: string, length: nat): (r: Option<(nat, nat)>)
    ensures r.Some? ==> r.value.0 <= r.value.1 < length
  {
    if length == 0 || !("bytes=" <= value) then None
    else
      var range := Trim(value[6..]);
      if range == [] || ',' in range || SplitOnce(range, '-').None? then None
      else
        var (startText, endText) := SplitOnce(range, '-').value;
        if startText == [] then
          match ParseU64(endText)
          case None => None
          case Some(suffix) =>
            if suffix == 0 then None else Some((if suffix <= length then length - suffix else 0, length - 1))
        else
          match ParseU64(startText)
          case None => None
          case Some(start) =>
            if start >= length then None
            else if endText == [] then Some((start, length - 1))
            else match ParseU64(endText)
              case None => None
              case Some(last) =>
                var end := if last <= length - 1 then last else length - 1;
                if start > end then None else Some((start, end))
  }

  /** A single byte range in the terms of section 14.1.2 of RFC 9110. */
  datatype RangeSpec = From(first: nat) | Between(first: nat, last: nat) | Suffix(count: nat)

  /** The positions that a range selects in a representation of `length` bytes. */
  predicate Selected(spec: RangeSpec, length: nat, p: nat) {
    p < length && match spec
      case From(first) => first <= p
      case Between(first, last) => first <= p <= last
      case Suffix(count) => length <= p + count
  }

  function Printed(spec: RangeSpec): string {
    match spec
    case From(first) => Print(first) + "-"
    case Between(first, last) => Print(first) + "-" + Print(last)
    case Suffix(count) => "-" + Print(count)
  }

  /** The range that a header value stands for, whatever the length. */
  function Denoted(value: string): Option<RangeSpec> {
    if !("bytes=" <= value) then None
    else
      var range := Trim(value[6..]);
      if ',' in range || SplitOnce(range, '-').None? then None
      else
        var (startText, endText) := SplitOnce(range, '-').value;
        var start, last := ParseU64(startText), ParseU64(endText);
        if startText == [] then if last.Some? then Some(Suffix(last.value)) else None
        else if start.None? then None
        else if endText == [] then Some(From(start.value))
        else if last.Some? then Some(Between(start.value, last.value)) else None
  }

  /** ASCII white space. */
  predicate Blank(s: string) {
    forall i :: 0 <= i < |s| ==> s[i] as int == 32 || 9 <= s[i] as int <= 13
  }

  /** `s` is a decimal number that fits u64, with or without a plus sign. */
  ghost predicate Reads(s: string, n: nat) {
    n <= 0xFFFF_FFFF_FFFF_FFFF &&
    exists digits :: digits != "" && AllDigits(digits) && Value(digits) == n && (s == digits || s == "+" + digits)
  }

  ghost predicate Spells(text: string, spec: RangeSpec) {
    match spec
    case From(first) => exists a :: Reads(a, first) && text == a + "-"
    case Between(first, last) => exists a, b :: Reads(a, first) && Reads(b, last) && text == a + "-" + b
    case Suffix(count) => exists b :: Reads(b, count) && text == "-" + b
  }

  ghost predicate Pads(left: string, text: string, right: string, s: string) {
    Blank(left) && Blank(right) && s == left + text + right
  }

  lemma {:induction false} TrimStartIs(s: string)
    ensures exists left :: Blank(left) && s == left + TrimStart(s)
  {
    if s != [] && IsSpace(s[0]) {
      TrimStartIs(s[1..]);
      var left :| Blank(left) && s[1..] == left + TrimStart(s[1..]);
      assert Blank([s[0]] + left) && s == [s[0]] + left + TrimStart(s);
    } else {
      assert Blank([]) && s == [] + TrimStart(s);
    }
  }

  lemma {:induction false} TrimEndIs(s: string)
    ensures exists right :: Blank(right) && s == TrimEnd(s) + right
  {
    if s != [] && IsSpace(s[|s| - 1]) {
      var n := |s| - 1;
      TrimEndIs(s[..n]);
      var right :| Blank(right) && s[..n] == TrimEnd(s[..n]) + right;
      assert Blank(right + [s[n]]) && s == TrimEnd(s) + (right + [s[n]]);
    } else {
      assert Blank([]) && s == TrimEnd(s) + [];
    }
  }

  lemma TrimIs(s: string)
    ensures exists left, right :: Pads(left, Trim(s), right, s)
  {
    TrimStartIs(s);
    var left :| Blank(left) && s == left + TrimStart(s);
    TrimEndIs(TrimStart(s));
    var right :| Blank(right) && TrimStart(s) == Trim(s) + right;
    assert s == left + Trim(s) + right;
    assert Pads(left, Trim(s), right, s);
  }

  lemma {:induction false} TrimStartPadded(left: string, s: string)
    requires Blank(left) && s != "" && !IsSpace(s[0])
    ensures TrimStart(left + s) == s
  {
    if left == [] {
      assert left + s == s;
    } else {
      assert (left + s)[1..] == left[1..] + s;
      TrimStartPadded(left[1..], s);
    }
  }

  lemma {:induction false} TrimEndPadded(s: string, right: string)
    requires Blank(right) && s != "" && !IsSpace(s[|s| - 1])
    ensures TrimEnd(s + right) == s
  {
    if right == [] {
      assert s + right == s;
    } else {
      var n := |right| - 1;
      assert (s + right)[..|s| + n] == s + right[..n];
      TrimEndPadded(s, right[..n]);
    }
  }

  lemma TrimPadded(left: string, text: string, right: string)
    requires Blank(left) && Blank(right) && text != "" && !IsSpace(text[0]) && !IsSpace(text[|text| - 1])
    ensures Trim(left + text + right) == text
  {
    assert left + text + right == left + (text + right);
    TrimStartPadded(left, text + right);
    TrimEndPadded(text, right);
  }

  lemma ReadsIs(s: string, n: nat)
    ensures ParseU64(s) == Some(n) <==> Reads(s, n)
    ensures Reads(s, n) ==> s != "" && Marked(s)
  {
    if ParseU64(s) == Some(n) {
      assert s == s[1..] || |s| <= 1 || s == [s[0]] + s[1..];
    }
    if Reads(s, n) {
      var digits :| digits != "" && AllDigits(digits) && Value(digits) == n && (s == digits || s == "+" + digits);
      if s == "+" + digits {
        assert s[1..] == digits;
      } else {
        assert IsDigit(s[0]);
      }
    }
  }

  /** Digits, plus signs and hyphens only. */
  predicate Marked(s: string) {
    forall i :: 0 <= i < |s| ==> IsDigit(s[i]) || s[i] == '+'
  }

  /** What a text with one hyphen between its ends stands for, whatever white space is around it. */
  lemma DenotedHalves(value: string, left: string, a: string, b: string, right: string)
    requires "bytes=" <= value && Pads(left, a + ['-'] + b, right, value[6..]) && Marked(a) && Marked(b)
    ensures Denoted(value) ==
      if a == "" then if ParseU64(b).Some? then Some(Suffix(ParseU64(b).value)) else None
      else if ParseU64(a).None? then None
      else if b == "" then Some(From(ParseU64(a).value))
      else if ParseU64(b).Some? then Some(Between(ParseU64(a).value, ParseU64(b).value)) else None
  {
    var text := a + ['-'] + b;
    assert text[0] == (if a == "" then '-' else a[0]);
    assert text[|text| - 1] == (if b == "" then '-' else b[|b| - 1]);
    TrimPadded(left, text, right);
    SplitAt(a, '-', b);
    assert ',' !in text;
  }

  lemma SpelledIsDenoted(value: string, spec: RangeSpec, left: string, text: string, right: string)
    requires "bytes=" <= value && Pads(left, text, right, value[6..]) && Spells(text, spec)
    ensures Denoted(value) == Some(spec)
  {
    match spec {
      case From(first) =>
        var a :| Reads(a, first) && text == a + "-";
        ReadsIs(a, first);
        assert text == a + ['-'] + "";
        DenotedHalves(value, left, a, "", right);
      case Between(first, last) =>
        var a, b :| Reads(a, first) && Reads(b, last) && text == a + "-" + b;
        ReadsIs(a, first);
        ReadsIs(b, last);
        DenotedHalves(value, left, a, b, right);
      case Suffix(count) =>
        var b :| Reads(b, count) && text == "-" + b;
        ReadsIs(b, count);
        assert text == "" + ['-'] + b;
        DenotedHalves(value, left, "", b, right);
    }
  }

  lemma DenotedIsSpelled(value: string)
    requires Denoted(value).Some?
    ensures "bytes=" <= value && Spells(Trim(value[6..]), Denoted(value).value)
  {
    var text := Trim(value[6..]);
    var (a, b) := SplitOnce(text, '-').value;
    assert text == a + "-" + b;
    match Denoted(value).value {
      case From(first) => ReadsIs(a, first); assert text == a + "-";
      case Between(first, last) => ReadsIs(a, first); ReadsIs(b, last);
      case Suffix(count) => ReadsIs(b, count); assert text == "-" + b;
    }
  }

  /** A header stands for a range exactly when it is `bytes=` and the spelled range, with
      white space around it; everything else is refused. */
  lemma DenotedIsExact(value: string, spec: RangeSpec)
    ensures Denoted(value) == Some(spec) <==>
      "bytes=" <= value && exists left, text, right :: Pads(left, text, right, value[6..]) && Spells(text, spec)
  {
    if Denoted(value) == Some(spec) {
      DenotedIsSpelled(value);
      TrimIs(value[6..]);
      var left, right :| Pads(left, Trim(value[6..]), right, value[6..]);
    }
    if "bytes=" <= value {
      forall left, text, right | Pads(left, text, right, value[6..]) && Spells(text, spec)
        ensures Denoted(value) == Some(spec)
      {
        SpelledIsDenoted(value, spec, left, text, right);
      }
    }
  }

  /** A header is accepted exactly when the range it stands for selects something, and the
      interval then holds exactly the selected positions; it never leaves the file. */
  lemma ParseRangeIsExact(value: string, length: nat)
    ensures ParseRange(value, length).Some? <==>
      Denoted(value).Some? && exists p: nat :: Selected(Denoted(value).value, length, p)
    ensures ParseRange(value, length).Some? ==>
      var (start, end) := ParseRange(value, length).value;
      && start <= end < length
      && forall p: nat :: start <= p <= end <==> Selected(Denoted(value).value, length, p)
  {
    var spec := Denoted(value);
    if ParseRange(value, length).Some? {
      assert Selected(spec.value, length, ParseRange(value, length).value.0);
    } else if spec.Some? && length > 0 {
      forall p: nat ensures !Selected(spec.value, length, p) {
      }
    }
  }

  /** The interval's size fits u64, so `end - start + 1` does not wrap. */
  lemma NoWrapAround(value: string, length: nat)
    requires length <= U64_MAX && ParseRange(value, length).Some?
    ensures var (start, end) := ParseRange(value, length).value; 1 <= end - start + 1 <= length <= U64_MAX
  {
    ParseRangeIsExact(value, length);
  }

  predicate Representable(spec: RangeSpec) {
    match spec
    case From(first) => first <= U64_MAX
    case Between(first, last) => first <= U64_MAX && last <= U64_MAX
    case Suffix(count) => count <= U64_MAX
  }

  predicate Plain(s: string) {
    forall i :: 0 <= i < |s| ==> IsDigit(s[i]) || s[i] == '-'
  }

  lemma TrimPlain(s: string)
    requires Plain(s)
    ensures Trim(s) == s && ',' !in s
  {
  }

  lemma ParsePrinted(n: nat)
    ensures ParseU64(Print(n)) == if n <= U64_MAX then Some(n) else None
  {
    ValueOfPrint(n);
    assert IsDigit(Print(n)[0]);
  }

  /** Parsing undoes printing for every range whose numbers fit u64, and refuses the others. */
  lemma DenotedPrinted(spec: RangeSpec)
    ensures Denoted("bytes=" + Printed(spec)) == if Representable(spec) then Some(spec) else None
  {
    var value := "bytes=" + Printed(spec);
    var before := if spec.Suffix? then "" else Print(spec.first);
    var after := match spec
      case From(_) => ""
      case Between(_, last) => Print(last)
      case Suffix(count) => Print(count);
    assert Printed(spec) == before + ['-'] + after;
    assert value[6..] == Printed(spec);
    TrimPlain(Printed(spec));
    SplitAt(before, '-', after);
    match spec {
      case From(first) => ParsePrinted(first);
      case Between(first, last) => ParsePrinted(first); ParsePrinted(last);
      case Suffix(count) => ParsePrinted(count);
    }
  }

  /** A printed range is answered with exactly the bytes it selects. It is refused exactly
      when it selects none or a number does not fit u64, although section 14.1.2 of RFC
      9110 has a last position beyond the end stand for the end. */
  lemma PrintedRange(spec: RangeSpec, length: nat)
    ensures var parsed := ParseRange("bytes=" + Printed(spec), length);
      && (parsed.Some? <==> Representable(spec) && exists p: nat :: Selected(spec, length, p))
      && (parsed.Some? ==>
          && parsed.value.0 <= parsed.value.1 < length
          && forall p: nat :: parsed.value.0 <= p <= parsed.value.1 <==> Selected(spec, length, p))
  {
    DenotedPrinted(spec);
    ParseRangeIsExact("bytes=" + Printed(spec), length);
  }

  // ---------------------------------------------------------------- sending

  const BUFFER_BYTES: nat := 16 * 1024

  /** How many bytes a read delivers: at least one and at most `wanted`, unless the file ends. */
  function ReadCount(choice: nat, wanted: nat, left: nat): (n: nat)
    ensures n <= wanted && n <= left
    ensures n == 0 <==> wanted == 0 || left == 0
  {
    var most := if wanted <= left then wanted else left;
    if most == 0 then 0 else 1 + choice % most
  }

  function Min(a: nat, b: nat): nat {
    if a <= b then a else b
  }

  /** What lies in the file from `start`, at most `length` bytes. */
  function Slice(file: Bytes, start: nat, length: nat): Bytes {
    file[Min(start, |file|)..Min(start + length, |file|)]
  }

  /** The loop of write_response over an open file, for any short reads and a failure at
      any turn: what was sent is the requested interval, as far as the file reaches, or a
      prefix of it. */
  method WriteBody(file: Bytes, start: nat, length: nat, choices: nat -> nat, failsAt: Option<nat>)
    returns (sent: Bytes)
    ensures sent <= Slice(file, start, length)
    ensures failsAt.None? ==> sent == Slice(file, start, length)
  {
    sent := [];
    var first, last := Min(start, |file|), Min(start + length, |file|);
    var remaining, position, turn := length, start, 0;
    while remaining > 0
      invariant 0 <= remaining && start <= position && position + remaining == start + length
      invariant first <= Min(position, |file|) <= last && sent == file[first..Min(position, |file|)]
    {
      if failsAt == Some(turn) {
        return;
      }
      var wanted := Min(remaining, BUFFER_BYTES);
      var left := if position < |file| then |file| - position else 0;
      var read := ReadCount(choices(turn), wanted, left);
      if read == 0 {
        break;
      }
      sent := sent + file[position..position + read];
      position := position + read;
      remaining := remaining - read;
      turn := turn + 1;
    }
  }

  /** The body sent for a range header. */
  function Body(file: Bytes, value: string): Bytes {
    var parsed := ParseRange(value, |file|);
    if parsed.Some? then file[parsed.value.0..parsed.value.1 + 1] else []
  }

  predicate Increasing(cuts: seq<nat>) {
    forall i, j :: 0 <= i < j < |cuts| ==> cuts[i] < cuts[j]
  }

  /** The bodies for the adjacent ranges between the given cuts. */
  function Bodies(file: Bytes, cuts: seq<nat>): Bytes
    requires Increasing(cuts)
    decreases |cuts|
  {
    if |cuts| < 2 then []
    else
      assert cuts[0] < cuts[1];
      Body(file, "bytes=" + Printed(Between(cuts[0], cuts[1] - 1))) + Bodies(file, cuts[1..])
  }

  lemma PrintedBetween(length: nat, a: nat, b: nat)
    requires a <= b < length <= U64_MAX
    ensures ParseRange("bytes=" + Printed(Between(a, b)), length) == Some((a, b))
  {
    var spec := Between(a, b);
    PrintedRange(spec, length);
    assert Selected(spec, length, a) && Selected(spec, length, b);
    var (start, end) := ParseRange("bytes=" + Printed(spec), length).value;
    assert Selected(spec, length, start) && Selected(spec, length, end);
  }

  lemma BodyBetween(file: Bytes, a: nat, b: nat)
    requires a <= b < |file| <= U64_MAX
    ensures Body(file, "bytes=" + Printed(Between(a, b))) == file[a..b + 1]
  {
    PrintedBetween(|file|, a, b);
  }

  lemma {:induction false} BodiesFrom(file: Bytes, cuts: seq<nat>)
    requires |file| <= U64_MAX && cuts != [] && cuts[|cuts| - 1] == |file| && Increasing(cuts)
    ensures cuts[0] <= |file| && Bodies(file, cuts) == file[cuts[0]..]
    decreases |cuts|
  {
    if |cuts| >= 2 {
      BodiesFrom(file, cuts[1..]);
      BodyBetween(file, cuts[0], cuts[1] - 1);
      Rejoin(file, cuts[0], cuts[1]);
    }
  }

  lemma Rejoin(file: Bytes, a: nat, b: nat)
    requires a <= b <= |file|
    ensures file[a..b] + file[b..] == file[a..]
  {
  }

  /** Adjacent ranges rebuild the file, wherever it is cut. */
  lemma RangesRebuildFile(file: Bytes, cuts: seq<nat>)
    requires |file| <= U64_MAX && cuts != [] && cuts[0] == 0 && cuts[|cuts| - 1] == |file|
    requires Increasing(cuts)
    ensures Bodies(file, cuts) == file
  {
    BodiesFrom(file, cuts);
  }

  // ---------------------------------------------------------------- responses

  datatype Request = Request(verb: string, target: string, range: Option<string>)

  datatype ContentRange = Absent | Satisfied(start: nat, end: nat, length: nat) | Unsatisfied(length: nat)

  /** `body` names the file position and the number of bytes to send. */
  datatype Response = Response(status: nat, contentLength: nat, contentRange: ContentRange, body: Option<(nat, nat)>)

  function Empty(status: nat): Response {
    Response(status, 0, Absent, None)
  }

  /** The answer about an authorized file, of which `opens` says whether it can be opened. */
  function Respond(request: Request, file: Bytes, opens: bool): Response {
    var length := |file|;
    var parsed := if request.range.Some? then ParseRange(request.range.value, length) else None;
    if request.range.Some? && parsed.None? then Response(416, 0, Unsatisfied(length), None)
    else
      var (start, end) := if parsed.Some? then parsed.value else (0, if length == 0 then 0 else length - 1);
      var contentLength := if length == 0 then 0 else end - start + 1;
      var status := if parsed.Some? then 206 else 200;
      var contentRange := if parsed.Some? then Satisfied(start, end, length) else Absent;
      if request.verb == "HEAD" || length == 0 then Response(status, contentLength, contentRange, None)
      else if !opens then Empty(404)
      else Response(status, contentLength, contentRange, Some((start, contentLength)))
  }

  function Sent(file: Bytes, response: Response): Bytes {
    if response.body.Some? then Slice(file, response.body.value.0, response.body.value.1) else []
  }

  /** The positions that a Range header selects. */
  ghost function Positions(request: Request, length: nat): set<nat> {
    if request.range.Some? && Denoted(request.range.value).Some?
    then set p: nat | p < length && Selected(Denoted(request.range.value).value, length, p)
    else {}
  }

  /** What each status means, and exactly when it is given. A GET sends as many bytes as it
      announces: the whole file, or the positions that the range selects and Content-Range
      names. HEAD announces the same and sends nothing. */
  ghost predicate Truthful(request: Request, file: Bytes, opens: bool, response: Response) {
    var length, positions := |file|, Positions(request, |file|);
    var unsatisfied := request.range.Some? && positions == {};
    var missing := !unsatisfied && request.verb != "HEAD" && length > 0 && !opens;
    && (response.status == 416 <==> unsatisfied)
    && (response.status == 404 <==> missing)
    && (response.status == 200 <==> !missing && request.range.None?)
    && (response.status == 206 <==> !missing && positions != {})
    && (unsatisfied ==> response.contentRange == Unsatisfied(length))
    && (missing || response.status == 200 ==> response.contentRange == Absent)
    && (response.status == 206 ==>
        && response.contentRange.Satisfied? && response.contentRange.length == length
        && (forall p: nat :: response.contentRange.start <= p <= response.contentRange.end <==> p in positions))
    && response.contentLength ==
        (if unsatisfied || missing then 0 else if request.range.None? then length else |positions|)
    && |Sent(file, response)| == (if request.verb == "HEAD" then 0 else response.contentLength)
    && (request.verb != "HEAD" && response.status == 200 ==> Sent(file, response) == file)
    && (request.verb != "HEAD" && response.status == 206 ==>
        response.contentRange.start <= response.contentRange.end < length &&
        Sent(file, response) == file[response.contentRange.start..response.contentRange.end + 1])
  }

  lemma {:induction false} CountFrom(start: nat, n: nat, positions: set<nat>)
    requires forall p: nat :: p in positions <==> start <= p < start + n
    ensures |positions| == n
    decreases n
  {
    if n > 0 {
      CountFrom(start, n - 1, positions - {start + n - 1});
    } else {
      assert positions == {};
    }
  }

  /** An accepted range is the interval of the positions it selects. */
  lemma AcceptedPositions(request: Request, length: nat)
    requires request.range.Some?
    ensures ParseRange(request.range.value, length).Some? <==> Positions(request, length) != {}
    ensures ParseRange(request.range.value, length).Some? ==>
      var (start, end) := ParseRange(request.range.value, length).value;
      && (forall p: nat :: start <= p <= end <==> p in Positions(request, length))
      && |Positions(request, length)| == end - start + 1
  {
    var positions := Positions(request, length);
    ParseRangeIsExact(request.range.value, length);
    if ParseRange(request.range.value, length).Some? {
      var (start, end) := ParseRange(request.range.value, length).value;
      assert forall p: nat :: p in positions <==> start <= p < start + (end - start + 1);
      CountFrom(start, end - start + 1, positions);
      assert start in positions;
    } else if Denoted(request.range.value).Some? {
      assert forall p: nat :: !Selected(Denoted(request.range.value).value, length, p);
    }
  }

  lemma ResponseIsTruthful(request: Request, file: Bytes, opens: bool)
    ensures Truthful(request, file, opens, Respond(request, file, opens))
    ensures Respond(request.(verb := "HEAD"), file, true) == Respond(request.(verb := "GET"), file, true).(body := None)
  {
    if request.range.Some? {
      AcceptedPositions(request, |file|);
    }
  }

  // ---------------------------------------------------------------- capabilities

  const LIFETIME: nat := 30 * 60 * 1000

  datatype Capability = Capability(path: string, expiresAt: nat)

  predicate IsHexDigit(c: char) {
    IsDigit(c) || 'a' <= c <= 'f' || 'A' <= c <= 'F'
  }

  predicate IsToken(s: string) {
    |s| == 32 && forall i :: 0 <= i < |s| ==> IsHexDigit(s[i])
  }

  lemma HexDigits(c: char)
    ensures IsHexDigit(c) <==> c in "0123456789abcdefABCDEF"
  {
    var digits := "0123456789abcdefABCDEF";
    if '0' <= c <= '9' {
      assert digits[c as int - '0' as int] == c;
    } else if 'a' <= c <= 'f' {
      assert digits[10 + (c as int - 'a' as int)] == c;
    } else if 'A' <= c <= 'F' {
      assert digits[16 + (c as int - 'A' as int)] == c;
    }
  }

  /** The token of a target: exactly `/media/` and the token, before any query. */
  function TokenFromTarget(target: string): Option<string> {
    var path := match SplitOnce(target, '?') case None => target case Some(p) => p.0;
    var rest := SplitOnce(path, '/');
    if rest.None? || rest.value.0 != "" then None
    else
      var root := SplitOnce(rest.value.1, '/');
      if root.None? || root.value.0 != "media" then None
      else if IsToken(root.value.1) then Some(root.value.1) else None
  }

  lemma TokenIsSpelled(token: string)
    ensures IsToken(token) <==> |token| == 32 && forall i :: 0 <= i < 32 ==> token[i] in "0123456789abcdefABCDEF"
  {
    forall c ensures IsHexDigit(c) <==> c in "0123456789abcdefABCDEF" {
      HexDigits(c);
    }
  }

  lemma TokenAtPath(target: string, token: string)
    ensures TokenFromTarget(target) == Some(token) <==>
      IsToken(token) && (target == "/media/" + token || "/media/" + token + "?" <= target)
  {
    var path := "/media/" + token;
    if IsToken(token) {
      assert '?' !in path;
      SplitAt("", '/', "media/" + token);
      SplitAt("media", '/', token);
      assert path == "" + ['/'] + ("media/" + token);
      assert "media/" + token == "media" + ['/'] + token;
      if path + "?" <= target {
        SplitAt(path, '?', target[|path| + 1..]);
        assert target == path + ['?'] + target[|path| + 1..];
      }
    }
  }

  /** A target carries a token exactly when it is the token's path, with or without a query;
      a token is made of 32 hexadecimal digits. */
  lemma TokenIsExact(target: string, token: string)
    ensures TokenFromTarget(target) == Some(token) <==>
      && |token| == 32 && (forall i :: 0 <= i < 32 ==> token[i] in "0123456789abcdefABCDEF")
      && (target == "/media/" + token || "/media/" + token + "?" <= target)
  {
    TokenAtPath(target, token);
    TokenIsSpelled(token);
  }

  function Prune(capabilities: map<string, Capability>, now: nat): map<string, Capability> {
    map t | t in capabilities && capabilities[t].expiresAt > now :: capabilities[t]
  }

  class MediaServer {
    var capabilities: map<string, Capability>
    /** Every capability ever granted, and the latest time seen. */
    ghost var granted: map<string, Capability>
    ghost var clock: nat

    ghost predicate Valid()
      reads this
    {
      && (forall t :: t in capabilities ==> t in granted && granted[t] == capabilities[t])
      && (forall t :: t in granted && granted[t].expiresAt > clock ==> t in capabilities)
    }

    constructor ()
      ensures Valid() && granted == map[] && clock == 0
    {
      capabilities, granted, clock := map[], map[], 0;
    }

    /** `canonical` is None for links, missing paths and anything but regular files; the
        token is a new random one. */
    method Authorize(canonical: Option<string>, token: string, now: nat) returns (url: Option<string>)
      requires Valid() && token !in granted && clock <= now
      modifies this
      ensures Valid() && clock == now
      ensures url == if canonical.Some? then Some("/media/" + token) else None
      ensures granted ==
        if canonical.Some? then old(granted)[token := Capability(canonical.value, now + 1800000)] else old(granted)
    {
      clock := now;
      if canonical.None? {
        return None;
      }
      capabilities := Prune(capabilities, now);
      capabilities := capabilities[token := Capability(canonical.value, now + LIFETIME)];
      granted := granted[token := Capability(canonical.value, now + LIFETIME)];
      return Some("/media/" + token);
    }

    /** A file is answered, truthfully, exactly for a GET or HEAD with a token granted for it
        that has not expired; another verb is refused, another target not found. */
    method Dispatch(request: Request, files: map<string, Bytes>, opens: bool, now: nat, later: nat)
      returns (response: Response)
      requires Valid() && clock <= now <= later
      modifies this`capabilities, this`clock
      ensures Valid() && clock == later
      ensures var token := TokenFromTarget(request.target);
        if request.verb != "GET" && request.verb != "HEAD" then response == Response(405, 0, Absent, None)
        else if token.Some? && token.value in granted && granted[token.value].expiresAt > later
             && granted[token.value].path in files
        then Truthful(request, files[granted[token.value].path], opens, response)
        else response == Response(404, 0, Absent, None)
    {
      clock := later;
      if request.verb != "GET" && request.verb != "HEAD" {
        return Empty(405);
      }
      var token := TokenFromTarget(request.target);
      if token.None? {
        return Empty(404);
      }
      capabilities := Prune(capabilities, now);
      if token.value !in capabilities {
        return Empty(404);
      }
      var capability := capabilities[token.value];
      if capability.expiresAt <= later || capability.path !in files {
        return Empty(404);
      }
      ResponseIsTruthful(request, files[capability.path], opens);
      return Respond(request, files[capability.path], opens);
    }
  }
}
