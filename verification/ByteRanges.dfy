/**
 Byte ranges as internal/api/mediaflow.go and mediaflow_owned.go handle them: the Range parser, the
 bounds of a request, the Content-Range that the fallback prints, its validator and the exact
 geometry reader (sections 14.1.2, 14.2 and 14.4 of RFC 9110).
 */
module ByteRanges {
  import opened Text
  import opened Wrappers

  const OK_STATUS := 200
  const PARTIAL_CONTENT := 206
  const RANGE_NOT_SATISFIABLE := 416
  const MAX_HEADER_BYTES := 128

  datatype Range = Range(start: int, end: int, suffix: int, hasEnd: bool)

  function ParseRange(header: string): Option<Range> {
    var raw := TrimSpace(header);
    if ByteLen(raw) == 0 || ByteLen(raw) > MAX_HEADER_BYTES || !HasPrefixFold(raw, "bytes=") || ',' in raw then None
    else ParseSpec(TrimSpace(raw[6..]))
  }

  /** The part of a Range header after "bytes=". */
  function ParseSpec(spec: string): Option<Range> {
    if CountChar(spec, '-') != 1 then None
    else
      var i := Index(spec, '-');
      if i == |spec| then None else ParseEnds(spec[..i], spec[i + 1..])
  }

  function ParseEnds(first: string, second: string): Option<Range> {
    if first == "" then
      match ParseInt(second)
      case Some(suffix) => if suffix <= 0 then None else Some(Range(0, 0, suffix, false))
      case None => None
    else
      match ParseInt(first)
      case None => None
      case Some(start) =>
        if start < 0 then None
        else if second == "" then Some(Range(start, 0, 0, false))
        else
          match ParseInt(second)
          case None => None
          case Some(end) => if end < start then None else Some(Range(start, end, 0, true))
  }

  datatype Bounds = NoObject | Answer(start: int, length: int, status: int)

  function RangeBounds(requested: Option<Range>, total: int): Bounds {
    if total <= 0 then NoObject
    else if requested.None? then Answer(0, total, OK_STATUS)
    else
      var r := requested.value;
      if r.suffix > 0 then
        var length := if r.suffix > total then total else r.suffix;
        Answer(total - length, length, PARTIAL_CONTENT)
      else if r.start >= total then Answer(0, 0, RANGE_NOT_SATISFIABLE)
      else
        var end := if r.hasEnd && r.end < total - 1 then r.end else total - 1;
        Answer(r.start, end - r.start + 1, PARTIAL_CONTENT)
  }

  /** The three numbers' texts of "first-last/total". */
  function SplitSpec(spec: string): Option<(string, string, string)> {
    var slash := Index(spec, '/');
    if slash == |spec| then None
    else
      var span := spec[..slash];
      var dash := Index(span, '-');
      if dash == |span| then None else Some((span[..dash], span[dash + 1..], spec[slash + 1..]))
  }

  function SplitContentRange(header: string): Option<(string, string, string)> {
    var raw := TrimSpace(header);
    if HasPrefixFold(raw, "bytes ") then SplitSpec(TrimSpace(raw[6..])) else None
  }

  datatype RangeError = Malformed | BadSpan | BadTotal | LengthMismatch | SuffixMismatch | StartMismatch | EndMismatch

  /** The total of a Content-Range: a number, not a number, or left open with an asterisk. */
  datatype Total = Open | Given(value: Option<int>)

  function ParseTotal(text: string): Total {
    if text == "*" then Open else Given(ParseInt(text))
  }

  /** validateMediaFlowContentRange; `None` is acceptance. */
  function Validate(header: string, contentLength: string, want: Option<Range>): Option<RangeError> {
    match SplitContentRange(header)
    case None => Some(Malformed)
    case Some((first, last, whole)) =>
      CheckNumbers(ParseInt(TrimSpace(first)), ParseInt(TrimSpace(last)), ParseTotal(TrimSpace(whole)),
                   if contentLength == "" then None else Some(ParseInt(contentLength)), want)
  }

  function CheckNumbers(
      start: Option<int>, end: Option<int>, total: Total, length: Option<Option<int>>, want: Option<Range>)
    : Option<RangeError>
  {
    if start.None? || end.None? || start.value < 0 || end.value < start.value then Some(BadSpan)
    else if total.Given? && (total.value.None? || total.value.value <= end.value) then Some(BadTotal)
    else if length.Some? && length.value != Some(end.value - start.value + 1) then Some(LengthMismatch)
    else if want.None? then None
    else CheckWanted(start.value, end.value, if total.Open? then 0 else total.value.value, want.value)
  }

  function CheckWanted(start: int, end: int, total: int, want: Range): Option<RangeError> {
    if want.suffix > 0 then
      (if total == 0 || end != total - 1 || end - start + 1 > want.suffix then Some(SuffixMismatch) else None)
    else if start != want.start then Some(StartMismatch)
    else if want.hasEnd && end > want.end then Some(EndMismatch)
    else None
  }

  datatype Geometry = Geometry(offset: int, length: int, total: int)

  function ExactGeometry(status: int, header: string, contentLength: string): Option<Geometry> {
    if status == OK_STATUS then
      match ParseInt(TrimSpace(contentLength))
      case Some(length) => if length <= 0 then None else Some(Geometry(0, length, length))
      case None => None
    else if status == PARTIAL_CONTENT then
      match SplitContentRange(header)
      case None => None
      case Some((first, last, whole)) =>
        if whole == "*" then None
        else
          GeometryOf(ParseInt(TrimSpace(first)), ParseInt(TrimSpace(last)), ParseInt(TrimSpace(whole)),
                     ParseInt(TrimSpace(contentLength)))
    else None
  }

  function GeometryOf(start: Option<int>, end: Option<int>, total: Option<int>, length: Option<int>): Option<Geometry> {
    if start.None? || end.None? || total.None? || length.None? then None
    else if start.value < 0 || end.value < start.value || total.value <= end.value ||
            length.value != end.value - start.value + 1 then None
    else Some(Geometry(start.value, length.value, total.value))
  }

  /** The Content-Range the canonical fallback writes with a 206. */
  function PrintContentRange(start: nat, length: nat, total: nat): string
    requires length > 0
  {
    "bytes " + (FormatNat(start) + "-" + FormatNat(start + length - 1) + "/" + FormatNat(total))
  }

  // ---------------------------------------------------------------- what a range means

  /** The bytes of an object of `total` bytes that a range asks for (section 14.1.2 of RFC 9110). */
  predicate Selects(r: Range, total: int, x: int) {
    && 0 <= x < total
    && if r.suffix > 0 then x >= total - r.suffix else r.start <= x && (r.hasEnd ==> x <= r.end)
  }

  /** The shapes ParseRange can return. */
  predicate WellFormed(r: Range) {
    || (r.suffix > 0 && r.start == 0 && r.end == 0 && !r.hasEnd)
    || (r.suffix == 0 && r.start >= 0 && (if r.hasEnd then r.end >= r.start else r.end == 0))
  }

  predicate FitsInt64(r: Range) {
    r.start < INT64_LIMIT && r.end < INT64_LIMIT && r.suffix < INT64_LIMIT
  }

  lemma ParsedIsWellFormed(header: string)
    ensures var r := ParseRange(header); r.Some? ==> WellFormed(r.value) && FitsInt64(r.value)
  {
  }

  /** The bounds are exactly the selected bytes, and 416 is said exactly when there are none. */
  lemma BoundsAreTheSelection(r: Range, total: int)
    requires total > 0 && WellFormed(r)
    ensures var b := RangeBounds(Some(r), total);
            && b.Answer?
            && (b.status == RANGE_NOT_SATISFIABLE || b.status == PARTIAL_CONTENT)
            && (b.status == RANGE_NOT_SATISFIABLE <==> forall x :: !Selects(r, total, x))
            && (b.status == PARTIAL_CONTENT ==>
                  && 0 <= b.start && 0 < b.length && b.start + b.length <= total
                  && forall x :: b.start <= x < b.start + b.length <==> Selects(r, total, x))
  {
    var b := RangeBounds(Some(r), total);
    if b.status == PARTIAL_CONTENT {
      assert Selects(r, total, b.start);
    }
  }

  // ---------------------------------------------------------------- what the parsers read

  predicate Lacks(s: string, c: char) {
    forall i :: 0 <= i < |s| ==> s[i] != c
  }

  lemma {:induction false} IndexSplits(s: string, c: char)
    ensures Lacks(s[..Index(s, c)], c)
    ensures Index(s, c) < |s| ==> s == s[..Index(s, c)] + [c] + s[Index(s, c) + 1..]
    ensures Index(s, c) == |s| <==> Lacks(s, c)
  {
    if s != "" && s[0] != c {
      IndexSplits(s[1..], c);
      var i := Index(s, c);
      assert s[..i] == [s[0]] + s[1..][..i - 1];
      assert s == [s[0]] + s[1..];
    }
  }

  /** The texts are those before the first dash, between it and the first slash, and after that. */
  lemma SpecSplits(spec: string, a: string, b: string, c: string)
    ensures SplitSpec(spec) == Some((a, b, c)) <==>
            spec == a + "-" + b + "/" + c && Lacks(a, '-') && Lacks(a, '/') && Lacks(b, '/')
  {
    IndexSplits(spec, '/');
    var slash := Index(spec, '/');
    if slash < |spec| {
      IndexSplits(spec[..slash], '-');
    }
    if spec == a + "-" + b + "/" + c && Lacks(a, '-') && Lacks(a, '/') && Lacks(b, '/') {
      var span := a + "-" + b;
      IndexOfSeparator(span, '/', c);
      assert spec[..|span|] == span && spec[|span| + 1..] == c;
      IndexOfSeparator(a, '-', b);
      assert span[..|a|] == a && span[|a| + 1..] == b;
    }
  }

  /** After white space, "bytes" in any case, one space, and perhaps more white space. */
  lemma ContentRangeReads(header: string, a: string, b: string, c: string)
    ensures var raw := TrimSpace(header);
            SplitContentRange(header) == Some((a, b, c)) <==>
            && HasPrefixFold(raw, "bytes ") && TrimSpace(raw[6..]) == a + "-" + b + "/" + c
            && Lacks(a, '-') && Lacks(a, '/') && Lacks(b, '/')
  {
    var raw := TrimSpace(header);
    if HasPrefixFold(raw, "bytes ") {
      SpecSplits(TrimSpace(raw[6..]), a, b, c);
    }
  }

  lemma {:induction false} LacksMeansNone(s: string, c: char)
    ensures Lacks(s, c) <==> CountChar(s, c) == 0
  {
    if s != "" {
      LacksMeansNone(s[1..], c);
      assert s == [s[0]] + s[1..];
    }
  }

  lemma SpecReads(spec: string, first: string, second: string)
    requires Lacks(first, '-') && Lacks(second, '-')
    ensures spec == first + "-" + second ==> ParseSpec(spec) == ParseEnds(first, second)
  {
    if spec == first + "-" + second {
      CountOfSeparator(first, '-', "-" + second);
      LacksMeansNone(second, '-');
      assert spec == first + ("-" + second) && ("-" + second)[1..] == second;
      IndexOfSeparator(first, '-', second);
      assert spec[..|first|] == first && spec[|first| + 1..] == second;
    }
  }

  lemma {:induction false} OnlyOccurrence(s: string, c: char)
    requires CountChar(s, c) == 1
    ensures Index(s, c) < |s| && Lacks(s[Index(s, c) + 1..], c)
  {
    LacksMeansNone(s[1..], c);
    if s[0] != c {
      OnlyOccurrence(s[1..], c);
      assert s[Index(s, c) + 1..] == s[1..][Index(s[1..], c) + 1..];
    }
  }

  lemma SpecHasTwoEnds(spec: string)
    requires ParseSpec(spec).Some?
    ensures exists first, second :: EndsIn(spec, first, second)
  {
    IndexSplits(spec, '-');
    OnlyOccurrence(spec, '-');
    var i := Index(spec, '-');
    assert EndsIn(spec, spec[..i], spec[i + 1..]);
  }

  /** What the two texts around the dash mean. */
  predicate EndsMean(first: string, second: string, r: Range) {
    if first == "" then r.suffix > 0 && ParseInt(second) == Some(r.suffix) && r == Range(0, 0, r.suffix, false)
    else
      && r.start >= 0 && ParseInt(first) == Some(r.start) && r.suffix == 0
      && if second == "" then !r.hasEnd && r.end == 0
         else r.hasEnd && ParseInt(second) == Some(r.end) && r.end >= r.start
  }

  predicate EndsIn(spec: string, first: string, second: string) {
    spec == first + "-" + second && Lacks(first, '-') && Lacks(second, '-')
  }

  lemma SpecMeans(spec: string, r: Range)
    ensures ParseSpec(spec) == Some(r) <==>
            exists first, second :: EndsIn(spec, first, second) && EndsMean(first, second, r)
  {
    if ParseSpec(spec) == Some(r) {
      SpecHasTwoEnds(spec);
      var first, second :| EndsIn(spec, first, second);
      SpecReads(spec, first, second);
      assert EndsMean(first, second, r);
    }
    if first, second :| EndsIn(spec, first, second) && EndsMean(first, second, r) {
      SpecReads(spec, first, second);
    }
  }

  /**
   The Range grammar: at most 128 bytes without a comma, "bytes=" in any case, and one dash between two
   texts that mean the range.
   */
  lemma RangeReads(header: string, r: Range)
    ensures var raw := TrimSpace(header);
            ParseRange(header) == Some(r) <==>
            && ByteLen(raw) <= 128 && ',' !in raw && HasPrefixFold(raw, "bytes=")
            && exists first, second :: EndsIn(TrimSpace(raw[6..]), first, second) && EndsMean(first, second, r)
  {
    if HasPrefixFold(TrimSpace(header), "bytes=") {
      SpecMeans(TrimSpace(TrimSpace(header)[6..]), r);
    }
  }

  // ---------------------------------------------------------------- printing and reading back

  lemma PrefixDropped(prefix: string, body: string)
    requires |prefix| == 6 && body != "" && !IsSpace(prefix[0])
    requires !IsSpace(body[0]) && !IsSpace(body[|body| - 1])
    ensures TrimSpace(prefix + body) == prefix + body
    ensures (prefix + body)[6..] == body && TrimSpace(body) == body
  {
    TrimKeeps(prefix + body);
    TrimKeeps(body);
  }

  lemma SplitOfSpec(a: string, b: string, c: string)
    requires AllDigits(a) && AllDigits(b)
    ensures SplitSpec(a + "-" + b + "/" + c) == Some((a, b, c))
  {
    var span := a + "-" + b;
    IndexOfSeparator(span, '/', c);
    var spec := span + "/" + c;
    assert spec[..|span|] == span && spec[|span| + 1..] == c;
    IndexOfSeparator(a, '-', b);
    assert span[..|a|] == a && span[|a| + 1..] == b;
  }

  lemma SplitOfPrint(start: nat, length: nat, total: nat)
    requires 0 < length && start + length <= total < INT64_LIMIT
    ensures SplitContentRange(PrintContentRange(start, length, total)) ==
            Some((FormatNat(start), FormatNat(start + length - 1), FormatNat(total)))
  {
    var a, b, c := FormatNat(start), FormatNat(start + length - 1), FormatNat(total);
    SplitOfSpec(a, b, c);
    var body := a + "-" + b + "/" + c;
    assert IsDigit(a[0]) && IsDigit(c[|c| - 1]);
    assert body[0] == a[0] && body[|body| - 1] == c[|c| - 1];
    HeaderOfSpec(body);
  }

  lemma HeaderOfSpec(spec: string)
    requires spec != "" && !IsSpace(spec[0]) && !IsSpace(spec[|spec| - 1])
    ensures SplitContentRange("bytes " + spec) == SplitSpec(spec)
  {
    PrefixDropped("bytes ", spec);
  }

  /**
   Range round trip: for every header the parser accepts and every object, the answer is a 416 for
   an empty selection, or a 206 whose printed headers the validator accepts for that very request
   and the geometry reader maps back to the span that was served.
   */
  lemma RangeRoundTrip(header: string, total: nat)
    requires 0 < total < INT64_LIMIT && ParseRange(header).Some?
    ensures var r := ParseRange(header).value; var b := RangeBounds(Some(r), total);
            && b.Answer?
            && (b.status == RANGE_NOT_SATISFIABLE ==> forall x :: !Selects(r, total, x))
            && (b.status != RANGE_NOT_SATISFIABLE ==>
                  && b.status == PARTIAL_CONTENT && 0 <= b.start && 0 < b.length && b.start + b.length <= total
                  && (forall x :: b.start <= x < b.start + b.length <==> Selects(r, total, x))
                  && Validate(PrintContentRange(b.start, b.length, total), FormatNat(b.length), Some(r)) == None
                  && ExactGeometry(PARTIAL_CONTENT, PrintContentRange(b.start, b.length, total), FormatNat(b.length))
                     == Some(Geometry(b.start, b.length, total)))
  {
    var r := ParseRange(header).value;
    ParsedIsWellFormed(header);
    BoundsAreTheSelection(r, total);
    var b := RangeBounds(Some(r), total);
    if b.status != RANGE_NOT_SATISFIABLE {
      PrintedIsAccepted(r, b.start, b.length, total);
    }
  }

  /** The numbers a served span prints are the numbers its validator and its reader want. */
  lemma ServedNumbersAreAccepted(r: Range, start: nat, length: nat, total: nat)
    requires WellFormed(r)
    requires RangeBounds(Some(r), total) == Answer(start, length, PARTIAL_CONTENT) && 0 < length &&
             start + length <= total
    ensures CheckNumbers(Some(start), Some(start + length - 1), Given(Some(total)), Some(Some(length)), Some(r)) == None
    ensures GeometryOf(Some(start), Some(start + length - 1), Some(total),
            Some(length)) == Some(Geometry(start, length, total))
  {
  }

  /** Headers whose numbers are those of a served span, however they came to be written. */
  lemma ServedTextIsAccepted(
      header: string, contentLength: string, a: string, b: string, c: string,
      r: Range, start: nat, length: nat, total: nat)
    requires SplitContentRange(header) == Some((a, b, c)) && TrimSpace(c) == c != "*"
    requires ParseInt(TrimSpace(a)) == Some(start) && ParseInt(TrimSpace(b)) == Some(start + length - 1)
    requires ParseInt(c) == Some(total)
    requires ParseInt(contentLength) == Some(length) && TrimSpace(contentLength) == contentLength
    requires WellFormed(r)
    requires RangeBounds(Some(r), total) == Answer(start, length, PARTIAL_CONTENT) && 0 < length &&
             start + length <= total
    ensures Validate(header, contentLength, Some(r)) == None
    ensures ExactGeometry(PARTIAL_CONTENT, header, contentLength) == Some(Geometry(start, length, total))
  {
    ServedNumbersAreAccepted(r, start, length, total);
  }

  lemma PrintedIsAccepted(r: Range, start: nat, length: nat, total: nat)
    requires total < INT64_LIMIT && WellFormed(r)
    requires RangeBounds(Some(r), total) == Answer(start, length, PARTIAL_CONTENT) && 0 < length &&
             start + length <= total
    ensures Validate(PrintContentRange(start, length, total), FormatNat(length), Some(r)) == None
    ensures ExactGeometry(PARTIAL_CONTENT, PrintContentRange(start, length, total), FormatNat(length))
            == Some(Geometry(start, length, total))
  {
    SplitOfPrint(start, length, total);
    ParseOfFormat(start);
    ParseOfFormat(start + length - 1);
    ParseOfFormat(total);
    ParseOfFormat(length);
    AsteriskIsNoNumber();
    ServedTextIsAccepted(PrintContentRange(start, length, total), FormatNat(length),
                         FormatNat(start), FormatNat(start + length - 1), FormatNat(total), r, start, length, total);
  }

  /** Without a Range header the whole object is the answer, and its length reads back. */
  lemma WholeObjectRoundTrip(total: nat)
    requires 0 < total < INT64_LIMIT
    ensures RangeBounds(None, total) == Answer(0, total, OK_STATUS)
    ensures forall r, empty :: empty <= 0 ==> RangeBounds(r, empty) == NoObject
    ensures ExactGeometry(OK_STATUS, "", FormatNat(total)) == Some(Geometry(0, total, total))
  {
    ParseOfFormat(total);
  }

  /** An object of `total` bytes fits a Content-Range that ends at `last` and gives `whole` as its total. */
  predicate Describes(whole: Total, last: int, total: int) {
    if whole.Open? then last < total else whole.value == Some(total)
  }

  /** The same of the total's text: an asterisk fits every object past the span, a number the object of that size. */
  predicate Fits(whole: string, last: int, total: int) {
    if whole == "*" then last < total else ParseInt(whole) == Some(total)
  }

  /** The numbers of a response describe a nonempty span of some object, and its length if one is given. */
  ghost predicate DescribesASpan(start: Option<int>, end: Option<int>, whole: Total, length: Option<Option<int>>) {
    && start.Some? && end.Some? && 0 <= start.value <= end.value
    && (exists total :: end.value < total && Describes(whole, end.value, total))
    && (length.Some? ==> length.value == Some(end.value - start.value + 1))
  }

  /**
   The span is the part of an object's selection that the request has to get first: nothing else, and
   from the first byte selected on; for a suffix, up to the last.
   */
  ghost predicate AnswersFor(start: int, end: int, r: Range, total: int) {
    && (forall x :: start <= x <= end ==> Selects(r, total, x))
    && (forall x :: Selects(r, total, x) ==> if r.suffix > 0 then x <= end else start <= x)
  }

  /** The headers tell of a nonempty span of some object, and of its length if they give one. */
  ghost predicate DescribedIn(start: Option<int>, end: Option<int>, whole: string, contentLength: string) {
    && start.Some? && end.Some? && 0 <= start.value <= end.value
    && (exists total :: end.value < total && Fits(whole, end.value, total))
    && (contentLength != "" ==> ParseInt(contentLength) == Some(end.value - start.value + 1))
  }

  lemma FitsIsDescribes(whole: string)
    ensures forall last, total :: Fits(whole, last, total) <==> Describes(ParseTotal(whole), last, total)
  {
  }

  lemma PlausibleNumbers(start: Option<int>, end: Option<int>, whole: Total, length: Option<Option<int>>)
    ensures CheckNumbers(start, end, whole, length, None) == None <==> DescribesASpan(start, end, whole, length)
  {
    if CheckNumbers(start, end, whole, length, None) == None {
      assert Describes(whole, end.value, if whole.Open? then end.value + 1 else whole.value.value);
    }
  }

  lemma AcceptedNumbersAnswer(start: int, end: int, whole: Total, r: Range)
    requires WellFormed(r) && 0 <= start <= end && (whole.Open? || (whole.value.Some? && end < whole.value.value))
    ensures CheckWanted(start, end, if whole.Open? then 0 else whole.value.value, r) == None <==>
            forall total :: Describes(whole, end, total) ==> AnswersFor(start, end, r, total)
  {
    if whole.Open? && r.suffix > 0 {
      // Of an object that reaches further past the span than the suffix is long, none of it was asked for.
      assert !Selects(r, end + r.suffix + 1, start) && Describes(whole, end, end + r.suffix + 1);
    } else if forall total :: Describes(whole, end, total) ==> AnswersFor(start, end, r, total) {
      var total := if whole.Open? then end + 1 else whole.value.value;
      assert AnswersFor(start, end, r, total);
      assert Selects(r, total, start) && Selects(r, total, end);
      assert Selects(r, total, if r.suffix > 0 then total - 1 else r.start);
    }
  }

  lemma PlausibleTexts(start: Option<int>, end: Option<int>, whole: string, contentLength: string)
    ensures CheckNumbers(start, end, ParseTotal(whole),
                         if contentLength == "" then None else Some(ParseInt(contentLength)), None) == None <==>
            DescribedIn(start, end, whole, contentLength)
  {
    FitsIsDescribes(whole);
    PlausibleNumbers(start, end, ParseTotal(whole),
                     if contentLength == "" then None else Some(ParseInt(contentLength)));
  }

  lemma AcceptedTexts(start: Option<int>, end: Option<int>, whole: string, contentLength: string, r: Range)
    requires WellFormed(r)
    ensures CheckNumbers(start, end, ParseTotal(whole),
                         if contentLength == "" then None else Some(ParseInt(contentLength)), Some(r)) == None <==>
            && DescribedIn(start, end, whole, contentLength)
            && forall total :: Fits(whole, end.value, total) ==> AnswersFor(start.value, end.value, r, total)
  {
    FitsIsDescribes(whole);
    AcceptedNumbers(start, end, ParseTotal(whole),
                    if contentLength == "" then None else Some(ParseInt(contentLength)), r);
  }

  /**
   What the validator accepts for a request: exactly the headers that describe a span of some object,
   with its length, such that of every object they can describe the span answers for the request.
   With an open total those are all objects that reach past the span.
   */
  lemma AcceptedMeansAnswered(header: string, contentLength: string, r: Range)
    requires WellFormed(r)
    ensures Validate(header, contentLength, Some(r)) == None <==>
            SplitContentRange(header).Some? &&
            var (first, last, whole) := SplitContentRange(header).value;
            var start, end := ParseInt(TrimSpace(first)), ParseInt(TrimSpace(last));
            && DescribedIn(start, end, TrimSpace(whole), contentLength)
            && forall total :: Fits(TrimSpace(whole), end.value, total) ==> AnswersFor(start.value, end.value, r, total)
  {
    if SplitContentRange(header).Some? {
      var (first, last, whole) := SplitContentRange(header).value;
      AcceptedTexts(ParseInt(TrimSpace(first)), ParseInt(TrimSpace(last)), TrimSpace(whole), contentLength, r);
    }
  }

  lemma AcceptedNumbers(
      start: Option<int>, end: Option<int>, whole: Total, length: Option<Option<int>>, r: Range)
    requires WellFormed(r)
    ensures CheckNumbers(start, end, whole, length, Some(r)) == None <==>
            && DescribesASpan(start, end, whole, length)
            && forall total :: Describes(whole, end.value, total) ==> AnswersFor(start.value, end.value, r, total)
  {
    PlausibleNumbers(start, end, whole, length);
    if DescribesASpan(start, end, whole, length) {
      AcceptedNumbersAnswer(start.value, end.value, whole, r);
    }
  }

  /** The same without a request: the headers that describe a span of some object, with its length. */
  lemma PlausibleMeansDescribed(header: string, contentLength: string)
    ensures Validate(header, contentLength, None) == None <==>
            SplitContentRange(header).Some? &&
            var (first, last, whole) := SplitContentRange(header).value;
            DescribedIn(ParseInt(TrimSpace(first)), ParseInt(TrimSpace(last)), TrimSpace(whole), contentLength)
  {
    if SplitContentRange(header).Some? {
      var (first, last, whole) := SplitContentRange(header).value;
      PlausibleTexts(ParseInt(TrimSpace(first)), ParseInt(TrimSpace(last)), TrimSpace(whole), contentLength);
    }
  }

  /** So what passes validation for a request delivers only bytes that were asked for, the first of them first. */
  lemma ValidatedSpanWasRequested(header: string, contentLength: string, r: Range, total: int, x: int)
    requires WellFormed(r) && Validate(header, contentLength, Some(r)) == None
    ensures var (first, last, whole) := SplitContentRange(header).value;
            var start, end := ParseInt(TrimSpace(first)).value, ParseInt(TrimSpace(last)).value;
            Fits(TrimSpace(whole), end, total) ==>
              && (start <= x <= end ==> Selects(r, total, x))
              && (if r.suffix > 0 then end == total - 1 else start == r.start)
  {
    AcceptedMeansAnswered(header, contentLength, r);
    var (first, last, whole) := SplitContentRange(header).value;
    var start, end := ParseInt(TrimSpace(first)).value, ParseInt(TrimSpace(last)).value;
    if Fits(TrimSpace(whole), end, total) {
      assert AnswersFor(start, end, r, total);
      assert Selects(r, total, start) && Selects(r, total, end);
      assert Selects(r, total, if r.suffix > 0 then total - 1 else r.start);
    }
  }

  lemma ReaderAgreesOnNumbers(start: Option<int>, end: Option<int>, total: Option<int>, length: Option<int>)
    ensures GeometryOf(start, end, total, length).Some? <==>
            CheckNumbers(start, end, Given(total), Some(length), None) == None
  {
  }

  lemma AsteriskIsNoNumber()
    ensures TrimSpace("*") == "*" && ParseInt("*") == None
  {
    TrimKeeps("*");
    assert !IsDigit("*"[0]);
  }

  /** The two readers on the texts of one Content-Range; `length` is the text of the length without white space. */
  lemma ReaderAgreesOnTexts(first: string, last: string, whole: string, length: string)
    requires length != ""
    ensures var start, end := ParseInt(TrimSpace(first)), ParseInt(TrimSpace(last));
            GeometryOf(start, end, ParseInt(TrimSpace(whole)), ParseInt(length)).Some? <==>
            CheckNumbers(start, end, ParseTotal(TrimSpace(whole)), Some(ParseInt(length)), None) == None &&
              TrimSpace(whole) != "*"
  {
    AsteriskIsNoNumber();
    ReaderAgreesOnNumbers(ParseInt(TrimSpace(first)), ParseInt(TrimSpace(last)), ParseInt(TrimSpace(whole)),
      ParseInt(length));
  }

  lemma PaddedLengthIsRefused(header: string, contentLength: string)
    requires contentLength != TrimSpace(contentLength)
    ensures Validate(header, contentLength, None) != None
  {
    if ParseInt(contentLength).Some? {
      ParsedIsTrimmed(contentLength);
    }
    assert contentLength != "" && ParseInt(contentLength).None?;
    if SplitContentRange(header).Some? {
      var (first, last, whole) := SplitContentRange(header).value;
      MissingLengthIsRefused(ParseInt(TrimSpace(first)), ParseInt(TrimSpace(last)), ParseTotal(TrimSpace(whole)));
    }
  }

  lemma MissingLengthIsRefused(start: Option<int>, end: Option<int>, total: Total)
    ensures CheckNumbers(start, end, total, Some(None), None) != None
  {
  }

  /**
   The geometry reader accepts a 206 exactly when it has a Content-Length and a known total, and the
   validator without a request accepts its headers with the length's white space removed. The
   validator itself refuses a padded length.
   */
  lemma ValidatorAgreesWithGeometry(header: string, contentLength: string)
    ensures var length := TrimSpace(contentLength);
            ExactGeometry(PARTIAL_CONTENT, header, contentLength).Some? <==>
            length != "" && Validate(header, length, None) == None &&
              TrimSpace(SplitContentRange(header).value.2) != "*"
    ensures contentLength != TrimSpace(contentLength) ==> Validate(header, contentLength, None) != None
  {
    if contentLength != TrimSpace(contentLength) {
      PaddedLengthIsRefused(header, contentLength);
    }
    AsteriskIsNoNumber();
    var parts := SplitContentRange(header);
    if parts.Some? && TrimSpace(contentLength) != "" {
      ReaderAgreesOnTexts(parts.value.0, parts.value.1, parts.value.2, TrimSpace(contentLength));
    }
  }

  /**
   The geometry reader in full: of a 200 the whole object of the stated positive length; of a 206 the
   offset, length and total that all three texts and the length agree on; of nothing else.
   */
  lemma GeometryReads(status: int, header: string, contentLength: string, g: Geometry)
    ensures ExactGeometry(status, header, contentLength) == Some(g) <==>
            && ParseInt(TrimSpace(contentLength)) == Some(g.length)
            && 0 <= g.offset && 0 < g.length && g.offset + g.length <= g.total
            && if status == 200 then g.length == g.total
               else status == 206 && SplitContentRange(header).Some? &&
                    var (first, last, whole) := SplitContentRange(header).value;
                    && ParseInt(TrimSpace(first)) == Some(g.offset)
                    && ParseInt(TrimSpace(last)) == Some(g.offset + g.length - 1)
                    && ParseInt(TrimSpace(whole)) == Some(g.total)
  {
    AsteriskIsNoNumber();
    if SplitContentRange(header).Some? {
      var (first, last, whole) := SplitContentRange(header).value;
      NumbersRead(ParseInt(TrimSpace(first)), ParseInt(TrimSpace(last)), ParseInt(TrimSpace(whole)),
                  ParseInt(TrimSpace(contentLength)), g);
    }
  }

  lemma NumbersRead(start: Option<int>, end: Option<int>, total: Option<int>, length: Option<int>, g: Geometry)
    ensures GeometryOf(start, end, total, length) == Some(g) <==>
            && 0 <= g.offset && 0 < g.length && g.offset + g.length <= g.total
            && start == Some(g.offset) && end == Some(g.offset + g.length - 1)
            && total == Some(g.total) && length == Some(g.length)
  {
  }

  // ---------------------------------------------------------------- requests

  function PrintRange(r: Range): string
    requires WellFormed(r)
  {
    if r.suffix > 0 then "bytes=" + ("-" + FormatNat(r.suffix))
    else if r.hasEnd then "bytes=" + (FormatNat(r.start) + "-" + FormatNat(r.end))
    else "bytes=" + (FormatNat(r.start) + "-")
  }

  lemma {:induction false} NoDash(s: string)
    requires AllDigits(s)
    ensures CountChar(s, '-') == 0
    ensures forall i :: 0 <= i < |s| ==> s[i] != '-'
  {
    if s != "" {
      assert IsDigit(s[0]);
      NoDash(s[1..]);
    }
  }

  lemma {:induction false} OneDash(first: string, second: string)
    requires AllDigits(first) && AllDigits(second)
    ensures CountChar(first + "-" + second, '-') == 1
    ensures Index(first + "-" + second, '-') == |first|
  {
    var s := first + "-" + second;
    if first == "" {
      NoDash(second);
      assert s[0] == '-' && s[1..] == second;
    } else {
      var rest := first[1..];
      assert IsDigit(first[0]);
      assert s[0] == first[0] && s[1..] == rest + "-" + second;
      OneDash(rest, second);
    }
  }

  lemma PlainSpecReachesParser(spec: string)
    requires 0 < |spec| <= 100
    requires forall i :: 0 <= i < |spec| ==> spec[i] == '-' || IsDigit(spec[i])
    ensures ParseRange("bytes=" + spec) == ParseSpec(spec)
  {
    var raw := "bytes=" + spec;
    assert spec[0] == '-' || IsDigit(spec[0]);
    assert spec[|spec| - 1] == '-' || IsDigit(spec[|spec| - 1]);
    PrefixDropped("bytes=", spec);
    assert forall i :: 0 <= i < 6 ==> "bytes="[i] != ',' && "bytes="[i] < '\U{80}';
    assert forall i :: 0 <= i < |raw| ==> raw[i] == if i < 6 then "bytes="[i] else spec[i - 6];
    assert forall i :: 0 <= i < |raw| ==> raw[i] != ',' && raw[i] < '\U{80}';
    ByteLenOfAscii(raw);
    assert HasPrefixFold(raw, "bytes=");
  }

  lemma SpecIsParsed(first: string, second: string)
    requires AllDigits(first) && AllDigits(second) && |first| <= 19 && |second| <= 19
    ensures ParseRange("bytes=" + (first + "-" + second)) == ParseEnds(first, second)
  {
    var spec := first + "-" + second;
    assert forall i :: 0 <= i < |spec| ==> spec[i] == '-' || IsDigit(spec[i]);
    PlainSpecReachesParser(spec);
    OneDash(first, second);
    assert spec[..|first|] == first && spec[|first| + 1..] == second;
  }

  lemma SixtyThreeBitsFit(n: nat)
    requires n < INT64_LIMIT
    ensures |FormatNat(n)| <= 19
  {
    assert Pow10(19) == 10_000_000_000_000_000_000 by {
      assert Pow10(10) == 10_000_000_000;
    }
    FormatLength(n, 19);
  }

  lemma SuffixRoundTrip(suffix: nat)
    requires 0 < suffix < INT64_LIMIT
    ensures ParseRange("bytes=" + ("-" + FormatNat(suffix))) == Some(Range(0, 0, suffix, false))
  {
    SixtyThreeBitsFit(suffix);
    ParseOfFormat(suffix);
    SpecIsParsed("", FormatNat(suffix));
    assert "" + "-" + FormatNat(suffix) == "-" + FormatNat(suffix);
  }

  lemma ClosedRoundTrip(start: nat, end: nat)
    requires start <= end < INT64_LIMIT
    ensures ParseRange("bytes=" + (FormatNat(start) + "-" + FormatNat(end))) == Some(Range(start, end, 0, true))
  {
    SixtyThreeBitsFit(start);
    SixtyThreeBitsFit(end);
    ParseOfFormat(start);
    ParseOfFormat(end);
    SpecIsParsed(FormatNat(start), FormatNat(end));
  }

  lemma OpenRoundTrip(start: nat)
    requires start < INT64_LIMIT
    ensures ParseRange("bytes=" + (FormatNat(start) + "-")) == Some(Range(start, 0, 0, false))
  {
    SixtyThreeBitsFit(start);
    ParseOfFormat(start);
    SpecIsParsed(FormatNat(start), "");
    assert FormatNat(start) + "-" + "" == FormatNat(start) + "-";
  }

  /** Every range a client can mean, printed the ordinary way, is parsed as meant. */
  lemma RequestRoundTrip(r: Range)
    requires WellFormed(r) && FitsInt64(r)
    ensures ParseRange(PrintRange(r)) == Some(r)
  {
    if r.suffix > 0 {
      SuffixRoundTrip(r.suffix);
    } else if r.hasEnd {
      ClosedRoundTrip(r.start, r.end);
    } else {
      OpenRoundTrip(r.start);
    }
  }
}
