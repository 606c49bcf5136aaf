/**
 * `AocParser`: the content of a puzzle-input file, the records it was split
 * into, and the conversion of a range of those records to a typed sequence.
 *
 * Line numbers are 1-based and inclusive, as the public API takes them:
 * record `n` is `data[n - 1]`. The generic `FromStr` target type becomes a
 * type parameter `T` with a total `parse: string -> Option<T>`.
 */
module Parser {
  import opened Wrappers
  import opened Errors
  import opened Splitting

  /** Rust's `u32`, the type of the line numbers `slice_as_type` takes. */
  newtype u32 = x: int | 0 <= x < 0x1_0000_0000

  const U32_MODULUS: int := 0x1_0000_0000

  /**
   * The loader's value. `size` is a public field, as is `data`, so a caller
   * can build one where they disagree; `New` always makes `size == |data|`.
   */
  datatype AocParser = AocParser(original: string, data: seq<string>, size: nat)

  /** `self.size as u32`: a `usize` cast to `u32` keeps the low 32 bits. */
  function SizeAsU32(size: nat): (r: u32)
    ensures size < U32_MODULUS ==> r as int == size
    ensures r as int <= size
  {
    (size % U32_MODULUS) as u32
  }

  // ---------------------------------------------------------------------
  // Construction and the two accessors
  // ---------------------------------------------------------------------

  /** The split and the field set-up of `new` once the content has been read. */
  function FromContent(content: string, sep: Separator): (p: AocParser)
    ensures p.original == content
    ensures p.data == Split(content, sep)
    ensures p.size == |p.data|
  {
    var data := Split(content, sep);
    AocParser(content, data, |data|)
  }

  /**
   * `new`: `read` is the outcome of reading the file; a failed read is passed
   * on as `IOError`, otherwise the content is split with `sep`.
   */
  function New(read: Result<string, string>, sep: Separator): (r: Result<AocParser, AocError>)
    ensures r.Err? <==> read.Err?
    ensures read.Err? ==> r.error == IOError(read.error)
    ensures read.Ok? ==> r.value.original == read.value && r.value.size == |r.value.data|
    ensures read.Ok? ==> r.value.data == Split(read.value, sep)
  {
    match read
    case Err(e) => Err(IOError(e))
    case Ok(content) => Ok(FromContent(content, sep))
  }

  /** `get`: moves the records out, unchanged. */
  function Get(p: AocParser): (r: seq<string>)
    ensures r == p.data
  {
    p.data
  }

  /** `get_str`: moves the unsplit content out, unchanged. */
  function GetStr(p: AocParser): (r: string)
    ensures r == p.original
  {
    p.original
  }

  /** After `new`, `get` gives the split of the content and `get_str` gives the content verbatim. */
  lemma NewAccessors(content: string, sep: Separator)
    ensures New(Ok(content), sep).Ok?
    ensures Get(New(Ok(content), sep).value) == Split(content, sep)
    ensures GetStr(New(Ok(content), sep).value) == content
    ensures New(Ok(content), sep).value.size == |Get(New(Ok(content), sep).value)|
  {
  }

  /** With a literal separator the unsplit text is the records joined by the pattern. */
  lemma {:induction false} GetStrFromGetLiteral(content: string, pat: string)
    ensures Join(Get(FromContent(content, Str(pat))), pat) == GetStr(FromContent(content, Str(pat)))
  {
    JoinSplitStr(content, pat);
  }

  /** With the whitespace separator the records hold every non-whitespace character, in order. */
  lemma {:induction false} GetStrFromGetWhitespace(content: string)
    ensures Concat(Get(FromContent(content, Whitespace))) == RemoveWhitespace(GetStr(FromContent(content, Whitespace)))
    ensures forall k :: 0 <= k < FromContent(content, Whitespace).size ==> IsWord(Get(FromContent(content, Whitespace))[k])
  {
    SplitWhitespaceConcat(content);
    SplitWhitespaceWords(content);
  }

  /** With the newline separator the records are the lines of the content and none holds a '\n'. */
  lemma {:induction false} GetFromNewline(content: string)
    ensures Get(FromContent(content, Newline)) == TerminatedFragments(SplitStr(GetStr(FromContent(content, Newline)), "\n"))
    ensures forall k :: 0 <= k < FromContent(content, Newline).size ==> '\n' !in Get(FromContent(content, Newline))[k]
  {
    LinesViaSplit(content);
    LinesNoNewline(content);
  }

  // ---------------------------------------------------------------------
  // slice_as_type
  // ---------------------------------------------------------------------

  /**
   * The start line turned into the index of its record, `s - 1` for line `s`
   * and 0 for `None`; below 2^32 records exactly the lines that name a
   * record are accepted.
   */
  function ResolveStart(size: nat, lineStart: Option<u32>): (r: Result<nat, AocError>)
    ensures r.Err? ==> r.error == OutOfBounds
    ensures size < U32_MODULUS ==> (r.Ok? <==> LineInRange(size, lineStart))
    ensures r.Ok? ==> r.value == FirstLine(lineStart) - 1
    ensures r.Ok? ==> (lineStart.None? && r.value == 0) || r.value < size
  {
    match lineStart
    case None => Ok(0)
    case Some(val) =>
      if val < 1 || val > SizeAsU32(size) then Err(OutOfBounds) else Ok((val - 1) as nat)
  }

  /**
   * The end line turned into the exclusive end index, `e` for line `e` and
   * `size` for `None`, which is never past `size`; below 2^32 records
   * exactly the lines that name a record are accepted.
   */
  function ResolveEnd(size: nat, lineEnd: Option<u32>): (r: Result<nat, AocError>)
    ensures r.Err? ==> r.error == OutOfBounds
    ensures size < U32_MODULUS ==> (r.Ok? <==> LineInRange(size, lineEnd))
    ensures r.Ok? ==> r.value == LastLine(size, lineEnd)
    ensures r.Ok? ==> r.value <= size
  {
    match lineEnd
    case None => Ok(size)
    case Some(val) =>
      if val < 1 || val > SizeAsU32(size) then Err(OutOfBounds) else Ok(val as nat)
  }

  /**
   * Parse every record in turn, stopping at the first that fails: the whole
   * call fails with `ParseToTypeFailed` exactly when some record does not
   * parse, and otherwise yields the parsed records in their order.
   */
  function ParseAll<T>(records: seq<string>, parse: string -> Option<T>): (r: Result<seq<T>, AocError>)
    ensures r.Ok? <==> forall i :: 0 <= i < |records| ==> parse(records[i]).Some?
    ensures r.Err? ==> r.error == ParseToTypeFailed
    ensures r.Ok? ==> |r.value| == |records|
    ensures r.Ok? ==> forall i :: 0 <= i < |records| ==> r.value[i] == parse(records[i]).value
  {
    if records == [] then
      Ok([])
    else
      match parse(records[0])
      case None => Err(ParseToTypeFailed)
      case Some(v) =>
        var rest :- ParseAll(records[1..], parse);
        assert forall i :: 1 <= i < |records| ==> records[i] == records[1..][i - 1];
        Ok([v] + rest)
  }

  /**
   * The slice `data[start..end]` that a call reaches lies inside `data`.
   * The fields are public, so `size` may exceed `|data|`; a call whose
   * bounds pass validation with an end index past `|data|` panics.
   */
  predicate SliceWithinData(p: AocParser, lineStart: Option<u32>, lineEnd: Option<u32>) {
    var start, end := ResolveStart(p.size, lineStart), ResolveEnd(p.size, lineEnd);
    start.Ok? && end.Ok? && start.value <= end.value ==> end.value <= |p.data|
  }

  /**
   * `slice_as_type`: validate the optional 1-based inclusive line numbers,
   * then parse the records between them.
   */
  function SliceAsType<T>(p: AocParser, lineStart: Option<u32>, lineEnd: Option<u32>, parse: string -> Option<T>)
    : (r: Result<seq<T>, AocError>)
    requires SliceWithinData(p, lineStart, lineEnd)
    ensures r.Err? ==> r.error == OutOfBounds || r.error == ParseToTypeFailed
  {
    var start :- ResolveStart(p.size, lineStart);
    var end :- ResolveEnd(p.size, lineEnd);
    if start > end || end > p.size then
      Err(OutOfBounds)
    else
      ParseAll(p.data[start..end], parse)
  }

  // ---------------------------------------------------------------------
  // What slice_as_type promises
  // ---------------------------------------------------------------------

  /** A requested line number is absent or names an existing record. */
  predicate LineInRange(size: nat, line: Option<u32>) {
    line.None? || 1 <= line.value as int <= size
  }

  /** First requested line, 1-based; absent means the first record. */
  function FirstLine(lineStart: Option<u32>): int {
    if lineStart.Some? then lineStart.value as int else 1
  }

  /** Last requested line, 1-based and inclusive; absent means the last record. */
  function LastLine(size: nat, lineEnd: Option<u32>): int {
    if lineEnd.Some? then lineEnd.value as int else size
  }

  /**
   * The requested range is acceptable: each given line number names a
   * record, and the range [first, last] is empty or runs forward
   * (first == last + 1 is the empty range).
   */
  predicate RangeValid(size: nat, lineStart: Option<u32>, lineEnd: Option<u32>) {
    LineInRange(size, lineStart) && LineInRange(size, lineEnd)
    && FirstLine(lineStart) <= LastLine(size, lineEnd) + 1
  }

  /**
   * Bounds are decided before any record is looked at: the call fails with
   * `OutOfBounds` exactly when the range is invalid, whatever the records
   * and the parser are.
   */
  lemma SliceOutOfBounds<T>(p: AocParser, lineStart: Option<u32>, lineEnd: Option<u32>, parse: string -> Option<T>)
    requires SliceWithinData(p, lineStart, lineEnd) && p.size < U32_MODULUS
    ensures SliceAsType(p, lineStart, lineEnd, parse) == Err(OutOfBounds)
      <==> !RangeValid(p.size, lineStart, lineEnd)
  {
  }

  /**
   * With a valid range the call succeeds exactly when every record from
   * line `first` to line `last` (indices `first - 1` to `last - 1`) parses,
   * and then yields `last - first + 1` values, value `i` being the parse of
   * line `first + i`.
   */
  lemma SliceSuccess<T>(p: AocParser, lineStart: Option<u32>, lineEnd: Option<u32>, parse: string -> Option<T>)
    requires SliceWithinData(p, lineStart, lineEnd) && p.size < U32_MODULUS
    requires RangeValid(p.size, lineStart, lineEnd)
    ensures var first, last := FirstLine(lineStart), LastLine(p.size, lineEnd);
      var r := SliceAsType(p, lineStart, lineEnd, parse);
      && (r.Ok? <==> forall i :: first - 1 <= i < last ==> parse(p.data[i]).Some?)
      && (r.Ok? ==> |r.value| == last - first + 1)
      && (r.Ok? ==> forall i :: 0 <= i < |r.value| ==> r.value[i] == parse(p.data[first - 1 + i]).value)
  {
    var first, last := FirstLine(lineStart), LastLine(p.size, lineEnd);
    var records := p.data[first - 1..last];
    assert SliceAsType(p, lineStart, lineEnd, parse) == ParseAll(records, parse);
    assert forall i :: first - 1 <= i < last ==> p.data[i] == records[i - first + 1];
  }

  /**
   * With a valid range the call fails with `ParseToTypeFailed` exactly when
   * some record in the range does not parse; no partial result is returned.
   */
  lemma SliceParseFailure<T>(p: AocParser, lineStart: Option<u32>, lineEnd: Option<u32>, parse: string -> Option<T>)
    requires SliceWithinData(p, lineStart, lineEnd) && p.size < U32_MODULUS
    requires RangeValid(p.size, lineStart, lineEnd)
    ensures var first, last := FirstLine(lineStart), LastLine(p.size, lineEnd);
      SliceAsType(p, lineStart, lineEnd, parse) == Err(ParseToTypeFailed)
      <==> exists i :: first - 1 <= i < last && parse(p.data[i]).None?
  {
    SliceSuccess(p, lineStart, lineEnd, parse);
  }

  /** Without bounds every one of the `size` records is parsed. */
  lemma SliceWhole<T>(p: AocParser, parse: string -> Option<T>)
    requires p.size == |p.data|
    ensures var r := SliceAsType(p, None, None, parse);
      && (r.Ok? <==> forall i :: 0 <= i < |p.data| ==> parse(p.data[i]).Some?)
      && (r.Ok? ==> |r.value| == |p.data| && forall i :: 0 <= i < |p.data| ==> r.value[i] == parse(p.data[i]).value)
  {
    assert p.data[0..p.size] == p.data;
  }

  /** `(s, s - 1)` is the empty range at line `s`: it passes validation and parses nothing. */
  lemma SliceEmptyRange<T>(p: AocParser, s: u32, parse: string -> Option<T>)
    requires s as int - 1 <= |p.data| && p.size < U32_MODULUS
    requires 2 <= s as int <= p.size
    ensures SliceAsType(p, Some(s), Some(s - 1), parse) == Ok([])
  {
  }

  /** A line number equal to the record count names the last record; one more is out of bounds. */
  lemma SliceLastLine<T>(p: AocParser, parse: string -> Option<T>)
    requires p.size <= |p.data| && 1 <= p.size < U32_MODULUS - 1
    ensures SliceAsType(p, Some(p.size as u32), None, parse) == ParseAll([p.data[p.size - 1]], parse)
    ensures SliceAsType(p, None, Some(p.size as u32), parse) == SliceAsType(p, None, None, parse)
    ensures SliceAsType(p, Some((p.size + 1) as u32), None, parse) == Err(OutOfBounds)
    ensures SliceAsType(p, None, Some((p.size + 1) as u32), parse) == Err(OutOfBounds)
    ensures SliceAsType(p, Some(0), None, parse) == Err(OutOfBounds)
    ensures SliceAsType(p, None, Some(0), parse) == Err(OutOfBounds)
  {
    assert p.data[p.size - 1..p.size] == [p.data[p.size - 1]];
  }

  /** A range given by two line numbers within the data is the parse of its records. */
  lemma SliceIsParseAll<T>(p: AocParser, s: u32, e: u32, parse: string -> Option<T>)
    requires p.size < U32_MODULUS
    requires 1 <= s as int <= e as int + 1 && s as int <= p.size
    requires 1 <= e && e as int <= p.size && e as int <= |p.data|
    ensures SliceAsType(p, Some(s), Some(e), parse) == ParseAll(p.data[s - 1..e], parse)
  {
  }

  /**
   * Two adjacent ranges `[s, m]` and `[m + 1, e]` together give the range
   * `[s, e]`: it succeeds exactly when both do, with their values in order.
   */
  lemma {:induction false} SliceAdjacent<T>(p: AocParser, s: u32, m: u32, e: u32, parse: string -> Option<T>)
    requires e as int <= |p.data| && p.size < U32_MODULUS
    requires 1 <= s <= m < e && e as int <= p.size
    ensures var left, right := SliceAsType(p, Some(s), Some(m), parse), SliceAsType(p, Some(m + 1), Some(e), parse);
      var whole := SliceAsType(p, Some(s), Some(e), parse);
      && (whole.Ok? <==> left.Ok? && right.Ok?)
      && (whole.Ok? ==> whole.value == left.value + right.value)
  {
    var a, b, ab := p.data[s - 1..m], p.data[m..e], p.data[s - 1..e];
    SliceIsParseAll(p, s, m, parse);
    SliceIsParseAll(p, m + 1, e, parse);
    SliceIsParseAll(p, s, e, parse);
    assert ab == a + b;
    ParseAllAppend(a, b, parse);
  }

  /** Parsing a concatenation is parsing each part and concatenating the values. */
  lemma {:induction false} ParseAllAppend<T>(a: seq<string>, b: seq<string>, parse: string -> Option<T>)
    ensures ParseAll(a + b, parse).Ok? <==> ParseAll(a, parse).Ok? && ParseAll(b, parse).Ok?
    ensures ParseAll(a + b, parse).Ok? ==>
      ParseAll(a + b, parse).value == ParseAll(a, parse).value + ParseAll(b, parse).value
  {
    var ab := a + b;
    assert forall i :: 0 <= i < |a| ==> ab[i] == a[i];
    assert forall i :: 0 <= i < |b| ==> ab[|a| + i] == b[i];
    if ParseAll(ab, parse).Ok? {
      var x, y, z := ParseAll(ab, parse).value, ParseAll(a, parse).value, ParseAll(b, parse).value;
      assert |x| == |y + z|;
      forall i | 0 <= i < |x| ensures x[i] == (y + z)[i] {
        if i >= |a| {
          assert ab[i] == b[i - |a|];
        }
      }
    }
  }

  /**
   * The `end > self.size` half of the bounds check never decides anything:
   * once both line numbers are resolved the end index is at most `size`, for
   * every `size`, even one whose `u32` cast wraps.
   */
  lemma EndGuardRedundant<T>(p: AocParser, lineStart: Option<u32>, lineEnd: Option<u32>, parse: string -> Option<T>)
    requires SliceWithinData(p, lineStart, lineEnd)
    requires ResolveStart(p.size, lineStart).Ok? && ResolveEnd(p.size, lineEnd).Ok?
    ensures var start, end := ResolveStart(p.size, lineStart).value, ResolveEnd(p.size, lineEnd).value;
      SliceAsType(p, lineStart, lineEnd, parse) == if start > end then Err(OutOfBounds) else ParseAll(p.data[start..end], parse)
  {
  }

  /**
   * The cast `self.size as u32` wraps: with 2^32 + 3 records, line 5 exists
   * but is compared with 3 and refused.
   */
  lemma TruncatedSizeRefusesExistingLine<T>(p: AocParser, parse: string -> Option<T>)
    requires p.size == U32_MODULUS + 3
    ensures SliceAsType(p, Some(5), None, parse) == Err(OutOfBounds)
  {
  }

  /** The scenario of the crate's own test: lines 2 to 5 of six records, read as strings. */
  lemma SliceTestScenario()
    ensures var p := AocParser("test", ["1 2", "5 6", "7 12", "456 742", "7442 78524", "4210 7524"], 6);
      var r := SliceAsType(p, Some(2), Some(5), (s: string) => Some(s));
      r == Ok(["5 6", "7 12", "456 742", "7442 78524"])
  {
    var data := ["1 2", "5 6", "7 12", "456 742", "7442 78524", "4210 7524"];
    var expected := ["5 6", "7 12", "456 742", "7442 78524"];
    var asString := (s: string) => Some(s);
    assert data[1..5] == expected;
    var r := SliceAsType(AocParser("test", data, 6), Some(2), Some(5), asString);
    assert r == ParseAll(expected, asString);
    assert forall i :: 0 <= i < |expected| ==> asString(expected[i]) == Some(expected[i]);
    assert r.Ok? && r.value == expected;
  }
}
