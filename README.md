# libaocparser_rs in Dafny

A model of `AocParser`, a small loader for Advent-of-Code puzzle input. It
reads a file and cuts the text into records with one of three separators:
`Newline` (Rust `str::lines`), `Whitespace` (`str::split_whitespace`) or
`Str(pat)` (the literal `str::split(pat)`). It keeps the original text, the
records and their count. `slice_as_type` takes optional 1-based inclusive
line numbers, checks them, and parses every record in that range into a
caller-chosen type. The result is all or nothing.

Files:

- `wrappers.dfy`: `Option` and `Result`. `Result` works with `:-`, which plays
  the part of Rust's `?` and of the early `return Err(..)`.
- `errors.dfy`: `AocError` with its three variants `IOError`, `OutOfBounds`
  and `ParseToTypeFailed`.
- `splitting.dfy`: `Separator` and the three splitters, with their shape
  lemmas (round trip, counts, no separator inside a record, inverses).
- `parser.dfy`: the `AocParser` value, `New`, `Get`, `GetStr`, `SliceAsType`,
  and the lemmas about the range checks and the parsing.

Modelling choices:

- The generic `T: FromStr` is a type parameter `T` together with a total
  function `parse: string -> Option<T>`.
- The file read is a parameter: `New` takes the outcome of the read. A failed
  read is passed on as `IOError`. The cause is kept as text.
- Line numbers have type `u32`, as in the source. The cast
  `self.size as u32` is written out as `SizeAsU32` (size modulo 2^32).
- `char::is_whitespace` is written out as the Unicode White_Space list.
- `lines()` follows the current standard library. Each piece ends at a
  `'\n'`, and the last piece need not. The `'\n'` is removed, and then one
  `'\r'` before it. A bare `'\r'` at the end of an unterminated last line is
  kept.
- `split("")` is modelled too. It gives an empty fragment, then one fragment
  per character, then another empty fragment.

Three points of the code's behaviour that are easy to get wrong:

- A range `(s, s)` gives ONE record. The empty range is `(s, s - 1)`, and it
  is accepted whenever `2 <= s <= size` (`SliceEmptyRange`).
- For a literal separator, joining the records with the pattern always
  gives back the text (`JoinSplitStr`). No condition on the number of
  occurrences is needed.
- The record count is the public field `size`. There is no accessor method
  for it.

## Model

| member | source | states |
|---|---|---|
| Splitting.FindFirst | src/lib.rs:55 | the result is an occurrence of the pattern, and none starts further left; `None` means there is no occurrence at all |
| Splitting.SplitStr | src/lib.rs:53-58 | `split(pat)` always yields at least one fragment |
| Splitting.JoinSplitStr | src/lib.rs:53-58 | joining the fragments with the pattern gives the content back exactly, for every pattern including the empty one |
| Splitting.SplitStrCount | src/lib.rs:53-58 | with a non-empty pattern, the fragment count is the number of non-overlapping left-to-right occurrences plus one |
| Splitting.SplitStrFragmentsFree | src/lib.rs:53-58 | with a non-empty pattern, no fragment contains the pattern |
| Splitting.SplitStrEmptyPatternCount | src/lib.rs:53-58 | the empty pattern gives two more fragments than the content has characters: the first and last are empty and fragment `k` in between is the one-character string `s[k - 1]` |
| Splitting.SplitStrCutsLeftmost | src/lib.rs:53-58 | with a non-empty pattern, each cut falls at the leftmost occurrence of the pattern in what remains: after fragments `0..k`, the next occurrence in the rest of the content starts right after fragment `k` |
| Splitting.SplitWhitespace | src/lib.rs:47-52 | there are no records exactly when the content is all whitespace |
| Splitting.SplitWhitespaceWords | src/lib.rs:47-52 | every record is non-empty and holds no whitespace character |
| Splitting.SplitWhitespaceConcat | src/lib.rs:47-52 | the records, concatenated in order, are the content with its whitespace removed |
| Splitting.SplitWhitespaceSkip | src/lib.rs:47-52 | leading whitespace of any length, including none, does not change the records |
| Splitting.SplitWhitespaceWordThen | src/lib.rs:47-52 | a word followed by a non-empty run of whitespace is the first record, and the records after it are those of the rest of the content |
| Splitting.SplitWhitespaceSingleWord | src/lib.rs:47-52 | a content that is one word is one record |
| Splitting.SplitWhitespaceJoin | src/lib.rs:47-52 | words joined by single spaces split back into the same words |
| Splitting.Lines | src/lib.rs:41-46 | there are no records exactly when the content is empty |
| Splitting.LinesNoNewline | src/lib.rs:41-46 | no record contains `'\n'` |
| Splitting.LinesCount | src/lib.rs:41-46 | the record count is the number of `'\n'`, plus one when the content is non-empty and does not end in `'\n'`, so a final newline adds no empty record |
| Splitting.LinesTrailingNewline | src/lib.rs:41-46 | adding `'\n'` after a last line that does not end in `'\r'` or `'\n'` leaves the records unchanged |
| Splitting.LinesUnlines | src/lib.rs:41-46 | lines without `'\n'` and without a trailing `'\r'`, each written with its `'\n'`, are read back unchanged |
| Splitting.LinesViaSplit | src/lib.rs:41-46 | `lines()` equals `split("\n")` with the empty last fragment dropped and a `'\r'` removed from each terminated fragment |
| Splitting.Split | src/lib.rs:39-59 | the separator chooses the splitter; with `Str(pat)` the records joined by `pat` are the content, and their count is the occurrence count plus one when `pat` is non-empty; with `Whitespace` every record is a word and together they are the content without whitespace; with `Newline` no record holds `'\n'` and the count is the number of `'\n'`, plus one for an unterminated last line |
| Parser.SizeAsU32 | src/lib.rs:88 | the `u32` cast of the size is the size itself below 2^32, and never more than the size |
| Parser.FromContent | src/lib.rs:39-67 | `original` is the content verbatim, `data` is its split by the separator, and `size` is the record count |
| Parser.New | src/lib.rs:33-68 | fails with `IOError` exactly when the read fails; otherwise it holds the content, its split, and a `size` equal to the record count |
| Parser.Get | src/lib.rs:70-73 | `get` hands back the records themselves |
| Parser.GetStr | src/lib.rs:75-78 | `get_str` hands back the unsplit content itself |
| Parser.NewAccessors | src/lib.rs:62-78 | after `new`, `get` gives the split records, `get_str` gives the content unchanged, and `size` counts the records |
| Parser.GetStrFromGetLiteral | src/lib.rs:70-78 | JoinSplitStr restated through the accessors: with `Str(pat)`, `get_str` is `get` joined by `pat` |
| Parser.GetStrFromGetWhitespace | src/lib.rs:70-78 | SplitWhitespaceConcat and SplitWhitespaceWords restated through the accessors: with `Whitespace`, `get` concatenated is `get_str` without its whitespace, and every record is a word |
| Parser.GetFromNewline | src/lib.rs:70-78 | LinesViaSplit and LinesNoNewline restated through the accessors: with `Newline`, `get` is the cleaned-up `split("\n")` of `get_str`, and no record holds `'\n'` |
| Parser.ResolveStart | src/lib.rs:86-95 | an accepted start line `s` becomes index `s - 1`, below `size` (`None` becomes 0); a refused one gives `OutOfBounds`; below 2^32 records it accepts exactly `None` and the lines `1..size` |
| Parser.ResolveEnd | src/lib.rs:97-106 | an accepted end line `e` becomes the exclusive end index `e` (`None` becomes `size`), never past `size`; a refused one gives `OutOfBounds`; below 2^32 records it accepts exactly `None` and the lines `1..size` |
| Parser.ParseAll | src/lib.rs:111-117 | succeeds exactly when every record parses, giving the parsed values in order and one per record; otherwise fails with `ParseToTypeFailed` |
| Parser.SliceAsType | src/lib.rs:84-118 | the only errors are `OutOfBounds` and `ParseToTypeFailed` |
| Parser.SliceOutOfBounds | src/lib.rs:86-110 | fails with `OutOfBounds` exactly when a given line number is 0 or above `size`, or the start is past the end plus one; this does not depend on the records or the parser |
| Parser.SliceSuccess | src/lib.rs:107-117 | with a valid range, succeeds exactly when every record in lines `first..last` parses, yielding `last - first + 1` values, where value `i` is the parse of line `first + i` |
| Parser.SliceParseFailure | src/lib.rs:111-117 | with a valid range, fails with `ParseToTypeFailed` exactly when some record in the range does not parse, and returns no partial result |
| Parser.SliceWhole | src/lib.rs:92-105 | `(None, None)` parses all `size` records, in order |
| Parser.SliceEmptyRange | src/lib.rs:86-111 | `(Some(s), Some(s - 1))` with `2 <= s <= size` passes validation and yields an empty vector |
| Parser.SliceLastLine | src/lib.rs:86-106 | line `size` is the last record, and `size + 1` or 0 on either bound is `OutOfBounds` |
| Parser.SliceIsParseAll | src/lib.rs:86-117 | a range `[s, e]` of existing lines, `s` at most `e + 1`, is the parse of records `s - 1` up to `e`, exclusive |
| Parser.SliceAdjacent | src/lib.rs:107-117 | the ranges `[s, m]` and `[m + 1, e]` together give `[s, e]`: it succeeds exactly when both do, with their values in order |
| Parser.ParseAllAppend | src/lib.rs:111-117 | parsing a concatenation succeeds exactly when both parts parse, and its value is the concatenation of theirs |
| Parser.EndGuardRedundant | src/lib.rs:108 | once both bounds are accepted, the `end > self.size` test never fires, even when the `u32` cast wraps |
| Parser.TruncatedSizeRefusesExistingLine | src/lib.rs:88 | with 2^32 + 3 records the wrapped cast refuses line 5, although line 5 exists |
| Parser.SliceTestScenario | src/lib.rs:136-153 | lines 2 to 5 of the six test records, read as strings, are `"5 6"`, `"7 12"`, `"456 742"`, `"7442 78524"` |

## Left out

- The file read (`fs::read_to_string`) is I/O. `New` takes its outcome as a
  parameter, and `std::io::Error` becomes a text cause inside `IOError`.
- The `thiserror` derive and the Display messages of `AocError` are
  formatting only.
- The grammars of `FromStr` (integers, floats, ...) belong to foreign code.
  `parse` is a parameter.
- Ownership is not modelled. `get` and `get_str` consume the value in Rust,
  but here they are plain functions on an immutable value.
- Strings are sequences of Unicode scalar values. Rust slices by UTF-8 byte
  offsets, which gives the same records.
- Before Rust 1.77, `lines()` also removed a bare `'\r'` at the end of an
  unterminated last line. The model follows the current behaviour.
- Parser.SliceAsType: requires that the resolved end index, when both bounds
  are accepted and the start is not past it, is at most `|data|`. The fields
  are public, and otherwise the source panics at `data[start..end]`. That
  panic is not modelled. The lemmas about `SliceAsType` ask for this, or for
  the end line to be at most `|data|`. SliceLastLine asks for
  `size <= |data|`, which is exactly this condition for the ranges it uses.
  SliceWhole asks for `size == |data|`, which is what `new` builds.
- Parser.SliceOutOfBounds: stated only for `size < 2^32`. Above that the
  `u32` cast wraps; see TruncatedSizeRefusesExistingLine.
- Parser.SliceSuccess: stated only for `size < 2^32`, for the same reason.
- Parser.SliceParseFailure: stated only for `size < 2^32`, for the same reason.
- Parser.SliceEmptyRange: stated only for `size < 2^32`, for the same reason.
- Parser.SliceAdjacent: stated only for `size < 2^32`, for the same reason.
- Parser.SliceIsParseAll: stated only for `size < 2^32`, for the same reason.
- Parser.SliceLastLine: stated only for `size < 2^32 - 1`, so that `size + 1`
  is a `u32`.
- `collect` into `Result` stops at the first failing record. The failure
  carries no data and `parse` is pure, so stopping early cannot be told apart
  from checking every record. `ParseAll` still fails on the first bad record,
  working left to right.
- `test_new` reads two files from disk, so its counts (16 lines, and 6
  records split on `", "`) are not modelled.
