/**
 * Line counting and the hidden-name test of `src/file_len_inventory.rs`.
 *
 * A file is given by what opening it yields: either the bytes a reader will
 * read, or the error `File::open` returns. `BufRead::lines` cuts those bytes
 * into the records `read_until(b'\n')` returns; a record that is not UTF-8
 * becomes an error item, which `count()` counts like any other item.
 */
module FileLenInventory {
  import opened Wrappers
  import opened Bytes
  import opened Paths

  /** The kinds of `std::io::Error` that opening a file can report. */
  datatype IoError = NotFound | PermissionDenied | OtherIoError

  /** The outcome of `File::open`: the bytes the file holds, or the error. */
  datatype OpenOutcome = Opened(content: seq<byte>) | OpenFailed(error: IoError)

  /** An item of `BufRead::lines`: a line without its terminator, or `InvalidData`. */
  datatype LineItem = Line(text: seq<byte>) | InvalidData

  /** The position of the first newline in `s`, or `|s|` when there is none. */
  function NewlineIndex(s: seq<byte>): (k: nat)
    ensures k <= |s|
    ensures forall i :: 0 <= i < k ==> s[i] != Newline
    ensures k < |s| ==> s[k] == Newline
  {
    if s == [] || s[0] == Newline then 0 else 1 + NewlineIndex(s[1..])
  }

  /**
   * The records `read_until(b'\n')` returns one after the other: each one
   * up to and including a newline, and a last one without a newline when
   * the content does not end in one.
   */
  function Segments(s: seq<byte>): seq<seq<byte>>
    decreases |s|
  {
    if s == [] then []
    else
      var k := NewlineIndex(s);
      if k < |s| then [s[..k + 1]] + Segments(s[k + 1..]) else [s]
  }

  /** What `lines` removes from a record: a final `\n`, then a `\r` before it. */
  function StripLineEnding(seg: seq<byte>): seq<byte> {
    if seg != [] && seg[|seg| - 1] == Newline then
      var t := seg[..|seg| - 1];
      if t != [] && t[|t| - 1] == CarriageReturn then t[..|t| - 1] else t
    else seg
  }

  /** The items `BufRead::lines` yields for the content `s`. */
  function Lines(s: seq<byte>): (items: seq<LineItem>)
    ensures |items| == |Segments(s)|
  {
    var segs := Segments(s);
    seq(|segs|, i requires 0 <= i < |segs| =>
      var t := StripLineEnding(segs[i]);
      if ValidUtf8(t) then Line(t) else InvalidData)
  }

  /** `Iterator::skip(n)`. */
  function Skip<T>(xs: seq<T>, n: nat): seq<T> {
    if n <= |xs| then xs[n..] else []
  }

  /** The concatenation of the records. */
  function Flatten(segs: seq<seq<byte>>): seq<byte> {
    if segs == [] then [] else segs[0] + Flatten(segs[1..])
  }

  /**
   * The number of lines in `s` by the usual reading: one per newline, and
   * one more for a non-empty unterminated tail.
   */
  function LineTotal(s: seq<byte>): nat {
    multiset(s)[Newline] + (if s != [] && s[|s| - 1] != Newline then 1 else 0)
  }

  /** Newlines in a text cut at its first newline. */
  lemma {:induction false} NewlinesAroundFirst(s: seq<byte>, k: nat)
    requires k < |s| && s[k] == Newline && forall i :: 0 <= i < k ==> s[i] != Newline
    ensures multiset(s)[Newline] == 1 + multiset(s[k + 1..])[Newline]
  {
    var pre := s[..k];
    assert Newline !in pre by {
      forall i | 0 <= i < |pre| ensures pre[i] != Newline { }
    }
    assert s == pre + [Newline] + s[k + 1..];
  }

  /** A text without a newline has none to count. */
  lemma {:induction false} NoNewlines(s: seq<byte>)
    requires forall i :: 0 <= i < |s| ==> s[i] != Newline
    ensures multiset(s)[Newline] == 0
  {
    assert Newline !in s;
  }

  /** There are as many records as newlines, plus one for an unterminated tail. */
  lemma {:induction false} SegmentCount(s: seq<byte>)
    ensures |Segments(s)| == LineTotal(s)
    decreases |s|
  {
    if s != [] {
      var k := NewlineIndex(s);
      if k < |s| {
        SegmentsAtNewline(s, k);
        SegmentCount(s[k + 1..]);
        NewlinesAroundFirst(s, k);
        TailAfterNewline(s, k);
      } else {
        assert Segments(s) == [s];
        NoNewlines(s);
      }
    }
  }

  /** Cutting a text after a newline keeps whether it ends in an unterminated line. */
  lemma {:induction false} TailAfterNewline(s: seq<byte>, k: nat)
    requires k < |s| && s[k] == Newline
    ensures var rest := s[k + 1..];
      (rest != [] && rest[|rest| - 1] != Newline) == (s[|s| - 1] != Newline)
  {
  }

  /** A record: non-empty, with a newline at most as its last byte. */
  predicate IsRecord(seg: seq<byte>) {
    seg != [] && forall j :: 0 <= j < |seg| - 1 ==> seg[j] != Newline
  }

  predicate EndsInNewline(seg: seq<byte>) {
    seg != [] && seg[|seg| - 1] == Newline
  }

  lemma {:induction false} FlattenCons(seg: seq<byte>, segs: seq<seq<byte>>)
    ensures Flatten([seg] + segs) == seg + Flatten(segs)
  {
    assert ([seg] + segs)[1..] == segs;
  }

  lemma {:induction false} FlattenSingle(seg: seq<byte>)
    ensures Flatten([seg]) == seg
  {
    assert [seg][1..] == [];
  }

  /** A content with a newline splits into the record up to it and the records after it. */
  lemma {:induction false} SegmentsAtNewline(s: seq<byte>, k: nat)
    requires k < |s| && k == NewlineIndex(s)
    ensures Segments(s) == [s[..k + 1]] + Segments(s[k + 1..])
  {
  }

  lemma {:induction false} FlattenStep(s: seq<byte>, k: nat, tail: seq<seq<byte>>)
    requires k < |s| && Flatten(tail) == s[k + 1..]
    ensures Flatten([s[..k + 1]] + tail) == s
  {
    FlattenCons(s[..k + 1], tail);
    assert s[..k + 1] + s[k + 1..] == s;
  }

  /** The records concatenate back to the content. */
  lemma {:induction false} SegmentsFlatten(s: seq<byte>)
    ensures Flatten(Segments(s)) == s
    decreases |s|
  {
    if s != [] {
      var k := NewlineIndex(s);
      if k < |s| {
        SegmentsFlatten(s[k + 1..]);
        SegmentsAtNewline(s, k);
        FlattenStep(s, k, Segments(s[k + 1..]));
      } else {
        assert Segments(s) == [s];
        FlattenSingle(s);
      }
    }
  }

  /** Every record is one line: non-empty, with a newline at most at its end. */
  lemma {:induction false} SegmentsAreRecords(s: seq<byte>)
    ensures forall i :: 0 <= i < |Segments(s)| ==> IsRecord(Segments(s)[i])
    decreases |s|
  {
    if s != [] {
      var k := NewlineIndex(s);
      if k < |s| {
        SegmentsAreRecords(s[k + 1..]);
        SegmentsAtNewline(s, k);
        assert IsRecord(s[..k + 1]);
      }
    }
  }

  /** Every record but the last ends in a newline. */
  lemma {:induction false} SegmentsTerminated(s: seq<byte>)
    ensures forall i :: 0 <= i < |Segments(s)| - 1 ==> EndsInNewline(Segments(s)[i])
    decreases |s|
  {
    if s != [] {
      var k := NewlineIndex(s);
      if k < |s| {
        SegmentsTerminated(s[k + 1..]);
        SegmentsAtNewline(s, k);
        assert EndsInNewline(s[..k + 1]);
      }
    }
  }

  /** Every record is one line, and every record but the last ends in a newline. */
  lemma {:induction false} SegmentsShape(s: seq<byte>)
    ensures forall i :: 0 <= i < |Segments(s)| ==> IsRecord(Segments(s)[i])
    ensures forall i :: 0 <= i < |Segments(s)| - 1 ==> EndsInNewline(Segments(s)[i])
  {
    SegmentsAreRecords(s);
    SegmentsTerminated(s);
  }

  /**
   * `count_lines`: the error of `File::open` when opening fails; otherwise
   * the number of items `lines().skip(skip)` yields, with `skip` one when
   * the file has a header. Encoding errors do not stop the count.
   */
  function CountLines(file: OpenOutcome, header: bool): (r: Result<nat, IoError>)
    ensures file.OpenFailed? ==> r == Err(file.error)
    ensures file.Opened? ==> r.Ok?
    ensures file.Opened? && !header ==> r.value == LineTotal(file.content)
    ensures file.Opened? && header ==>
      r.value == if LineTotal(file.content) == 0 then 0 else LineTotal(file.content) - 1
  {
    var skip: nat := if header then 1 else 0;
    match file
    case OpenFailed(e) => Err(e)
    case Opened(content) =>
      SegmentCount(content);
      Ok(|Skip(Lines(content), skip)|)
  }

  /** A file has at least one line exactly when it is not empty. */
  lemma {:induction false} HasLineIffNonEmpty(s: seq<byte>)
    ensures LineTotal(s) > 0 <==> s != []
  {
    if s != [] && s[|s| - 1] == Newline {
      assert s[|s| - 1] in multiset(s);
    }
  }

  /** The header flag takes away exactly one line, and only from a file that has one. */
  lemma {:induction false} HeaderTakesOneLine(content: seq<byte>)
    ensures CountLines(Opened(content), false).value - CountLines(Opened(content), true).value
            == if content != [] then 1 else 0
  {
    HasLineIffNonEmpty(content);
  }

  /** The content of a file made of the given lines, each followed by a newline. */
  function TerminatedLines(lines: seq<seq<byte>>): seq<byte> {
    if lines == [] then [] else TerminatedLines(lines[..|lines| - 1]) + lines[|lines| - 1] + [Newline]
  }

  /** A file of N newline-terminated lines counts N lines. */
  lemma {:induction false} TerminatedLinesCount(lines: seq<seq<byte>>)
    requires forall i :: 0 <= i < |lines| ==> Newline !in lines[i]
    ensures LineTotal(TerminatedLines(lines)) == |lines|
  {
    if lines != [] {
      var init := lines[..|lines| - 1];
      TerminatedLinesCount(init);
      var last := lines[|lines| - 1];
      var s := TerminatedLines(lines);
      assert s == TerminatedLines(init) + last + [Newline];
      assert multiset(s)[Newline] == multiset(TerminatedLines(init))[Newline] + 0 + 1;
      var t := TerminatedLines(init);
      assert t != [] ==> t[|t| - 1] == Newline;
    }
  }

  /** Newline-terminated lines followed by an unterminated last line count one more. */
  lemma {:induction false} UnterminatedLastLine(lines: seq<seq<byte>>, last: seq<byte>)
    requires forall i :: 0 <= i < |lines| ==> Newline !in lines[i]
    requires last != [] && Newline !in last
    ensures LineTotal(TerminatedLines(lines) + last) == |lines| + 1
  {
    var t := TerminatedLines(lines);
    TerminatedLinesCount(lines);
    assert t != [] ==> t[|t| - 1] == Newline by {
      if lines != [] {
        assert t == TerminatedLines(lines[..|lines| - 1]) + lines[|lines| - 1] + [Newline];
      }
    }
    assert multiset(t + last)[Newline] == multiset(t)[Newline] + multiset(last)[Newline];
    assert (t + last)[|t + last| - 1] == last[|last| - 1];
    assert last[|last| - 1] in last;
  }

  /**
   * `is_hidden` on an entry's file name: `to_str` fails on a name that is
   * not UTF-8, which counts as not hidden; otherwise the name is hidden when
   * it starts with `.`.
   */
  function IsHidden(fileName: Name): (r: bool)
    ensures r ==> fileName != [] && fileName[0] == Dot
    ensures !ValidUtf8(fileName) ==> !r
    ensures ValidUtf8(fileName) ==> (r <==> fileName != [] && fileName[0] == Dot)
  {
    match ToStr(fileName)
    case Some(s) => StartsWith(s, [Dot])
    case None => false
  }

  /** `OsStr::to_str`: the same bytes, viewed as text, when they are UTF-8. */
  function ToStr(n: Name): Option<seq<byte>> {
    if ValidUtf8(n) then Some(n) else None
  }

  /** `str::starts_with`, which compares bytes. */
  predicate StartsWith(s: seq<byte>, prefix: seq<byte>) {
    |prefix| <= |s| && s[..|prefix|] == prefix
  }

  // ---------------------------------------------------------------------
  // Reads after a successful open
  // ---------------------------------------------------------------------

  /**
   * The outcome of one `read_line` call on an opened file: a record, the
   * end of the file, or a read error. The calls of one iteration are
   * numbered from 0.
   */
  datatype ReadOutcome = Record(bytes: seq<byte>) | EndOfFile | ReadFailed(error: IoError)

  /**
   * `lines().count()` as written, given what each call of `read_line`
   * returns: the number of items when the end of the file comes within
   * `calls` calls from call `from`, and `None` when it has not come by
   * then. `Lines::next` turns a failed read into an item and the iteration
   * goes on after it, so `count()` stops only at the end of the file.
   */
  function CountItemsWithin(outcomes: nat -> ReadOutcome, from: nat, calls: nat): Option<nat>
    decreases calls
  {
    if calls == 0 then None
    else if outcomes(from).EndOfFile? then Some(0)
    else match CountItemsWithin(outcomes, from + 1, calls - 1)
      case None => None
      case Some(n) => Some(n + 1)
  }

  /**
   * The count with the first read error returned instead of counted, as
   * the `io::Result` return type of `count_lines` leaves room for.
   */
  function CountItemsOrError(outcomes: nat -> ReadOutcome, from: nat, calls: nat): Option<Result<nat, IoError>>
    decreases calls
  {
    if calls == 0 then None
    else match outcomes(from)
      case EndOfFile => Some(Ok(0))
      case ReadFailed(e) => Some(Err(e))
      case Record(_) =>
        match CountItemsOrError(outcomes, from + 1, calls - 1)
        case None => None
        case Some(Err(e)) => Some(Err(e))
        case Some(Ok(n)) => Some(Ok(n + 1))
  }

  /**
   * As written, a read error that repeats on every call keeps `count()`
   * going: no number of calls reaches a count.
   */
  lemma {:induction false} PersistentReadErrorNeverEnds(outcomes: nat -> ReadOutcome, from: nat, calls: nat)
    requires forall i :: from <= i ==> outcomes(i).ReadFailed?
    ensures CountItemsWithin(outcomes, from, calls) == None
    decreases calls
  {
    if calls > 0 {
      PersistentReadErrorNeverEnds(outcomes, from + 1, calls - 1);
    }
  }

  /**
   * With the error returned, the first failed read ends the count with
   * that error, one call after the records before it.
   */
  lemma {:induction false} FirstReadErrorEnds(outcomes: nat -> ReadOutcome, from: nat, k: nat)
    requires forall i :: from <= i < from + k ==> outcomes(i).Record?
    requires outcomes(from + k).ReadFailed?
    ensures CountItemsOrError(outcomes, from, k + 1) == Some(Err(outcomes(from + k).error))
    decreases k
  {
    if k > 0 {
      FirstReadErrorEnds(outcomes, from + 1, k - 1);
    }
  }

  /** Without a read error both counts agree: k records before the end count k. */
  lemma {:induction false} RecordsThenEnd(outcomes: nat -> ReadOutcome, from: nat, k: nat)
    requires forall i :: from <= i < from + k ==> outcomes(i).Record?
    requires outcomes(from + k).EndOfFile?
    ensures CountItemsWithin(outcomes, from, k + 1) == Some(k)
    ensures CountItemsOrError(outcomes, from, k + 1) == Some(Ok(k))
    decreases k
  {
    if k > 0 {
      RecordsThenEnd(outcomes, from + 1, k - 1);
    }
  }

  /** The calls of `read_line` on a file that reads without error. */
  function ContentReads(s: seq<byte>): nat -> ReadOutcome {
    var segs := Segments(s);
    (i: nat) => if i < |segs| then Record(segs[i]) else EndOfFile
  }

  /**
   * On a file that reads without error, both counts are the number of
   * lines that `CountLines` counts, after one call per record and one for
   * the end of the file.
   */
  lemma {:induction false} ContentReadsCount(s: seq<byte>)
    ensures CountItemsWithin(ContentReads(s), 0, |Segments(s)| + 1) == Some(LineTotal(s))
    ensures CountItemsOrError(ContentReads(s), 0, |Segments(s)| + 1) == Some(Ok(LineTotal(s)))
  {
    SegmentCount(s);
    RecordsThenEnd(ContentReads(s), 0, |Segments(s)|);
  }

  /** The lines that the module's write test puts in its file. */
  const WriteTestLines: seq<seq<byte>> := [
    Ascii("Hello, World!"),
    Ascii("This is a test file."),
    Ascii("I am testing the file_len_inventory module.")]

  lemma {:induction false} WriteTestLinesHaveNoNewline()
    ensures forall i :: 0 <= i < |WriteTestLines| ==> Newline !in WriteTestLines[i]
  {
    FirstWriteTestLine();
    SecondWriteTestLine();
    ThirdWriteTestLine();
  }

  lemma {:induction false} FirstWriteTestLine()
    ensures Newline !in Ascii("Hello, World!")
  {
    AsciiWithout("Hello, World!", '\n', Newline);
  }

  lemma {:induction false} SecondWriteTestLine()
    ensures Newline !in Ascii("This is a test file.")
  {
    AsciiWithout("This is a test file.", '\n', Newline);
  }

  lemma {:induction false} ThirdWriteTestLine()
    ensures Newline !in Ascii("I am testing the file_len_inventory module.")
  {
    AsciiWithout("I am testing the file_len_inventory module.", '\n', Newline);
  }

  /** With the header flag, a file of N lines, each ending in a newline, counts N - 1. */
  lemma {:induction false} TerminatedLinesCountWithHeader(lines: seq<seq<byte>>)
    requires forall i :: 0 <= i < |lines| ==> Newline !in lines[i]
    requires lines != []
    ensures CountLines(Opened(TerminatedLines(lines)), true) == Ok(|lines| - 1)
  {
    TerminatedLinesCount(lines);
  }

  /** The file of the module's write test: three newline-terminated lines, so two after the header. */
  lemma {:induction false} WriteTestFileCountsTwoWithHeader()
    ensures CountLines(Opened(TerminatedLines(WriteTestLines)), true) == Ok(2)
  {
    WriteTestLinesHaveNoNewline();
    TerminatedLinesCountWithHeader(WriteTestLines);
  }

  /** `.env` is a hidden name. */
  lemma {:induction false} DotEnvIsHidden()
    ensures IsHidden(Ascii(".env"))
  {
  }
}
