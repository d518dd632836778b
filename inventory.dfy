/**
 * The parser inside `scan_installed_packages`: the line-oriented text of
 * `pacman -Qi`, read one line at a time into the `current_pkg` dict, which
 * is flushed to `_save_package` at every `Name` line and once more at the
 * end. The loop itself, with its upserts, is `Tracker.DustTracker.ScanInstalledPackages`.
 */
module Inventory {
  import opened Wrappers
  import opened Text
  import opened PackageStore

  /**
   * The exceptions the parser lets escape: IndexError from `split(':', 1)[1]`
   * on a field line without a colon, and KeyError from `current_pkg['name']`
   * when a `Description` or `Install Date` line came before any `Name` line.
   */
  datatype ParseError = MissingColon(line: string) | MissingName

  /** `current_pkg`: each key is absent until its line has been read. */
  datatype Fields = Fields(name: Option<string>, description: Option<string>, installDate: Option<string>) {
    predicate IsEmpty() {
      name.None? && description.None? && installDate.None?
    }
  }

  /** The records flushed so far and the dict being filled. */
  datatype ParseState = ParseState(done: seq<Record>, current: Fields)

  const Start := ParseState([], Fields(None, None, None))

  predicate IsNameLine(line: string) {
    StartsWith(line, "Name")
  }

  /** A `Description` or `Install Date` line, as the `elif` chain tests them (after `Name`). */
  predicate IsDetailLine(line: string) {
    !IsNameLine(line) && (StartsWith(line, "Description") || StartsWith(line, "Install Date"))
  }

  /** Hand the dict being filled to `_save_package` when it holds any key; one without a name raises KeyError. */
  function Flush(st: ParseState): Result<seq<Record>, ParseError> {
    if st.current.IsEmpty() then Ok(st.done)
    else if st.current.name.None? then Err(MissingName)
    else Ok(st.done + [Record(st.current.name.value, st.current.description, st.current.installDate)])
  }

  /** The stripped text after a field line's first colon; IndexError when it has none. */
  function Value(line: string): Result<string, ParseError> {
    match ValueAfter(line, ':')
    case None => Err(MissingColon(line))
    case Some(v) => Ok(v)
  }

  /** IndexError exactly when the line has no colon; otherwise the stripped text after its first colon. */
  lemma ValueSpec(line: string)
    ensures Value(line).Err? <==> ':' !in line
    ensures Value(line).Err? ==> Value(line).error == MissingColon(line)
    ensures ':' in line ==>
              exists i :: 0 <= i < |line| && line[i] == ':' && ':' !in line[..i] && Value(line) == Ok(Strip(line[i + 1..]))
  {
    if ':' in line { ValueAfterSpec(line, ':'); }
  }

  /** One turn of the loop over the lines of pacman's answer. */
  function Step(st: ParseState, line: string): Result<ParseState, ParseError> {
    if IsNameLine(line) then
      match Flush(st)
      case Err(e) => Err(e)
      case Ok(done) =>
        match Value(line)
        case Err(e) => Err(e)
        case Ok(v) => Ok(ParseState(done, Fields(Some(v), None, None)))
    else if StartsWith(line, "Description") then
      match Value(line)
      case Err(e) => Err(e)
      case Ok(v) => Ok(st.(current := st.current.(description := Some(v))))
    else if StartsWith(line, "Install Date") then
      match Value(line)
      case Err(e) => Err(e)
      case Ok(v) => Ok(st.(current := st.current.(installDate := Some(v))))
    else
      Ok(st)
  }

  /** The loop over the first `|lines|` lines; the first exception ends it. */
  function Run(lines: seq<string>): Result<ParseState, ParseError> {
    if |lines| == 0 then Ok(Start)
    else
      match Run(lines[..|lines| - 1])
      case Err(e) => Err(e)
      case Ok(st) => Step(st, lines[|lines| - 1])
  }

  /** The records `scan_installed_packages` upserts, in order, or the exception it raises. */
  function Parse(lines: seq<string>): Result<seq<Record>, ParseError> {
    match Run(lines)
    case Err(e) => Err(e)
    case Ok(st) => Flush(st)
  }

  /** The values of the `Name` lines, one per `Name` line, in order. */
  function NameValues(lines: seq<string>): seq<string> {
    if |lines| == 0 then []
    else
      var k := |lines| - 1;
      NameValues(lines[..k]) + (if IsNameLine(lines[k]) then [ValueAfter(lines[k], ':').GetOr("")] else [])
  }

  /** Every `Name`, `Description` and `Install Date` line holds a colon. */
  predicate ColonsPresent(lines: seq<string>) {
    forall i :: 0 <= i < |lines| && (IsNameLine(lines[i]) || IsDetailLine(lines[i])) ==> ':' in lines[i]
  }

  /** Some `Description` or `Install Date` line comes before every `Name` line. */
  predicate Orphaned(lines: seq<string>) {
    exists i :: 0 <= i < |lines| && IsDetailLine(lines[i]) && forall j :: 0 <= j < i ==> !IsNameLine(lines[j])
  }

  function RecordNames(recs: seq<Record>): (r: seq<string>)
    ensures |r| == |recs| && forall k :: 0 <= k < |recs| ==> r[k] == recs[k].name
  {
    seq(|recs|, k requires 0 <= k < |recs| => recs[k].name)
  }

  /** What holds of the loop's state after the lines `lines`. */
  ghost predicate Shape(lines: seq<string>) {
    var r := Run(lines);
    && (r.Ok? <==> ColonsPresent(lines) && (!Orphaned(lines) || |NameValues(lines)| == 0))
    && (r.Ok? && |NameValues(lines)| > 0 ==>
          r.value.current.name.Some? && RecordNames(r.value.done) + [r.value.current.name.value] == NameValues(lines))
    && (r.Ok? && |NameValues(lines)| == 0 ==>
          r.value.current.name.None? && r.value.done == [] && (r.value.current.IsEmpty() <==> !Orphaned(lines)))
  }

  lemma {:induction false} RunShape(lines: seq<string>)
    ensures Shape(lines)
  {
    if |lines| > 0 {
      var k := |lines| - 1;
      RunShape(lines[..k]);
      PrefixFacts(lines);
      if IsNameLine(lines[k]) {
        NameStepShape(lines);
      } else if IsDetailLine(lines[k]) {
        DetailStepShape(lines);
      } else {
        assert !StartsWith(lines[k], "Description") && !StartsWith(lines[k], "Install Date");
        assert Shape(lines);
      }
    } else {
      assert Shape(lines);
    }
  }

  lemma NameStepShape(lines: seq<string>)
    requires |lines| > 0 && IsNameLine(lines[|lines| - 1])
    requires Shape(lines[..|lines| - 1])
    requires PrefixFactsHold(lines)
    ensures Shape(lines)
  {
    var k := |lines| - 1;
    var p := lines[..k];
    var line := lines[k];
    assert NameValues(lines) == NameValues(p) + [ValueAfter(line, ':').GetOr("")];
    match Run(p)
    case Err(e) =>
    case Ok(st) =>
      assert Run(lines) == Step(st, line);
      if |NameValues(p)| > 0 {
        var rec := Record(st.current.name.value, st.current.description, st.current.installDate);
        assert Flush(st) == Ok(st.done + [rec]);
        assert RecordNames(st.done + [rec]) == RecordNames(st.done) + [rec.name];
      }
  }

  lemma DetailStepShape(lines: seq<string>)
    requires |lines| > 0 && IsDetailLine(lines[|lines| - 1])
    requires Shape(lines[..|lines| - 1])
    requires PrefixFactsHold(lines)
    ensures Shape(lines)
  {
    var k := |lines| - 1;
    var p := lines[..k];
    assert NameValues(lines) == NameValues(p);
    match Run(p)
    case Err(e) =>
    case Ok(st) =>
      assert Run(lines) == Step(st, lines[k]);
  }

  ghost predicate PrefixFactsHold(lines: seq<string>)
    requires |lines| > 0
  {
    var k := |lines| - 1;
    && (ColonsPresent(lines) <==>
          (ColonsPresent(lines[..k]) && ((IsNameLine(lines[k]) || IsDetailLine(lines[k])) ==> ':' in lines[k])))
    && (Orphaned(lines) <==>
          (Orphaned(lines[..k]) || (IsDetailLine(lines[k]) && |NameValues(lines[..k])| == 0)))
  }

  /** How the predicates above extend by one line. */
  lemma PrefixFacts(lines: seq<string>)
    requires |lines| > 0
    ensures PrefixFactsHold(lines)
  {
    ColonsStep(lines);
    OrphanedStep(lines);
  }

  lemma ColonsStep(lines: seq<string>)
    requires |lines| > 0
    ensures var k := |lines| - 1;
            ColonsPresent(lines) <==>
              (ColonsPresent(lines[..k]) && ((IsNameLine(lines[k]) || IsDetailLine(lines[k])) ==> ':' in lines[k]))
  {
    var k := |lines| - 1;
    var p := lines[..k];
    assert forall i :: 0 <= i < k ==> lines[i] == p[i];
  }

  lemma OrphanedStep(lines: seq<string>)
    requires |lines| > 0
    ensures var k := |lines| - 1;
            Orphaned(lines) <==> (Orphaned(lines[..k]) || (IsDetailLine(lines[k]) && |NameValues(lines[..k])| == 0))
  {
    var k := |lines| - 1;
    var p := lines[..k];
    assert forall i :: 0 <= i < k ==> lines[i] == p[i];
    NoNameValues(p);
    if Orphaned(lines) && !Orphaned(p) {
      var i :| 0 <= i < |lines| && IsDetailLine(lines[i]) && forall j :: 0 <= j < i ==> !IsNameLine(lines[j]);
      assert i == k;
    }
    if IsDetailLine(lines[k]) && |NameValues(p)| == 0 {
      assert forall j :: 0 <= j < k ==> !IsNameLine(lines[j]);
    }
  }

  /** No `Name` value means no `Name` line. */
  lemma {:induction false} NoNameValues(lines: seq<string>)
    ensures |NameValues(lines)| == 0 <==> forall j :: 0 <= j < |lines| ==> !IsNameLine(lines[j])
  {
    if |lines| > 0 {
      var k := |lines| - 1;
      NoNameValues(lines[..k]);
      assert forall j :: 0 <= j < k ==> lines[j] == lines[..k][j];
    }
  }

  /**
   * The parse succeeds exactly when every field line holds a colon and no
   * `Description`/`Install Date` line precedes the first `Name` line; it
   * then yields one record per `Name` line, named by that line's value, in
   * order, so `_save_package` is called once per `Name` line.
   */
  lemma ParseCharacterization(lines: seq<string>)
    ensures Parse(lines).Ok? <==> ColonsPresent(lines) && !Orphaned(lines)
    ensures Parse(lines).Ok? ==> RecordNames(Parse(lines).value) == NameValues(lines)
  {
    RunShape(lines);
    assert Shape(lines);
    if Run(lines).Ok? && |NameValues(lines)| > 0 {
      var st := Run(lines).value;
      var rec := Record(st.current.name.value, st.current.description, st.current.installDate);
      assert RecordNames(st.done + [rec]) == RecordNames(st.done) + [rec.name];
    }
  }

  /** Once the loop has raised, later lines do not matter. */
  lemma {:induction false} ErrorSticks(lines: seq<string>, i: nat, j: nat)
    requires i <= j <= |lines|
    requires Run(lines[..i]).Err?
    ensures Run(lines[..j]) == Run(lines[..i])
  {
    if i < j {
      ErrorSticks(lines, i, j - 1);
      RunNext(lines, j - 1);
    }
  }

  /** The loop over one more line: the same outcome after an exception, otherwise one more step. */
  lemma RunNext(lines: seq<string>, i: nat)
    requires i < |lines|
    ensures Run(lines[..i + 1]) == match Run(lines[..i]) case Err(e) => Err(e) case Ok(st) => Step(st, lines[i])
  {
    assert lines[..i + 1][..i] == lines[..i];
  }

  /** An exception raised at line `i` is the outcome of the whole parse. */
  lemma RaisedAt(lines: seq<string>, i: nat, e: ParseError)
    requires i < |lines| && Run(lines[..i + 1]) == Err(e)
    ensures Parse(lines) == Err(e)
  {
    ErrorSticks(lines, i + 1, |lines|);
    assert lines[..|lines|] == lines;
  }

  /**
   * The two-line answer of a `Description` or `Install Date` line and a
   * `Name` line: the first leaves a dict without 'name', and the `Name`
   * line raises KeyError. `OrphanRaisesAt` states this for any position.
   */
  lemma OrphanDetailRaises(detail: string, name: string)
    requires IsDetailLine(detail) && ':' in detail
    requires IsNameLine(name)
    ensures Parse([detail, name]) == Err(MissingName)
  {
    var lines := [detail, name];
    assert lines[..1] == [detail];
    assert [detail][..0] == [];
    assert Run([detail]) == Step(Start, detail);
    assert Run([detail]).Ok? && !Run([detail]).value.current.IsEmpty();
    assert Run(lines) == Step(Run([detail]).value, name);
  }

  /** A one-line answer whose `Name` line has no colon raises IndexError; `NameWithoutColonRaisesAt` states this for any position. */
  lemma NameWithoutColonRaises(line: string)
    requires IsNameLine(line) && ':' !in line
    ensures Parse([line]) == Err(MissingColon(line))
  {
    assert [line][..0] == [];
    assert Run([line]) == Step(Start, line);
    assert Flush(Start) == Ok([]);
    assert Value(line) == Err(MissingColon(line));
  }

  /**
   * Wherever it stands, the first `Name` line after a `Description` or
   * `Install Date` line with no `Name` line before it raises KeyError, as
   * long as the lines before it raised nothing themselves.
   */
  lemma OrphanRaisesAt(lines: seq<string>, i: nat)
    requires i < |lines| && IsNameLine(lines[i])
    requires forall j :: 0 <= j < i ==> !IsNameLine(lines[j])
    requires ColonsPresent(lines[..i]) && Orphaned(lines[..i])
    ensures Parse(lines) == Err(MissingName)
  {
    RunShape(lines[..i]);
    NoNameValues(lines[..i]);
    RunNext(lines, i);
    RaisedAt(lines, i, MissingName);
  }

  /**
   * Wherever it stands, a `Name` line without a colon raises IndexError,
   * as long as the lines before it raised nothing and the flush it
   * triggers first does not raise KeyError.
   */
  lemma NameWithoutColonRaisesAt(lines: seq<string>, i: nat)
    requires i < |lines| && IsNameLine(lines[i]) && ':' !in lines[i]
    requires ColonsPresent(lines[..i]) && !Orphaned(lines[..i])
    ensures Parse(lines) == Err(MissingColon(lines[i]))
  {
    RunShape(lines[..i]);
    RunNext(lines, i);
    RaisedAt(lines, i, MissingColon(lines[i]));
  }

  /**
   * pacman's answer cut at its `Name` lines: each block is a `Name` line
   * followed by the lines up to the next `Name` line or the end; the lines
   * before the first `Name` line belong to no block.
   */
  function Blocks(lines: seq<string>): seq<seq<string>> {
    if |lines| == 0 then []
    else
      var bs := Blocks(lines[..|lines| - 1]);
      var line := lines[|lines| - 1];
      if IsNameLine(line) then bs + [[line]]
      else if |bs| == 0 then []
      else bs[..|bs| - 1] + [bs[|bs| - 1] + [line]]
  }

  /** The blocks one after the other. */
  function Concat(bs: seq<seq<string>>): seq<string> {
    if |bs| == 0 then [] else Concat(bs[..|bs| - 1]) + bs[|bs| - 1]
  }

  /** The position of the first `Name` line, or `|lines|` when there is none. */
  function FirstName(lines: seq<string>): (i: nat)
    ensures i <= |lines|
  {
    if |lines| == 0 then 0
    else
      var i := FirstName(lines[..|lines| - 1]);
      if i < |lines| - 1 then i
      else if IsNameLine(lines[|lines| - 1]) then |lines| - 1
      else |lines|
  }

  /**
   * The stripped value of the last line of `tail` that starts with `key`,
   * `None` when no line of `tail` does.
   */
  function LastValue(tail: seq<string>, key: string): Option<string> {
    if |tail| == 0 then None
    else if StartsWith(tail[|tail| - 1], key) then ValueAfter(tail[|tail| - 1], ':')
    else LastValue(tail[..|tail| - 1], key)
  }

  /** The record one block describes: its `Name` value and the last `Description` and `Install Date` after it. */
  function BlockRecord(block: seq<string>): Record {
    if |block| == 0 then Record("", None, None)
    else Record(ValueAfter(block[0], ':').GetOr(""), LastValue(block[1..], "Description"),
                LastValue(block[1..], "Install Date"))
  }

  function BlockRecords(bs: seq<seq<string>>): (recs: seq<Record>)
    ensures |recs| == |bs| && forall k :: 0 <= k < |bs| ==> recs[k] == BlockRecord(bs[k])
  {
    seq(|bs|, k requires 0 <= k < |bs| => BlockRecord(bs[k]))
  }

  /** `LastValue` finds the last `key` line: its value when there is one, `None` when there is none. */
  lemma {:induction false} LastValueSpec(tail: seq<string>, key: string)
    ensures (forall j :: 0 <= j < |tail| ==> !StartsWith(tail[j], key)) ==> LastValue(tail, key) == None
    ensures forall j :: 0 <= j < |tail| && StartsWith(tail[j], key) && (forall i :: j < i < |tail| ==> !StartsWith(tail[i], key))
                        ==> LastValue(tail, key) == ValueAfter(tail[j], ':')
  {
    if |tail| > 0 {
      var p := tail[..|tail| - 1];
      LastValueSpec(p, key);
      if !StartsWith(tail[|tail| - 1], key) {
        forall j | 0 <= j < |tail| - 1 ensures p[j] == tail[j] { }
      }
    }
  }

  /** One more line after `tail` decides the last value only when it starts with `key`. */
  lemma LastValueSnoc(tail: seq<string>, line: string, key: string)
    ensures LastValue(tail + [line], key) == if StartsWith(line, key) then ValueAfter(line, ':') else LastValue(tail, key)
  {
    assert (tail + [line])[..|tail|] == tail;
  }

  /** No line is both a `Description` and an `Install Date` line. */
  lemma KeysDiffer(line: string)
    requires StartsWith(line, "Description")
    ensures !StartsWith(line, "Install Date")
  {
    assert line[0] == "Description"[0];
  }

  /** Every block starts with its `Name` line and holds no other `Name` line. */
  lemma {:induction false} BlocksWellFormed(lines: seq<string>)
    ensures forall k :: 0 <= k < |Blocks(lines)| ==> |Blocks(lines)[k]| > 0 && IsNameLine(Blocks(lines)[k][0])
    ensures forall k, j :: 0 <= k < |Blocks(lines)| && 1 <= j < |Blocks(lines)[k]| ==> !IsNameLine(Blocks(lines)[k][j])
  {
    if |lines| > 0 {
      var p := lines[..|lines| - 1];
      var line := lines[|lines| - 1];
      var bs := Blocks(p);
      BlocksWellFormed(p);
      if !IsNameLine(line) && |bs| > 0 {
        var n := |bs| - 1;
        var nbs := Blocks(lines);
        assert nbs == bs[..n] + [bs[n] + [line]];
        forall k | 0 <= k < n ensures nbs[k] == bs[k] { }
        assert nbs[n] == bs[n] + [line];
      }
    }
  }

  lemma ConcatSnoc(bs: seq<seq<string>>, b: seq<string>)
    ensures Concat(bs + [b]) == Concat(bs) + b
  {
    assert (bs + [b])[..|bs|] == bs;
  }

  /** No line before the first `Name` line is a `Name` line, and `FirstName` is one when it is not the end. */
  lemma {:induction false} FirstNameSpec(lines: seq<string>)
    ensures forall j :: 0 <= j < FirstName(lines) ==> !IsNameLine(lines[j])
    ensures FirstName(lines) < |lines| ==> IsNameLine(lines[FirstName(lines)])
  {
    if |lines| > 0 {
      var p := lines[..|lines| - 1];
      FirstNameSpec(p);
      forall j | 0 <= j < |p| ensures lines[j] == p[j] { }
    }
  }

  /** The blocks hold exactly the lines from the first `Name` line on. */
  lemma {:induction false} BlocksCover(lines: seq<string>)
    ensures Concat(Blocks(lines)) == lines[FirstName(lines)..]
  {
    if |lines| > 0 {
      var p := lines[..|lines| - 1];
      var line := lines[|lines| - 1];
      assert p + [line] == lines;
      BlocksCover(p);
      CoverStep(p, line);
    }
  }

  lemma CoverStep(p: seq<string>, line: string)
    requires Concat(Blocks(p)) == p[FirstName(p)..]
    ensures Concat(Blocks(p + [line])) == (p + [line])[FirstName(p + [line])..]
  {
    var lines := p + [line];
    assert lines[..|p|] == p;
    var bs := Blocks(p);
    var f := FirstName(p);
    if IsNameLine(line) {
      assert Blocks(lines) == bs + [[line]];
      assert FirstName(lines) == f;
      ConcatSnoc(bs, [line]);
      assert lines[f..] == p[f..] + [line];
    } else if |bs| == 0 {
      assert Blocks(lines) == [];
      assert |p[f..]| == 0;
      assert FirstName(lines) == |lines|;
    } else {
      var n := |bs| - 1;
      assert Blocks(lines) == bs[..n] + [bs[n] + [line]];
      BlocksWellFormed(p);
      BlockAppend(bs, line);
      assert FirstName(lines) == f;
      assert lines[f..] == p[f..] + [line];
    }
  }

  /** Appending a line to the last block appends it to the concatenation, which is not empty. */
  lemma BlockAppend(bs: seq<seq<string>>, line: string)
    requires |bs| > 0 && |bs[|bs| - 1]| > 0
    ensures |Concat(bs)| > 0
    ensures Concat(bs[..|bs| - 1] + [bs[|bs| - 1] + [line]]) == Concat(bs) + [line]
  {
    var n := |bs| - 1;
    assert bs == bs[..n] + [bs[n]];
    ConcatSnoc(bs[..n], bs[n]);
    ConcatSnoc(bs[..n], bs[n] + [line]);
  }

  /** The loop's state holds the records of all blocks but the last, and the dict of the last one. */
  predicate FilledState(bs: seq<seq<string>>, st: ParseState) {
    if |bs| == 0 then st.done == [] && st.current.name.None?
    else
      var last := BlockRecord(bs[|bs| - 1]);
      && st.done == BlockRecords(bs[..|bs| - 1])
      && st.current == Fields(Some(last.name), last.description, last.installDate)
  }

  /** What the loop holds after the lines `lines`, in terms of their blocks. */
  ghost predicate Filled(lines: seq<string>) {
    Run(lines).Ok? ==> FilledState(Blocks(lines), Run(lines).value)
  }

  lemma {:induction false} RunFilled(lines: seq<string>)
    ensures Filled(lines)
  {
    if |lines| > 0 {
      var p := lines[..|lines| - 1];
      RunFilled(p);
      BlocksWellFormed(p);
      FilledStep(p, lines[|lines| - 1]);
      assert p + [lines[|lines| - 1]] == lines;
    }
  }

  lemma FilledStep(p: seq<string>, line: string)
    requires Filled(p)
    requires forall k :: 0 <= k < |Blocks(p)| ==> |Blocks(p)[k]| > 0
    ensures Filled(p + [line])
  {
    var lines := p + [line];
    assert lines[..|p|] == p;
    var bs := Blocks(p);
    if Run(p).Ok? && Run(lines).Ok? {
      var st := Run(p).value;
      assert Run(lines) == Step(st, line);
      var next := Run(lines).value;
      if IsNameLine(line) {
        assert Blocks(lines) == bs + [[line]];
        NameFilled(bs, st, line, next);
      } else if |bs| > 0 {
        var n := |bs| - 1;
        assert Blocks(lines) == bs[..n] + [bs[n] + [line]];
        DetailFilled(bs, st, line, next);
      } else {
        assert Blocks(lines) == [];
      }
    }
  }

  /** A `Name` line closes the open block into a record and opens a block of its own. */
  lemma NameFilled(bs: seq<seq<string>>, st: ParseState, line: string, next: ParseState)
    requires FilledState(bs, st) && IsNameLine(line) && Step(st, line) == Ok(next)
    ensures FilledState(bs + [[line]], next)
  {
    var nbs := bs + [[line]];
    assert nbs[..|nbs| - 1] == bs;
    assert [line][1..] == [];
    if |bs| > 0 {
      var n := |bs| - 1;
      assert bs == bs[..n] + [bs[n]];
      assert BlockRecords(bs) == BlockRecords(bs[..n]) + [BlockRecord(bs[n])];
    }
  }

  /** Any other line joins the open block, and a field line sets that field of its dict. */
  lemma DetailFilled(bs: seq<seq<string>>, st: ParseState, line: string, next: ParseState)
    requires |bs| > 0 && |bs[|bs| - 1]| > 0
    requires FilledState(bs, st) && !IsNameLine(line) && Step(st, line) == Ok(next)
    ensures FilledState(bs[..|bs| - 1] + [bs[|bs| - 1] + [line]], next)
  {
    var n := |bs| - 1;
    var nbs := bs[..n] + [bs[n] + [line]];
    assert nbs[..n] == bs[..n];
    assert (bs[n] + [line])[1..] == bs[n][1..] + [line];
    LastValueSnoc(bs[n][1..], line, "Description");
    LastValueSnoc(bs[n][1..], line, "Install Date");
    if StartsWith(line, "Description") {
      KeysDiffer(line);
    }
  }

  /**
   * A successful parse yields one record per block, in order: the `Name`
   * value of its block, and the stripped values of the block's last
   * `Description` and `Install Date` lines, `None` where the block has no
   * such line.
   */
  lemma ParseRecords(lines: seq<string>)
    ensures Parse(lines).Ok? ==> Parse(lines).value == BlockRecords(Blocks(lines))
  {
    RunFilled(lines);
    var bs := Blocks(lines);
    if Run(lines).Ok? && |bs| > 0 {
      var n := |bs| - 1;
      assert bs == bs[..n] + [bs[n]];
      assert BlockRecords(bs) == BlockRecords(bs[..n]) + [BlockRecord(bs[n])];
    }
  }
}
