/**
 `iter_json_array_records`: a top-level JSON array of objects, read through a buffer that is
 refilled chunk by chunk.

 `ReadArray` says what the array in a whole text is; `IterJsonArrayRecords` is the streaming loop,
 proved to give the same records and to end in the same way for every positive chunk size.
 */
module JsonArrayReader {
  import opened Wrappers
  import opened JsonScanner
  import opened JsonLocality
  import opened PyText

  /** How a reading ends: by itself, at the limit, or with one of the reader's errors. */
  datatype Outcome =
    | Finished
    | LimitReached
    | BadChunkSize
    | Truncated
    | NotAnArray
    | TrailingComma
    | ExpectedCommaOrBracket
    | ExtraContent
    | InvalidJson
    | NotAnObject

  datatype Reading = Reading(records: seq<Value>, outcome: Outcome)

  function Prepend(vs: seq<Value>, r: Reading): Reading {
    Reading(vs + r.records, r.outcome)
  }

  function SkipSpace(s: string): (r: string)
    ensures |r| <= |s|
    ensures r != "" ==> !IsSpace(r[0])
  {
    if s != "" && IsSpace(s[0]) then SkipSpace(s[1..]) else s
  }

  // ---------------------------------------------------------------- the whole text

  datatype Mode = BeforeArray | FirstValue | ValueAfterComma | AfterValue

  /** What follows the closing bracket. */
  function Closing(s: string): Outcome {
    if SkipSpace(s) == "" then Finished else ExtraContent
  }

  /** Reads the rest `text` of an array, at most `left` more records. */
  function Read(mode: Mode, text: string, left: Option<nat>): Reading
    decreases |text|
  {
    var s := SkipSpace(text);
    if s == "" then Reading([], Truncated)
    else match mode
      case BeforeArray =>
        if s[0] != '[' then Reading([], NotAnArray) else Read(FirstValue, s[1..], left)
      case AfterValue =>
        if s[0] == ',' then Read(ValueAfterComma, s[1..], left)
        else if s[0] == ']' then Reading([], Closing(s[1..]))
        else Reading([], ExpectedCommaOrBracket)
      case _ =>
        if s[0] == ']' then
          Reading([], if mode == ValueAfterComma then TrailingComma else Closing(s[1..]))
        else
          var v := ScanValue(s);
          if v.Fail? then Reading([], InvalidJson)
          else if !v.value.Obj? then Reading([], NotAnObject)
          else if left.Some? && left.value <= 1 then Reading([v.value], LimitReached)
          else Prepend([v.value], Read(AfterValue, v.rest, Less(left)))
  }

  /** The limit after one more record. */
  function Less(left: Option<nat>): Option<nat> {
    if left.Some? && left.value > 0 then Some(left.value - 1) else left
  }

  function ReadArray(text: string, limit: Option<int>): Reading {
    match limit
    case None => Read(BeforeArray, text, None)
    case Some(n) => if n <= 0 then Reading([], LimitReached) else Read(BeforeArray, text, Some(n))
  }

  // ---------------------------------------------------------------- the refillable buffer

  lemma {:induction false} SkipSpaceExtends(s: string, t: string)
    ensures SkipSpace(s) != "" ==> SkipSpace(s + t) == SkipSpace(s) + t
    ensures SkipSpace(s) == "" ==> SkipSpace(s + t) == SkipSpace(t)
  {
    if s != "" {
      assert (s + t)[1..] == s[1..] + t;
      if IsSpace(s[0]) { SkipSpaceExtends(s[1..], t); }
    } else {
      assert s + t == t;
    }
  }

  /** The reader's three flags, as one mode. */
  function ModeOf(started: bool, expectValue: bool, afterComma: bool): Mode {
    if !started then BeforeArray
    else if !expectValue then AfterValue
    else if afterComma then ValueAfterComma
    else FirstValue
  }

  ghost function Left(limit: Option<int>, yielded: nat): Option<nat> {
    match limit
    case None => None
    case Some(n) => if n < yielded then Some(0) else Some(n - yielded)
  }

  datatype Step = Continue | Stop(outcome: Outcome)

  /** The generator's state: the open file, the window on it, the flags and the records yielded. */
  class Reader {
    const chunkSize: nat
    const limit: Option<int>
    var unread: string
    var buffer: string
    var position: nat
    var eof: bool
    var started: bool
    var expectValue: bool
    var afterComma: bool
    var records: seq<Value>

    ghost predicate Valid()
      reads this
    {
      && chunkSize > 0 && position <= |buffer| && (eof ==> unread == "")
      && (limit.Some? ==> |records| < limit.value)
      && (!started ==> expectValue && !afterComma)
    }

    /** Everything not yet consumed. */
    ghost function Ahead(): string
      requires Valid()
      reads this
    {
      buffer[position..] + unread
    }

    /** What the reading will have been, when `rest` is read as one text from here on. */
    ghost function WholeFrom(rest: string): Reading
      reads this
    {
      Prepend(records, Read(ModeOf(started, expectValue, afterComma), rest, Left(limit, |records|)))
    }

    ghost function Whole(): Reading
      requires Valid()
      reads this
    {
      WholeFrom(Ahead())
    }

    /** Unread file, end-of-file flag and unread buffer, as one measure. */
    ghost function Measure(): nat
      requires Valid()
      reads this
    {
      2 * |unread| + (if eof then 0 else 1) + |buffer| - position
    }

    /** The position is at a character that is no space. */
    ghost predicate AtToken()
      requires Valid()
      reads this
    {
      position < |buffer| && !IsSpace(buffer[position])
    }

    constructor (text: string, limit: Option<int>, chunkSize: nat)
      requires chunkSize > 0 && (limit.Some? ==> limit.value > 0)
      ensures Valid() && records == [] && Whole() == ReadArray(text, limit)
    {
      this.chunkSize, this.limit := chunkSize, limit;
      unread, buffer, position, eof := text, "", 0, false;
      started, expectValue, afterComma, records := false, true, false, [];
      new;
      assert Ahead() == text;
    }

    /** Drops the consumed part of the buffer and reads one more chunk. */
    method Refill()
      requires Valid() && !eof
      modifies this`unread, this`buffer, this`position, this`eof
      ensures Valid() && Ahead() == old(Ahead()) && Measure() < old(Measure())
    {
      if position > 0 {
        buffer := buffer[position..];
        position := 0;
      }
      var n := if chunkSize < |unread| then chunkSize else |unread|;
      var chunk := unread[..n];
      unread := unread[n..];
      if chunk != "" {
        buffer := buffer + chunk;
      } else {
        eof := true;
      }
    }

    method SkipSpaces()
      requires Valid()
      modifies this`position
      ensures Valid() && Measure() <= old(Measure())
      ensures SkipSpace(Ahead()) == SkipSpace(old(Ahead()))
      ensures position < |buffer| ==> AtToken()
    {
      while position < |buffer| && IsSpace(buffer[position])
        invariant Valid() && Measure() <= old(Measure())
        invariant SkipSpace(Ahead()) == SkipSpace(old(Ahead()))
      {
        assert Ahead()[1..] == buffer[position + 1..] + unread;
        position := position + 1;
      }
    }

    /** After the closing bracket: nothing but space may follow. */
    method Finish() returns (outcome: Outcome)
      requires Valid()
      modifies this`unread, this`buffer, this`position, this`eof
      ensures outcome == Closing(old(Ahead()))
    {
      while true
        invariant Valid()
        invariant SkipSpace(Ahead()) == SkipSpace(old(Ahead()))
        decreases Measure()
      {
        SkipSpaces();
        if position < |buffer| {
          assert Ahead()[0] == buffer[position];
          return ExtraContent;
        }
        if eof {
          assert Ahead() == "";
          return Finished;
        }
        Refill();
      }
    }

    /** Before the array: its opening bracket. */
    method Open() returns (step: Step)
      requires Valid() && AtToken() && !started
      modifies this`position, this`started
      ensures step.Continue? ==> Valid() && Whole() == old(Whole()) && Measure() < old(Measure())
      ensures step.Stop? ==> Reading(records, step.outcome) == old(Whole())
    {
      assert Ahead()[0] == buffer[position] && Ahead()[1..] == buffer[position + 1..] + unread;
      if buffer[position] != '[' { return Stop(NotAnArray); }
      position := position + 1;
      started := true;
      step := Continue;
    }

    /** After a record: a comma, or the closing bracket. */
    method Separator() returns (step: Step)
      requires Valid() && AtToken() && started && !expectValue
      modifies this`unread, this`buffer, this`position, this`eof, this`expectValue, this`afterComma
      ensures step.Continue? ==> Valid() && Whole() == old(Whole()) && Measure() < old(Measure())
      ensures step.Stop? ==> Reading(records, step.outcome) == old(Whole())
    {
      assert Ahead()[0] == buffer[position] && Ahead()[1..] == buffer[position + 1..] + unread;
      if buffer[position] == ',' {
        position := position + 1;
        expectValue, afterComma := true, true;
        return Continue;
      }
      if buffer[position] == ']' {
        position := position + 1;
        var outcome := Finish();
        return Stop(outcome);
      }
      step := Stop(ExpectedCommaOrBracket);
    }

    /** The closing bracket where a value could stand. */
    method CloseInsteadOfValue() returns (step: Step)
      requires Valid() && AtToken() && started && expectValue && buffer[position] == ']'
      modifies this`unread, this`buffer, this`position, this`eof
      ensures step.Stop? && Reading(records, step.outcome) == old(Whole())
    {
      assert Ahead()[0] == buffer[position] && Ahead()[1..] == buffer[position + 1..] + unread;
      if afterComma { return Stop(TrailingComma); }
      position := position + 1;
      var outcome := Finish();
      step := Stop(outcome);
    }

    /** Tries to decode a value at the position; on success the position moves past it. */
    method Decode() returns (item: Scan<Value>)
      requires Valid()
      modifies this`position
      ensures Valid()
      ensures item.Fail? ==> position == old(position) && (eof ==> ScanValue(Ahead()).Fail?)
      ensures item.Got? ==> old(position) < position
      ensures item.Got? && item.value.Obj? ==> ScanValue(old(Ahead())) == Got(item.value, Ahead())
      ensures item.Got? && !item.value.Obj? ==> ScanValue(old(Ahead())).Got? && !ScanValue(old(Ahead())).value.Obj?
    {
      ghost var window := buffer[position..];
      item := ScanValue(buffer[position..]);
      if item.Fail? {
        assert eof ==> window == Ahead();
        return;
      }
      ScanValueExtends(window, unread);
      ScanValueSuffix(window);
      position := |buffer| - |item.rest|;
      assert buffer[position..] == item.rest;
    }

    /** Yields the record just decoded from `token`. */
    method Yield(item: Value, ghost token: string) returns (step: Step)
      requires Valid() && started && expectValue
      requires token != "" && !IsSpace(token[0]) && token[0] != ']'
      requires ScanValue(token) == Got(item, Ahead()) && item.Obj?
      modifies this`expectValue, this`afterComma, this`records
      ensures step.Continue? ==> Valid() && Whole() == old(WholeFrom(token))
      ensures step.Stop? ==> Reading(records, step.outcome) == old(WholeFrom(token))
    {
      ReadYields(records, ModeOf(started, expectValue, afterComma), token, Left(limit, |records|), item, Ahead());
      expectValue, afterComma := false, false;
      records := records + [item];
      step := if limit.Some? && |records| >= limit.value then Stop(LimitReached) else Continue;
    }

    /** Where a record is expected: decode it, or ask for more text and try again. */
    method Record() returns (step: Step)
      requires Valid() && AtToken() && started && expectValue && buffer[position] != ']'
      modifies this
      ensures step.Continue? ==> Valid() && Whole() == old(Whole()) && Measure() < old(Measure())
      ensures step.Stop? ==> Reading(records, step.outcome) == old(Whole())
    {
      ghost var token := Ahead();
      assert token[0] == buffer[position];
      ReadStops(records, ModeOf(started, expectValue, afterComma), token, Left(limit, |records|));
      var item := Decode();
      if item.Fail? {
        if eof { return Stop(InvalidJson); }
        Refill();
        return Continue;
      }
      if !item.value.Obj? { return Stop(NotAnObject); }
      step := Yield(item.value, token);
    }

    /** One turn of the main loop. */
    method Turn() returns (step: Step)
      requires Valid()
      modifies this
      ensures step.Continue? ==> Valid() && Whole() == old(Whole()) && Measure() < old(Measure())
      ensures step.Stop? ==> Reading(records, step.outcome) == old(Whole())
    {
      if position >= |buffer| && !eof { Refill(); }
      ghost var ahead := Ahead();
      SkipSpaces();
      ReadSkips(ModeOf(started, expectValue, afterComma), ahead, Ahead(), Left(limit, |records|));
      assert Whole() == old(Whole());
      if position >= |buffer| {
        if eof {
          assert Ahead() == "";
          return Stop(Truncated);
        }
        Refill();
        return Continue;
      }
      if !started {
        step := Open();
      } else if !expectValue {
        step := Separator();
      } else if buffer[position] == ']' {
        step := CloseInsteadOfValue();
      } else {
        step := Record();
      }
    }
  }

  /** The whole loop: for every chunk size, the reading of the whole text. */
  method IterJsonArrayRecords(text: string, limit: Option<int>, chunkSize: int)
    returns (records: seq<Value>, outcome: Outcome)
    ensures chunkSize <= 0 ==> records == [] && outcome == BadChunkSize
    ensures chunkSize > 0 ==> Reading(records, outcome) == ReadArray(text, limit)
  {
    if chunkSize <= 0 { return [], BadChunkSize; }
    if limit.Some? && limit.value <= 0 { return [], LimitReached; }
    var reader := new Reader(text, limit, chunkSize);
    while true
      invariant fresh(reader) && reader.Valid() && reader.Whole() == ReadArray(text, limit)
      decreases reader.Measure()
    {
      var step := reader.Turn();
      if step.Stop? { return reader.records, step.outcome; }
    }
  }

  /** One record of the array, after those already read. */
  lemma ReadYields(done: seq<Value>, mode: Mode, s: string, left: Option<nat>, item: Value, rest: string)
    requires mode == FirstValue || mode == ValueAfterComma
    requires s != "" && SkipSpace(s) == s && s[0] != ']'
    requires ScanValue(s) == Got(item, rest) && item.Obj?
    ensures left.Some? && left.value <= 1 ==>
              Prepend(done, Read(mode, s, left)) == Reading(done + [item], LimitReached)
    ensures !(left.Some? && left.value <= 1) ==>
              Prepend(done, Read(mode, s, left)) == Prepend(done + [item], Read(AfterValue, rest, Less(left)))
  {
    assert done + ([item] + Read(AfterValue, rest, Less(left)).records)
        == done + [item] + Read(AfterValue, rest, Less(left)).records;
  }

  lemma ReadStops(done: seq<Value>, mode: Mode, s: string, left: Option<nat>)
    requires mode == FirstValue || mode == ValueAfterComma
    requires s != "" && SkipSpace(s) == s && s[0] != ']'
    ensures ScanValue(s).Fail? ==> Prepend(done, Read(mode, s, left)) == Reading(done, InvalidJson)
    ensures ScanValue(s).Got? && !ScanValue(s).value.Obj? ==>
              Prepend(done, Read(mode, s, left)) == Reading(done, NotAnObject)
  {
  }

  lemma ReadSkips(mode: Mode, s: string, t: string, left: Option<nat>)
    requires SkipSpace(s) == SkipSpace(t)
    ensures Read(mode, s, left) == Read(mode, t, left)
  {
  }
}
