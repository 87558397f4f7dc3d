/**
 The buffered reader over an append-only file: a sliding window that is refilled from the file, whose
 reads may be short, interrupted or fail. After every read the window shows the bytes of the file at
 the position reached by the advances so far.
 */
module BufferedReading {
  import opened Basics

  type Byte = b: nat | b < 256

  /**
   What the operating system does with one `read_at`; `Partial(n)` reads `n` bytes, or all if `n` is 0 or too
   many.
   */
  datatype Weather = Interrupted | Failed | Partial(n: nat)

  datatype ReadAtResult = Ok(bytes: nat) | Retry | Error

  /**
   The outcome of filling a buffer. `Endless`: the file ends before its valid length and the loop reads nothing
   forever.
   */
  datatype Filled = Bytes(n: nat) | Failure | Endless

  /** `buf[from..from + n]` are the bytes of the file from `offset` on. */
  ghost predicate Shows(buf: seq<Byte>, from: nat, n: nat, content: seq<Byte>, offset: nat) {
    && from + n <= |buf| && (n > 0 ==> offset + n <= |content|)
    && forall j :: from <= j < from + n ==> buf[j] == content[j - from + offset]
  }

  /** The first `n` bytes are the same. */
  ghost predicate SameFront(a: seq<Byte>, b: seq<Byte>, n: nat) {
    n <= |a| == |b| && forall j :: 0 <= j < n ==> a[j] == b[j]
  }

  /** From `before`, the outcomes up to `after` have been used, and a failure was among them or not. */
  ghost predicate Used(before: seq<Weather>, after: seq<Weather>, failed: bool) {
    && |after| <= |before|
    && after == before[|before| - |after|..]
    && (failed <==> Failed in before[..|before| - |after|])
  }

  lemma UsedOn(a: seq<Weather>, b: seq<Weather>, c: seq<Weather>, failed: bool)
    requires Used(a, b, false) && Used(b, c, failed)
    ensures Used(a, c, failed)
  {
    var m, n := |a| - |b|, |a| - |c|;
    assert a[..n] == a[..m] + b[..n - m];
  }

  /** A file, and the outcomes that its next reads will have; after these, reads are complete. */
  class File {
    const content: seq<Byte>
    var weather: seq<Weather>

    constructor (content: seq<Byte>, weather: seq<Weather>)
      ensures this.content == content && this.weather == weather
    {
      this.content := content;
      this.weather := weather;
    }

    /** `FileExt::read_at` into `buf[from..]`: some bytes, but none only at the end of file or buffer. */
    method ReadAt(buf: array<Byte>, from: nat, offset: nat) returns (r: ReadAtResult)
      requires from <= buf.Length
      modifies this, buf
      ensures Used(old(weather), weather, r.Error?) && (r.Retry? ==> |weather| < |old(weather)|)
      ensures r.Ok? ==>
                && (from < buf.Length && offset < |content| ==> r.bytes > 0)
                && Shows(buf[..], from, r.bytes, content, offset)
      ensures SameFront(buf[..], old(buf[..]), from)
      ensures weather == old(weather) ==> weather == []
    {
      var most := if offset >= |content| then 0 else |content| - offset;
      if buf.Length - from < most {
        most := buf.Length - from;
      }
      var now := NextWeather();
      match now {
        case Interrupted => return Retry;
        case Failed => return Error;
        case Partial(n) =>
          if 0 < n < most {
            most := n;
          }
      }
      if most > 0 {
        CopyInto(buf, from, offset, most);
      }
      r := Ok(most);
    }

    method NextWeather() returns (now: Weather)
      modifies this
      ensures Used(old(weather), weather, now.Failed?) && (now.Interrupted? ==> |weather| < |old(weather)|)
      ensures weather == old(weather) ==> weather == []
    {
      if weather == [] {
        return Partial(0);
      }
      now := weather[0];
      assert weather[..1] == [now];
      weather := weather[1..];
    }

    method CopyInto(buf: array<Byte>, from: nat, offset: nat, n: nat)
      requires from + n <= buf.Length && offset + n <= |content|
      modifies buf
      ensures Shows(buf[..], from, n, content, offset) && SameFront(buf[..], old(buf[..]), from)
    {
      for i := 0 to n
        invariant Shows(buf[..], from, i, content, offset) && SameFront(buf[..], old(buf[..]), from)
      {
        buf[from + i] := content[offset + i];
      }
    }
  }

  /** How many of the valid bytes of the file lie at or after `position`. */
  function Remaining(fileLenValid: nat, position: nat): nat {
    if position < fileLenValid then fileLenValid - position else 0
  }

  /** One `read_at` that continues `k` bytes already read. */
  method ReadOn(file: File, buf: array<Byte>, from: nat, k: nat, startOffset: nat) returns (r: ReadAtResult)
    requires Shows(buf[..], from, k, file.content, startOffset)
    modifies file, buf
    ensures SameFront(buf[..], old(buf[..]), from)
    ensures Used(old(file.weather), file.weather, r.Error?) && (r.Retry? ==> |file.weather| < |old(file.weather)|)
    ensures Shows(buf[..], from, k + (if r.Ok? then r.bytes else 0), file.content, startOffset)
    ensures r.Ok? && from + k < buf.Length && startOffset + k < |file.content| ==> r.bytes > 0
    ensures file.weather == old(file.weather) ==> file.weather == []
  {
    r := file.ReadAt(buf, from + k, startOffset + k);
  }

  /**
   `read_into_buffer` into `buf[from..]`: reads until the buffer is full or the valid part of the file
   ends, whatever the pattern of short reads and interruptions. It does not end exactly when there is no
   error and the file is too short for what is wanted.
   */
  method ReadIntoBuffer(file: File, fileLenValid: nat, startOffset: nat, buf: array<Byte>, from: nat)
    returns (r: Filled)
    requires from <= buf.Length
    modifies file, buf
    ensures Used(old(file.weather), file.weather, r.Failure?)
    ensures var wanted := Min(buf.Length - from, Remaining(fileLenValid, startOffset));
            && (r.Endless? ==> wanted > Remaining(|file.content|, startOffset))
            && (r.Bytes? ==> r.n == wanted <= Remaining(|file.content|, startOffset))
            && (r.Bytes? ==> Shows(buf[..], from, wanted, file.content, startOffset))
    ensures SameFront(buf[..], old(buf[..]), from)
  {
    var bufferOffset: nat, totalBytesRead: nat := 0, 0;
    if startOffset >= fileLenValid {
      return Bytes(0);
    }
    while bufferOffset < buf.Length - from
      invariant totalBytesRead == bufferOffset <= buf.Length - from
      invariant startOffset + bufferOffset < fileLenValid
      invariant Shows(buf[..], from, bufferOffset, file.content, startOffset)
      invariant SameFront(buf[..], old(buf[..]), from)
      invariant Used(old(file.weather), file.weather, false)
      decreases |file.weather|, buf.Length - bufferOffset
    {
      ghost var weather := file.weather;
      var quiet := file.weather == [];
      var result := ReadOn(file, buf, from, bufferOffset, startOffset);
      UsedOn(old(file.weather), weather, file.weather, result.Error?);
      match result {
        case Retry =>
        case Error => return Failure;
        case Ok(n) =>
          totalBytesRead := totalBytesRead + n;
          if totalBytesRead + startOffset >= fileLenValid {
            totalBytesRead := totalBytesRead - ((totalBytesRead + startOffset) - fileLenValid);
            break;
          }
          if quiet && n == 0 {
            return Endless;
          }
          bufferOffset := bufferOffset + n;
      }
    }
    r := Bytes(totalBytesRead);
  }

  /** `copy_within(start..end, 0)`. */
  method CopyToFront(buf: array<Byte>, start: nat, end: nat)
    requires start <= end <= buf.Length
    modifies buf
    ensures Moved(old(buf[..]), buf[..], start, end)
  {
    for i := 0 to end - start
      invariant forall j :: 0 <= j < i ==> buf[j] == old(buf[start + j])
      invariant forall j :: start + i <= j < buf.Length ==> buf[j] == old(buf[j])
    {
      buf[i] := buf[start + i];
    }
  }

  /** The bytes from `start` to `end` are now at the front. */
  ghost predicate Moved(before: seq<Byte>, after: seq<Byte>, start: nat, end: nat) {
    && start <= end <= |before| == |after|
    && forall j :: 0 <= j < end - start ==> after[j] == before[start + j]
  }

  /** What a refill at a position leaves in the buffer, of which `len` bytes were valid before. */
  ghost predicate Refilled(r: Filled, bytes: seq<Byte>, len: nat, position: nat, fileLenValid: nat,
                           content: seq<Byte>) {
    var wanted, there := Min(|bytes|, Remaining(fileLenValid, position)), Remaining(|content|, position);
    match r
    case Failure => true
    case Endless => wanted > there
    case Bytes(n) => len <= n == wanted <= there && Shows(bytes, 0, n, content, position)
  }

  /** A refill behind the valid bytes is a refill of the whole buffer. */
  lemma RefillBehind(r: Filled, moved: seq<Byte>, bytes: seq<Byte>, len: nat, position: nat, fileLenValid: nat,
                     content: seq<Byte>)
    requires Shows(moved, 0, len, content, position) && SameFront(bytes, moved, len)
    requires 0 < len ==> position + len <= fileLenValid
    requires var wanted := Min(|bytes| - len, Remaining(fileLenValid, position + len));
             && (r.Endless? ==> wanted > Remaining(|content|, position + len))
             && (r.Bytes? ==> r.n == wanted <= Remaining(|content|, position + len))
             && (r.Bytes? ==> Shows(bytes, len, wanted, content, position + len))
    ensures Refilled(if r.Bytes? then Bytes(len + r.n) else r, bytes, len, position, fileLenValid, content)
  {
  }

  /**
   `read_more_buffer`: move the valid bytes `buf[start..end]` to the front and fill up the rest from `offset`.
   Yields the new number of valid bytes; the old ones are at the front in any case.
   */
  method ReadMoreBuffer(file: File, fileLenValid: nat, offset: nat, buf: array<Byte>, start: nat, end: nat)
    returns (r: Filled)
    requires start <= end <= buf.Length && end - start <= offset
    requires start < end ==> offset <= fileLenValid
    requires Shows(buf[..], start, end - start, file.content, offset - (end - start))
    modifies file, buf
    ensures Used(old(file.weather), file.weather, r.Failure?) && Moved(old(buf[..]), buf[..], start, end)
    ensures Refilled(r, buf[..], end - start, offset - (end - start), fileLenValid, file.content)
  {
    var len := end - start;
    CopyToFront(buf, start, end);
    ghost var moved := buf[..];
    var more := ReadIntoBuffer(file, fileLenValid, offset, buf, len);
    RefillBehind(more, moved, buf[..], len, offset - len, fileLenValid, file.content);
    r := if more.Bytes? then Bytes(len + more.n) else more;
  }

  datatype Status = Eof | Success

  /** What a read yields. `Hangs` stands for a read that does not return. */
  datatype ReadResult = Done(status: Status) | IoError | Hangs

  /** The state of a reader as a value. */
  datatype Snapshot = Snapshot(bytes: seq<Byte>, start: nat, end: nat, next: nat, last: nat, required: Option<nat>) {
    ghost predicate Ordered() {
      start <= end <= |bytes| && end - start <= next
    }

    ghost function Position(): nat
      requires Ordered()
    {
      next - (end - start)
    }

    /** The offset that is reported is the position; an advance beyond the window delays that to the next read. */
    ghost predicate InSync()
      requires Ordered()
    {
      last + start == Position()
    }

    /**
     The window shows the bytes of the file at the position. The offset that is reported is the position,
     unless the window is empty.
     */
    ghost predicate Good(fileLenValid: nat, content: seq<Byte>) {
      && Ordered() && (start < end ==> next <= fileLenValid)
      && Shows(bytes, start, end - start, content, Position())
      && last + start <= Position() && (!InSync() ==> start == end == 0)
    }

    /** The state after a refill that left the given bytes in the buffer. */
    ghost function After(filled: Filled, buffer: seq<Byte>): Snapshot
      requires Ordered()
    {
      if filled.Bytes? then Snapshot(buffer, 0, filled.n, Position() + filled.n, Position(), required)
      else this.(bytes := buffer, last := Position())
    }
  }

  /** After a failed refill: the bytes have moved to the front and the last offset is set, the window is as it was. */
  ghost predicate Spoilt(before: Snapshot, after: Snapshot)
    requires before.Ordered()
  {
    && Moved(before.bytes, after.bytes, before.start, before.end)
    && after == before.(bytes := after.bytes, last := before.Position())
  }

  /** A failed refill leaves the reader as it should be exactly when the window began at the front. */
  lemma SpoiltExactly(before: Snapshot, after: Snapshot, fileLenValid: nat, content: seq<Byte>)
    requires before.Good(fileLenValid, content) && Spoilt(before, after)
    ensures after.Good(fileLenValid, content) <==> before.start == 0
  {
    assert after.Ordered() && after.Position() == before.Position();
    assert after.last + after.start == before.Position() + before.start;
    if before.start == 0 {
      assert after.InSync() && Shows(after.bytes, 0, after.end, content, after.Position());
    } else {
      assert !after.Good(fileLenValid, content);
    }
  }

  /** After a refill: the window begins at the front and holds all there is room for. */
  ghost predicate FilledUp(before: Snapshot, after: Snapshot, fileLenValid: nat, content: seq<Byte>)
    requires before.Ordered()
  {
    && after.Good(fileLenValid, content) && after.Position() == before.Position() == after.last
    && after.start == 0 && after.end == Min(|after.bytes|, Remaining(fileLenValid, before.Position()))
    && after.required == before.required && |after.bytes| == |before.bytes|
  }

  lemma RefilledIsFilledUp(before: Snapshot, bytes: seq<Byte>, n: nat, fileLenValid: nat, content: seq<Byte>)
    requires before.Ordered() && |bytes| == |before.bytes|
    requires Refilled(Bytes(n), bytes, before.end - before.start, before.Position(), fileLenValid, content)
    ensures FilledUp(before, before.After(Bytes(n), bytes), fileLenValid, content)
  {
  }

  /**
   What a completed read leaves, when `must` bytes were required. Success exactly when the buffer and the rest of
   the file are long enough; otherwise the window shows all there is.
   */
  ghost predicate ReadLeaves(before: Snapshot, after: Snapshot, status: Status, must: nat, setup: Setup)
    requires before.Ordered()
  {
    && after.Good(setup.fileLenValid, setup.content) && after.Position() == before.Position()
    && (after.InSync() <==> before.InSync() || must > 0)
    && (status.Success? <==> setup.Available(after.Position()) >= must)
    && (status.Success? ==> after.end - after.start >= must && after.required.None?)
    && (status.Eof? ==>
         after.end - after.start == setup.Available(after.Position()) && after.required == before.required)
  }

  lemma WindowLeaves(before: Snapshot, must: nat, setup: Setup)
    requires before.Good(setup.fileLenValid, setup.content)
    requires |before.bytes| == setup.bufferLen && must <= before.end - before.start
    ensures ReadLeaves(before, before.(required := None), Success, must, setup)
  {
  }

  lemma RefillLeaves(before: Snapshot, after: Snapshot, must: nat, setup: Setup)
    requires before.Ordered() && FilledUp(before, after, setup.fileLenValid, setup.content)
    requires |before.bytes| == setup.bufferLen && must > 0
    ensures if after.end < must then ReadLeaves(before, after, Eof, must, setup)
            else ReadLeaves(before, after.(required := None), Success, must, setup)
  {
  }

  lemma EventFits(before: Snapshot, after: Snapshot, status: Status, data: seq<Byte>, setup: Setup)
    requires before.Ordered()
    requires var must := before.required.GetOr(setup.defaultRequirement);
             must > 0 && ReadLeaves(before, after, status, must, setup)
    requires |data| == after.end - after.start
    requires data == if data == [] then [] else setup.content[after.Position()..after.Position() + |data|]
    ensures setup.Fits(Request(before.Position(), before.required), Event(status, after.last + after.start, data))
    ensures after.required == if status.Success? then None else before.required
  {
  }

  class BufferedReader {
    var fileOffsetOfNextRead: nat
    const buf: array<Byte>
    /** `buf_valid_bytes` */
    var start: nat
    var end: nat
    var fileLastOffset: nat
    var readRequirements: Option<nat>
    const fileLenValid: nat
    const file: File
    const defaultMinReadRequirement: nat

    constructor (bufferSize: nat, fileLenValid: nat, file: File, defaultMinReadRequirement: nat)
      ensures Valid() && InSync() && Position() == 0 && start == end == 0 && readRequirements.None? && fresh(buf)
      ensures this.file == file && this.fileLenValid == fileLenValid
      ensures this.defaultMinReadRequirement == defaultMinReadRequirement
      ensures buf.Length == Min(bufferSize, fileLenValid)
    {
      fileOffsetOfNextRead, start, end, fileLastOffset, readRequirements := 0, 0, 0, 0, None;
      buf := new Byte[if bufferSize < fileLenValid then bufferSize else fileLenValid](_ => 0);
      this.fileLenValid, this.file, this.defaultMinReadRequirement := fileLenValid, file, defaultMinReadRequirement;
    }

    /** The offset in the file of the window's first byte: the sum of all advances. */
    function Position(): nat
      reads this
      requires start <= end && end - start <= fileOffsetOfNextRead
    {
      fileOffsetOfNextRead - (end - start)
    }

    ghost function View(): Snapshot
      reads this, buf
    {
      Snapshot(buf[..], start, end, fileOffsetOfNextRead, fileLastOffset, readRequirements)
    }

    ghost predicate Valid()
      reads this, buf
    {
      View().Good(fileLenValid, file.content)
    }

    ghost predicate InSync()
      reads this, buf
      requires View().Ordered()
    {
      View().InSync()
    }

    ghost function Parameters(): Setup {
      Setup(file.content, fileLenValid, buf.Length, defaultMinReadRequirement)
    }

    function MustRead(): nat
      reads this
    {
      readRequirements.GetOr(defaultMinReadRequirement)
    }

    /** `advance_offset` */
    method AdvanceOffset(delta: nat)
      requires Valid()
      modifies this
      ensures Valid() && Position() == old(Position()) + delta && readRequirements == old(readRequirements)
      ensures InSync() <==> old(InSync()) && delta <= old(end - start)
      ensures fileLastOffset == old(fileLastOffset)
      ensures if delta <= old(end - start) then start == old(start) + delta && end == old(end) else start == end == 0
    {
      if end - start >= delta {
        start := start + delta;
      } else {
        var additional := delta - (end - start);
        start, end := 0, 0;
        fileOffsetOfNextRead := fileOffsetOfNextRead + additional;
      }
    }

    /** `set_required_data_len` */
    method SetRequiredDataLen(len: nat)
      requires Valid()
      modifies this`readRequirements
      ensures Valid() && Position() == old(Position()) && readRequirements == Some(len)
      ensures InSync() == old(InSync())
    {
      readRequirements := Some(len);
    }

    method Refill() returns (filled: Filled)
      requires Valid()
      modifies buf, file
      ensures Used(old(file.weather), file.weather, filled.Failure?) && Moved(old(buf[..]), buf[..], start, end)
      ensures Refilled(filled, buf[..], end - start, Position(), fileLenValid, file.content)
    {
      filled := ReadMoreBuffer(file, fileLenValid, fileOffsetOfNextRead, buf, start, end);
    }

    method NoteRefill(filled: Filled)
      requires View().Ordered() && (filled.Bytes? ==> end - start <= filled.n)
      modifies this
      ensures View() == old(View().After(filled, buf[..]))
    {
      fileLastOffset := fileOffsetOfNextRead - (end - start);
      if filled.Bytes? {
        fileOffsetOfNextRead := fileOffsetOfNextRead + (filled.n - (end - start));
        start, end := 0, filled.n;
      }
    }

    /** Move the window to the front of the buffer and read on behind it; all there is room for is read. */
    method FillBuffer() returns (filled: Filled)
      requires Valid()
      modifies this, buf, file
      ensures Used(old(file.weather), file.weather, filled.Failure?)
      ensures filled.Endless? ==> !Parameters().Fillable(old(Position()))
      ensures filled.Bytes? ==>
                FilledUp(old(View()), View(), fileLenValid, file.content) && Parameters().Fillable(old(Position()))
      ensures filled.Failure? ==> Spoilt(old(View()), View())
    {
      ghost var before := View();
      filled := Refill();
      if filled.Bytes? {
        RefilledIsFilledUp(before, buf[..], filled.n, fileLenValid, file.content);
      }
      NoteRefill(filled);
    }

    /**
     `read`: make sure that the required number of bytes is in the window. An I/O error is reported exactly when
     one occurred, and leaves the reader usable exactly when the window began at the front of the buffer. A read
     only hangs when the file is shorter than its valid length demands.
     */
    method Read() returns (r: ReadResult)
      requires Valid()
      modifies this, buf, file
      ensures Used(old(file.weather), file.weather, r.IoError?)
      ensures r.Hangs? ==> old(end - start) < old(MustRead()) && !Parameters().Fillable(old(Position()))
      ensures r.Done? && old(end - start) < old(MustRead()) ==> Parameters().Fillable(old(Position())) && start == 0
      ensures r.Done? ==> ReadLeaves(old(View()), View(), r.status, old(MustRead()), Parameters())
      ensures old(MustRead()) <= old(end - start) ==> r.Done? && View() == old(View().(required := None))
      ensures r.IoError? ==> Spoilt(old(View()), View()) && (Valid() <==> start == 0)
    {
      var mustRead := MustRead();
      ghost var before := View();
      if end - start >= mustRead {
        WindowLeaves(before, mustRead, Parameters());
      } else {
        var filled := FillBuffer();
        if filled.Failure? {
          SpoiltExactly(before, View(), fileLenValid, file.content);
          return IoError;
        }
        if filled.Endless? {
          return Hangs;
        }
        RefillLeaves(before, View(), mustRead, Parameters());
        if end - start < mustRead {
          return Done(Eof);
        }
      }
      readRequirements := None;
      return Done(Success);
    }

    /** `get_offset_and_data` */
    method GetOffsetAndData() returns (offset: nat, data: seq<Byte>)
      requires Valid()
      ensures offset == fileLastOffset + start && (offset == Position() <==> InSync())
      ensures |data| == end - start && (data != [] ==> Position() + |data| <= fileLenValid)
      ensures data == if data == [] then [] else file.content[Position()..Position() + |data|]
    {
      offset := fileLastOffset + start;
      data := buf[start..end];
      assert data == buf[..][start..end];
    }

    /** What has been asked for so far. */
    ghost function Asked(): Request
      reads this
      requires start <= end && end - start <= fileOffsetOfNextRead
    {
      Request(Position(), readRequirements)
    }

    /** A read followed by a look at the window. */
    method ReadEvent() returns (e: Option<Event>, hangs: bool)
      requires Valid() && MustRead() > 0
      modifies this, buf, file
      ensures Used(old(file.weather), file.weather, e.None? && !hangs)
      ensures hangs ==> e.None? && !Parameters().Fillable(old(Position()))
      ensures e.Some? ==> Valid() && Position() == old(Position())
      ensures e.Some? ==> Parameters().Fits(Request(old(Position()), old(readRequirements)), e.value)
      ensures e.Some? ==>
                readRequirements == if e.value.status.Success? then None else old(readRequirements)
    {
      ghost var before := View();
      var r := Read();
      if !r.Done? {
        return None, r.Hangs?;
      }
      var offset, data := GetOffsetAndData();
      EventFits(before, View(), r.status, data, Parameters());
      e, hangs := Some(Event(r.status, offset, data)), false;
    }
  }

  // ----- whole runs -----

  datatype Op = Advance(delta: nat) | Require(len: nat) | ReadNext

  datatype Event = Event(status: Status, offset: nat, data: seq<Byte>)

  /** What a run has asked for: the sum of the advances, and the requirement for the next read. */
  datatype Request = Request(position: nat, requirement: Option<nat>)

  /** The fixed parameters of a reader. */
  datatype Setup = Setup(content: seq<Byte>, fileLenValid: nat, bufferLen: nat, defaultRequirement: nat) {
    /** How many bytes the window could show at the position. */
    function Available(position: nat): nat {
      Min(bufferLen, Remaining(fileLenValid, position))
    }

    /** The file is long enough to fill the window at the position as far as the valid length goes. */
    predicate Fillable(position: nat) {
      Available(position) <= Remaining(|content|, position)
    }

    function After(ops: seq<Op>): Request {
      if ops == [] then Request(0, None) else Next(After(ops[..|ops| - 1]), ops[|ops| - 1])
    }

    function Next(c: Request, op: Op): Request {
      match op
      case Advance(delta) => Request(c.position + delta, c.requirement)
      case Require(len) => Request(c.position, Some(len))
      case ReadNext =>
        if Available(c.position) >= c.requirement.GetOr(defaultRequirement) then Request(c.position, None) else c
    }

    lemma OneMore(ops: seq<Op>, n: nat, events: seq<Event>, e: seq<Event>)
      requires n < |ops| && AllFit(ops[..n], events)
      requires if ops[n].ReadNext? then |e| == 1 && Fits(After(ops[..n]), e[0]) else e == []
      ensures After(ops[..n + 1]) == Next(After(ops[..n]), ops[n]) && AllFit(ops[..n + 1], events + e)
    {
      assert ops[..n + 1][..n] == ops[..n];
      assert events + [] == events;
      if |e| == 1 {
        assert (events + e)[..|events|] == events;
      }
    }

    /**
     What a read may report: the position asked for, the file's bytes there, and success exactly when enough are
     available.
     */
    ghost predicate Fits(c: Request, e: Event) {
      var must := c.requirement.GetOr(defaultRequirement);
      && e.offset == c.position
      && (e.data != [] ==> c.position + |e.data| <= Min(fileLenValid, |content|))
      && (e.data != [] ==> e.data == content[c.position..c.position + |e.data|])
      && (e.status.Success? <==> Available(c.position) >= must)
      && (e.status.Success? ==> |e.data| >= must)
      && (e.status.Eof? ==> |e.data| == Available(c.position))
    }

    ghost predicate AllFit(ops: seq<Op>, events: seq<Event>) {
      if ops == [] then events == []
      else
        var before := ops[..|ops| - 1];
        match ops[|ops| - 1]
        case Advance(_) => AllFit(before, events)
        case Require(_) => AllFit(before, events)
        case ReadNext =>
          events != [] && AllFit(before, events[..|events| - 1]) && Fits(After(before), events[|events| - 1])
    }
  }

  /** One operation; a read yields an event, unless it fails or hangs. */
  method Perform(reader: BufferedReader, op: Op) returns (events: seq<Event>, ok: bool, hangs: bool)
    requires reader.Valid() && reader.MustRead() > 0
    modifies reader, reader.buf, reader.file
    ensures Used(old(reader.file.weather), reader.file.weather, !ok && !hangs)
    ensures hangs ==> !ok && !reader.Parameters().Fillable(old(reader.Position()))
    ensures ok ==>
              && reader.Valid() && reader.Asked() == reader.Parameters().Next(old(reader.Asked()), op)
              && |events| == (if op.ReadNext? then 1 else 0)
              && (op.ReadNext? ==> reader.Parameters().Fits(old(reader.Asked()), events[0]))
  {
    events, ok, hangs := [], true, false;
    match op {
      case Advance(delta) => reader.AdvanceOffset(delta);
      case Require(len) => reader.SetRequiredDataLen(len);
      case ReadNext =>
        var e;
        e, hangs := reader.ReadEvent();
        if e.None? {
          return [], false, hangs;
        }
        events := [e.value];
    }
  }

  /**
   Any run of operations on a new reader, with positive requirements: up to the first I/O error, or the first
   read that hangs because the file is too short, every read reports what the requests so far call for.
   */
  method Replay(content: seq<Byte>, weather: seq<Weather>, bufferSize: nat, fileLenValid: nat, defaultRequirement: nat,
                ops: seq<Op>)
    returns (done: nat, events: seq<Event>, ghost setup: Setup)
    requires defaultRequirement > 0
    requires forall op :: op in ops && op.Require? ==> op.len > 0
    ensures setup == Setup(content, fileLenValid, Min(bufferSize, fileLenValid), defaultRequirement)
    ensures done <= |ops| && setup.AllFit(ops[..done], events)
    ensures done < |ops| ==> Failed in weather || !setup.Fillable(setup.After(ops[..done]).position)
  {
    var file := new File(content, weather);
    var reader := new BufferedReader(bufferSize, fileLenValid, file, defaultRequirement);
    setup := reader.Parameters();
    done, events := 0, [];
    while done < |ops|
      invariant 0 <= done <= |ops| && setup.AllFit(ops[..done], events)
      invariant reader.Valid() && setup.After(ops[..done]) == reader.Asked() && setup == reader.Parameters()
      invariant fresh(reader) && fresh(reader.buf) && fresh(file) && reader.file == file
      invariant reader.readRequirements.Some? ==> reader.readRequirements.value > 0
      invariant Used(weather, file.weather, false)
    {
      ghost var left := file.weather;
      var e, ok, hangs := Perform(reader, ops[done]);
      UsedOn(weather, left, file.weather, !ok && !hangs);
      if !ok {
        return;
      }
      setup.OneMore(ops, done, events, e);
      events := events + e;
      done := done + 1;
    }
  }

  // ----- where a read does not return, and where the reported offset and the window are wrong -----

  /** A file of one byte whose valid length is two. */
  method NeverFull() returns (r: Filled)
    ensures r.Endless?
  {
    var file := new File([7], []);
    var buf := new Byte[2](_ => 0);
    r := ReadIntoBuffer(file, 2, 0, buf, 0);
  }

  method NeverRead() returns (r: ReadResult)
    ensures r.Hangs?
  {
    var file := new File([7], []);
    var reader := new BufferedReader(2, 2, file, 2);
    r := reader.Read();
  }

  /** A requirement of 0 after an advance beyond the window: the read succeeds, and the offset is 0 instead of 3. */
  method OffsetDelayed() returns (r: ReadResult, offset: nat, position: nat)
    ensures r == Done(Success) && offset == 0 && position == 3
  {
    var file := new File([10, 11, 12, 13], []);
    var reader := new BufferedReader(2, 4, file, 1);
    reader.AdvanceOffset(3);
    reader.SetRequiredDataLen(0);
    r := reader.Read();
    var data;
    offset, data := reader.GetOffsetAndData();
    position := reader.Position();
  }

  /**
   A failed refill of a window that did not begin at the front. The file holds 11 at the position, which is 1;
   the window then shows 12 there, and the offset that goes with it is 2.
   */
  lemma WindowSpoiled()
    ensures var content := [10, 11, 12, 13, 14];
            var before, after := Snapshot([10, 11, 12], 1, 3, 3, 0, None), Snapshot([11, 12, 12], 1, 3, 3, 1, None);
            && before.Good(5, content) && Spoilt(before, after) && after.Position() == 1
            && after.bytes[after.start] == 12 != content[1] && after.last + after.start == 2
  {
    var content, bytes, bytes' := [10, 11, 12, 13, 14], [10, 11, 12], [11, 12, 12];
    var before, after := Snapshot(bytes, 1, 3, 3, 0, None), Snapshot(bytes', 1, 3, 3, 1, None);
    assert before.Position() == 1 && before.InSync();
    assert Shows(bytes, 1, 2, content, 1) by {
      assert bytes[1] == content[1] && bytes[2] == content[2];
    }
    assert Moved(bytes, bytes', 1, 3) by {
      assert bytes'[0] == bytes[1] && bytes'[1] == bytes[2];
    }
  }
}
