/** The random_bytes() polyfill: a lazily opened, validated handle on the
    operating system's random character device, and a loop that reads from
    it until exactly the requested number of bytes has been gathered.

    The operating system is an oracle: whether the open succeeds, the
    st_mode that fstat reports, and the outcomes of successive reads. */
module RandomCompat {
  import opened Wrappers

  type Byte = bv8
  type Bytes = seq<Byte>

  // ---------------------------------------------------------------------
  // Errors

  /** What random_bytes() can throw, by PHP class, with its message. */
  datatype Throwable =
    | TypeError(message: string)
    | Error(message: string)
    | Exception(message: string)

  const IntvalMessage := "Expected an integer."
  const BytesTypeMessage := "random_bytes(): $bytes must be an integer"
  const LengthMessage := "Length must be greater than 0"
  const DeviceMessage := "Error reading from source device"

  // ---------------------------------------------------------------------
  // The length argument

  /** The PHP value passed as $bytes. Floats and numeric strings are not
      modelled: a value is an int or something that is not numeric. */
  datatype Value = IntValue(i: int) | NonNumericValue

  /** RandomCompat_intval($number) with $fail_open left at false. */
  function Intval(v: Value): (r: Result<int, Throwable>)
    ensures r.Success? <==> v.IntValue?
    ensures v.IntValue? ==> r.value == v.i
    ensures r.Failure? ==> r.error == TypeError(IntvalMessage)
  {
    match v
    case IntValue(i) => Success(i)
    case NonNumericValue => Failure(TypeError(IntvalMessage))
  }

  // ---------------------------------------------------------------------
  // The device handle

  /** The file-type field of st_mode (S_IFMT, octal 0170000) and the values
      it takes for a character device (S_IFCHR, octal 0020000) and for a
      block device (S_IFBLK, octal 0060000), as in POSIX <sys/stat.h>. */
  const FileTypeMask: bv32 := 0xF000
  const CharDeviceType: bv32 := 0x2000
  const BlockDeviceType: bv32 := 0x6000

  predicate IsCharDevice(mode: bv32) {
    mode & FileTypeMask == CharDeviceType
  }

  /** Only the file-type field decides: permission bits never matter, and a
      block device, whose type value shares a bit with a character device's,
      is refused. */
  lemma TypeFieldDecides(mode: bv32)
    ensures IsCharDevice(mode) <==> IsCharDevice(mode & FileTypeMask)
    ensures IsCharDevice(CharDeviceType | (mode & 0xFFF))
    ensures !IsCharDevice(BlockDeviceType | (mode & 0xFFF))
  {
  }

  /** The value of the static $fp: null before the first call, false after
      a failed open or a failed device check, or an open stream together
      with the st_mode it was validated with. */
  datatype Handle = Unset | Unusable | Stream(mode: bv32) {
    /** PHP's empty(): null and false are empty, a stream resource is not. */
    predicate Empty() {
      !Stream?
    }
  }

  /** A cached stream has passed the character-device check. */
  predicate Validated(h: Handle) {
    h.Stream? ==> IsCharDevice(h.mode)
  }

  /** The outcome of one fread(): false, or the bytes it returned. */
  datatype ReadOutcome = Fail | Chunk(data: Bytes)

  /** What the operating system answers during one call: whether fopen
      succeeds, the st_mode fstat reports, and the successive read outcomes.
      Reads beyond the end of the sequence fail. */
  datatype Os = Os(openSucceeds: bool, mode: bv32, outcomes: seq<ReadOutcome>)

  /** The open-and-validate block, run only when $fp is empty. */
  function Probe(fp: Handle, os: Os): (h: Handle)
    ensures !fp.Empty() ==> h == fp
    ensures fp.Empty() ==> (h.Stream? <==> os.openSucceeds && IsCharDevice(os.mode))
    ensures fp.Empty() && h.Stream? ==> h.mode == os.mode
    ensures fp.Empty() && h.Empty() ==> h == Unusable
    ensures Validated(fp) ==> Validated(h)
  {
    if !fp.Empty() then fp
    else
      // fopen() yields false on failure
      var probed := if os.openSucceeds then Stream(os.mode) else Unusable;
      // a stream that is not a character device is closed and replaced by false
      if probed.Stream? && !IsCharDevice(probed.mode) then Unusable else probed
  }

  // ---------------------------------------------------------------------
  // The read loop

  /** The outcome of the j-th fread() of a call. */
  function Nth(outcomes: seq<ReadOutcome>, j: nat): ReadOutcome {
    if j < |outcomes| then outcomes[j] else Fail
  }

  /** Reads i up to (excluding) k all returned bytes. */
  predicate ChunksIn(outcomes: seq<ReadOutcome>, i: nat, k: nat) {
    forall j :: i <= j < k ==> Nth(outcomes, j).Chunk?
  }

  /** The bytes returned by reads i up to (excluding) k, in order. */
  function Gathered(outcomes: seq<ReadOutcome>, i: nat, k: nat): Bytes
    requires i <= k && ChunksIn(outcomes, i, k)
    decreases k - i
  {
    if i == k then [] else Nth(outcomes, i).data + Gathered(outcomes, i + 1, k)
  }

  lemma {:induction false} GatheredSnoc(outcomes: seq<ReadOutcome>, i: nat, k: nat)
    requires i <= k && ChunksIn(outcomes, i, k + 1)
    ensures Gathered(outcomes, i, k + 1) == Gathered(outcomes, i, k) + Nth(outcomes, k).data
    decreases k - i
  {
    if i < k {
      GatheredSnoc(outcomes, i + 1, k);
    }
  }

  /** Where the loop ended: the final $buf (None for false) and the number
      of fread() calls made. */
  datatype Drained = Drained(buf: Option<Bytes>, calls: nat)

  /** The do-while loop from read i on, with $buf == buf and
      $remaining == remaining. It stops at the first read that fails, or
      at the first read that brings the bytes gathered up to remaining. */
  function Drain(outcomes: seq<ReadOutcome>, i: nat, buf: Bytes, remaining: int): (d: Drained)
    requires i <= |outcomes| && remaining > 0
    ensures i < d.calls <= |outcomes| + 1
    ensures ChunksIn(outcomes, i, d.calls - 1)
    ensures |Gathered(outcomes, i, d.calls - 1)| < remaining
    ensures d.buf.None? ==> Nth(outcomes, d.calls - 1).Fail?
    ensures d.buf.Some? ==>
      && ChunksIn(outcomes, i, d.calls)
      && d.buf.value == buf + Gathered(outcomes, i, d.calls)
      && remaining <= |Gathered(outcomes, i, d.calls)|
    decreases |outcomes| - i
  {
    match Nth(outcomes, i)
    case Fail => Drained(None, i + 1)
    case Chunk(c) =>
      if remaining - |c| > 0 then Drain(outcomes, i + 1, buf + c, remaining - |c|)
      else Drained(Some(buf + c), i + 1)
  }

  /** Short reads are tolerated: when reads i..k all return bytes and it is
      read k that brings the total up to remaining, the loop makes exactly
      k + 1 - i reads and yields their bytes in order. */
  lemma {:induction false} DrainFills(outcomes: seq<ReadOutcome>, i: nat, buf: Bytes, remaining: int, k: nat)
    requires i <= k && remaining > 0
    requires ChunksIn(outcomes, i, k + 1)
    requires |Gathered(outcomes, i, k)| < remaining <= |Gathered(outcomes, i, k + 1)|
    ensures i <= |outcomes|
    ensures Drain(outcomes, i, buf, remaining) == Drained(Some(buf + Gathered(outcomes, i, k + 1)), k + 1)
    decreases k - i
  {
    assert Nth(outcomes, i).Chunk?;
    var c := Nth(outcomes, i).data;
    if i < k {
      DrainFills(outcomes, i + 1, buf + c, remaining - |c|, k);
    }
  }

  /** A failed read before the total is reached ends the loop at once with
      $buf = false. */
  lemma {:induction false} DrainStopsAtFailure(outcomes: seq<ReadOutcome>, i: nat, buf: Bytes, remaining: int, j: nat)
    requires i <= j && i <= |outcomes| && remaining > 0
    requires ChunksIn(outcomes, i, j) && Nth(outcomes, j).Fail?
    requires |Gathered(outcomes, i, j)| < remaining
    ensures Drain(outcomes, i, buf, remaining) == Drained(None, j + 1)
    decreases j - i
  {
    if i < j {
      var c := Nth(outcomes, i).data;
      DrainStopsAtFailure(outcomes, i + 1, buf + c, remaining - |c|, j);
    }
  }

  /** fread() never returns more bytes than it was asked for; the request
      of read j is remaining less what reads i..j-1 returned. */
  predicate Honest(outcomes: seq<ReadOutcome>, i: nat, remaining: int) {
    forall j :: i <= j < |outcomes| && ChunksIn(outcomes, i, j) && Nth(outcomes, j).Chunk? && |Gathered(outcomes, i, j)| < remaining
      ==> |Nth(outcomes, j).data| <= remaining - |Gathered(outcomes, i, j)|
  }

  /** Against an honest device, a loop that ends with a string has gathered
      exactly remaining bytes. */
  lemma HonestReadsFillExactly(outcomes: seq<ReadOutcome>, i: nat, buf: Bytes, remaining: int)
    requires i <= |outcomes| && remaining > 0
    requires Honest(outcomes, i, remaining)
    ensures Drain(outcomes, i, buf, remaining).buf.Some? ==>
      |Drain(outcomes, i, buf, remaining).buf.value| == |buf| + remaining
  {
    var d := Drain(outcomes, i, buf, remaining);
    if d.buf.Some? {
      var k := d.calls - 1;
      GatheredSnoc(outcomes, i, k);
    }
  }

  /** The do-while loop over fread(): each iteration asks for $remaining
      bytes, gives up on false, and otherwise appends what it got. */
  method ReadLoop(outcomes: seq<ReadOutcome>, bytes: int) returns (buf: Option<Bytes>, requests: seq<int>)
    requires bytes >= 1
    ensures Drained(buf, |requests|) == Drain(outcomes, 0, [], bytes)
    ensures forall j :: 0 <= j < |requests| ==>
      && ChunksIn(outcomes, 0, j)
      && requests[j] == bytes - |Gathered(outcomes, 0, j)|
      && requests[j] > 0
  {
    var remaining := bytes;
    var acc: Bytes := [];
    var i := 0;
    requests := [];
    while true
      invariant i <= |outcomes| && |requests| == i
      invariant remaining > 0 && |acc| + remaining == bytes
      invariant ChunksIn(outcomes, 0, i) && acc == Gathered(outcomes, 0, i)
      invariant forall j :: 0 <= j < i ==>
        && ChunksIn(outcomes, 0, j)
        && requests[j] == bytes - |Gathered(outcomes, 0, j)|
        && requests[j] > 0
      invariant Drain(outcomes, i, acc, remaining) == Drain(outcomes, 0, [], bytes)
      decreases |outcomes| - i
    {
      var read := Nth(outcomes, i);
      requests := requests + [remaining];
      if read.Fail? {
        buf := None;
        return;
      }
      GatheredSnoc(outcomes, 0, i);
      acc := acc + read.data;
      remaining := remaining - |read.data|;
      i := i + 1;
      if remaining <= 0 {
        buf := Some(acc);
        return;
      }
    }
  }

  // ---------------------------------------------------------------------
  // One call

  /** The new $fp, the value returned or thrown, whether fopen() was
      called, and how many fread() calls were made. */
  datatype Outcome = Outcome(handle: Handle, result: Result<Bytes, Throwable>, probed: bool, freads: nat)

  /** random_bytes($bytes) with $fp == fp. */
  function Call(fp: Handle, bytes: Value, os: Os): (o: Outcome)
    ensures o.probed == fp.Empty()
    ensures !fp.Empty() ==> o.handle == fp
    ensures fp.Empty() ==> (o.handle.Stream? <==> os.openSucceeds && IsCharDevice(os.mode))
    ensures bytes.NonNumericValue? ==> o.result == Failure(TypeError(BytesTypeMessage)) && o.freads == 0
    ensures bytes.IntValue? && bytes.i < 1 ==> o.result == Failure(Error(LengthMessage)) && o.freads == 0
    ensures o.handle.Empty() ==> o.freads == 0
    ensures o.handle.Empty() && bytes.IntValue? && bytes.i >= 1 ==> o.result == Failure(Exception(DeviceMessage))
    ensures o.result.Success? ==>
      && bytes.IntValue?
      && |o.result.value| == bytes.i
      && ChunksIn(os.outcomes, 0, o.freads)
      && o.result.value == Gathered(os.outcomes, 0, o.freads)
  {
    var handle := Probe(fp, os);
    match Intval(bytes)
    case Failure(_) => Outcome(handle, Failure(TypeError(BytesTypeMessage)), fp.Empty(), 0)
    case Success(n) =>
      if n < 1 then Outcome(handle, Failure(Error(LengthMessage)), fp.Empty(), 0)
      else if handle.Empty() then Outcome(handle, Failure(Exception(DeviceMessage)), fp.Empty(), 0)
      else
        var d := Drain(os.outcomes, 0, [], n);
        if d.buf.Some? && |d.buf.value| == n then Outcome(handle, Success(d.buf.value), fp.Empty(), d.calls)
        else Outcome(handle, Failure(Exception(DeviceMessage)), fp.Empty(), d.calls)
  }

  /** A device that supplies exactly n bytes over reads 0..k, a short read
      at a time, makes the call return those bytes after k + 1 reads. */
  lemma ShortReadsFill(fp: Handle, n: int, os: Os, k: nat)
    requires Probe(fp, os).Stream? && n >= 1
    requires ChunksIn(os.outcomes, 0, k + 1)
    requires |Gathered(os.outcomes, 0, k)| < n == |Gathered(os.outcomes, 0, k + 1)|
    ensures Call(fp, IntValue(n), os).result == Success(Gathered(os.outcomes, 0, k + 1))
    ensures Call(fp, IntValue(n), os).freads == k + 1
  {
    DrainFills(os.outcomes, 0, [], n, k);
    assert [] + Gathered(os.outcomes, 0, k + 1) == Gathered(os.outcomes, 0, k + 1);
  }

  /** A read that returns false before n bytes are gathered makes the call
      throw, after exactly that read; no partial buffer is returned. */
  lemma ReadFailureThrows(fp: Handle, n: int, os: Os, j: nat)
    requires Probe(fp, os).Stream? && n >= 1
    requires ChunksIn(os.outcomes, 0, j) && Nth(os.outcomes, j).Fail?
    requires |Gathered(os.outcomes, 0, j)| < n
    ensures Call(fp, IntValue(n), os).result == Failure(Exception(DeviceMessage))
    ensures Call(fp, IntValue(n), os).freads == j + 1
  {
    DrainStopsAtFailure(os.outcomes, 0, [], n, j);
  }

  /** A read that returns more than was asked for overshoots the count; the
      final length check then makes the call throw. */
  lemma OverlongReadThrows(fp: Handle, n: int, os: Os, k: nat)
    requires Probe(fp, os).Stream? && n >= 1
    requires ChunksIn(os.outcomes, 0, k + 1)
    requires |Gathered(os.outcomes, 0, k)| < n < |Gathered(os.outcomes, 0, k + 1)|
    ensures Call(fp, IntValue(n), os).result == Failure(Exception(DeviceMessage))
    ensures Call(fp, IntValue(n), os).freads == k + 1
  {
    DrainFills(os.outcomes, 0, [], n, k);
    assert [] + Gathered(os.outcomes, 0, k + 1) == Gathered(os.outcomes, 0, k + 1);
  }

  /** With a validated handle and an honest device, a call for n >= 1 bytes
      succeeds exactly when its last read returned bytes: the only way it
      throws is a read that returned false. */
  lemma HonestDeviceFailsOnlyOnReadFailure(fp: Handle, n: int, os: Os)
    requires Probe(fp, os).Stream? && n >= 1
    requires Honest(os.outcomes, 0, n)
    ensures Call(fp, IntValue(n), os).result.Success? <==> Nth(os.outcomes, Call(fp, IntValue(n), os).freads - 1).Chunk?
  {
    HonestReadsFillExactly(os.outcomes, 0, [], n);
  }

  // ---------------------------------------------------------------------
  // Successive calls in one process

  datatype Request = Request(bytes: Value, os: Os)

  /** $fp after a sequence of calls. */
  function Run(fp: Handle, calls: seq<Request>): Handle
    decreases |calls|
  {
    if calls == [] then fp
    else Run(Call(fp, calls[0].bytes, calls[0].os).handle, calls[1..])
  }

  /** The number of fopen() calls a sequence of calls makes. */
  function Opens(fp: Handle, calls: seq<Request>): nat
    decreases |calls|
  {
    if calls == [] then 0
    else
      var o := Call(fp, calls[0].bytes, calls[0].os);
      (if o.probed then 1 else 0) + Opens(o.handle, calls[1..])
  }

  /** Once a stream is cached, no later call reopens or replaces it. */
  lemma {:induction false} StreamIsKept(fp: Handle, calls: seq<Request>)
    requires fp.Stream?
    ensures Run(fp, calls) == fp && Opens(fp, calls) == 0
    decreases |calls|
  {
    if calls != [] {
      StreamIsKept(fp, calls[1..]);
    }
  }

  /** A failed open or device check is not cached: $fp becomes false, which
      is empty, so every later call opens the device again. */
  lemma {:induction false} FailedProbeIsRetried(fp: Handle, calls: seq<Request>)
    requires fp.Empty()
    requires forall k :: 0 <= k < |calls| ==> !(calls[k].os.openSucceeds && IsCharDevice(calls[k].os.mode))
    ensures Run(fp, calls).Empty() && Opens(fp, calls) == |calls|
    decreases |calls|
  {
    if calls != [] {
      FailedProbeIsRetried(Call(fp, calls[0].bytes, calls[0].os).handle, calls[1..]);
    }
  }

  /** Every stream ever cached has passed the character-device check. */
  lemma {:induction false} RunKeepsValidated(fp: Handle, calls: seq<Request>)
    requires Validated(fp)
    ensures Validated(Run(fp, calls))
    decreases |calls|
  {
    if calls != [] {
      var o := Call(fp, calls[0].bytes, calls[0].os);
      assert Validated(o.handle);
      RunKeepsValidated(o.handle, calls[1..]);
    }
  }

  // ---------------------------------------------------------------------
  // The function with its static state

  /** random_bytes() together with its `static $fp`. */
  class EntropySource {
    var fp: Handle
    /** How many times fopen() has been called. */
    ghost var fopenCalls: nat
    /** How many times fread() has been called. */
    ghost var freadCalls: nat

    ghost predicate Valid()
      reads this
    {
      Validated(fp)
    }

    constructor ()
      ensures Valid() && fp == Unset && fopenCalls == 0 && freadCalls == 0
    {
      fp := Unset;
      fopenCalls := 0;
      freadCalls := 0;
    }

    method RandomBytes(bytes: Value, os: Os) returns (r: Result<Bytes, Throwable>)
      requires Valid()
      modifies this
      ensures Valid()
      ensures r == Call(old(fp), bytes, os).result
      ensures fp == Call(old(fp), bytes, os).handle
      ensures fopenCalls == old(fopenCalls) + (if old(fp).Empty() then 1 else 0)
      ensures old(fp).Stream? ==> fp == old(fp) && fopenCalls == old(fopenCalls)
      ensures freadCalls == old(freadCalls) + Call(old(fp), bytes, os).freads
      ensures !bytes.IntValue? || bytes.i < 1 || fp.Empty() ==> freadCalls == old(freadCalls)
    {
      if fp.Empty() {
        fopenCalls := fopenCalls + 1;
        fp := if os.openSucceeds then Stream(os.mode) else Unusable;
        if !fp.Empty() {
          if fp.mode & FileTypeMask != CharDeviceType {
            // fclose(); the read-buffer and chunk-size settings of a kept
            // stream have no observable effect in this model
            fp := Unusable;
          }
        }
      }
      var n;
      match Intval(bytes) {
        case Failure(_) =>
          return Failure(TypeError(BytesTypeMessage));
        case Success(v) =>
          n := v;
      }
      if n < 1 {
        return Failure(Error(LengthMessage));
      }
      if !fp.Empty() {
        var buf, requests := ReadLoop(os.outcomes, n);
        freadCalls := freadCalls + |requests|;
        if buf.Some? && |buf.value| == n {
          return Success(buf.value);
        }
      }
      return Failure(Exception(DeviceMessage));
    }
  }
}
