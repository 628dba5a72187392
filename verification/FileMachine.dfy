// What CBufferedFile (src/commons/serialize.h) does, without its ring buffer: positions in a file, how far it
// has been read ahead, and the bytes themselves; and how that compares with a plain file.

module FileMachine {
  import opened Bytes

  // How many bytes the calls of fread deliver at most; zero stands for an error of the device.
  type Device = nat -> nat

  // What does not change: the file, its device, and the sizes. The rewind size is below the buffer size, and
  // the buffer can be indexed by an unsigned int.
  datatype Setup = Setup(file: seq<Byte>, device: Device, size: nat, rewind: nat)

  predicate IsSetup(u: Setup) {
    u.rewind < u.size < TWO_32 && |u.file| < TWO_63
  }

  datatype FileState = FileState(srcPos: nat, readPos: nat, limit: nat, good: bool, calls: nat)

  // The reading position lies in what the buffer holds, or at its end.
  predicate InRange(u: Setup, s: FileState) {
    IsSetup(u) && s.readPos <= s.srcPos <= s.readPos + u.size && s.srcPos <= |u.file|
  }

  function Min(x: nat, y: nat): nat {
    if x <= y then x else y
  }

  // The place of offset i in a buffer of m bytes.
  function Place(i: nat, m: nat): (p: nat)
    requires m > 0
    ensures p < m
  {
    i % m
  }

  // What fread delivers when Fill asks up to the end of the buffer, and for no more than leaves the rewind
  // size.
  function FillSize(u: Setup, s: FileState): nat
    requires InRange(u, s)
  {
    Min(u.device(s.calls), Min(Min(u.size - Place(s.srcPos, u.size), u.size - u.rewind), |u.file| - s.srcPos))
  }

  ghost predicate Reliable(device: Device) {
    forall i: nat :: device(i) > 0
  }

  // Fill, for an exhausted buffer; it throws if nothing was delivered.
  function Fill(u: Setup, s: FileState): (r: (bool, FileState))
    requires InRange(u, s) && s.readPos == s.srcPos
    ensures InRange(u, r.1) && r.1.readPos == s.readPos && r.1.limit == s.limit
    ensures r.0 ==> r.1.srcPos == s.srcPos && (s.srcPos == |u.file| || !Reliable(u.device)) && !r.1.good
    ensures !r.0 ==> r.1.srcPos > s.srcPos && r.1.good == s.good
    // It reads up to what the device delivers, the end of the file or the buffer, or all but the rewind size.
    ensures var read := r.1.srcPos - s.srcPos;
            || read == u.device(s.calls) || r.1.srcPos == |u.file|
            || Place(s.srcPos, u.size) + read == u.size || read == u.size - u.rewind
    ensures r.1.srcPos - s.srcPos <= u.device(s.calls) && r.1.srcPos - s.srcPos <= u.size - u.rewind
  {
    var read := FillSize(u, s);
    if read == 0 then (true, s.(good := false, calls := s.calls + 1))
    else (false, s.(srcPos := s.srcPos + read, calls := s.calls + 1))
  }

  // Fill, if the buffer is exhausted.
  function Refill(u: Setup, s: FileState): (r: (bool, FileState))
    requires InRange(u, s)
    ensures InRange(u, r.1) && r.1.readPos == s.readPos && r.1.limit == s.limit
    ensures r.0 ==> s.readPos == s.srcPos == r.1.srcPos && (s.srcPos == |u.file| || !Reliable(u.device)) && !r.1.good
    ensures !r.0 ==> r.1.srcPos > s.readPos && r.1.good == s.good
  {
    if s.readPos == s.srcPos then Fill(u, s) else (false, s)
  }

  // How much of n bytes lies before the end of the buffer and of what was read ahead.
  function Chunk(u: Setup, s: FileState, n: nat): (now: nat)
    requires InRange(u, s)
    ensures now <= n && s.readPos + now <= s.srcPos && (n > 0 && s.readPos < s.srcPos ==> now > 0)
    ensures now == n || s.readPos + now == s.srcPos || Place(s.readPos, u.size) + now == u.size
  {
    Min(n, Min(u.size - Place(s.readPos, u.size), s.srcPos - s.readPos))
  }

  // The loop of read: it copies up to the end of the buffer or of what was read ahead.
  function ReadLoop(u: Setup, s: FileState, n: nat): (r: (bool, FileState))
    requires InRange(u, s)
    ensures InRange(u, r.1) && s.readPos <= r.1.readPos <= s.readPos + n && r.1.limit == s.limit
    ensures r.0 ==> r.1.readPos == s.readPos + n && r.1.good == s.good
    ensures !r.0 ==> !r.1.good && (Reliable(u.device) ==> r.1.readPos == |u.file| < s.readPos + n)
    decreases n
  {
    if n == 0 then (true, s)
    else
      var (thrown, t) := Refill(u, s);
      if thrown then (false, t)
      else
        var now := Chunk(u, t, n);
        ReadLoop(u, t.(readPos := t.readPos + now), n - now)
  }

  // Whether a call succeeded, and the bytes it delivered.
  datatype Outcome = Outcome(ok: bool, bytes: seq<Byte>)

  function Read(u: Setup, s: FileState, n: nat): (Outcome, FileState)
    requires InRange(u, s)
  {
    if n + s.readPos > s.limit || n + u.rewind > u.size then (Outcome(false, []), s)
    else
      var (ok, t) := ReadLoop(u, s, n);
      (Outcome(ok, u.file[s.readPos..t.readPos]), t)
  }

  // SetPos; sums and differences wrap around at 2^64.
  function SetPos(u: Setup, s: FileState, pos: nat): (bool, FileState)
    requires InRange(u, s)
  {
    if (pos + u.rewind) % TWO_64 < s.srcPos then (false, s.(readPos := (s.srcPos - u.rewind) % TWO_64))
    else if pos > s.srcPos then (false, s.(readPos := s.srcPos))
    else (true, s.(readPos := pos))
  }

  function SetLimit(s: FileState, pos: nat): (bool, FileState) {
    if pos < s.readPos then (false, s) else (true, s.(limit := pos))
  }

  // The first place of ch from i on, or the end of the file.
  function FirstAt(file: seq<Byte>, i: nat, ch: Byte): (k: nat)
    requires i <= |file|
    ensures i <= k <= |file| && (k < |file| ==> file[k] == ch) && forall j | i <= j < k :: file[j] != ch
    decreases |file| - i
  {
    if i == |file| || file[i] == ch then i else FirstAt(file, i + 1, ch)
  }

  // FindByte, which throws at the end.
  function FindByte(u: Setup, s: FileState, ch: Byte): (r: (bool, FileState))
    requires InRange(u, s)
    ensures InRange(u, r.1) && s.readPos <= r.1.readPos <= FirstAt(u.file, s.readPos, ch) && r.1.limit == s.limit
    ensures r.0 ==> r.1.readPos == FirstAt(u.file, s.readPos, ch) < |u.file| && r.1.good == s.good
    ensures !r.0 ==> !r.1.good && (Reliable(u.device) ==> r.1.readPos == FirstAt(u.file, s.readPos, ch) == |u.file|)
    decreases |u.file| - s.readPos
  {
    var (thrown, t) := Refill(u, s);
    if thrown then (false, t)
    else if u.file[t.readPos] == ch then (true, t)
    else FindByte(u, t.(readPos := t.readPos + 1), ch)
  }

  // The sum in SetPos wraps around to less than the source position.
  predicate Wraps(u: Setup, s: FileState, pos: nat) {
    TWO_64 <= pos + u.rewind < TWO_64 + s.srcPos
  }

  // SetPos succeeds exactly for the positions at most the rewind size before the source position. What it
  // leaves is in range unless the sum wraps around early in the file.
  lemma SetPosMeans(u: Setup, s: FileState, pos: nat)
    requires InRange(u, s) && pos < TWO_64
    ensures var (ok, t) := SetPos(u, s, pos);
            var wraps := Wraps(u, s, pos);
            && (ok <==> pos <= s.srcPos <= pos + u.rewind)
            && (ok ==> t.readPos == pos)
            && (!ok && pos <= s.srcPos ==> t.readPos == s.srcPos - u.rewind)
            && (pos > s.srcPos && !wraps ==> t.readPos == s.srcPos)
            && (InRange(u, t) <==> !(wraps && s.srcPos < u.rewind))
  {
  }

  // ---- Runs -----------------------------------------------------------------------------------------

  datatype Step = ReadBytes(n: nat) | MoveTo(pos: nat) | LimitTo(limit: nat) | Find(ch: Byte)

  function After(u: Setup, s: FileState, step: Step): (Outcome, FileState)
    requires InRange(u, s)
  {
    match step
    case ReadBytes(n) => Read(u, s, n)
    case MoveTo(pos) => var (ok, t) := SetPos(u, s, pos); (Outcome(ok, []), t)
    case LimitTo(limit) => var (ok, t) := SetLimit(s, limit); (Outcome(ok, []), t)
    case Find(ch) => var (ok, t) := FindByte(u, s, ch); (Outcome(ok, []), t)
  }

  // No sum in read wraps around, and where that in SetPos does, it does no harm.
  predicate Allowed(u: Setup, s: FileState, step: Step) {
    match step
    case ReadBytes(n) => n + s.readPos < TWO_64 && n + u.rewind < TWO_64
    case MoveTo(pos) => pos < TWO_64 && !(Wraps(u, s, pos) && s.srcPos < u.rewind)
    case _ => true
  }

  lemma StaysInRange(u: Setup, s: FileState, step: Step)
    requires InRange(u, s) && Allowed(u, s, step)
    ensures InRange(u, After(u, s, step).1)
  {
  }

  // The same for every step, in the state in which it is taken.
  ghost predicate AllAllowed(u: Setup, s: FileState, steps: seq<Step>)
    requires InRange(u, s)
    decreases |steps|
  {
    steps == []
    || (Allowed(u, s, steps[0])
        && (StaysInRange(u, s, steps[0]); AllAllowed(u, After(u, s, steps[0]).1, steps[1..])))
  }

  // The outcomes of all steps, and the state behind them.
  ghost function Run(u: Setup, s: FileState, steps: seq<Step>): (r: (seq<Outcome>, FileState))
    requires InRange(u, s) && AllAllowed(u, s, steps)
    ensures |r.0| == |steps| && InRange(u, r.1)
    decreases |steps|
  {
    if steps == [] then ([], s)
    else
      StaysInRange(u, s, steps[0]);
      var (outcome, t) := After(u, s, steps[0]);
      var (rest, end) := Run(u, t, steps[1..]);
      ([outcome] + rest, end)
  }

  // A plain file: a position and the limit.
  datatype Plain = Plain(pos: nat, limit: nat)

  function PlainAfter(u: Setup, p: Plain, step: Step): (r: (Outcome, Plain))
    requires p.pos <= |u.file|
    ensures r.1.pos <= |u.file|
  {
    match step
    case ReadBytes(n) =>
      if n + p.pos > p.limit || n + u.rewind > u.size then (Outcome(false, []), p)
      else
        var end := Min(p.pos + n, |u.file|);
        (Outcome(p.pos + n <= |u.file|, u.file[p.pos..end]), p.(pos := end))
    case MoveTo(pos) => (Outcome(pos <= |u.file|, []), p.(pos := Min(pos, |u.file|)))
    case LimitTo(limit) => if limit < p.pos then (Outcome(false, []), p) else (Outcome(true, []), p.(limit := limit))
    case Find(ch) =>
      var k := FirstAt(u.file, p.pos, ch);
      (Outcome(k < |u.file|, []), p.(pos := k))
  }

  ghost function PlainRun(u: Setup, p: Plain, steps: seq<Step>): (r: seq<Outcome>)
    requires p.pos <= |u.file|
    ensures |r| == |steps|
    decreases |steps|
  {
    if steps == [] then []
    else
      var (outcome, q) := PlainAfter(u, p, steps[0]);
      [outcome] + PlainRun(u, q, steps[1..])
  }

  // With a working device every call but SetPos does what it does on a plain file, however far the file was
  // read ahead; and so does every SetPos that succeeds.
  lemma StepIsPlain(u: Setup, s: FileState, step: Step)
    requires InRange(u, s) && Allowed(u, s, step) && Reliable(u.device)
    ensures var (outcome, t) := After(u, s, step);
            (step.MoveTo? ==> outcome.ok) ==>
              (outcome, Plain(t.readPos, t.limit)) == PlainAfter(u, Plain(s.readPos, s.limit), step)
  {
  }

  // A whole run on a working device in which no SetPos was refused is a run on the plain file.
  lemma {:induction false} RunIsPlain(u: Setup, s: FileState, steps: seq<Step>)
    requires InRange(u, s) && AllAllowed(u, s, steps) && Reliable(u.device)
    requires forall i | 0 <= i < |steps| :: steps[i].MoveTo? ==> Run(u, s, steps).0[i].ok
    ensures Run(u, s, steps).0 == PlainRun(u, Plain(s.readPos, s.limit), steps)
    decreases |steps|
  {
    if steps != [] {
      StaysInRange(u, s, steps[0]);
      StepIsPlain(u, s, steps[0]);
      var t := After(u, s, steps[0]).1;
      hide After, PlainAfter;
      forall i | 0 <= i < |steps| - 1
        ensures steps[1..][i].MoveTo? ==> Run(u, t, steps[1..]).0[i].ok
      {
        assert Run(u, s, steps).0[i + 1] == Run(u, t, steps[1..]).0[i];
      }
      RunIsPlain(u, t, steps[1..]);
    }
  }

  // The state of a file just opened.
  function Opened(): FileState {
    FileState(0, 0, TWO_64 - 1, true, 0)
  }

  // A file just opened has no limit: whatever fits the buffer beside the rewind size can be read, up to the end of
  // the file.
  lemma OpenedReads(u: Setup, n: nat)
    requires IsSetup(u) && Reliable(u.device) && n + u.rewind <= u.size
    ensures var (outcome, t) := Read(u, Opened(), n);
            && outcome == Outcome(n <= |u.file|, u.file[..Min(n, |u.file|)])
            && t.readPos == Min(n, |u.file|) && t.good == outcome.ok && t.limit == 0xffff_ffff_ffff_ffff
  {
    assert u.file[0..Min(n, |u.file|)] == u.file[..Min(n, |u.file|)];
  }

  // What was read ahead counts against the rewind size: once the first byte has been looked at, the current
  // reading position is refused.
  lemma CurrentPositionRefused()
    ensures var u := Setup(seq(10, _ => 7), _ => 10, 10, 4);
            var steps := [Find(7), MoveTo(0)];
            && IsSetup(u) && Reliable(u.device) && AllAllowed(u, Opened(), steps)
            && Run(u, Opened(), steps[..1]).1.readPos == 0
            && !Run(u, Opened(), steps).0[1].ok && Run(u, Opened(), steps).1.readPos == 2
  {
  }

  // A position whose sum with the rewind size wraps around leaves the reading position past the source
  // position.
  lemma WrappedPosition()
    ensures var u := Setup([7, 7], _ => 10, 10, 4);
            && IsSetup(u) && InRange(u, Opened())
            && var s := After(u, Opened(), Find(7)).1;
               InRange(u, s) && !After(u, s, MoveTo(TWO_64 - 4)).0.ok
               && After(u, s, MoveTo(TWO_64 - 4)).1.readPos > s.srcPos
  {
  }
}
