// CBufferedFile (src/commons/serialize.h): a ring buffer in front of a file, from which bytes are read and
// which can be rewound. It does what FileMachine does with the file itself.

module BufferedFile {
  import opened Arithmetic
  import opened Bytes
  import opened FileMachine

  // The buffer holds the bytes of the file right before position p, each at its offset modulo the size.
  ghost predicate Holds(buffer: seq<Byte>, file: seq<Byte>, p: nat) {
    && |buffer| > 0 && p <= |file|
    && forall i: nat | p <= i + |buffer| && i < p :: file[i] == buffer[Place(i, |buffer|)]
  }

  // Offsets a short way after i, before the end of the buffer is reached.
  lemma ModForward(i: nat, j: nat, m: nat)
    requires m > 0 && i % m + j < m
    ensures (i + j) % m == i % m + j
  {
    ModUnique(i + j, i % m + j, i / m, m);
  }

  // Offsets before i: they do not meet the k places from that of i on, as long as they are not more than
  // m - k away.
  lemma ModBackward(i: nat, d: nat, k: nat, m: nat)
    requires m > 0 && 0 < d <= i && d + k <= m && i % m + k <= m
    ensures (i - d) % m < i % m || i % m + k <= (i - d) % m
  {
    if d <= i % m {
      ModUnique(i - d, i % m - d, i / m, m);
    } else {
      assert (i / m - 1) * m == (i / m) * m - m;
      ModUnique(i - d, i % m - d + m, i / m - 1, m);
    }
  }

  // A stretch of the buffer is the stretch of the file that it holds.
  lemma HeldStretch(buffer: seq<Byte>, file: seq<Byte>, p: nat, r: nat, k: nat)
    requires Holds(buffer, file, p) && p <= r + |buffer| && r + k <= p && Place(r, |buffer|) + k <= |buffer|
    ensures buffer[Place(r, |buffer|)..Place(r, |buffer|) + k] == file[r..r + k]
  {
    var pos := Place(r, |buffer|);
    var part := buffer[pos..pos + k];
    forall j | 0 <= j < k
      ensures part[j] == file[r + j]
    {
      ModForward(r, j, |buffer|);
    }
  }

  // Writing the next k bytes of the file at their place.
  lemma HoldsMore(before: seq<Byte>, after: seq<Byte>, file: seq<Byte>, p: nat, k: nat)
    requires Holds(before, file, p) && p + k <= |file| && Place(p, |before|) + k <= |before|
    requires after == before[..Place(p, |before|)] + file[p..p + k] + before[Place(p, |before|) + k..]
    ensures Holds(after, file, p + k)
  {
    var m := |before|;
    forall i: nat | p + k <= i + m && i < p + k
      ensures file[i] == after[Place(i, m)]
    {
      if i >= p {
        ModForward(p, i - p, m);
      } else {
        ModBackward(p, p - i, k, m);
      }
    }
  }

  lemma StretchesMeet(file: seq<Byte>, i: nat, j: nat, k: nat)
    requires i <= j <= k <= |file|
    ensures file[i..j] + file[j..k] == file[i..k]
  {
  }

  lemma LoopEnds(u: Setup, s: FileState)
    requires InRange(u, s)
    ensures ReadLoop(u, s, 0) == (true, s)
  {
  }

  lemma HeldByte(buffer: seq<Byte>, file: seq<Byte>, p: nat, r: nat)
    requires Holds(buffer, file, p) && p <= r + |buffer| && r < p
    ensures buffer[Place(r, |buffer|)] == file[r]
  {
  }

  lemma FindStep(u: Setup, s: FileState, ch: Byte)
    requires InRange(u, s)
    ensures var (thrown, t) := if s.readPos == s.srcPos then FileMachine.Fill(u, s) else (false, s);
            FileMachine.FindByte(u, s, ch)
            == if thrown then (false, t)
               else if u.file[t.readPos] == ch then (true, t)
               else FileMachine.FindByte(u, t.(readPos := t.readPos + 1), ch)
  {
    hide FileMachine.Fill, FirstAt, Place, FillSize;
  }

  lemma LoopStep(u: Setup, s: FileState, n: nat)
    requires InRange(u, s) && n > 0
    ensures var (thrown, t) := Refill(u, s);
            if thrown then ReadLoop(u, s, n) == (false, t)
            else
              var now := Chunk(u, t, n);
              && InRange(u, t.(readPos := t.readPos + now)) && 0 < now <= n
              && ReadLoop(u, s, n) == ReadLoop(u, t.(readPos := t.readPos + now), n - now)
  {
  }

  lemma AllowedAt(u: Setup, s: FileState, steps: seq<Step>, i: nat)
    requires InRange(u, s) && i < |steps| && AllAllowed(u, s, steps[i..])
    ensures Allowed(u, s, steps[i])
  {
  }

  lemma RunEnds(u: Setup, s: FileState)
    requires InRange(u, s)
    ensures Run(u, s, []) == ([], s)
  {
  }

  lemma RunStep(u: Setup, s: FileState, steps: seq<Step>, i: nat, outcome: Outcome, t: FileState)
    requires InRange(u, s) && i < |steps| && AllAllowed(u, s, steps[i..]) && After(u, s, steps[i]) == (outcome, t)
    ensures InRange(u, t) && AllAllowed(u, t, steps[i + 1..])
    ensures Run(u, s, steps[i..]) == ([outcome] + Run(u, t, steps[i + 1..]).0, Run(u, t, steps[i + 1..]).1)
  {
  }

  class CBufferedFile {
    const file: seq<Byte>
    const device: Device
    const nRewind: nat
    const vchBuf: array<Byte>
    var nSrcPos: nat
    var nReadPos: nat
    var nReadLimit: nat
    var good: bool
    var calls: nat

    ghost function ToSetup(): Setup {
      Setup(file, device, vchBuf.Length, nRewind)
    }

    ghost function State(): FileState
      reads this
    {
      FileState(nSrcPos, nReadPos, nReadLimit, good, calls)
    }

    // The buffer holds what lies before the source position.
    ghost predicate Valid()
      reads this, vchBuf
    {
      InRange(ToSetup(), State()) && Holds(vchBuf[..], file, nSrcPos)
    }

    constructor (file: seq<Byte>, device: Device, nBufSize: nat, nRewind: nat)
      requires IsSetup(Setup(file, device, nBufSize, nRewind))
      ensures Valid() && ToSetup() == Setup(file, device, nBufSize, nRewind) && State() == Opened() && fresh(vchBuf)
    {
      this.file, this.device, this.nRewind := file, device, nRewind;
      nSrcPos, nReadPos, nReadLimit, good, calls := 0, 0, TWO_64 - 1, true, 0;
      vchBuf := new Byte[nBufSize](_ => 0);
    }

    // The C function fread: at least one byte unless the file ends or the device fails.
    method Fread(pos: nat, readNow: nat) returns (read: nat)
      requires Valid() && pos == Place(nSrcPos, vchBuf.Length) && pos + readNow <= vchBuf.Length
      modifies this`calls, vchBuf
      ensures read == Min(device(old(calls)), Min(readNow, |file| - nSrcPos)) && calls == old(calls) + 1
      ensures Holds(vchBuf[..], file, nSrcPos + read)
    {
      hide Holds;
      read := device(calls);
      if readNow < read {
        read := readNow;
      }
      if |file| - nSrcPos < read {
        read := |file| - nSrcPos;
      }
      ghost var before := vchBuf[..];
      forall i | 0 <= i < read {
        vchBuf[pos + i] := file[nSrcPos + i];
      }
      assert vchBuf[..] == before[..pos] + file[nSrcPos..nSrcPos + read] + before[pos + read..];
      HoldsMore(before, vchBuf[..], file, nSrcPos, read);
      calls := calls + 1;
    }

    // Fill; thrown stands for the exception. It is called with an exhausted buffer only, so that there is
    // always room to read into and the source's early return is never taken.
    method Fill() returns (thrown: bool)
      requires Valid() && nReadPos == nSrcPos
      modifies this`nSrcPos, this`good, this`calls, vchBuf
      ensures Valid() && (thrown, State()) == FileMachine.Fill(ToSetup(), old(State()))
    {
      hide Holds, Place;
      var pos := Place(nSrcPos, vchBuf.Length);
      var readNow := vchBuf.Length - pos;
      var nAvail := vchBuf.Length - (nSrcPos - nReadPos) - nRewind;
      if nAvail < readNow {
        readNow := nAvail;
      }
      var read := Fread(pos, readNow);
      if read == 0 {
        good := false;
        return true;
      }
      nSrcPos := nSrcPos + read;
      return false;
    }

    // The body of the loop in read, for nSize missing bytes.
    method Take(nSize: nat) returns (thrown: bool, part: seq<Byte>)
      requires Valid() && nSize > 0
      modifies this`nSrcPos, this`nReadPos, this`good, this`calls, vchBuf
      ensures Valid()
      ensures var (stopped, t) := Refill(ToSetup(), old(State()));
              && thrown == stopped
              && if stopped then State() == t && part == []
                 else && |part| == Chunk(ToSetup(), t, nSize) && State() == t.(readPos := t.readPos + |part|)
                      && part == file[old(nReadPos)..nReadPos]
    {
      hide Holds, Place, TWO_32, TWO_63, TWO_64;
      if nReadPos == nSrcPos {
        thrown := Fill();
        if thrown {
          return true, [];
        }
      }
      var pos := Place(nReadPos, vchBuf.Length);
      var nNow: nat := nSize;
      if nNow + pos > vchBuf.Length {
        nNow := vchBuf.Length - pos;
      }
      if nNow + nReadPos > nSrcPos {
        nNow := nSrcPos - nReadPos;
      }
      HeldStretch(vchBuf[..], file, nSrcPos, nReadPos, nNow);
      part := vchBuf[..][pos..pos + nNow];
      nReadPos := nReadPos + nNow;
      thrown := false;
    }

    // read. The caller has room for nSize bytes, so that no sum wraps around.
    method Read(nSize: nat) returns (ok: bool, pch: seq<Byte>)
      requires Valid() && nSize + nReadPos < TWO_64 && nSize + nRewind < TWO_64
      modifies this`nSrcPos, this`nReadPos, this`good, this`calls, vchBuf
      ensures Valid() && (Outcome(ok, pch), State()) == FileMachine.Read(ToSetup(), old(State()), nSize)
    {
      hide Holds, Place, ReadLoop, Refill, Chunk, TWO_32, TWO_63;
      pch := [];
      if nSize + nReadPos > nReadLimit || nSize + nRewind > vchBuf.Length {
        return false, pch;
      }
      var rest: nat := nSize;
      ghost var start, u, loop := nReadPos, ToSetup(), ReadLoop(ToSetup(), State(), nSize);
      while rest > 0
        invariant Valid() && start <= nReadPos && pch == file[start..nReadPos]
        invariant ReadLoop(u, State(), rest) == loop
      {
        ghost var s := State();
        LoopStep(u, s, rest);
        var thrown, part := Take(rest);
        if thrown {
          return false, pch;
        }
        StretchesMeet(file, start, s.readPos, nReadPos);
        pch := pch + part;
        rest := rest - |part|;
      }
      LoopEnds(u, State());
      ok := true;
    }

    // SetPos
    method SetPos(nPos: nat) returns (ok: bool)
      requires Valid() && nPos < TWO_64
      modifies this`nReadPos
      ensures (ok, State()) == FileMachine.SetPos(ToSetup(), old(State()), nPos)
      ensures Valid() <==> InRange(ToSetup(), State())
    {
      nReadPos := nPos;
      if (nReadPos + nRewind) % TWO_64 < nSrcPos {
        nReadPos := (nSrcPos - nRewind) % TWO_64;
        ok := false;
      } else if nReadPos > nSrcPos {
        nReadPos := nSrcPos;
        ok := false;
      } else {
        ok := true;
      }
    }

    // SetLimit
    method SetLimit(nPos: nat) returns (ok: bool)
      modifies this`nReadLimit
      ensures (ok, State()) == FileMachine.SetLimit(old(State()), nPos)
    {
      if nPos < nReadPos {
        return false;
      }
      nReadLimit := nPos;
      return true;
    }

    // FindByte
    method FindByte(ch: Byte) returns (ok: bool)
      requires Valid()
      modifies this`nSrcPos, this`nReadPos, this`good, this`calls, vchBuf
      ensures Valid() && (ok, State()) == FileMachine.FindByte(ToSetup(), old(State()), ch)
    {
      hide Holds, Place, FirstAt, FileMachine.FindByte;
      ghost var u, all := ToSetup(), FileMachine.FindByte(ToSetup(), State(), ch);
      while true
        invariant Valid() && FileMachine.FindByte(u, State(), ch) == all
        decreases |file| - nReadPos
      {
        FindStep(u, State(), ch);
        if nReadPos == nSrcPos {
          var thrown := Fill();
          if thrown {
            return false;
          }
        }
        HeldByte(vchBuf[..], file, nSrcPos, nReadPos);
        if vchBuf[Place(nReadPos, vchBuf.Length)] == ch {
          break;
        }
        nReadPos := nReadPos + 1;
      }
      ok := true;
    }
  }

  method CallOne(f: CBufferedFile, step: Step) returns (outcome: Outcome)
    requires f.Valid() && Allowed(f.ToSetup(), f.State(), step)
    modifies f, f.vchBuf
    ensures f.Valid() && (outcome, f.State()) == After(f.ToSetup(), old(f.State()), step)
  {
    hide Holds, FileMachine.Read, FileMachine.FindByte, FileMachine.SetPos, FileMachine.SetLimit;
    StaysInRange(f.ToSetup(), f.State(), step);
    var ok, bytes := false, [];
    match step {
      case ReadBytes(n) => ok, bytes := f.Read(n);
      case MoveTo(pos) => ok := f.SetPos(pos);
      case LimitTo(limit) => ok := f.SetLimit(limit);
      case Find(ch) => ok := f.FindByte(ch);
    }
    outcome := Outcome(ok, bytes);
  }

  // Any mix of calls, whether they fail or not: the outcomes are those of the run on the file.
  method Replay(f: CBufferedFile, steps: seq<Step>) returns (outcomes: seq<Outcome>)
    requires f.Valid() && AllAllowed(f.ToSetup(), f.State(), steps)
    modifies f, f.vchBuf
    ensures f.Valid() && (outcomes, f.State()) == Run(f.ToSetup(), old(f.State()), steps)
  {
    hide Holds, Run, After, AllAllowed;
    outcomes := [];
    assert steps[0..] == steps;
    ghost var u, all := f.ToSetup(), Run(f.ToSetup(), f.State(), steps);
    for i := 0 to |steps|
      invariant f.Valid() && AllAllowed(u, f.State(), steps[i..])
      invariant all.0 == outcomes + Run(u, f.State(), steps[i..]).0 && all.1 == Run(u, f.State(), steps[i..]).1
    {
      ghost var s := f.State();
      AllowedAt(u, s, steps, i);
      var outcome := CallOne(f, steps[i]);
      RunStep(u, s, steps, i, outcome, f.State());
      ghost var rest := Run(u, f.State(), steps[i + 1..]).0;
      assert outcomes + ([outcome] + rest) == (outcomes + [outcome]) + rest;
      outcomes := outcomes + [outcome];
    }
    RunEnds(u, f.State());
    assert steps[|steps|..] == [] && outcomes + [] == outcomes;
  }
}
