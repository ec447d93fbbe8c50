/** The bsdiff patch applier (crates/deltaship-diff/src/apply.rs). */
module Patch {
  import opened Bytes
  import opened Text

  const USIZE_LIMIT: nat := 0x1_0000_0000_0000_0000
  const I64_MAX: nat := 0x7FFF_FFFF_FFFF_FFFF
  const SIGN_BIT: nat := 0x8000_0000_0000_0000
  const CONTROL_SIZE: nat := 24
  const MAX_OUTPUT_SIZE: nat := 1024 * 1024 * 1024
  const ZSTD_MAGIC: seq<u8> := [0x28, 0xB5, 0x2F, 0xFD]

  datatype Outcome =
    | Patched(out: seq<u8>)
    | InvalidDiff
    | ApplicationFailure(inControl: bool)
    | SizeLimitExceeded(limit: nat)

  datatype Control = Control(mixLen: nat, copyLen: nat, seek: int)

  /** A slice never has more than `isize::MAX` bytes. */
  ghost predicate IsSlice(b: seq<u8>) { |b| <= I64_MAX }

  /* Decoding */

  /** Sign-magnitude: the top bit is the sign, the other 63 the magnitude. */
  function DecodeSeek(u: nat): (r: int)
    requires u < USIZE_LIMIT
    ensures -(I64_MAX as int) <= r <= I64_MAX
  {
    if u < SIGN_BIT then u else SIGN_BIT - u
  }

  function DecodeControl(b: seq<u8>): (c: Control)
    requires |b| >= CONTROL_SIZE
  {
    Control(U64At(b, 0), U64At(b, 8), DecodeSeek(U64At(b, 16)))
  }

  lemma DecodeLocal(control: seq<u8>, patch: seq<u8>)
    requires |control| == CONTROL_SIZE && control <= patch
    ensures DecodeControl(control) == DecodeControl(patch)
  {
    FromLELocal(control, 0, patch, 0, 8);
    FromLELocal(control, 8, patch, 8, 8);
    FromLELocal(control, 16, patch, 16, 8);
  }

  /** Bytewise wrapping addition of equally long slices. */
  function Mix(delta: seq<u8>, pad: seq<u8>): (r: seq<u8>)
    requires |delta| == |pad|
  {
    seq(|delta|, i requires 0 <= i < |delta| => WrappingAdd(delta[i], pad[i]))
  }

  /** One record: bytes to add to the base, literal bytes, and how far to move in the base. */
  datatype Record = Record(mix: seq<u8>, copy: seq<u8>, seek: int)

  /** A patch as records, up to where it ends or breaks off; a script is one that reaches its `End`. */
  datatype Script =
    | End
    | ShortControl
    | ShortData(size: nat)
    | Then(rec: Record, rest: Script)

  predicate Complete(s: Script) {
    s.End? || (s.Then? && Complete(s.rest))
  }

  function Cut(patch: seq<u8>): (s: Script)
    decreases |patch|, 1
  {
    if patch == [] then End
    else if |patch| < CONTROL_SIZE then ShortControl
    else CutAt(patch, DecodeControl(patch))
  }

  /** The record that control `c` announces at the head of the patch, and the records after it. */
  function CutAt(patch: seq<u8>, c: Control): (s: Script)
    requires |patch| >= CONTROL_SIZE
    decreases |patch|, 0
  {
    var mixEnd := CONTROL_SIZE + c.mixLen;
    var end := mixEnd + c.copyLen;
    if |patch| < end then ShortData(c.mixLen + c.copyLen)
    else Then(Record(patch[CONTROL_SIZE..mixEnd], patch[mixEnd..end], c.seek), Cut(patch[end..]))
  }

  /** The output of one record at a position of the base. */
  function Emit(rec: Record, base: seq<u8>, basepos: nat): (r: seq<u8>)
    requires basepos + |rec.mix| <= |base|
    ensures |r| == |rec.mix| + |rec.copy|
  {
    Mix(rec.mix, base[basepos..basepos + |rec.mix|]) + rec.copy
  }

  /** The patch loop on the unread part of the patch, with or without an output ceiling. */
  function Run(base: seq<u8>, s: Script, basepos: nat, out: seq<u8>, ceiling: Option<nat>): (r: Outcome) {
    if s.End? then Patched(out)
    else if s.ShortControl? then ApplicationFailure(true)
    else
      var produced := |out| + if s.Then? then |s.rec.mix| + |s.rec.copy| else s.size;
      if produced >= USIZE_LIMIT then InvalidDiff
      else if ceiling.Some? && produced > ceiling.value then SizeLimitExceeded(ceiling.value)
      else if s.ShortData? then ApplicationFailure(false)
      else if basepos + |s.rec.mix| > |base| then InvalidDiff
      else
        var next := basepos + |s.rec.mix| + s.rec.seek;
        if !(0 <= next <= I64_MAX) then InvalidDiff
        else Run(base, s.rest, next, out + Emit(s.rec, base, basepos), ceiling)
  }

  /** The ceiling-free loop: what the patch means when memory is no concern. */
  function Unbounded(base: seq<u8>, patch: seq<u8>): Outcome {
    Run(base, Cut(patch), 0, [], None)
  }

  function Bounded(base: seq<u8>, patch: seq<u8>, maxOutput: nat): Outcome {
    Run(base, Cut(patch), 0, [], Some(maxOutput))
  }

  /* The imperative code */

  datatype ControlRead = Full(data: seq<u8>) | Eof | UnexpectedEof

  /** Fills a buffer from a reader that may hand out any positive number of bytes at a time. */
  method ReadFullOrEof(source: seq<u8>, pos: nat, total: nat) returns (r: ControlRead, end: nat)
    requires pos <= |source| && total > 0
    ensures pos <= end <= |source|
    ensures r == (if pos == |source| then Eof
                  else if |source| - pos < total then UnexpectedEof
                  else Full(source[pos..pos + total]))
    ensures r.Full? ==> end == pos + total
  {
    var filled := 0;
    while filled < total
      invariant 0 <= filled <= total && pos + filled <= |source|
    {
      var available := |source| - (pos + filled);
      if available == 0 {
        return (if filled == 0 then Eof else UnexpectedEof), pos + filled;
      }
      var n: nat :| 1 <= n <= available && n <= total - filled;
      filled := filled + n;
    }
    return Full(source[pos..pos + filled]), pos + filled;
  }

  /** `bounded_patch`: `peak` is the most bytes the output buffer ever held. */
  method BoundedPatch(base: seq<u8>, patch: seq<u8>, maxOutput: nat) returns (r: Outcome, ghost peak: nat)
    requires IsSlice(base) && IsSlice(patch) && maxOutput < USIZE_LIMIT
    ensures r == Bounded(base, patch, maxOutput)
    ensures peak <= maxOutput
  {
    var out: seq<u8> := [];
    var pos: nat, basepos: nat := 0, 0;
    ghost var s, goal := Cut(patch), Bounded(base, patch, maxOutput);
    peak := 0;
    assert patch[0..] == patch;
    while true
      invariant pos <= |patch| && basepos <= I64_MAX && |out| <= maxOutput && peak <= maxOutput
      invariant s == Cut(patch[pos..])
      invariant Run(base, s, basepos, out, Some(maxOutput)) == goal
      decreases |patch| - pos
    {
      ghost var held;
      var stop;
      stop, out, pos, basepos, held := Turn(base, patch, pos, basepos, out, maxOutput, s);
      peak := if peak < held then held else peak;
      if stop.Some? {
        return stop.value, peak;
      }
      s := s.rest;
    }
  }

  /** One turn of the loop: an outcome ends it, `None` goes on. */
  method Turn(base: seq<u8>, patch: seq<u8>, pos: nat, basepos: nat, out: seq<u8>, maxOutput: nat, ghost s: Script)
    returns (stop: Option<Outcome>, out': seq<u8>, pos': nat, basepos': nat, ghost held: nat)
    requires IsSlice(base) && pos <= |patch| && |out| <= maxOutput < USIZE_LIMIT
    requires s == Cut(patch[pos..])
    ensures stop.Some? ==> stop.value == Run(base, s, basepos, out, Some(maxOutput))
    ensures stop.None? ==> && pos + CONTROL_SIZE <= pos' <= |patch| && basepos' <= I64_MAX && |out'| <= maxOutput
                           && s.Then? && s.rest == Cut(patch[pos'..])
                           && Run(base, s, basepos, out, Some(maxOutput))
                              == Run(base, s.rest, basepos', out', Some(maxOutput))
    ensures held <= maxOutput
  {
    out', basepos', held := out, basepos, |out|;
    var read, start := ReadFullOrEof(patch, pos, CONTROL_SIZE);
    pos' := start;
    if read.Eof? {
      return Some(Patched(out)), out', pos', basepos', held;
    }
    if read.UnexpectedEof? {
      return Some(ApplicationFailure(true)), out', pos', basepos', held;
    }
    var c := DecodeControl(read.data);
    CutStep(patch, pos, read.data);
    stop, out', basepos', held := ApplyRecord(base, patch, start, c, basepos, out, maxOutput, s);
    if stop.None? {
      pos' := start + c.mixLen + c.copyLen;
    }
  }

  /** `s` starts with the record that control `c` announces and `body` supplies. */
  ghost predicate Heads(s: Script, c: Control, body: seq<u8>) {
    var size := c.mixLen + c.copyLen;
    if |body| < size then s == ShortData(size)
    else s.Then? && |s.rec.mix| == c.mixLen && s.rec.seek == c.seek && s.rec.mix + s.rec.copy == body[..size]
  }

  /** The rest of a turn, once its control record is read. */
  method ApplyRecord(base: seq<u8>, patch: seq<u8>, start: nat, c: Control, basepos: nat, out: seq<u8>,
                     maxOutput: nat, ghost s: Script)
    returns (stop: Option<Outcome>, out': seq<u8>, basepos': nat, ghost held: nat)
    requires IsSlice(base) && start <= |patch| && |out| <= maxOutput < USIZE_LIMIT
    requires Heads(s, c, patch[start..])
    ensures stop.Some? ==> stop.value == Run(base, s, basepos, out, Some(maxOutput))
    ensures stop.None? ==> && s.Then? && start + c.mixLen + c.copyLen <= |patch|
                           && |out'| <= maxOutput && basepos' <= I64_MAX
                           && Run(base, s, basepos, out, Some(maxOutput))
                              == Run(base, s.rest, basepos', out', Some(maxOutput))
    ensures held <= maxOutput
  {
    stop, out', basepos', held := None, out, basepos, |out|;
    var toRead := c.copyLen + c.mixLen;
    if toRead >= USIZE_LIMIT {
      return Some(InvalidDiff), out', basepos', held;
    }
    var projected := |out| + toRead;
    if projected >= USIZE_LIMIT {
      return Some(InvalidDiff), out', basepos', held;
    }
    if projected > maxOutput {
      return Some(SizeLimitExceeded(maxOutput)), out', basepos', held;
    }
    var mixStart := |out|;
    var hasRead := if |patch| - start < toRead then |patch| - start else toRead;
    out' := out + patch[start..start + hasRead];
    held := |out'|;
    if hasRead != toRead {
      return Some(ApplicationFailure(false)), out', basepos', held;
    }
    if basepos + c.mixLen > |base| {
      return Some(InvalidDiff), out', basepos', held;
    }
    assert out'[mixStart..] == patch[start..][..toRead] && out'[..mixStart] == out;
    out' := AddBase(out', mixStart, base, basepos, c.mixLen, s.rec);
    var moved := basepos + c.mixLen;
    assert moved <= I64_MAX;
    var next := moved + c.seek;
    if next > I64_MAX || next < 0 {
      return Some(InvalidDiff), out', basepos', held;
    }
    basepos' := next;
  }

  lemma RecordHeads(tail: seq<u8>, c: Control, rest: Script)
    requires |tail| >= CONTROL_SIZE + c.mixLen + c.copyLen
    ensures var mixEnd := CONTROL_SIZE + c.mixLen;
            Heads(Then(Record(tail[CONTROL_SIZE..mixEnd], tail[mixEnd..mixEnd + c.copyLen], c.seek), rest), c,
                  tail[CONTROL_SIZE..])
  {
    var mixEnd := CONTROL_SIZE + c.mixLen;
    assert tail[CONTROL_SIZE..mixEnd] + tail[mixEnd..mixEnd + c.copyLen]
        == tail[CONTROL_SIZE..][..c.mixLen + c.copyLen];
  }

  lemma CutHead(tail: seq<u8>)
    requires |tail| >= CONTROL_SIZE
    ensures Heads(Cut(tail), DecodeControl(tail), tail[CONTROL_SIZE..])
    ensures Cut(tail).Then? ==> var c := DecodeControl(tail);
                                Cut(tail).rest == Cut(tail[CONTROL_SIZE + c.mixLen + c.copyLen..])
  {
    var c := DecodeControl(tail);
    var end := CONTROL_SIZE + c.mixLen + c.copyLen;
    assert Cut(tail) == CutAt(tail, c);
    if |tail| >= end {
      RecordHeads(tail, c, Cut(tail[end..]));
    }
  }

  lemma CutStep(patch: seq<u8>, pos: nat, control: seq<u8>)
    requires pos + CONTROL_SIZE <= |patch| && control == patch[pos..pos + CONTROL_SIZE]
    ensures Heads(Cut(patch[pos..]), DecodeControl(control), patch[pos + CONTROL_SIZE..])
    ensures Cut(patch[pos..]).Then? ==>
              var c := DecodeControl(control);
              Cut(patch[pos..]).rest == Cut(patch[pos + CONTROL_SIZE + c.mixLen + c.copyLen..])
  {
    var tail := patch[pos..];
    DecodeLocal(control, tail);
    CutHead(tail);
    assert tail[CONTROL_SIZE..] == patch[pos + CONTROL_SIZE..];
    if Cut(tail).Then? {
      var end := CONTROL_SIZE + DecodeControl(control).mixLen + DecodeControl(control).copyLen;
      assert tail[end..] == patch[pos + end..];
    }
  }

  /** The mixing loop: the record's data is already at the end of the buffer; adds the base to its mix part. */
  method AddBase(buffer: seq<u8>, at: nat, base: seq<u8>, basepos: nat, len: nat, ghost rec: Record)
    returns (r: seq<u8>)
    requires at + len + |rec.copy| == |buffer| && len == |rec.mix| && basepos + len <= |base|
    requires buffer[at..] == rec.mix + rec.copy
    ensures r == buffer[..at] + Emit(rec, base, basepos)
  {
    r := buffer;
    var i := 0;
    while i < len
      invariant i <= len && |r| == |buffer|
      invariant forall j | 0 <= j < |r| ::
                  r[j] == if at <= j < at + i then WrappingAdd(buffer[j], base[basepos + j - at]) else buffer[j]
    {
      r := r[at + i := WrappingAdd(r[at + i], base[basepos + i])];
      i := i + 1;
    }
    assert forall j | at <= j < |buffer| :: buffer[j] == buffer[at..][j - at];
  }

  /* The ceiling */

  lemma {:induction false} OutputGrows(base: seq<u8>, s: Script, basepos: nat, out: seq<u8>, ceiling: Option<nat>)
    requires Run(base, s, basepos, out, ceiling).Patched?
    ensures |out| <= |Run(base, s, basepos, out, ceiling).out|
  {
    if s.Then? {
      OutputGrows(base, s.rest, basepos + |s.rec.mix| + s.rec.seek, out + Emit(s.rec, base, basepos), ceiling);
    }
  }

  lemma {:induction false} CeilingFrom(base: seq<u8>, s: Script, basepos: nat, out: seq<u8>, maxOutput: nat)
    requires |out| <= maxOutput
    ensures var free, capped := Run(base, s, basepos, out, None), Run(base, s, basepos, out, Some(maxOutput));
            && (capped == free || capped == SizeLimitExceeded(maxOutput))
            && (free.Patched? ==> (capped == free <==> |free.out| <= maxOutput))
    decreases s
  {
    if s.Then? && basepos + |s.rec.mix| <= |base| && 0 <= basepos + |s.rec.mix| + s.rec.seek <= I64_MAX {
      var next, out' := basepos + |s.rec.mix| + s.rec.seek, out + Emit(s.rec, base, basepos);
      if |out'| <= maxOutput {
        CeilingFrom(base, s.rest, next, out', maxOutput);
      } else if Run(base, s, basepos, out, None).Patched? {
        OutputGrows(base, s.rest, next, out', None);
      }
    }
  }

  /** The ceiling only ever turns an outcome into `SizeLimitExceeded`, and on success exactly when it must. */
  lemma CeilingIsExact(base: seq<u8>, patch: seq<u8>, maxOutput: nat)
    ensures Bounded(base, patch, maxOutput) == Unbounded(base, patch)
            || Bounded(base, patch, maxOutput) == SizeLimitExceeded(maxOutput)
    ensures Unbounded(base, patch).Patched?
            ==> (Bounded(base, patch, maxOutput).Patched? <==> |Unbounded(base, patch).out| <= maxOutput)
  {
    CeilingFrom(base, Cut(patch), 0, [], maxOutput);
  }

  /* What a patch means: a script replayed against the base, with no buffer, budget or byte positions */

  function Replay(base: seq<u8>, basepos: int, s: Script): (r: Option<seq<u8>>)
    decreases s
  {
    if !(0 <= basepos <= I64_MAX) then None
    else
      match s
      case End => Some([])
      case Then(rec, rest) =>
        var end := basepos + |rec.mix|;
        if end > |base| then None
        else
          var tail := Replay(base, end + rec.seek, rest);
          if tail.None? then None else Some(Emit(rec, base, basepos) + tail.value)
      case _ => None
  }

  function DataLength(s: Script): nat {
    if s.Then? then |s.rec.mix| + |s.rec.copy| + DataLength(s.rest) else 0
  }

  lemma {:induction false} DataLengthBound(patch: seq<u8>)
    ensures DataLength(Cut(patch)) <= |patch|
    decreases |patch|
  {
    if Cut(patch).Then? {
      var c := DecodeControl(patch);
      DataLengthBound(patch[CONTROL_SIZE + c.mixLen + c.copyLen..]);
    }
  }

  lemma {:induction false} RunIsReplay(base: seq<u8>, s: Script, basepos: nat, out: seq<u8>)
    requires basepos <= I64_MAX && |out| + DataLength(s) < USIZE_LIMIT
    ensures var replayed, r := Replay(base, basepos, s), Run(base, s, basepos, out, None);
            if replayed.Some? then r == Patched(out + replayed.value) else !r.Patched?
    decreases s
  {
    if s.End? {
      assert out + [] == out;
    } else if s.Then? {
      var next := basepos + |s.rec.mix| + s.rec.seek;
      if basepos + |s.rec.mix| <= |base| && 0 <= next <= I64_MAX {
        var emitted := Emit(s.rec, base, basepos);
        RunIsReplay(base, s.rest, next, out + emitted);
        var tail := Replay(base, next, s.rest);
        assert tail.Some? ==> out + emitted + tail.value == out + (emitted + tail.value);
      }
    }
  }

  lemma {:induction false} ReplayIsComplete(base: seq<u8>, basepos: int, s: Script)
    requires Replay(base, basepos, s).Some?
    ensures Complete(s)
    decreases s
  {
    if s.Then? {
      ReplayIsComplete(base, basepos + |s.rec.mix| + s.rec.seek, s.rest);
    }
  }

  lemma ScriptMeaning(base: seq<u8>, s: Script, maxOutput: nat, out: seq<u8>)
    requires DataLength(s) < USIZE_LIMIT
    ensures Run(base, s, 0, [], Some(maxOutput)) == Patched(out) <==>
            Complete(s) && Replay(base, 0, s) == Some(out) && |out| <= maxOutput
  {
    RunIsReplay(base, s, 0, []);
    CeilingFrom(base, s, 0, [], maxOutput);
    var replayed := Replay(base, 0, s);
    if replayed.Some? {
      assert [] + replayed.value == replayed.value;
      ReplayIsComplete(base, 0, s);
    }
  }

  /** The byte loop succeeds exactly when the patch is a whole script that replays inside `base` and fits. */
  lemma PatchMeaning(base: seq<u8>, patch: seq<u8>, maxOutput: nat, out: seq<u8>)
    requires IsSlice(patch)
    ensures Bounded(base, patch, maxOutput) == Patched(out) <==>
            Complete(Cut(patch)) && Replay(base, 0, Cut(patch)) == Some(out) && |out| <= maxOutput
  {
    DataLengthBound(patch);
    ScriptMeaning(base, Cut(patch), maxOutput, out);
  }

  /* Encoding: part of the specification, the inverse of the decoder */

  function SignMagnitude(seek: int): (u: nat)
    requires -(I64_MAX as int) <= seek <= I64_MAX
    ensures u < USIZE_LIMIT
  {
    if seek >= 0 then seek else SIGN_BIT - seek
  }

  predicate EncodableRecord(rec: Record) {
    |rec.mix| < USIZE_LIMIT && |rec.copy| < USIZE_LIMIT && -(I64_MAX as int) <= rec.seek <= I64_MAX
  }

  predicate Encodable(s: Script) {
    s.End? || (s.Then? && EncodableRecord(s.rec) && Encodable(s.rest))
  }

  function Header(rec: Record): (b: seq<u8>)
    requires EncodableRecord(rec)
    ensures |b| == CONTROL_SIZE
  {
    ToLE(|rec.mix|, 8) + ToLE(|rec.copy|, 8) + ToLE(SignMagnitude(rec.seek), 8)
  }

  function Encode(s: Script): (b: seq<u8>)
    requires Encodable(s)
  {
    if s.End? then [] else Header(s.rec) + (s.rec.mix + s.rec.copy) + Encode(s.rest)
  }

  lemma SeekRoundTrip(seek: int)
    requires -(I64_MAX as int) <= seek <= I64_MAX
    ensures DecodeSeek(SignMagnitude(seek)) == seek
  {
  }

  lemma HeaderRoundTrip(rec: Record)
    requires EncodableRecord(rec)
    ensures DecodeControl(Header(rec)) == Control(|rec.mix|, |rec.copy|, rec.seek)
  {
    var mixField, copyField, seekField := ToLE(|rec.mix|, 8), ToLE(|rec.copy|, 8), ToLE(SignMagnitude(rec.seek), 8);
    var header := Header(rec);
    assert header == [] + mixField + (copyField + seekField);
    U64RoundTrip([], |rec.mix|, copyField + seekField);
    assert header == mixField + copyField + seekField;
    U64RoundTrip(mixField, |rec.copy|, seekField);
    assert header == (mixField + copyField) + seekField + [];
    U64RoundTrip(mixField + copyField, SignMagnitude(rec.seek), []);
    SeekRoundTrip(rec.seek);
  }

  lemma CutFirst(header: seq<u8>, rec: Record, rest: seq<u8>)
    requires |header| == CONTROL_SIZE
    requires DecodeControl(header) == Control(|rec.mix|, |rec.copy|, rec.seek)
    ensures Cut(header + (rec.mix + rec.copy) + rest) == Then(rec, Cut(rest))
  {
    var patch := header + (rec.mix + rec.copy) + rest;
    DecodeLocal(header, patch);
    var mixEnd := CONTROL_SIZE + |rec.mix|;
    var end := mixEnd + |rec.copy|;
    assert patch[CONTROL_SIZE..mixEnd] == rec.mix;
    assert patch[mixEnd..end] == rec.copy;
    assert patch[end..] == rest;
  }

  /** Cutting an encoded script gives it back, record for record. */
  lemma {:induction false} CutEncode(s: Script)
    requires Encodable(s)
    ensures Cut(Encode(s)) == s
    decreases s
  {
    if s.Then? {
      HeaderRoundTrip(s.rec);
      CutFirst(Header(s.rec), s.rec, Encode(s.rest));
      CutEncode(s.rest);
    }
  }

  /* Diffs between two files */

  datatype Segment = Segment(mixLen: nat, copyLen: nat, seek: int)

  /** `segs` cuts `target` into mix and copy runs and never leaves `base`. */
  ghost predicate Segments(base: seq<u8>, basepos: int, target: seq<u8>, segs: seq<Segment>)
    decreases |segs|
  {
    && 0 <= basepos <= I64_MAX
    && if segs == [] then target == []
       else
         var g := segs[0];
         && g.mixLen + g.copyLen <= |target|
         && basepos + g.mixLen <= |base|
         && -(I64_MAX as int) <= g.seek <= I64_MAX
         && Segments(base, basepos + g.mixLen + g.seek, target[g.mixLen + g.copyLen..], segs[1..])
  }

  /** Bytewise difference, the inverse of `Mix`. */
  function Delta(target: seq<u8>, pad: seq<u8>): (r: seq<u8>)
    requires |target| == |pad|
  {
    seq(|target|, i requires 0 <= i < |target| => WrappingSub(target[i], pad[i]))
  }

  ghost function DiffScript(base: seq<u8>, basepos: int, target: seq<u8>, segs: seq<Segment>): (s: Script)
    requires Segments(base, basepos, target, segs) && IsSlice(target)
    ensures Encodable(s)
    decreases |segs|
  {
    if segs == [] then End
    else
      var g := segs[0];
      var rec := Record(Delta(target[..g.mixLen], base[basepos..basepos + g.mixLen]),
                        target[g.mixLen..g.mixLen + g.copyLen], g.seek);
      Then(rec, DiffScript(base, basepos + g.mixLen + g.seek, target[g.mixLen + g.copyLen..], segs[1..]))
  }

  lemma MixDelta(target: seq<u8>, pad: seq<u8>)
    requires |target| == |pad|
    ensures Mix(Delta(target, pad), pad) == target
  {
    forall i | 0 <= i < |target| ensures Mix(Delta(target, pad), pad)[i] == target[i] {
      AddSub(target[i], pad[i]);
    }
  }

  lemma EmitDelta(base: seq<u8>, basepos: nat, target: seq<u8>, g: Segment)
    requires g.mixLen + g.copyLen <= |target| && basepos + g.mixLen <= |base|
    ensures Emit(Record(Delta(target[..g.mixLen], base[basepos..basepos + g.mixLen]),
                        target[g.mixLen..g.mixLen + g.copyLen], g.seek), base, basepos)
            == target[..g.mixLen + g.copyLen]
  {
    MixDelta(target[..g.mixLen], base[basepos..basepos + g.mixLen]);
  }

  lemma {:induction false} ReplayDiff(base: seq<u8>, basepos: int, target: seq<u8>, segs: seq<Segment>)
    requires Segments(base, basepos, target, segs) && IsSlice(target)
    ensures Replay(base, basepos, DiffScript(base, basepos, target, segs)) == Some(target)
    decreases |segs|
  {
    if segs != [] {
      var g := segs[0];
      var cut := g.mixLen + g.copyLen;
      ReplayDiff(base, basepos + g.mixLen + g.seek, target[cut..], segs[1..]);
      EmitDelta(base, basepos, target, g);
      assert target[..cut] + target[cut..] == target;
    }
  }

  /** For every pair of files and every segmentation, applying the encoded diff yields the new file. */
  lemma DiffRoundTrip(base: seq<u8>, target: seq<u8>, segs: seq<Segment>, maxOutput: nat)
    requires Segments(base, 0, target, segs) && IsSlice(target)
    requires IsSlice(Encode(DiffScript(base, 0, target, segs)))
    ensures Bounded(base, Encode(DiffScript(base, 0, target, segs)), maxOutput)
            == if |target| <= maxOutput then Patched(target) else SizeLimitExceeded(maxOutput)
  {
    var s := DiffScript(base, 0, target, segs);
    var patch := Encode(s);
    ReplayDiff(base, 0, target, segs);
    CutEncode(s);
    DataLengthBound(patch);
    RunIsReplay(base, s, 0, []);
    assert [] + target == target;
    CeilingIsExact(base, patch, maxOutput);
  }

  /** No raw patch that applies under the default ceiling starts with the zstd magic number. */
  lemma NoRawPatchLooksCompressed(base: seq<u8>, patch: seq<u8>)
    requires ZSTD_MAGIC <= patch
    ensures !Bounded(base, patch, MAX_OUTPUT_SIZE).Patched?
  {
    if |patch| >= CONTROL_SIZE {
      assert patch[0] == ZSTD_MAGIC[0] && patch[1] == ZSTD_MAGIC[1];
      assert patch[2] == ZSTD_MAGIC[2] && patch[3] == ZSTD_MAGIC[3];
      assert FromLE(patch, 2, 6) == 0x2F + 256 * FromLE(patch, 3, 5);
      assert FromLE(patch, 0, 8) == 0x28 + 256 * FromLE(patch, 1, 7);
      assert U64At(patch, 0) > MAX_OUTPUT_SIZE;
      var c := DecodeControl(patch);
      assert Cut(patch) == CutAt(patch, c) && c.mixLen > MAX_OUTPUT_SIZE;
    }
  }

  /* Which failure is reported */

  /** What a first record that cannot be applied comes to, in the order of the checks: a short control record, lengths
      that do not add up in 64 bits, too much output, missing data, a mix part outside the base, a seek outside 63
      bits. */
  lemma FirstFailureIs(base: seq<u8>, patch: seq<u8>, maxOutput: nat)
    ensures patch == [] ==> Bounded(base, patch, maxOutput) == Patched([])
    ensures 0 < |patch| < 24 ==> Bounded(base, patch, maxOutput) == ApplicationFailure(true)
    ensures |patch| >= 24 ==>
              var mix, copy, seek := U64At(patch, 0), U64At(patch, 8), DecodeSeek(U64At(patch, 16));
              var r := Bounded(base, patch, maxOutput);
              && (mix + copy >= 0x1_0000_0000_0000_0000 ==> r == InvalidDiff)
              && (maxOutput < mix + copy < 0x1_0000_0000_0000_0000 ==> r == SizeLimitExceeded(maxOutput))
              && (mix + copy <= maxOutput && mix + copy < 0x1_0000_0000_0000_0000 ==>
                    && (|patch| - 24 < mix + copy ==> r == ApplicationFailure(false))
                    && (mix + copy <= |patch| - 24 && (mix > |base| || !(0 <= mix + seek <= 0x7FFF_FFFF_FFFF_FFFF)) ==>
                          r == InvalidDiff))
  {
    if |patch| >= 24 {
      var c := DecodeControl(patch);
      assert Cut(patch) == CutAt(patch, c);
      CutAtIs(patch, c);
      FirstRun(base, CutAt(patch, c), maxOutput);
    }
  }

  lemma CutAtIs(patch: seq<u8>, c: Control)
    requires |patch| >= CONTROL_SIZE
    ensures var s := CutAt(patch, c);
            if |patch| - CONTROL_SIZE < c.mixLen + c.copyLen then s == ShortData(c.mixLen + c.copyLen)
            else s.Then? && |s.rec.mix| == c.mixLen && |s.rec.copy| == c.copyLen && s.rec.seek == c.seek
  {
  }

  lemma FirstRun(base: seq<u8>, s: Script, maxOutput: nat)
    requires s.Then? || s.ShortData?
    ensures var size := if s.Then? then |s.rec.mix| + |s.rec.copy| else s.size;
            var r := Run(base, s, 0, [], Some(maxOutput));
            && (size >= USIZE_LIMIT ==> r == InvalidDiff)
            && (maxOutput < size < USIZE_LIMIT ==> r == SizeLimitExceeded(maxOutput))
            && (size <= maxOutput && size < USIZE_LIMIT ==>
                  && (s.ShortData? ==> r == ApplicationFailure(false))
                  && (s.Then? && (|s.rec.mix| > |base| || !(0 <= |s.rec.mix| + s.rec.seek <= I64_MAX)) ==>
                        r == InvalidDiff))
  {
  }

  /** A byte of the mix part is added to the base modulo 256. */
  lemma MixIs(delta: seq<u8>, pad: seq<u8>, i: nat)
    requires |delta| == |pad| && i < |delta|
    ensures |Mix(delta, pad)| == |delta| && Mix(delta, pad)[i] == (delta[i] as int + pad[i] as int) % 256
  {
  }

  /** The top bit of a seek is its sign. */
  lemma SeekIs(u: nat)
    requires u < 0x1_0000_0000_0000_0000
    ensures DecodeSeek(u)
            == if u < 0x8000_0000_0000_0000 then u as int else 0x8000_0000_0000_0000 - u
  {
  }
}
